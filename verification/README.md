# A verified model of the programmable Redfish proxy

The proxy answers every request for a Redfish BMC with a script, and gives those scripts a small set
of hand-written engines: a JSON Patch and merge-patch engine over two path languages, a link rewriter,
a bounded store shared between requests, a route resolver, the assembly of requests to the BMC and the
resolution of the system and manager a request is about. This project models those engines and proves
what they promise, for every document, text, run and configuration.

Documents are `serde_json` values: an object is a map (key order is not observable in anything below)
and a number is an opaque token with equality. Text is a sequence of Unicode scalar values; lengths the
source counts in bytes are counted in UTF-8 bytes. `usize` is 64 bits wide.

| file | models |
|---|---|
| `Text.dfy`, `Json.dfy`, `Wrappers.dfy` | the string primitives the source takes from its standard library, documents, node counts |
| `Pointer.dfy` | `pointer_tokens` and `array_index` |
| `Tree.dfy` | one step, one read and one write in a document, for both path languages (`resolve`, `resolve_mut`, `walk`) |
| `Patch.dfy`, `PatchLaws.dfy`, `PatchRuns.dfy`, `PatchEngine.dfy` | JSON Patch: the operations on values, their laws, whole patches, and the in-place engine proved against them |
| `MergePatch.dfy` | `merge_json` |
| `DeepPath.dfy` | `util::at` and `util::set` |
| `Links.dfy`, `LinkText.dfy`, `LinkBases.dfy`, `LinkRewrite.dfy` | `swap_authorities`, its links told from the characters of a text, which bases it is repeatable for, and what is built on it: texts, bodies, headers |
| `Store.dfy`, `Encoding.dfy`, `Lockdown.dfy` | the store, the encoding whose length it limits, and the scripts that keep state in it |
| `Routes.dfy` | `Router` and the choice `proxy::handle` makes |
| `Outbound.dfy` | `BmcRequest` and `dispatch` |
| `Systems.dfy`, `SystemDocuments.dfy` | `resolve_ids`, and its answer in terms of the documents a BMC serves |
| `LogClip.dfy` | `truncate_body` |

Where the code and a document disagree the model follows the code:

- `pointer_tokens` accepts a stray tilde, which the grammar in section 3 of RFC 6901 forbids.
  `PrintRead` says exactly which pointers the grammar and the reader agree on; `StrayTilde` is one
  they do not.
- `util::set` refuses an out-of-range parent index but turns an array into an object on an
  out-of-range last index (`LastIndexReplacesArray`), and its two `not reachable` errors cannot occur
  (`SetFailsExactly`).
- A failed `move` loses the value it moved (`HalfPatched`); `FailedOpChangesExactly` says that this is
  the only way a failed operation changes anything, and which moves those are, in terms of the
  document before the call. Atomicity comes from the working copy alone.
- A pointer names a place in one way (`LocateInjective`). A slash path does not: a slot can be spelled
  with a plus sign and leading zeros (`ParseUsizeExactly`), and `LenientLocate` says exactly when two
  slash paths name one place (`LenientAliases` is the smallest case).
- The configuration asks for a base that names a scheme, host and port only, but checks only the path.
  So a query or fragment gets through, and the replacement is then the base and a tail.
  `IdempotentExactly` says for which bases, tails and predicates the rewriter is repeatable: where the
  base's own authority is accepted, as in `Location`, only without a tail; where it is not, as in
  bodies, only if the tail holds no accepted link and does not end in a scheme and `:` or `:/`.
  `OpenTailRepeats` is an input that breaks it. A URL without an authority, such as `file:///`, gets
  through too, and trimming leaves `file:`, which is no base at all (`TrimmedUrlIsBase`). Every other
  law of the rewriter is for the base the configuration asks for (`ValidBase`).

The preconditions `Addressable` say that a `Vec` holds no more elements than a `usize` counts.

## Model

| member | source | states |
|---|---|---|
| Pointer.UnescapeIsDecode | src/script_util.rs:353-357 | the two global replaces equal one left-to-right lenient reading of the escapes, on every string |
| Pointer.SwappedOrderExact | src/script_util.rs:353-357 | replacing in the other order agrees exactly on tokens without `~01` |
| Pointer.ReadPrinted | src/script_util.rs:343-358 | reading a printed pointer gives back its tokens, the empty list and empty tokens included |
| Pointer.PointerPieces | src/script_util.rs:343-358 | a slash and slash-free pieces with slashes between are read as those pieces, each decoded; a text that starts otherwise and is not empty is no pointer |
| Pointer.EscapesDecoded | src/script_util.rs:353-357 | `~1` stands for a slash, `~0` for a tilde, and what is around them for itself |
| Pointer.PrintRead | src/script_util.rs:343-358 | an accepted pointer prints back to itself exactly when the RFC grammar allows it |
| Pointer.StrayTilde | src/script_util.rs:353-357 | `/~2`, which the grammar forbids, is read as the token `~2` and prints as `/~02` |
| Pointer.ArrayIndexIsCanonical | src/script_util.rs:362-376 | a token other than `-` is index n exactly when it is the one decimal spelling of n and n fits |
| Tree.PutThrough | src/script_util.rs:394-410 | below a place just written through a reference, reads see the written value |
| Tree.PutPut | src/script_util.rs:394-410 | the later of two writes through references to one place wins |
| Tree.PutFrame | src/script_util.rs:394-410 | a write leaves every pointer that diverges from it unchanged |
| Tree.LocatePrefix | src/script_util.rs:380-392 | a pointer is a prefix of another exactly when the place it names contains the other's |
| Tree.LocateInjective | src/script_util.rs:380-392 | two pointers that resolve in one document name one place exactly when they are equal |
| Tree.LenientLocate | src/script_util.rs:213-221 | two slash paths name one place in a document exactly when they agree token by token up to the spelling of array slots |
| Tree.LenientSpellings | src/script_util.rs:213-221 | every spelling of a slot reads it as a slash path, and a pointer reads only the plain one |
| Tree.StrictWithinLenient | src/script_util.rs:213-221 | wherever a pointer leads, the same tokens as a slash path lead to the same value |
| Text.ParseUsizeExactly | src/script_util.rs:213-221 | a slash path token is index n exactly when it is an optional plus sign, some zeros and the decimal spelling of an n that fits |
| PatchLaws.AddFrame | src/script_util.rs:414-441 | after an add, any pointer not at or above the container nor to an overwritten member reads what it read, its token at the touched array moved by exactly one from the touched slot on |
| PatchLaws.AddExactly | src/script_util.rs:414-441 | add succeeds at the root, under any object key, at `-`, or at the one decimal spelling of a slot up to the end, and nowhere else |
| PatchLaws.AddReads | src/script_util.rs:414-441 | the added value is read back where it landed, `-` naming the old length and the root being the whole document |
| PatchLaws.RemoveFrame | src/script_util.rs:445-469 | after a removal, any pointer not above, at or below it reads what it read, moved back by one after the touched slot |
| PatchLaws.ReplaceFrame | src/script_util.rs:528-533 | a replace moves nothing: diverging pointers read the same |
| PatchLaws.ReplaceReads | src/script_util.rs:528-533 | a replace succeeds exactly where a value is, the root included, and is read back there |
| PatchLaws.RemoveMeansResolve | src/script_util.rs:445-469 | remove succeeds exactly where something is, and hands that value back |
| PatchLaws.RemoveThenAdd | src/script_util.rs:445-469 | putting a removed value back at its pointer restores the document |
| PatchLaws.AddThenRemove | src/script_util.rs:414-469 | removing at the same pointer undoes an add exactly when the add overwrote no key and did not spell its slot `-` |
| PatchLaws.ReplaceIsRemoveThenAdd | src/script_util.rs:528-533 | away from the root, replace is remove then add, failures included (section 4.3 of RFC 6902) |
| PatchLaws.MoveToSelf | src/script_util.rs:481-488 | moving a place to itself never changes the document, and succeeds exactly on an existing non-root value |
| PatchLaws.MoveRefusal | src/script_util.rs:482-485 | the textual prefix test refuses exactly the targets whose container lies at or inside the source |
| PatchLaws.MoveCarries | src/script_util.rs:481-488 | a completed move leaves the source's value at the target |
| PatchLaws.CopyCarries | src/script_util.rs:538-549 | a completed copy leaves the source's value at the target |
| PatchLaws.PutCommute | src/script_util.rs:394-410 | writes at pointers that diverge commute |
| PatchLaws.AddsCommute | src/script_util.rs:414-441 | adds into containers that diverge commute |
| PatchRuns.ApplyFromAppend | src/script_util.rs:575-577 | applying two lists in turn is applying their concatenation, failures and half-patched documents included |
| PatchRuns.PatchSucceedsIffRun | src/script_util.rs:565-594 | a patch yields a document exactly when it is within the cap and a run of all its operations leads there |
| PatchRuns.FailureNamesFirst | src/script_util.rs:575-577 | the index a failure reports is the least failing operation, with everything before it applied |
| PatchRuns.PatchConcatenates | src/script_util.rs:565-594 | within the cap a concatenated patch is its halves in turn, a later failure counted on |
| PatchRuns.TestGuards | src/script_util.rs:550-560 | a leading `test` guards a patch: it succeeds exactly when the place holds the value and the rest succeeds |
| PatchRuns.OperationRoundTrip | src/script_util.rs:491-527 | every operation can be written as JSON and is read back as itself |
| PatchRuns.ReadOperationExactly | src/script_util.rs:491-527 | a value is read as an operation exactly when it spells it: its name, its pointers and its value |
| PatchRuns.OneOperation | src/script_util.rs:565-594 | a patch of one operation yields what the operation does, or its error at index 0 |
| PatchRuns.RootIsReplaced | src/script_util.rs:419-421 | an add or a replace at the root yields exactly the given value, whatever the target was |
| PatchRuns.FailedOpChangesExactly | src/script_util.rs:481-488 | a failed operation changes the document exactly when it is a move of an existing non-root value to a place not inside it that has no room for it, all told from the document before |
| PatchRuns.RoomIsExact | src/script_util.rs:481-488 | once the source is out, the add succeeds exactly when the container, found through the shifted token, is an object, or an array whose shortened length admits the last token |
| PatchRuns.HalfPatched | src/script_util.rs:565-594 | a concrete patch that fails in place with its value lost, while the working copy returns only the error |
| PatchRuns.RunFrame | src/script_util.rs:565-579 | a pointer that diverges from every container a patch edits reads the same after it, however it ends |
| PatchRuns.RunFollows | src/script_util.rs:565-579 | a value no operation removes, overwrites or edits inside reads the same where the run leaves it: a sibling in an edited object, a slot shifted by an edited array, or carried by every move of what holds it |
| PatchRuns.NodesPut | src/script_util.rs:473-479 | a write changes the node count by the difference of the values |
| PatchRuns.AddGrowth | src/script_util.rs:414-441 | an add grows the document by the value's nodes less those of an overwritten member |
| PatchRuns.RemoveConserves | src/script_util.rs:445-469 | what is left and what came out have the nodes of what was there |
| PatchRuns.ReplaceGrowth | src/script_util.rs:528-533 | a replace trades the old value's nodes for the new one's |
| PatchRuns.MoveNeverGrows | src/script_util.rs:481-488 | a move never grows the document, even when it fails |
| PatchRuns.RunGrowth | src/script_util.rs:511-579 | at every point of a run the document is within the nodes its operations carry plus one capped copy per copy |
| PatchRuns.PatchGrowth | src/script_util.rs:333-339 | the two caps together bound any result: target nodes plus patch nodes plus 1024 copies of 65536 nodes |
| PatchRuns.CopyRootDoubles | src/script_util.rs:337-339 | copying the root under a new key doubles the document below the cap and is refused above it |
| PatchEngine.CountNodes | src/script_util.rs:473-479 | summing over items and values in any order gives the node count |
| PatchEngine.Document.Find | src/script_util.rs:380-410 | the cursor loop finds what the pointer addresses, or nothing |
| PatchEngine.Document.PatchAdd | src/script_util.rs:414-441 | the in-place add equals the add on values, and a failure leaves the document |
| PatchEngine.Document.PatchRemove | src/script_util.rs:445-469 | the in-place removal equals the removal on values and returns what came out |
| PatchEngine.Document.PatchMove | src/script_util.rs:481-488 | the in-place move equals the move on values, lost value included |
| PatchEngine.Document.PatchCopy | src/script_util.rs:538-549 | the in-place copy equals the copy on values, with its node cap |
| PatchEngine.Document.ApplyOperation | src/script_util.rs:511-563 | one operation in place equals the operation on values, after the same checks in the same order |
| PatchEngine.Document.ApplyInPlace | src/script_util.rs:565-579 | the loop over operations equals the fold that stops at the first failure |
| PatchEngine.Document.Patched | src/script_util.rs:584-594 | all or nothing: the caller's document never changes, and a failure yields only the error |
| MergePatch.MergeInPlace | src/script_util.rs:303-319 | the in-place merge, taking the patch's keys in any order, equals MergePatch of section 2 of RFC 7386 |
| MergePatch.MergeIdempotent | src/script_util.rs:303-319 | merging the same patch again changes nothing |
| MergePatch.MergeKeepsNullFree | src/script_util.rs:301-319 | a merge leaves no null member outside arrays that the target did not have |
| MergePatch.MergeIntoNothing | src/script_util.rs:303-319 | merging into nothing yields the patch exactly when the patch is null-free |
| MergePatch.MergeLeaves | src/script_util.rs:303-319 | a member path the patch is silent on reads what it read |
| MergePatch.MergeWrites | src/script_util.rs:301-319 | a member path the patch gives a value reads that value, and a null deletes it |
| MergePatch.MergeKeepsObjects | src/script_util.rs:303-319 | where the patch has an object the result has one, an empty patch object onto a scalar included |
| MergePatch.MergeExactly | src/script_util.rs:303-319 | the merge is the one document that leaves the silent paths, writes the given ones and has objects where the patch has |
| DeepPath.AtAfterSet | src/script_util.rs:213-289 | reading after a successful write yields what was written |
| DeepPath.SetOfAt | src/script_util.rs:213-289 | writing what is already there changes nothing |
| DeepPath.SetTwice | src/script_util.rs:237-289 | the second of two writes at one path is the one that counts |
| DeepPath.SetIsReplace | src/script_util.rs:249-289 | where a pointer leads, a path write over the same tokens is the patch engine's replace |
| DeepPath.SetFailsExactly | src/script_util.rs:245-275 | a write fails only on an empty path or a parent index past the end of an array |
| DeepPath.LastIndexReplacesArray | src/script_util.rs:277-287 | a last index past the end turns the array into an object, where as a parent it is an error |
| DeepPath.SetFrame | src/script_util.rs:237-289 | a write leaves every path that parts from it inside the document |
| DeepPath.SetBelow | src/script_util.rs:255-289 | a write goes on from where its first segments lead, and puts what it makes of that value back in its place |
| DeepPath.CreatesChain | src/script_util.rs:262-286 | where the path leaves the document, one member is added that holds nothing but the rest of the path, beside the members of an object and in place of anything else |
| DeepPath.SetInPlace | src/script_util.rs:249-289 | where the path leads to a value, that value and nothing else is replaced |
| DeepPath.WalkPath | src/script_util.rs:213-221 | the stepping loop reads what the path addresses, or nothing |
| DeepPath.SetPath | src/script_util.rs:237-289 | the cursor loop on a private copy computes the write the laws are about |
| Links.RenderSegments | src/http.rs:181-213 | the segments of a text put together are the text |
| Links.SegmentsRender | src/http.rs:163-213 | any well-formed list of plain stretches and links is what its rendering segments into |
| Links.SegmentsWellSegmented | src/http.rs:163-213 | the segmentation of every text is well-formed, so it is the only such list that renders to it |
| Links.SwapSegments | src/http.rs:181-213 | the output of a swap segments into exactly the swapped segments of the input: nothing outside the accepted links changes |
| Links.SwapIdempotent | src/http.rs:181-213 | swapping twice is swapping once, for every text and every predicate |
| Links.SwapLeavesNone | src/http.rs:181-213 | no link of the output is wanted any more, unless it is the base |
| Links.SwapUnwanted | src/http.rs:181-213 | a predicate that accepts none of the links gives the text back |
| Links.SwapWithoutSep | src/http.rs:269-271 | the `://` fast path never changes an answer |
| LinkBases.TrimmedUrlIsBase | src/http.rs:182 | trimming the slashes a URL ends in leaves a scheme and an authority, or a scheme and a colon if the authority is empty |
| LinkBases.IdempotentExactly | src/config.rs:169-178 | for a base and whatever follows its authority, swapping is idempotent on all texts exactly when no authority is ever accepted, or the base's is and nothing follows it, or the base's is not and the tail neither holds an accepted link nor ends in a scheme and `:` or `:/` |
| LinkBases.RepeatsExactly | src/http.rs:181-213 | with a base that is not itself accepted, a second swap of a text changes nothing exactly when the first left no accepted link |
| LinkBases.JoinSafe | src/http.rs:163-213 | two texts without accepted links, put side by side, make one without, if the first does not end in a scheme and `:` or `:/` and the second starts with a delimiter |
| LinkBases.OpenEndingLinks | src/http.rs:163-213 | a text that does end so makes a link of whatever authority the rest of the separator is followed by |
| LinkBases.TailNamesWanted | src/http.rs:181-213 | a tail with an accepted link, or one open to it, leaves an accepted link in the output of a given text |
| LinkBases.TailRepeats | src/http.rs:181-213 | with a base that is accepted, a non-empty tail is appended once more by every further swap of the base |
| LinkBases.OpenTailRepeats | src/http.rs:181-213 | base `b://p`, tail `?http:` and text `x://t//t`: the output still names the target, and swapping it again changes it |
| Links.LookBackStops | src/http.rs:163-178 | the look-back for a scheme never crosses the cursor |
| Links.FindSchemeStart | src/http.rs:163-178 | the backward loop finds where the URL begins, or the separator when no scheme stands there |
| Links.SwapAuthorities | src/http.rs:181-213 | the scanner rewrites exactly the accepted links, with every slice in range and the cursor always moving |
| LinkText.LinkEndsAtStop | src/http.rs:181-213 | a scheme, `://` and a host are a link, and the host ends at the first slash, question mark, hash, quote, apostrophe, angle bracket, comma, space or tab, or at the end of the text |
| LinkText.SwapOneLink | src/http.rs:181-213 | such a link gives way to the replacement if its host is accepted, stays if not, and what follows the host is swapped in its turn |
| LinkText.StopEndsAuthority | src/http.rs:196-199 | each of those ten characters ends the host, whatever comes after it |
| LinkText.OtherStaysInside | src/http.rs:196-199 | any other character stays inside the authority |
| LinkText.BareSepStays | src/http.rs:163-213 | a `://` with no scheme before it, or a run of scheme characters that no letter begins, is left, and only what follows is swapped |
| LinkText.TargetSwapped | src/http.rs:150-213 | a link to the target's address, with or without a port, gives way to the base wherever it stands |
| Links.IsTargetExactly | src/http.rs:150-159 | an authority names the target exactly when it is the address, with or without a numeric port, in any case |
| Text.SameButForCase | src/http.rs:150-159 | two texts are equal but for case exactly when each character is equal or the same ASCII letter |
| LinkRewrite.RewriteText | src/http.rs:268-273 | the text rewrite with its fast path equals the swap |
| LinkRewrite.RewriteValue | src/http.rs:277-296 | the in-place walk swaps every string of a body and touches nothing else |
| LinkRewrite.RewriteCommutes | src/http.rs:277-296 | rewriting then reading is reading then rewriting, on every pointer and every slash path |
| LinkRewrite.StringsSwapped | src/http.rs:277-296 | a string anywhere in a body is swapped; numbers, booleans and nulls stay |
| LinkRewrite.RewriteIdempotent | src/http.rs:277-296 | rewriting a body twice is rewriting it once |
| LinkRewrite.RewriteKeepsNodes | src/http.rs:277-296 | rewriting keeps the number of nodes |
| LinkRewrite.RewriteLeavesNone | src/http.rs:275-296 | no link of any string of a rewritten body names the target, unless it is the base |
| LinkRewrite.RewriteHeaders | src/http.rs:230-264 | the loop over the URL headers rewrites each value in its order and leaves every other header |
| LinkRewrite.HeadersByName | src/http.rs:140-146 | `location` and `content-location` have every link swapped, `link` those to the target, and every other header is left; a result that is not visible ASCII and tabs is not used |
| LinkRewrite.RewriteHeadersIdempotent | src/http.rs:230-264 | rewriting headers twice is rewriting them once |
| LinkRewrite.ReadableAlwaysSwapped | src/http.rs:252-254 | with a printable base the keep-the-original fallback is never taken |
| LinkRewrite.HeaderLinks | src/http.rs:140-146 | every link of a rewritten `Location` is the base, and so is every link of a `Link` header that names the target |
| StoreModel.Store.SetValue | src/script_store.rs:93-129 | a write is checked in the source's order and a refused one changes nothing |
| StoreModel.Store.GetOr | src/script_store.rs:83-88 | a read with a default answers the stored value, the default, or the key's error |
| StoreModel.Store.RemoveKey | src/script_store.rs:148-158 | a removal answers whether the key was there |
| StoreModel.Store.ContainsKey | src/script_store.rs:160-170 | asking for a key answers whether it is there, or the key's error, and changes nothing |
| StoreModel.Store.RemoveUnder | src/script_store.rs:133-145 | a prefix removal leaves exactly the other keys and counts by the difference in length |
| StoreModel.PerformKeepsBounded | src/script_store.rs:17-26 | every operation keeps the limits on keys, key lengths and encoded values |
| StoreModel.RefusedChangesNothing | src/script_store.rs:52-63 | a refused operation changes nothing |
| StoreModel.RemovePrefixExactly | src/script_store.rs:131-145 | a prefix removal takes exactly the matching keys and returns how many went |
| StoreModel.RunBounded | src/script_store.rs:17-33 | in every state of every run the limits hold and the keys and encoded values take at most 67,371,008 bytes |
| StoreModel.OverwriteAlwaysTaken | src/script_store.rs:119-125 | in every state of every run a key that is there can be overwritten with any value within the limit, at capacity too |
| StoreModel.RunHoldsExpected | src/script_store.rs:28-33 | the store always holds what the log its callers saw implies |
| StoreModel.ReadsExpected | src/script_store.rs:65-79 | every read in a run answers with the last accepted write before it |
| StoreModel.FlagsExpected | src/script_store.rs:148-170 | a removal and a question answer whether the log before them implies the key is there, or that the key is empty or over 256 bytes |
| StoreModel.WriteTakenWithinLimits | src/script_store.rs:93-129 | exactly which writes are taken: 1 to 256 bytes of key, at most 65536 of value, and a known key or fewer than 1024 of them; else the first limit broken |
| Encoding.EncodingLength | src/script_store.rs:93-105 | every compact JSON text of a value, its keys in any order, has the UTF-8 length the limit is checked against |
| Encoding.EncodingExists | src/script_store.rs:93-105 | every value has such a text |
| Lockdown.SegmentIsPiece | src/script_util.rs:635-645 | a segment is a slash-free piece of the path, counted from either end, and is there exactly for the indices in range |
| Lockdown.ResourcesAreSlashFree | scripts/supermicro/host_interface.rn:11-12 | the members a path yields hold no slash |
| Lockdown.UrlNamesResource | scripts/supermicro/sys_lockdown.rn:11-12 | each of the four URLs, written out, names the resource of its own manager or system, and of its own interface |
| Lockdown.KeyText | scripts/supermicro/host_interface.rn:11-13 | the four keys as text, as the scripts' templates spell them |
| Lockdown.OtherKeyText | scripts/supermicro/systems.rn:41-43 | so are the keys of the two other scripts that write to the store |
| Lockdown.KeysInjective | scripts/supermicro/kcs_interface.rn:9-10 | no two slots share a key: not two resources, nor a resource and a boot order or the password flag |
| Lockdown.KeyFitsExactly | src/script_store.rs:52-63 | a resource can be kept exactly when the UTF-8 lengths of its names leave room for the prefix, the slashes and the last part |
| Lockdown.HandleWrite | scripts/supermicro/host_interface.rn:15-37 | the write half with its `seen` flag stores an acceptable value and answers 204, else 400, changing nothing |
| Lockdown.Handle | scripts/supermicro/secure_boot.rn:8-52 | a request of any of the four scripts does one store step and answers from it |
| Lockdown.HandleReset | scripts/supermicro/smc_manager_config_reset.rn:8-16 | the reset removes everything under the prefix |
| Lockdown.ServeEffect | scripts/supermicro/sys_lockdown.rn:14-36 | a request changes a resource's key only by writing that resource with a 204, or by a reset |
| Lockdown.ResourceHoldsExpected | scripts/supermicro/kcs_interface.rn:12-46 | after any run a resource holds what its clients' log implies, and that is a value its script accepts |
| Lockdown.ReadShowsExpected | scripts/supermicro/kcs_interface.rn:41-47 | every read shows the last write answered 204 since the last reset, or the default; privilege reads one of four values and the flags read booleans |
| Lockdown.WriteReadBack | scripts/supermicro/sys_lockdown.rn:5-44 | a write answered 204 is read back until that resource is written again or reset, whatever else happens |
| Lockdown.WritesStayApart | scripts/supermicro/host_interface.rn:11-44 | no request but a reset changes what another resource reads |
| Lockdown.ResetRestoresDefaults | scripts/supermicro/smc_manager_config_reset.rn:6-16 | a reset is always answered 204 and restores every default |
| Lockdown.WriteTakenExactly | scripts/supermicro/secure_boot.rn:14-36 | exactly how a `PATCH` or `PUT` is answered: an error for an unreadable body, 400 for an unacceptable value, 204 where the key fits and the store has it or has room, an error otherwise |
| Lockdown.WantedExactly | scripts/supermicro/kcs_interface.rn:14-30 | what a body must hold to be written, script by script: the field by name, one of four texts or a boolean |
| Lockdown.UrlShowsLastWrite | scripts/supermicro/sys_lockdown.rn:14-44 | a value written at a resource's URL with a 204 is what a read of that URL shows from then on, whatever is written at the other URLs |
| Lockdown.UrlsStayApart | scripts/supermicro/host_interface.rn:11-44 | a write at one resource's URL leaves what a read of any other's shows |
| Lockdown.UrlShowsDefault | scripts/supermicro/secure_boot.rn:40-52 | before any write and after every reset each URL shows its default: `Administrator`, enabled, unlocked, disabled |
| Lockdown.ResetTakesPrefix | scripts/supermicro/smc_manager_config_reset.rn:11-16 | a reset removes every key under `supermicro/` and no other |
| Routes.LiteralPrefixMaximal | src/config.rs:254-257 | the literal prefix is wildcard-free and as long as it can be |
| Routes.SpecificityCounts | src/config.rs:254-257 | the specificity is the number of bytes before the first of `*`, `?`, `[` and `{` |
| Routes.SortByKey | src/config.rs:296-297 | the sort is by descending specificity and keeps declaration order within one |
| Routes.Router.Build | src/config.rs:265-299 | building compiles in order, stops at the first bad glob or method, and sorts stably |
| Routes.CompilesExactly | src/config.rs:265-291 | building succeeds exactly when every glob compiles and every method is one |
| Routes.BuildErrorIsFirst | src/config.rs:265-291 | the error is that of the first route that has one, its glob before its methods and those in order |
| Routes.ResolveIsBest | src/config.rs:302-304 | sort and first match answer with the matching route of greatest specificity, the earliest declared of those |
| Routes.ConfiguredRouteAnswers | src/config.rs:265-304 | from the configuration on: a request goes to the script of the configured route with the longest literal prefix that takes it, the earliest declared of those, and to none only if none takes it |
| Routes.DispatchExactly | src/proxy.rs:196-206 | a request is scripted exactly when a declared route matches it, and goes to the default script exactly when no declared glob matches its path |
| Routes.DispatchAsConfigured | src/proxy.rs:196-206 | the same over the configuration: the default script exactly when no configured glob matches, a refusal exactly when one does but none with the method, else the script of the route that answers |
| Outbound.BmcRequest.Inbound | src/script_bmc.rs:551-578 | a request seeded from the inbound one never holds a header a script may not set |
| Outbound.BmcRequest.AddHeader | src/script_bmc.rs:218-226 | a forbidden name is refused whatever its case, and an allowed one is appended |
| Outbound.BmcRequest.Dispatch | src/script_bmc.rs:469-521 | only a request on an absolute path with a method that parses leaves, the path checked first, and every header that leaves with it is the one the precedence of script, relay and content type gives |
| Outbound.AddedLeaves | src/script_bmc.rs:482-493 | under any other name leaves exactly what the script added under it in any case, every sendable value and in the order added |
| Outbound.TypeAndVersionLeave | src/script_bmc.rs:494-514 | a body leaves with its declared type or as `application/json`, and a relayed protocol version replaces the script's |
| Outbound.ForbiddenExactly | src/script_bmc.rs:59-66 | the fourteen names a script may not set, in any case |
| Outbound.ReservedLeaves | src/script_bmc.rs:480-499 | of those names only the two credentials leave, with the last inbound value |
| Outbound.CredentialsAreInbound | src/script_bmc.rs:480-499 | whatever a script did, each credential that leaves is the last the inbound request carried, or absent |
| Outbound.ForbiddenNeverLeaves | src/script_bmc.rs:59-66 | no other forbidden header ever leaves |
| Systems.LastSegmentIsSegment | src/script_bmc.rs:72-78 | an id is a non-empty path segment |
| Systems.LastSegmentOfMember | src/script_bmc.rs:72-78 | a link under a collection gives back its id, however many slashes trail it |
| Systems.ProbeOrderCovers | src/script_bmc.rs:650-660 | every listed system is probed, the preferred one first |
| Systems.FirstWithBiosIsFirst | src/script_bmc.rs:656-667 | the search stops at the first probed system that answers with a `Bios` |
| Systems.ResolvesFirstWithBios | src/script_bmc.rs:643-695 | the system is the first with a `Bios` or else the preferred one, with its own manager, resolved exactly when there is such a manager, in at most as many requests as there are systems and two more |
| SystemDocuments.ListedInOrder | src/script_bmc.rs:95-103 | a collection document's ids are the ones its members link to, in the order listed |
| SystemDocuments.UnlinkedPassedOver | src/script_bmc.rs:95-103 | a member without a link is passed over where it stands, and what lists no members has no ids |
| SystemDocuments.ProbingChooses | src/script_bmc.rs:650-667 | probing comes to `System_0` if listed and else the first listed, or, where that has no `Bios`, to the first listed that has |
| SystemDocuments.OwnManagerAnswers | src/script_bmc.rs:669-681 | a chosen system with a `Bios` that names a manager first in `Links/ManagedBy` is answered with that manager |
| SystemDocuments.FirstManagerAnswers | src/script_bmc.rs:675-695 | without one, the first listed manager is answered; a missing or empty manager collection is the error |
| SystemDocuments.NoSystemsAnswered | src/script_bmc.rs:650-655 | a missing systems collection, or one that lists none, is the error, after one request |
| Systems.Context.ProbeSystems | src/script_bmc.rs:656-667 | the probing loop finds that system and counts its requests |
| Systems.Context.ResolveIds | src/script_bmc.rs:643-695 | a cached answer costs no request, and only a complete one is cached |
| LogClip.BoundaryIsPrefixEnd | src/http.rs:103-113 | the character boundaries of an encoded string are exactly the ends of its prefixes |
| LogClip.TruncateBody | src/http.rs:103-113 | a clipped body keeps the longest whole-character prefix within the cap, at least 16381 bytes, and reports exactly the rest |

## Left out

- PatchEngine.Document.Assign: assigning through the reference `resolve_mut` returns is modelled as replacing the document by the one with that place changed; Rust's ownership rules out aliases, so nothing else could observe the difference, but the sharing of memory is not modelled.
- Routes.SortByKey: stands for the standard library's stable sort by an insertion sort; what is proved of the router uses only the order and stability it ensures.
- Lockdown.Handle: the four scripts' common shape is one method; of a 200 answer only the stored value and secure boot's derived field are modelled, and the fixed members, the response rewrite and the log records are not.
- StoreModel.Store.SetValue: the encoded length is an argument, required to be the length of the compact encodings `Encoding.dfy` defines.
- Outbound.BmcRequest.SetBody: JSON and base64 encoding are an argument that may be absent on failure.
- Links.IsTargetExactly: the address is its text, which for an IPv4 address holds no colon; socket addresses are not modelled.
- The boot order and password scripts appear only as the store writes they make, not as handlers with answers of their own from the BMC.
- A poisoned store or cache lock, and the message texts of errors, which are modelled as kinds of error.
- The Rune virtual machine, marshalling to and from script values, and module registration.
- Globs, HTTP method and header-name parsing, TOML, URLs and the UTF-8 check of a raw body, which are parameters or assumed of the input.
- `forward`, streaming bodies, `expand_collection`, the log and response modules, TLS and the listener.
- The other Supermicro scripts, which assemble fixed documents or relay the BMC's.
- Numbers beyond equality of their tokens, so also how `test` compares numbers, which section 4.6 of RFC 6902 settles by value.
