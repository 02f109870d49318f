/** JSON Patch (RFC 6902): what each operation does to a document, stated on values. The class
    `Document` in PatchEngine.dfy does the same work in place, one step at a time. */
module Patch {
  import opened Wrappers
  import opened Json
  import opened Pointer
  import opened Tree

  const MAX_PATCH_OPS: nat := 1024
  const MAX_COPY_NODES: nat := 64 * 1024

  datatype PatchError =
    | BadPointer(pointer: PointerError)
    | ParentMissing
    | NotContainer
    | PastEnd
    | WholeDocument
    | KeyMissing
    | LocationMissing
    | IntoDescendant
    | SourceMissing
    | SourceTooLarge
    | TestFailed
    | NotAnObject
    | UnknownOperation
    | FieldMissing(field: string)
    | FieldNotString(badField: string)
    | NotAnArray
    | TooManyOps
    | AtOp(index: nat, cause: PatchError)

  /** What an in-place step leaves behind: the document, changed or not, and how it ended. */
  datatype Applied = Applied(doc: Json, failure: Option<PatchError>)

  datatype Removed = Removed(rest: Json, value: Json)

  function Resolve(root: Json, tokens: seq<string>): Option<Json> {
    Get(Strict, root, tokens)
  }

  function Parent(tokens: seq<string>): seq<string>
    requires tokens != []
  {
    tokens[..|tokens| - 1]
  }

  function Last(tokens: seq<string>): string
    requires tokens != []
  {
    tokens[|tokens| - 1]
  }

  // ---------- on one container ----------

  function AddTo(parent: Json, last: string, value: Json): Result<Json, PatchError> {
    match parent
    case Arr(items) =>
      (match ArrayIndex(last, |items|, true)
       case Err(e) => Err(BadPointer(e))
       case Ok(i) =>
         if i > |items| then Err(PastEnd) else Ok(Arr(items[..i] + [value] + items[i..])))
    case Obj(members) => Ok(Obj(members[last := value]))
    case _ => Err(NotContainer)
  }

  function RemoveFrom(parent: Json, last: string): Result<Removed, PatchError> {
    match parent
    case Arr(items) =>
      (match ArrayIndex(last, |items|, false)
       case Err(e) => Err(BadPointer(e))
       case Ok(i) =>
         if i >= |items| then Err(PastEnd)
         else Ok(Removed(Arr(items[..i] + items[i + 1..]), items[i])))
    case Obj(members) =>
      if last in members then Ok(Removed(Obj(members - {last}), members[last]))
      else Err(KeyMissing)
    case _ => Err(NotContainer)
  }

  // ---------- on a document ----------

  function Add(root: Json, tokens: seq<string>, value: Json): Result<Json, PatchError> {
    if tokens == [] then Ok(value)
    else
      match Resolve(root, Parent(tokens))
      case None => Err(ParentMissing)
      case Some(parent) =>
        match AddTo(parent, Last(tokens), value)
        case Err(e) => Err(e)
        case Ok(container) => Ok(Put(Strict, root, Parent(tokens), container))
  }

  function Remove(root: Json, tokens: seq<string>): Result<Removed, PatchError> {
    if tokens == [] then Err(WholeDocument)
    else
      match Resolve(root, Parent(tokens))
      case None => Err(ParentMissing)
      case Some(parent) =>
        match RemoveFrom(parent, Last(tokens))
        case Err(e) => Err(e)
        case Ok(removed) =>
          Ok(Removed(Put(Strict, root, Parent(tokens), removed.rest), removed.value))
  }

  function Replace(root: Json, tokens: seq<string>, value: Json): Result<Json, PatchError> {
    if Resolve(root, tokens).Some? then Ok(Put(Strict, root, tokens, value))
    else Err(LocationMissing)
  }

  /** The removed value is lost when it cannot be put down again. */
  function Move(root: Json, from: seq<string>, to: seq<string>): Applied {
    if |to| > |from| && to[..|from|] == from then Applied(root, Some(IntoDescendant))
    else
      match Remove(root, from)
      case Err(e) => Applied(root, Some(e))
      case Ok(removed) => Settle(removed.rest, Add(removed.rest, to, removed.value))
  }

  ghost function Copy(root: Json, from: seq<string>, to: seq<string>): Applied {
    match Resolve(root, from)
    case None => Applied(root, Some(SourceMissing))
    case Some(value) =>
      if Nodes(value) > MAX_COPY_NODES then Applied(root, Some(SourceTooLarge))
      else Settle(root, Add(root, to, value))
  }

  function Test(root: Json, tokens: seq<string>, value: Json): Applied {
    match Resolve(root, tokens)
    case None => Applied(root, Some(LocationMissing))
    case Some(found) => Applied(root, if found == value then None else Some(TestFailed))
  }

  /** An edit that either replaces the document or leaves it. */
  function Settle(root: Json, edit: Result<Json, PatchError>): Applied {
    match edit
    case Ok(doc) => Applied(doc, None)
    case Err(e) => Applied(root, Some(e))
  }

  // ---------- one operation, as JSON ----------

  function PointerField(op: map<string, Json>, field: string): Result<seq<string>, PatchError> {
    if field !in op then Err(FieldMissing(field))
    else
      match op[field]
      case Str(text) =>
        (match PointerTokens(text)
         case Ok(tokens) => Ok(tokens)
         case Err(e) => Err(BadPointer(e)))
      case _ => Err(FieldNotString(field))
  }

  datatype Operation =
    | AddOp(path: seq<string>, value: Json)
    | RemoveOp(path: seq<string>)
    | ReplaceOp(path: seq<string>, value: Json)
    | MoveOp(from: seq<string>, path: seq<string>)
    | CopyOp(from: seq<string>, path: seq<string>)
    | TestOp(path: seq<string>, value: Json)

  /** The checks every operation passes before it touches the document, in the source's order:
      object, `op`, `path`, then the operation's own `value` or `from`. */
  function ReadOperation(op: Json): Result<Operation, PatchError> {
    if !op.Obj? then Err(NotAnObject)
    else if "op" !in op.members then Err(FieldMissing("op"))
    else if !op.members["op"].Str? then Err(FieldNotString("op"))
    else
      match PointerField(op.members, "path")
      case Err(e) => Err(e)
      case Ok(path) => ReadNamed(op.members, op.members["op"].text, path)
  }

  function ReadNamed(op: map<string, Json>, name: string, path: seq<string>): Result<Operation, PatchError> {
    if name == "remove" then Ok(RemoveOp(path))
    else if name == "add" || name == "replace" || name == "test" then
      if "value" !in op then Err(FieldMissing("value"))
      else if name == "add" then Ok(AddOp(path, op["value"]))
      else if name == "replace" then Ok(ReplaceOp(path, op["value"]))
      else Ok(TestOp(path, op["value"]))
    else if name == "move" || name == "copy" then
      match PointerField(op, "from")
      case Err(e) => Err(e)
      case Ok(from) => if name == "move" then Ok(MoveOp(from, path)) else Ok(CopyOp(from, path))
    else Err(UnknownOperation)
  }

  ghost function Perform(root: Json, op: Operation): Applied {
    match op
    case AddOp(path, value) => Settle(root, Add(root, path, value))
    case RemoveOp(path) =>
      (match Remove(root, path)
       case Ok(removed) => Applied(removed.rest, None)
       case Err(e) => Applied(root, Some(e)))
    case ReplaceOp(path, value) => Settle(root, Replace(root, path, value))
    case MoveOp(from, path) => Move(root, from, path)
    case CopyOp(from, path) => Copy(root, from, path)
    case TestOp(path, value) => Test(root, path, value)
  }

  ghost function ApplyOne(root: Json, op: Json): Applied {
    match ReadOperation(op)
    case Err(e) => Applied(root, Some(e))
    case Ok(operation) => Perform(root, operation)
  }

  // ---------- a whole patch ----------

  /** The operations from index `first` on, stopping at the first failure with the document as it
      stood then. */
  ghost function ApplyFrom(root: Json, ops: seq<Json>, first: nat): Applied
    decreases |ops|
  {
    if ops == [] then Applied(root, None)
    else
      var step := ApplyOne(root, ops[0]);
      match step.failure
      case Some(e) => Applied(step.doc, Some(AtOp(first, e)))
      case None => ApplyFrom(step.doc, ops[1..], first + 1)
  }

  ghost function ApplyPatch(root: Json, ops: Json): Applied {
    if !ops.Arr? then Applied(root, Some(NotAnArray))
    else if |ops.items| > MAX_PATCH_OPS then Applied(root, Some(TooManyOps))
    else ApplyFrom(root, ops.items, 0)
  }

  /** `util::json_patch`: the work lands on a copy, so a failure yields no document. */
  ghost function JsonPatch(target: Json, ops: Json): Result<Json, PatchError> {
    var applied := ApplyPatch(target, ops);
    match applied.failure
    case None => Ok(applied.doc)
    case Some(e) => Err(e)
  }
}
