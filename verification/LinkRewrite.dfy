/** Rewriting links in texts, JSON bodies and headers (`rewrite_text`, `rewrite_value`,
    `rewrite_headers`). */
module LinkRewrite {
  import opened Wrappers
  import opened Text
  import opened Json
  import opened Tree
  import opened Links

  /** `rewrite_text`, with its fast path. */
  method RewriteText(base: Base, text: string, wanted: string -> bool) returns (out: string)
    ensures out == Swap(base, wanted, text)
  {
    if FindSep(text).None? {
      SwapWithoutSep(BaseText(base), wanted, text);
      return text;
    }
    out := SwapAuthorities(BaseText(base), text, wanted);
  }

  // ---------- JSON bodies ----------

  /** Every string of a document swapped, and nothing else touched. */
  function Rewrite(base: Base, wanted: string -> bool, value: Json): Json
    decreases value
  {
    match value
    case Str(text) => Str(Swap(base, wanted, text))
    case Arr(items) => Arr(seq(|items|, i requires 0 <= i < |items| => Rewrite(base, wanted, items[i])))
    case Obj(members) => Obj(map k | k in members :: Rewrite(base, wanted, members[k]))
    case _ => value
  }

  /** `rewrite_value`, item by item and member by member, with its own fast path. */
  method RewriteValue(base: Base, value: Json, wanted: string -> bool) returns (out: Json)
    ensures out == Rewrite(base, wanted, value)
    decreases value
  {
    match value {
      case Str(text) =>
        if FindSep(text).Some? {
          var swapped := RewriteText(base, text, wanted);
          out := Str(swapped);
        } else {
          SwapWithoutSep(BaseText(base), wanted, text);
          out := value;
        }
      case Arr(items) =>
        var done: seq<Json> := [];
        for i := 0 to |items|
          invariant |done| == i
          invariant forall j :: 0 <= j < i ==> done[j] == Rewrite(base, wanted, items[j])
        {
          var item := RewriteValue(base, items[i], wanted);
          done := done + [item];
        }
        out := Arr(done);
        assert done == Rewrite(base, wanted, value).items;
      case Obj(members) =>
        var todo := members.Keys;
        var done: map<string, Json> := map[];
        while todo != {}
          invariant todo <= members.Keys && done.Keys == members.Keys - todo
          invariant forall k :: k in done ==> done[k] == Rewrite(base, wanted, members[k])
        {
          var key :| key in todo;
          var item := RewriteValue(base, members[key], wanted);
          done := done[key := item];
          todo := todo - {key};
        }
        out := Obj(done);
        assert done == Rewrite(base, wanted, value).members;
      case _ =>
        out := value;
    }
  }

  function RewriteFound(base: Base, wanted: string -> bool, found: Option<Json>): Option<Json> {
    match found
    case Some(value) => Some(Rewrite(base, wanted, value))
    case None => None
  }

  /** Rewriting and then reading is reading and then rewriting, on every pointer and every slash
      path: the shape of the document does not change. */
  lemma {:induction false} RewriteCommutes(d: Dialect, base: Base, wanted: string -> bool, value: Json,
      tokens: seq<string>)
    ensures Get(d, Rewrite(base, wanted, value), tokens) == RewriteFound(base, wanted, Get(d, value, tokens))
    decreases |tokens|
  {
    if tokens != [] {
      var child := Child(d, value, tokens[0]);
      assert Child(d, Rewrite(base, wanted, value), tokens[0]) == RewriteFound(base, wanted, child);
      if child.Some? {
        RewriteCommutes(d, base, wanted, child.value, tokens[1..]);
      }
    }
  }

  lemma {:induction false} RewriteIdempotent(base: Base, wanted: string -> bool, value: Json)
    requires ValidBase(base)
    ensures Rewrite(base, wanted, Rewrite(base, wanted, value)) == Rewrite(base, wanted, value)
    decreases value
  {
    var once := Rewrite(base, wanted, value);
    match value {
      case Str(text) => SwapIdempotent(base, wanted, text);
      case Arr(items) =>
        forall i | 0 <= i < |items|
          ensures Rewrite(base, wanted, once.items[i]) == once.items[i]
        {
          RewriteIdempotent(base, wanted, items[i]);
        }
        assert Rewrite(base, wanted, once).items == once.items;
      case Obj(members) =>
        forall k | k in members
          ensures Rewrite(base, wanted, once.members[k]) == once.members[k]
        {
          RewriteIdempotent(base, wanted, members[k]);
        }
        assert Rewrite(base, wanted, once).members == once.members;
      case _ =>
    }
  }

  lemma {:induction false} RewriteKeepsNodes(base: Base, wanted: string -> bool, value: Json)
    ensures Nodes(Rewrite(base, wanted, value)) == Nodes(value)
    decreases value
  {
    match value {
      case Arr(items) =>
        forall i | 0 <= i < |items|
          ensures Nodes(Rewrite(base, wanted, items[i])) == Nodes(items[i])
        {
          RewriteKeepsNodes(base, wanted, items[i]);
        }
        SameNodes(Rewrite(base, wanted, value).items, items);
      case Obj(members) =>
        forall k | k in members
          ensures Nodes(Rewrite(base, wanted, members[k])) == Nodes(members[k])
        {
          RewriteKeepsNodes(base, wanted, members[k]);
        }
        var after := Rewrite(base, wanted, value).members;
        assert (map k | k in after :: Nodes(after[k])) == (map k | k in members :: Nodes(members[k]));
      case _ =>
    }
  }

  lemma {:induction false} SameNodes(a: seq<Json>, b: seq<Json>)
    requires |a| == |b| && forall i :: 0 <= i < |a| ==> Nodes(a[i]) == Nodes(b[i])
    ensures NodesAll(a) == NodesAll(b)
  {
    if a != [] {
      SameNodes(a[1..], b[1..]);
    }
  }

  /** None of the text's links names the address, unless it is the base. */
  ghost predicate OnlyBaseNames(base: Base, wanted: string -> bool, text: string) {
    forall link :: link in Segments(text) && link.Link? && wanted(link.authority) ==>
      link == Link(base.scheme, base.authority)
  }

  /** Wherever a string stands in a rewritten body, none of its links names the target, unless it
      is the base itself. */
  lemma RewriteLeavesNone(base: Base, ip: string, value: Json, pointer: seq<string>)
    requires ValidBase(base)
    ensures match Get(Strict, Rewrite(base, NamesTarget(ip), value), pointer)
            case Some(Str(text)) => OnlyBaseNames(base, NamesTarget(ip), text)
            case _ => true
  {
    RewriteCommutes(Strict, base, NamesTarget(ip), value, pointer);
    match Get(Strict, value, pointer) {
      case Some(Str(original)) => SwapOnlyBase(base, NamesTarget(ip), original);
      case _ =>
    }
  }

  lemma SwapOnlyBase(base: Base, wanted: string -> bool, text: string)
    requires ValidBase(base)
    ensures OnlyBaseNames(base, wanted, Swap(base, wanted, text))
  {
    forall link | link in Segments(Swap(base, wanted, text)) && link.Link? && wanted(link.authority)
      ensures link == Link(base.scheme, base.authority)
    {
      SwapLeavesNone(base, wanted, text, link);
    }
  }

  // ---------- headers ----------

  /** A header value the source can read as text, or bytes it cannot. */
  datatype HeaderValue = Readable(text: string) | Unreadable(bytes: seq<int>)

  /** Names are stored in lower case; values under one name keep their order. */
  type Headers = map<string, seq<HeaderValue>>

  /** The headers whose whole value is a link, each of them rewritten whatever it names. */
  predicate IsBmcRelative(name: string) {
    name == "location" || name == "content-location"
  }

  predicate IsUrlHeader(name: string) {
    IsBmcRelative(name) || name == "link"
  }

  /** What `to_str` and `from_str` both accept: visible ASCII and tabs. */
  predicate Visible(s: string) {
    forall i :: 0 <= i < |s| ==> s[i] == '\t' || ' ' <= s[i] <= '~'
  }

  function Anything(): string -> bool {
    (authority: string) => true
  }

  function WantedIn(ip: string, name: string): string -> bool {
    if IsBmcRelative(name) then Anything() else NamesTarget(ip)
  }

  /** One value; the original is kept if the result is not a header value. */
  function RewriteHeader(base: Base, ip: string, name: string, value: HeaderValue): HeaderValue {
    match value
    case Unreadable(_) => value
    case Readable(text) =>
      var swapped := Swap(base, WantedIn(ip, name), text);
      if Visible(swapped) then Readable(swapped) else value
  }

  function RewriteValues(base: Base, ip: string, name: string, values: seq<HeaderValue>): seq<HeaderValue> {
    seq(|values|, i requires 0 <= i < |values| => RewriteHeader(base, ip, name, values[i]))
  }

  function RewrittenHeaders(base: Base, ip: string, headers: Headers): Headers {
    map name | name in headers ::
      if IsUrlHeader(name) then RewriteValues(base, ip, name, headers[name]) else headers[name]
  }

  /** The values under one name, in the order they had. */
  method RewriteEach(base: Base, ip: string, name: string, values: seq<HeaderValue>) returns (out: seq<HeaderValue>)
    ensures out == RewriteValues(base, ip, name, values)
  {
    out := [];
    for i := 0 to |values|
      invariant |out| == i
      invariant forall j :: 0 <= j < i ==> out[j] == RewriteHeader(base, ip, name, values[j])
    {
      var value := values[i];
      if value.Readable? {
        var swapped := SwapAuthorities(BaseText(base), value.text, WantedIn(ip, name));
        value := if Visible(swapped) then Readable(swapped) else value;
      }
      out := out + [value];
    }
  }

  /** `rewrite_headers`: takes the URL headers in any order, and for each puts the rewritten values
      back. */
  method RewriteHeaders(base: Base, ip: string, headers: Headers) returns (out: Headers)
    ensures out == RewrittenHeaders(base, ip, headers)
  {
    hide RewriteValues;
    out := headers;
    var names := set name | name in headers && IsUrlHeader(name);
    while names != {}
      invariant names <= headers.Keys && out.Keys == headers.Keys
      invariant forall name :: name in names ==> IsUrlHeader(name)
      invariant forall name :: name in headers ==>
          out[name] == if IsUrlHeader(name) && name !in names
                       then RewriteValues(base, ip, name, headers[name]) else headers[name]
    {
      var name :| name in names;
      var rewritten := RewriteEach(base, ip, name, out[name]);
      out := out[name := rewritten];
      names := names - {name};
    }
  }

  /** Rewriting the headers again changes nothing. */
  lemma RewriteHeadersIdempotent(base: Base, ip: string, headers: Headers)
    requires ValidBase(base)
    ensures var once := RewrittenHeaders(base, ip, headers); RewrittenHeaders(base, ip, once) == once
  {
    var once := RewrittenHeaders(base, ip, headers);
    forall name | name in headers && IsUrlHeader(name)
      ensures RewriteValues(base, ip, name, once[name]) == once[name]
    {
      forall i | 0 <= i < |headers[name]|
        ensures RewriteHeader(base, ip, name, once[name][i]) == once[name][i]
      {
        if headers[name][i].Readable? {
          SwapIdempotent(base, WantedIn(ip, name), headers[name][i].text);
        }
      }
    }
    assert RewrittenHeaders(base, ip, once) == once;
  }

  lemma {:induction false} RenderVisible(base: Base, wanted: string -> bool, segments: seq<Segment>)
    requires Visible(BaseText(base)) && Visible(Render(segments))
    ensures Visible(Render(SwapAll(base, wanted, segments)))
    decreases |segments|
  {
    if segments != [] {
      var head, rest := SegmentText(segments[0]), Render(segments[1..]);
      assert forall i :: 0 <= i < |head| ==> head[i] == Render(segments)[i];
      assert forall i :: 0 <= i < |rest| ==> rest[i] == Render(segments)[|head| + i];
      RenderVisible(base, wanted, segments[1..]);
      assert SwapAll(base, wanted, segments)[1..] == SwapAll(base, wanted, segments[1..]);
    }
  }

  /** With a printable base the fallback is never taken: every readable URL header is swapped. */
  lemma ReadableAlwaysSwapped(base: Base, ip: string, name: string, text: string)
    requires Visible(BaseText(base)) && Visible(text)
    ensures RewriteHeader(base, ip, name, Readable(text)) == Readable(Swap(base, WantedIn(ip, name), text))
  {
    RenderSegments(text);
    RenderVisible(base, WantedIn(ip, name), Segments(text));
    SubstituteRenders(base, WantedIn(ip, name), Segments(text));
  }

  /** Every link left in a rewritten `Location` is the base; in a rewritten `Link` header, every
      link that names the target is. */
  lemma HeaderLinks(base: Base, ip: string, name: string, text: string)
    requires ValidBase(base) && Visible(BaseText(base)) && Visible(text)
    ensures RewriteHeader(base, ip, name, Readable(text)).Readable?
    ensures OnlyBaseNames(base, if IsBmcRelative(name) then Anything() else NamesTarget(ip),
                          RewriteHeader(base, ip, name, Readable(text)).text)
  {
    ReadableAlwaysSwapped(base, ip, name, text);
    SwapOnlyBase(base, WantedIn(ip, name), text);
  }

  /** The headers by name: every readable value of `location` and `content-location` has each of its
      links swapped, one of `link` those to the target, and every other header is left. A value is
      kept as it was if the result is not visible ASCII and tabs. */
  lemma HeadersByName(base: Base, ip: string, headers: Headers, name: string)
    requires name in headers
    ensures RewrittenHeaders(base, ip, headers).Keys == headers.Keys
    ensures name != "location" && name != "content-location" && name != "link" ==>
              RewrittenHeaders(base, ip, headers)[name] == headers[name]
    ensures name == "location" || name == "content-location" ==>
              exists every: string -> bool ::
                && (forall authority :: every(authority))
                && SwappedEach(base, every, headers[name], RewrittenHeaders(base, ip, headers)[name])
    ensures name == "link" ==>
              SwappedEach(base, NamesTarget(ip), headers[name], RewrittenHeaders(base, ip, headers)[name])
  {
    hide Swap, NamesTarget;
    if name == "location" || name == "content-location" {
      assert forall authority :: Anything()(authority);
      assert SwappedEach(base, Anything(), headers[name], RewrittenHeaders(base, ip, headers)[name]);
    }
  }

  ghost predicate SwappedEach(base: Base, wanted: string -> bool, before: seq<HeaderValue>, after: seq<HeaderValue>) {
    && |after| == |before|
    && forall i :: 0 <= i < |before| ==>
         after[i] == match before[i]
                     case Unreadable(_) => before[i]
                     case Readable(text) =>
                       var swapped := Swap(base, wanted, text);
                       if forall k :: 0 <= k < |swapped| ==> swapped[k] == '\t' || ' ' <= swapped[k] <= '~'
                       then Readable(swapped) else before[i]
  }

  /** A string anywhere in a body is swapped; every other value that holds no string is the same. */
  lemma StringsSwapped(base: Base, ip: string, body: Json, pointer: seq<string>)
    ensures match Get(Strict, body, pointer)
            case Some(Str(text)) =>
              Get(Strict, Rewrite(base, NamesTarget(ip), body), pointer)
              == Some(Str(Swap(base, NamesTarget(ip), text)))
            case Some(Num(_)) | Some(Bool(_)) | Some(Null) | None =>
              Get(Strict, Rewrite(base, NamesTarget(ip), body), pointer) == Get(Strict, body, pointer)
            case _ => true
  {
    hide Swap;
    RewriteCommutes(Strict, base, NamesTarget(ip), body, pointer);
  }
}
