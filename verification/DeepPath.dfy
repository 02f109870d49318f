/** `util::at` and `util::set`: deep reads and writes on slash separated paths. A write creates
    the objects along the way, and only an array index past the end of a parent stops it. */
module DeepPath {
  import opened Wrappers
  import opened Text
  import opened Json
  import opened Tree

  datatype SetError = NeedsPath | PastArrayEnd

  function Walk(json: Json, segments: seq<string>): Option<Json> {
    Get(Lenient, json, segments)
  }

  /** `util::at`. */
  function At(json: Json, path: string): Option<Json> {
    Walk(json, Split(path, '/'))
  }

  /** Whether a parent segment indexes the node it meets rather than naming a member. */
  predicate Indexes(node: Json, segment: string) {
    node.Arr? && ParseUsize(segment).Some?
  }

  /** `util::set` on the split path. */
  function SetAt(node: Json, segments: seq<string>, value: Json): Result<Json, SetError>
    requires segments != []
    decreases |segments|
  {
    if |segments| == 1 then Ok(SetLast(node, segments[0], value))
    else if Indexes(node, segments[0]) then
      var index := ParseUsize(segments[0]).value;
      if index >= |node.items| then Err(PastArrayEnd)
      else
        match SetAt(node.items[index], segments[1..], value)
        case Ok(child) => Ok(Arr(node.items[index := child]))
        case Err(e) => Err(e)
    else
      var members := MembersOf(node);
      var child := if segments[0] in members then members[segments[0]] else Obj(map[]);
      match SetAt(child, segments[1..], value)
      case Ok(written) => Ok(Obj(members[segments[0] := written]))
      case Err(e) => Err(e)
  }

  /** The last segment: an array slot that is there, or else a member. */
  function SetLast(node: Json, last: string, value: Json): Json {
    if Indexes(node, last) && ParseUsize(last).value < |node.items| then
      Arr(node.items[ParseUsize(last).value := value])
    else Obj(MembersOf(node)[last := value])
  }

  function Set(json: Json, path: string, value: Json): Result<Json, SetError> {
    if path == "" then Err(NeedsPath) else SetAt(json, Split(path, '/'), value)
  }

  // ---------- the laws ----------

  lemma {:induction false} WalkAfterSet(node: Json, segments: seq<string>, value: Json)
    requires segments != [] && SetAt(node, segments, value).Ok?
    ensures Walk(SetAt(node, segments, value).value, segments) == Some(value)
    decreases |segments|
  {
    if |segments| == 1 {
      assert segments[1..] == [];
      assert Walk(value, []) == Some(value);
    } else if Indexes(node, segments[0]) {
      WalkAfterSet(node.items[ParseUsize(segments[0]).value], segments[1..], value);
    } else {
      var members := MembersOf(node);
      var child := if segments[0] in members then members[segments[0]] else Obj(map[]);
      WalkAfterSet(child, segments[1..], value);
    }
  }

  lemma {:induction false} SetOfWalk(node: Json, segments: seq<string>)
    requires segments != [] && Walk(node, segments).Some?
    ensures SetAt(node, segments, Walk(node, segments).value) == Ok(node)
    decreases |segments|
  {
    var child := Child(Lenient, node, segments[0]).value;
    if |segments| == 1 {
      assert segments[1..] == [];
      assert Walk(node, segments) == Walk(child, []) == Some(child);
    } else {
      SetOfWalk(child, segments[1..]);
    }
    if node.Arr? {
      assert node.items[ParseUsize(segments[0]).value := child] == node.items;
    } else {
      assert node.members[segments[0] := child] == node.members;
    }
  }

  lemma SetLastTwice(node: Json, last: string, first: Json, second: Json)
    ensures SetLast(SetLast(node, last, first), last, second) == SetLast(node, last, second)
  {
  }

  lemma {:induction false} SetAfterSet(node: Json, segments: seq<string>, first: Json, second: Json)
    requires segments != [] && SetAt(node, segments, first).Ok?
    ensures SetAt(SetAt(node, segments, first).value, segments, second) == SetAt(node, segments, second)
    decreases |segments|
  {
    var head, rest := segments[0], segments[1..];
    if |segments| == 1 {
      SetLastTwice(node, head, first, second);
    } else if Indexes(node, head) {
      var index := ParseUsize(head).value;
      SetAfterSet(node.items[index], rest, first, second);
      SetAfterSetInSlot(node, segments, first, second);
    } else {
      var members := MembersOf(node);
      SetAfterSet(if head in members then members[head] else Obj(map[]), rest, first, second);
      SetAfterSetInMember(node, segments, first, second);
    }
  }

  lemma SetAfterSetInSlot(node: Json, segments: seq<string>, first: Json, second: Json)
    requires |segments| > 1 && Indexes(node, segments[0]) && ParseUsize(segments[0]).value < |node.items|
    requires var child := node.items[ParseUsize(segments[0]).value];
             && SetAt(child, segments[1..], first).Ok?
             && SetAt(SetAt(child, segments[1..], first).value, segments[1..], second)
                == SetAt(child, segments[1..], second)
    ensures SetAt(node, segments, first).Ok?
    ensures SetAt(SetAt(node, segments, first).value, segments, second) == SetAt(node, segments, second)
  {
    var index := ParseUsize(segments[0]).value;
    var child := node.items[index];
    var written := SetAt(child, segments[1..], first).value;
    var once := node.items[index := written];
    assert SetAt(node, segments, first) == Ok(Arr(once)) && once[index] == written;
    match SetAt(child, segments[1..], second) {
      case Ok(final) => assert once[index := final] == node.items[index := final];
      case Err(_) =>
    }
  }

  lemma SetAfterSetInMember(node: Json, segments: seq<string>, first: Json, second: Json)
    requires |segments| > 1 && !Indexes(node, segments[0])
    requires var members := MembersOf(node);
             var child := if segments[0] in members then members[segments[0]] else Obj(map[]);
             && SetAt(child, segments[1..], first).Ok?
             && SetAt(SetAt(child, segments[1..], first).value, segments[1..], second)
                == SetAt(child, segments[1..], second)
    ensures SetAt(node, segments, first).Ok?
    ensures SetAt(SetAt(node, segments, first).value, segments, second) == SetAt(node, segments, second)
  {
    hide ParseUsize;
    var head, members := segments[0], MembersOf(node);
    var child := if head in members then members[head] else Obj(map[]);
    var written := SetAt(child, segments[1..], first).value;
    var once := members[head := written];
    assert SetAt(node, segments, first) == Ok(Obj(once)) && once[head] == written;
    match SetAt(child, segments[1..], second) {
      case Ok(final) => assert once[head := final] == members[head := final];
      case Err(_) =>
    }
  }

  /** Reading after a successful write yields what was written. */
  lemma AtAfterSet(json: Json, path: string, value: Json)
    requires Set(json, path, value).Ok?
    ensures At(Set(json, path, value).value, path) == Some(value)
  {
    WalkAfterSet(json, Split(path, '/'), value);
  }

  /** Writing what is already there changes nothing. */
  lemma SetOfAt(json: Json, path: string)
    requires path != "" && At(json, path).Some?
    ensures Set(json, path, At(json, path).value) == Ok(json)
  {
    SetOfWalk(json, Split(path, '/'));
  }

  /** The second of two writes at one path is the one that counts. */
  lemma SetTwice(json: Json, path: string, first: Json, second: Json)
    requires Set(json, path, first).Ok?
    ensures Set(Set(json, path, first).value, path, second) == Set(json, path, second)
  {
    SetAfterSet(json, Split(path, '/'), first, second);
  }

  /** Where a pointer leads, a slash path write over the same tokens is a JSON Patch replace. */
  lemma {:induction false} SetIsReplace(node: Json, tokens: seq<string>, value: Json)
    requires tokens != [] && Get(Strict, node, tokens).Some?
    ensures SetAt(node, tokens, value) == Ok(Put(Strict, node, tokens, value))
    decreases |tokens|
  {
    if |tokens| > 1 {
      SetIsReplace(Child(Strict, node, tokens[0]).value, tokens[1..], value);
    }
  }

  // ---------- exactly when a write fails ----------

  /** At parent segment `k` the path stands on an array it indexes past the end of. */
  ghost predicate PastEndAt(json: Json, segments: seq<string>, k: nat) {
    && k + 1 < |segments|
    && match Walk(json, segments[..k])
       case Some(node) => Indexes(node, segments[k]) && ParseUsize(segments[k]).value >= |node.items|
       case None => false
  }

  lemma {:induction false} SetAtFails(node: Json, segments: seq<string>, value: Json)
    requires segments != []
    ensures SetAt(node, segments, value).Err? <==> exists k :: PastEndAt(node, segments, k)
    decreases |segments|
  {
    if |segments| > 1 {
      var head, rest := segments[0], segments[1..];
      assert segments[..0] == [];
      assert PastEndAt(node, segments, 0) <==>
             Indexes(node, head) && ParseUsize(head).value >= |node.items|;
      var next := Child(Lenient, node, head);
      if next.Some? {
        SetAtFails(next.value, rest, value);
        PastEndBelow(node, segments, next.value);
      } else {
        NoEndBelow(node, segments);
        if !Indexes(node, head) {
          EmptyNeverFails(rest, value);
        }
      }
    } else {
      forall k ensures !PastEndAt(node, segments, k) {
      }
    }
  }

  lemma PastEndBelow(node: Json, segments: seq<string>, child: Json)
    requires |segments| > 1 && Child(Lenient, node, segments[0]) == Some(child)
    ensures (exists k :: PastEndAt(node, segments, k)) <==> (exists k :: PastEndAt(child, segments[1..], k))
  {
    forall k: nat | 0 < k && k < |segments|
      ensures PastEndAt(node, segments, k) <==> PastEndAt(child, segments[1..], k - 1)
    {
      assert segments[..k][0] == segments[0] && segments[..k][1..] == segments[1..][..k - 1];
    }
    assert segments[..0] == [];
    assert !PastEndAt(node, segments, 0);
    if k: nat :| PastEndAt(node, segments, k) {
      assert PastEndAt(child, segments[1..], k - 1);
    }
    if k: nat :| PastEndAt(child, segments[1..], k) {
      assert PastEndAt(node, segments, k + 1);
    }
  }

  lemma NoEndBelow(node: Json, segments: seq<string>)
    requires |segments| > 1 && Child(Lenient, node, segments[0]) == None
    ensures forall k: nat :: PastEndAt(node, segments, k) ==> k == 0
  {
  }

  lemma {:induction false} EmptyNeverFails(segments: seq<string>, value: Json)
    requires segments != []
    ensures SetAt(Obj(map[]), segments, value).Ok?
    decreases |segments|
  {
    if |segments| > 1 {
      EmptyNeverFails(segments[1..], value);
    }
  }

  /** A write fails only on an empty path or an out-of-range parent index: the source's two `not
      reachable` errors never happen. */
  lemma SetFailsExactly(json: Json, path: string, value: Json)
    ensures Set(json, path, value).Err?
       <==> path == "" || exists k :: PastEndAt(json, Split(path, '/'), k)
  {
    if path != "" {
      SetAtFails(json, Split(path, '/'), value);
      assert Set(json, path, value) == SetAt(json, Split(path, '/'), value);
    }
  }

  /** The last segment is treated differently: past the end it turns the array into an object. */
  lemma LastIndexReplacesArray(items: seq<Json>, segment: string, value: Json)
    requires ParseUsize(segment).Some?
    ensures Set(Arr(items), segment, value)
         == Ok(if ParseUsize(segment).value < |items| then Arr(items[ParseUsize(segment).value := value])
               else Obj(map[segment := value]))
    ensures ParseUsize(segment).value >= |items| ==> Set(Arr(items), segment + "/x", value) == Err(PastArrayEnd)
  {
    var digits := if segment[0] == '+' then segment[1..] else segment;
    assert forall i :: 1 <= i < |segment| ==> segment[i] == segment[1..][i - 1];
    assert AllDigits(digits) && Free(segment, '/');
    SplitWhole(segment, '/');
    SplitHead(segment, '/', "x");
    assert segment + ['/'] + "x" == segment + "/x";
    assert map[][segment := value] == map[segment := value];
  }

  // ---------- what else a write touches ----------

  /** The paths part inside the document: at some depth both stand on the same container, the
      write keeps that container, and they take different slots of it. */
  ghost predicate Parts(node: Json, written: seq<string>, read: seq<string>)
    decreases |written|
  {
    && written != [] && read != []
    && (node.Obj? || (Indexes(node, written[0]) && ParseUsize(written[0]).value < |node.items|))
    && (SameSlot(node, written[0], read[0]) ==>
          && Child(Lenient, node, written[0]).Some?
          && Parts(Child(Lenient, node, written[0]).value, written[1..], read[1..]))
  }

  /** A write leaves every path that parts from it inside the document where it was. */
  lemma {:induction false} SetFrame(node: Json, segments: seq<string>, value: Json, read: seq<string>)
    requires segments != [] && SetAt(node, segments, value).Ok? && Parts(node, segments, read)
    ensures Walk(SetAt(node, segments, value).value, read) == Walk(node, read)
    decreases |segments|
  {
    if SameSlot(node, segments[0], read[0]) {
      var child := Child(Lenient, node, segments[0]).value;
      SetFrame(child, segments[1..], value, read[1..]);
    }
  }

  // ---------- what a write creates ----------

  /** An object in an object, one member each, down to the value. */
  function Chain(segments: seq<string>, value: Json): Json {
    if segments == [] then value else Obj(map[segments[0] := Chain(segments[1..], value)])
  }

  lemma {:induction false} EmptyBecomesChain(segments: seq<string>, value: Json)
    requires segments != []
    ensures SetAt(Obj(map[]), segments, value) == Ok(Chain(segments, value))
    decreases |segments|
  {
    var nothing: map<string, Json> := map[];
    if |segments| == 1 {
      assert segments[1..] == [];
      assert nothing[segments[0] := value] == map[segments[0] := value];
    } else {
      EmptyBecomesChain(segments[1..], value);
      assert nothing[segments[0] := Chain(segments[1..], value)] == map[segments[0] := Chain(segments[1..], value)];
    }
  }

  /** Where a path leaves the document, the write adds one member that holds nothing but the rest of
      the path: beside the other members of an object, and in place of anything else. */
  lemma CreatesChain(node: Json, segments: seq<string>, value: Json)
    requires segments != [] && !(node.Arr? && ParseUsize(segments[0]).Some?)
    requires node.Obj? ==> segments[0] !in node.members
    ensures SetAt(node, segments, value)
         == Ok(Obj((if node.Obj? then node.members else map[])[segments[0] := Chain(segments[1..], value)]))
  {
    if |segments| > 1 {
      EmptyBecomesChain(segments[1..], value);
    } else {
      assert segments[1..] == [];
    }
  }

  /** A write goes on from where its first segments lead, and what it makes of the value there is put
      back in its place. */
  lemma {:induction false} SetBelow(json: Json, front: seq<string>, rest: seq<string>, value: Json)
    requires rest != [] && Walk(json, front).Some?
    ensures SetAt(json, front + rest, value)
         == match SetAt(Walk(json, front).value, rest, value)
            case Ok(node) => Ok(Put(Lenient, json, front, node))
            case Err(e) => Err(e)
    decreases |front|
  {
    if front == [] {
      assert front + rest == rest;
    } else {
      var whole := front + rest;
      assert whole[1..] == front[1..] + rest && whole[0] == front[0];
      SetBelow(Child(Lenient, json, front[0]).value, front[1..], rest, value);
    }
  }

  /** Where a path leads to a value, the write replaces that value and nothing else. */
  lemma SetInPlace(json: Json, segments: seq<string>, value: Json)
    requires segments != [] && Walk(json, segments).Some?
    ensures SetAt(json, segments, value) == Ok(Put(Lenient, json, segments, value))
  {
    var front, last := segments[..|segments| - 1], segments[|segments| - 1];
    assert segments == front + [last];
    GetStep(Lenient, json, front, last);
    SetBelow(json, front, [last], value);
    PutStep(Lenient, json, front, last, value);
  }

  // ---------- the methods ----------

  /** `walk`, stepping its node from segment to segment. */
  method WalkPath(json: Json, path: string) returns (found: Option<Json>)
    ensures found == At(json, path)
  {
    var segments := Split(path, '/');
    var node := json;
    for i := 0 to |segments|
      invariant At(json, path) == Walk(node, segments[i..])
    {
      assert segments[i..][1..] == segments[i + 1..];
      match node {
        case Arr(items) =>
          var index := ParseUsize(segments[i]);
          if index.None? || index.value >= |items| {
            return None;
          }
          node := items[index.value];
        case Obj(members) =>
          if segments[i] !in members {
            return None;
          }
          node := members[segments[i]];
        case _ =>
          return None;
      }
    }
    return Some(node);
  }

  /** `util::set` as the source runs it: a cursor walks down a private copy, turning what is in
      its way into objects, and the last segment is written where it stops. */
  method SetPath(value: Json, path: string, replacement: Json) returns (result: Result<Json, SetError>)
    ensures result == Set(value, path, replacement)
  {
    if path == "" {
      return Err(NeedsPath);
    }
    var segments := Split(path, '/');
    var json, node := value, value;
    var i := 0;
    while i < |segments| - 1
      invariant 0 <= i < |segments|
      invariant Walk(json, segments[..i]) == Some(node)
      invariant Set(value, path, replacement) == Resume(json, segments, i, replacement)
    {
      var segment := segments[i];
      assert segments[..i + 1] == segments[..i] + [segment];
      if Indexes(node, segment) {
        var index := ParseUsize(segment).value;
        if index >= |node.items| {
          return Err(PastArrayEnd);
        }
        StepDown(json, segments, i, replacement);
        node := node.items[index];
      } else {
        var members := MembersOf(node);
        if segment !in members {
          members := members[segment := Obj(map[])];
        }
        ghost var before := json;
        json := Put(Lenient, json, segments[..i], Obj(members));
        PutGet(Lenient, before, segments[..i], Obj(members));
        MakeWay(before, segments, i, replacement);
        StepDown(json, segments, i, replacement);
        node := members[segment];
      }
      i := i + 1;
    }
    var last := segments[i];
    if Indexes(node, last) && ParseUsize(last).value < |node.items| {
      json := Put(Lenient, json, segments[..i], Arr(node.items[ParseUsize(last).value := replacement]));
    } else {
      json := Put(Lenient, json, segments[..i], Obj(MembersOf(node)[last := replacement]));
    }
    return Ok(json);
  }

  /** What is left to do with the cursor at depth `i`. */
  ghost function Resume(json: Json, segments: seq<string>, i: nat, value: Json): Result<Json, SetError>
    requires i < |segments| && Walk(json, segments[..i]).Some?
  {
    match SetAt(Walk(json, segments[..i]).value, segments[i..], value)
    case Ok(node) => Ok(Put(Lenient, json, segments[..i], node))
    case Err(e) => Err(e)
  }

  /** Making the node an object with the wanted member does not change what the write will do. */
  lemma MakeWay(json: Json, segments: seq<string>, i: nat, value: Json)
    requires i + 1 < |segments| && Walk(json, segments[..i]).Some?
    requires !Indexes(Walk(json, segments[..i]).value, segments[i])
    ensures var members := MembersOf(Walk(json, segments[..i]).value);
            var ready := if segments[i] in members then members else members[segments[i] := Obj(map[])];
            var made := Put(Lenient, json, segments[..i], Obj(ready));
            Walk(made, segments[..i]).Some? && Resume(made, segments, i, value) == Resume(json, segments, i, value)
  {
    var at := segments[..i];
    var members := MembersOf(Walk(json, at).value);
    var ready := if segments[i] in members then members else members[segments[i] := Obj(map[])];
    PutGet(Lenient, json, at, Obj(ready));
    var child := ready[segments[i]];
    match SetAt(child, segments[i..][1..], value) {
      case Ok(written) =>
        assert ready[segments[i] := written] == members[segments[i] := written];
        PutPut(Lenient, json, at, Obj(ready), Obj(members[segments[i] := written]));
      case Err(_) =>
    }
  }

  /** Stepping the cursor down one segment that is there. */
  lemma StepDown(json: Json, segments: seq<string>, i: nat, value: Json)
    requires i + 1 < |segments| && Walk(json, segments[..i]).Some?
    requires Child(Lenient, Walk(json, segments[..i]).value, segments[i]).Some?
    ensures Walk(json, segments[..i + 1]) == Child(Lenient, Walk(json, segments[..i]).value, segments[i])
    ensures Resume(json, segments, i, value) == Resume(json, segments, i + 1, value)
  {
    var at := segments[..i];
    var node := Walk(json, at).value;
    assert segments[..i + 1] == at + [segments[i]];
    assert segments[i..][1..] == segments[i + 1..];
    GetStep(Lenient, json, at, segments[i]);
    match SetAt(Child(Lenient, node, segments[i]).value, segments[i + 1..], value) {
      case Ok(written) => PutStep(Lenient, json, at, segments[i], written);
      case Err(_) =>
    }
  }
}
