/** Whole patches: what a run of operations is, where it stops, what a failure leaves behind, and
    how large a document can grow. */
module PatchRuns {
  import opened Wrappers
  import opened Text
  import opened Json
  import opened Pointer
  import opened Tree
  import opened Patch
  import opened PatchLaws

  // ---------- runs ----------

  /** A run of a patch: the documents before and after each operation, every one succeeding. */
  ghost predicate IsRun(docs: seq<Json>, ops: seq<Json>) {
    && |docs| == |ops| + 1
    && forall i :: 0 <= i < |ops| ==> ApplyOne(docs[i], ops[i]) == Applied(docs[i + 1], None)
  }

  /** Applying two lists in turn is applying their concatenation, the second counted on from the
      first. */
  lemma {:induction false} ApplyFromAppend(root: Json, a: seq<Json>, b: seq<Json>, first: nat)
    ensures ApplyFrom(root, a + b, first)
         == var head := ApplyFrom(root, a, first);
            if head.failure.Some? then head else ApplyFrom(head.doc, b, first + |a|)
    decreases |a|
  {
    hide ApplyOne;
    if a == [] {
      assert a + b == b;
    } else {
      assert (a + b)[1..] == a[1..] + b;
      ApplyFromAppend(ApplyOne(root, a[0]).doc, a[1..], b, first + 1);
    }
  }

  lemma {:induction false} RunFromApply(root: Json, ops: seq<Json>, first: nat) returns (docs: seq<Json>)
    requires ApplyFrom(root, ops, first).failure == None
    ensures IsRun(docs, ops) && docs[0] == root && docs[|ops|] == ApplyFrom(root, ops, first).doc
    decreases |ops|
  {
    hide ApplyOne;
    if ops == [] {
      docs := [root];
    } else {
      var rest := RunFromApply(ApplyOne(root, ops[0]).doc, ops[1..], first + 1);
      docs := [root] + rest;
    }
  }

  lemma {:induction false} ApplyFromRun(docs: seq<Json>, ops: seq<Json>, first: nat)
    requires IsRun(docs, ops)
    ensures ApplyFrom(docs[0], ops, first) == Applied(docs[|ops|], None)
    decreases |ops|
  {
    hide ApplyOne;
    if ops != [] {
      assert IsRun(docs[1..], ops[1..]) by {
        forall i | 0 <= i < |ops[1..]|
          ensures ApplyOne(docs[1..][i], ops[1..][i]) == Applied(docs[1..][i + 1], None)
        {
          assert ApplyOne(docs[i + 1], ops[i + 1]) == Applied(docs[i + 2], None);
        }
      }
      assert ApplyOne(docs[0], ops[0]) == Applied(docs[0 + 1], None);
      ApplyFromRun(docs[1..], ops[1..], first + 1);
    }
  }

  /** A patch yields a document exactly when it is a list within the cap and some run of all its
      operations leads from the target to that document. */
  lemma PatchSucceedsIffRun(target: Json, ops: Json, result: Json)
    ensures JsonPatch(target, ops) == Ok(result)
       <==> && ops.Arr? && |ops.items| <= 1024
            && exists docs :: IsRun(docs, ops.items) && docs[0] == target && docs[|ops.items|] == result
  {
    if JsonPatch(target, ops) == Ok(result) {
      var docs := RunFromApply(target, ops.items, 0);
    } else if ops.Arr? && |ops.items| <= MAX_PATCH_OPS {
      forall docs | IsRun(docs, ops.items) && docs[0] == target
        ensures docs[|ops.items|] != result
      {
        ApplyFromRun(docs, ops.items, 0);
      }
    }
  }

  lemma {:induction false} FailureIndex(root: Json, ops: seq<Json>, first: nat)
    requires ApplyFrom(root, ops, first).failure.Some?
    ensures ApplyFrom(root, ops, first).failure.value.AtOp?
    ensures first <= ApplyFrom(root, ops, first).failure.value.index < first + |ops|
    decreases |ops|
  {
    hide ApplyOne;
    if ApplyOne(root, ops[0]).failure == None {
      FailureIndex(ApplyOne(root, ops[0]).doc, ops[1..], first + 1);
    }
  }

  /** The index a failing patch names is the least failing one: everything before it ran, and the
      operation there fails on the document that run left. */
  lemma FailureNamesFirst(root: Json, ops: seq<Json>, k: nat, cause: PatchError)
    ensures ApplyFrom(root, ops, 0).failure == Some(AtOp(k, cause))
       <==> && k < |ops|
            && ApplyFrom(root, ops[..k], 0).failure == None
            && ApplyOne(ApplyFrom(root, ops[..k], 0).doc, ops[k]).failure == Some(cause)
  {
    hide ApplyOne;
    if k < |ops| {
      assert ops == ops[..k] + ops[k..];
      ApplyFromAppend(root, ops[..k], ops[k..], 0);
      var head := ApplyFrom(root, ops[..k], 0);
      if head.failure.Some? {
        FailureIndex(root, ops[..k], 0);
      } else if ApplyOne(head.doc, ops[k]).failure == None && ApplyFrom(head.doc, ops[k..], k).failure.Some? {
        assert ops[k..][0] == ops[k];
        FailureIndex(ApplyOne(head.doc, ops[k]).doc, ops[k..][1..], k + 1);
      }
    } else if ApplyFrom(root, ops, 0).failure.Some? {
      FailureIndex(root, ops, 0);
    }
  }

  /** Within the cap, a concatenated patch is its two halves in turn, and only the index a failure
      of the second half reports is different. */
  lemma PatchConcatenates(target: Json, a: seq<Json>, b: seq<Json>)
    requires |a| + |b| <= 1024
    ensures match JsonPatch(target, Arr(a))
            case Err(e) => JsonPatch(target, Arr(a + b)) == Err(e)
            case Ok(mid) =>
              match JsonPatch(mid, Arr(b))
              case Ok(result) => JsonPatch(target, Arr(a + b)) == Ok(result)
              case Err(e) => e.AtOp? && JsonPatch(target, Arr(a + b)) == Err(AtOp(|a| + e.index, e.cause))
  {
    hide ApplyFrom, ApplyPatch, JsonPatch;
    ApplyFromAppend(target, a, b, 0);
    WithinCap(target, a);
    WithinCap(target, a + b);
    if JsonPatch(target, Arr(a)).Ok? {
      var mid := ApplyFrom(target, a, 0).doc;
      WithinCap(mid, b);
      Renumber(mid, b, 0, |a|);
    }
  }

  /** A `test` in front guards a patch: the whole succeeds exactly when the place holds the tested
      value and the rest succeeds, with the same result. */
  lemma TestGuards(target: Json, test: Json, path: seq<string>, value: Json, rest: seq<Json>, result: Json)
    requires ReadOperation(test) == Ok(TestOp(path, value)) && |rest| < 1024
    ensures JsonPatch(target, Arr([test] + rest)) == Ok(result)
       <==> Resolve(target, path) == Some(value) && JsonPatch(target, Arr(rest)) == Ok(result)
  {
    hide ReadOperation, JsonPatch, Get;
    WithinCap(target, [test] + rest);
    WithinCap(target, rest);
    assert ([test] + rest)[1..] == rest;
    Renumber(target, rest, 0, 1);
  }

  lemma WithinCap(target: Json, ops: seq<Json>)
    requires |ops| <= MAX_PATCH_OPS
    ensures JsonPatch(target, Arr(ops))
         == match ApplyFrom(target, ops, 0).failure
            case None => Ok(ApplyFrom(target, ops, 0).doc)
            case Some(e) => Err(e)
  {
  }

  lemma {:induction false} Renumber(root: Json, ops: seq<Json>, first: nat, shift: nat)
    ensures ApplyFrom(root, ops, first).doc == ApplyFrom(root, ops, first + shift).doc
    ensures match ApplyFrom(root, ops, first).failure
            case None => ApplyFrom(root, ops, first + shift).failure == None
            case Some(e) =>
              e.AtOp? && ApplyFrom(root, ops, first + shift).failure == Some(AtOp(e.index + shift, e.cause))
    decreases |ops|
  {
    hide ApplyOne;
    if ops != [] {
      Renumber(ApplyOne(root, ops[0]).doc, ops[1..], first + 1, shift);
    }
  }

  // ---------- what a whole patch leaves alone ----------

  /** The pointer diverges from every container the operation edits. */
  ghost predicate Avoids(op: Operation, q: seq<string>) {
    match op
    case AddOp(path, _) => path != [] && Diverge(Parent(path), q)
    case RemoveOp(path) => path != [] ==> Diverge(Parent(path), q)
    case ReplaceOp(path, _) => Diverge(path, q)
    case MoveOp(from, path) =>
      && path != [] && Diverge(Parent(path), q)
      && (from != [] ==> Diverge(Parent(from), q))
    case CopyOp(_, path) => path != [] && Diverge(Parent(path), q)
    case TestOp(_, _) => true
  }

  lemma AddAvoids(root: Json, path: seq<string>, value: Json, q: seq<string>)
    requires path != [] && Diverge(Parent(path), q)
    ensures Resolve(Settle(root, Add(root, path, value)).doc, q) == Resolve(root, q)
  {
    if Add(root, path, value).Ok? {
      var parent := Resolve(root, Parent(path)).value;
      PutFrame(root, Parent(path), AddTo(parent, Last(path), value).value, q);
    }
  }

  lemma RemoveAvoids(root: Json, path: seq<string>, q: seq<string>)
    requires Remove(root, path).Ok? && Diverge(Parent(path), q)
    ensures Resolve(Remove(root, path).value.rest, q) == Resolve(root, q)
  {
    var parent := Resolve(root, Parent(path)).value;
    PutFrame(root, Parent(path), RemoveFrom(parent, Last(path)).value.rest, q);
  }

  lemma PerformAvoids(root: Json, op: Operation, q: seq<string>)
    requires Avoids(op, q)
    ensures Resolve(Perform(root, op).doc, q) == Resolve(root, q)
  {
    match op {
      case AddOp(path, value) => AddAvoids(root, path, value, q);
      case RemoveOp(path) => if Remove(root, path).Ok? { RemoveAvoids(root, path, q); }
      case ReplaceOp(path, value) => if Resolve(root, path).Some? { PutFrame(root, path, value, q); }
      case MoveOp(from, path) =>
        if Remove(root, from).Ok? {
          RemoveAvoids(root, from, q);
          AddAvoids(Remove(root, from).value.rest, path, Remove(root, from).value.value, q);
        }
      case CopyOp(from, path) =>
        if Resolve(root, from).Some? { AddAvoids(root, path, Resolve(root, from).value, q); }
      case TestOp(_, _) =>
    }
  }

  /** A pointer that diverges from every container a patch edits reads the same afterwards, however
      many operations there are and however the patch ends. */
  lemma {:induction false} RunFrame(root: Json, ops: seq<Json>, first: nat, q: seq<string>)
    requires forall i :: 0 <= i < |ops| && ReadOperation(ops[i]).Ok? ==> Avoids(ReadOperation(ops[i]).value, q)
    ensures Resolve(ApplyFrom(root, ops, first).doc, q) == Resolve(root, q)
    decreases |ops|
  {
    hide ReadOperation, Perform, Avoids, Get;
    if ops != [] {
      if ReadOperation(ops[0]).Ok? {
        PerformAvoids(root, ReadOperation(ops[0]).value, q);
      }
      RunFrame(ApplyOne(root, ops[0]).doc, ops[1..], first + 1, q);
    }
  }

  // ---------- where a whole patch takes a value ----------

  /** Where an add at `p` leaves the value at `q`, or nothing if the add changes that value itself:
      `q` is the container or above it, or is at or under a member the add overwrites. */
  ghost function AfterAddOp(root: Json, p: seq<string>, value: Json, q: seq<string>): Option<seq<string>> {
    if Add(root, p, value).Err? then Some(q)
    else if p == [] || q <= Parent(p) then None
    else
      var parent := Resolve(root, Parent(p)).value;
      if !Addressable(parent) || (parent.Obj? && p <= q) then None else Some(AfterAdd(root, p, q))
  }

  ghost function AfterRemoveOp(root: Json, p: seq<string>, q: seq<string>): Option<seq<string>> {
    if Remove(root, p).Err? then Some(q)
    else if q <= Parent(p) || p <= q then None
    else Some(AfterRemove(root, p, q))
  }

  /** A move carries everything under its source along, and leaves the rest as a removal and an add
      do. */
  ghost function AfterMoveOp(root: Json, from: seq<string>, to: seq<string>, q: seq<string>): Option<seq<string>> {
    if (|to| > |from| && to[..|from|] == from) || Remove(root, from).Err? then Some(q)
    else
      var rest, value := Remove(root, from).value.rest, Remove(root, from).value.value;
      if from <= q then
        if Add(rest, to, value).Ok? && AddressableAt(rest, to)
        then Some(Landed(rest, to) + q[|from|..]) else None
      else
        match AfterRemoveOp(root, from, q)
        case None => None
        case Some(kept) => AfterAddOp(rest, to, value, kept)
  }

  /** Where one operation leaves the value at `q`. */
  ghost function AfterOp(root: Json, op: Operation, q: seq<string>): Option<seq<string>> {
    match op
    case AddOp(p, value) => AfterAddOp(root, p, value, q)
    case RemoveOp(p) => AfterRemoveOp(root, p, q)
    case ReplaceOp(p, _) => if Resolve(root, p) == None || Diverge(p, q) then Some(q) else None
    case MoveOp(from, to) => AfterMoveOp(root, from, to, q)
    case CopyOp(from, to) =>
      if Copy(root, from, to).failure.Some? then Some(q)
      else AfterAddOp(root, to, Resolve(root, from).value, q)
    case TestOp(_, _) => Some(q)
  }

  /** Where a run leaves the value at `q`, following it from operation to operation. */
  ghost function AfterRun(root: Json, ops: seq<Json>, q: seq<string>): Option<seq<string>>
    decreases |ops|
  {
    if ops == [] then Some(q)
    else
      var step := ApplyOne(root, ops[0]);
      var next := match ReadOperation(ops[0]) case Ok(op) => AfterOp(root, op, q) case Err(_) => Some(q);
      match next
      case None => None
      case Some(moved) => if step.failure.Some? then Some(moved) else AfterRun(step.doc, ops[1..], moved)
  }

  lemma AfterAddOpFollows(root: Json, p: seq<string>, value: Json, q: seq<string>)
    ensures match AfterAddOp(root, p, value, q)
            case Some(moved) => Resolve(Settle(root, Add(root, p, value)).doc, moved) == Resolve(root, q)
            case None => true
  {
    if AfterAddOp(root, p, value, q).Some? && Add(root, p, value).Ok? {
      AddFrame(root, p, value, q);
    }
  }

  lemma AfterRemoveOpFollows(root: Json, p: seq<string>, q: seq<string>)
    requires Remove(root, p).Ok?
    ensures match AfterRemoveOp(root, p, q)
            case Some(moved) => Resolve(Remove(root, p).value.rest, moved) == Resolve(root, q)
            case None => true
  {
    if AfterRemoveOp(root, p, q).Some? {
      RemoveFrame(root, p, q);
    }
  }

  lemma AfterMoveOpFollows(root: Json, from: seq<string>, to: seq<string>, q: seq<string>)
    ensures match AfterMoveOp(root, from, to, q)
            case Some(moved) => Resolve(Move(root, from, to).doc, moved) == Resolve(root, q)
            case None => true
  {
    hide Put, Add, Remove, AddTo, RemoveFrom;
    if !(|to| > |from| && to[..|from|] == from) && Remove(root, from).Ok? {
      var rest, value := Remove(root, from).value.rest, Remove(root, from).value.value;
      if from <= q {
        if AfterMoveOp(root, from, to, q).Some? {
          MovedBelow(root, from, to, q[|from|..]);
          assert q == from + q[|from|..];
        }
      } else if AfterRemoveOp(root, from, q).Some? {
        AfterRemoveOpFollows(root, from, q);
        AfterAddOpFollows(rest, to, value, AfterRemoveOp(root, from, q).value);
      }
    }
  }

  lemma MovedBelow(root: Json, from: seq<string>, to: seq<string>, below: seq<string>)
    requires Remove(root, from).Ok?
    requires var removed := Remove(root, from).value;
             Add(removed.rest, to, removed.value).Ok? && AddressableAt(removed.rest, to)
    ensures to != [] ==> Resolve(Remove(root, from).value.rest, Parent(to)).Some?
    ensures var removed := Remove(root, from).value;
            Resolve(Add(removed.rest, to, removed.value).value, Landed(removed.rest, to) + below)
            == Resolve(root, from + below)
  {
    var removed := Remove(root, from).value;
    var moved := Add(removed.rest, to, removed.value).value;
    RemoveMeansResolve(root, from);
    AddReads(removed.rest, to, removed.value);
    GetAppend(Strict, moved, Landed(removed.rest, to), below);
    GetAppend(Strict, root, from, below);
  }

  lemma AfterOpFollows(root: Json, op: Operation, q: seq<string>)
    ensures match AfterOp(root, op, q)
            case Some(moved) => Resolve(Perform(root, op).doc, moved) == Resolve(root, q)
            case None => true
  {
    hide AfterAddOp, AfterRemoveOp, AfterMoveOp, Move, Add, Nodes;
    match op {
      case AddOp(p, value) => AfterAddOpFollows(root, p, value, q);
      case RemoveOp(p) =>
        if Remove(root, p).Ok? { AfterRemoveOpFollows(root, p, q); } else { StaysIfNotRemoved(root, p, q); }
      case ReplaceOp(p, value) => if Resolve(root, p).Some? && Diverge(p, q) { PutFrame(root, p, value, q); }
      case MoveOp(from, to) => AfterMoveOpFollows(root, from, to, q);
      case CopyOp(from, to) =>
        if Resolve(root, from).Some? { AfterAddOpFollows(root, to, Resolve(root, from).value, q); }
      case TestOp(_, _) =>
    }
  }

  lemma StaysIfNotRemoved(root: Json, p: seq<string>, q: seq<string>)
    requires Remove(root, p).Err?
    ensures AfterRemoveOp(root, p, q) == Some(q)
  {
  }

  /** A value a run never touches reads the same where the run leaves it, through every shift of its
      arrays and every move of what holds it, and however the run ends. */
  lemma {:induction false} RunFollows(root: Json, ops: seq<Json>, first: nat, q: seq<string>)
    requires AfterRun(root, ops, q).Some?
    ensures Resolve(ApplyFrom(root, ops, first).doc, AfterRun(root, ops, q).value) == Resolve(root, q)
    decreases |ops|
  {
    hide ReadOperation, Perform, AfterOp, Get;
    if ops != [] {
      match ReadOperation(ops[0]) {
        case Ok(op) =>
          AfterOpFollows(root, op, q);
          if ApplyOne(root, ops[0]).failure == None {
            RunFollows(ApplyOne(root, ops[0]).doc, ops[1..], first + 1, AfterOp(root, op, q).value);
          }
        case Err(_) =>
      }
    }
  }

  // ---------- operations as JSON ----------

  /** An operation written out as section 4 of RFC 6902 has it. */
  function WriteOperation(op: Operation): Json {
    match op
    case AddOp(path, value) => Obj(map["op" := Str("add"), "path" := Str(PrintPointer(path)), "value" := value])
    case RemoveOp(path) => Obj(map["op" := Str("remove"), "path" := Str(PrintPointer(path))])
    case ReplaceOp(path, value) =>
      Obj(map["op" := Str("replace"), "path" := Str(PrintPointer(path)), "value" := value])
    case MoveOp(from, path) =>
      Obj(map["op" := Str("move"), "from" := Str(PrintPointer(from)), "path" := Str(PrintPointer(path))])
    case CopyOp(from, path) =>
      Obj(map["op" := Str("copy"), "from" := Str(PrintPointer(from)), "path" := Str(PrintPointer(path))])
    case TestOp(path, value) => Obj(map["op" := Str("test"), "path" := Str(PrintPointer(path)), "value" := value])
  }

  /** Every operation can be written, and is read back as itself. */
  lemma OperationRoundTrip(op: Operation)
    ensures ReadOperation(WriteOperation(op)) == Ok(op)
  {
    hide PrintPointer, PointerTokens;
    ReadPrinted(op.path);
    if op.MoveOp? || op.CopyOp? {
      ReadPrinted(op.from);
    }
  }

  /** `json` spells the operation: its name, its pointers and its value, whatever else it holds. */
  ghost predicate Spells(json: Json, op: Operation) {
    && json.Obj? && HoldsPointer(json.members, "path", op.path)
    && match op
       case AddOp(_, value) => Holds(json.members, "op", Str("add")) && Holds(json.members, "value", value)
       case RemoveOp(_) => Holds(json.members, "op", Str("remove"))
       case ReplaceOp(_, value) => Holds(json.members, "op", Str("replace")) && Holds(json.members, "value", value)
       case MoveOp(from, _) => Holds(json.members, "op", Str("move")) && HoldsPointer(json.members, "from", from)
       case CopyOp(from, _) => Holds(json.members, "op", Str("copy")) && HoldsPointer(json.members, "from", from)
       case TestOp(_, value) => Holds(json.members, "op", Str("test")) && Holds(json.members, "value", value)
  }

  predicate Holds(members: map<string, Json>, key: string, value: Json) {
    key in members && members[key] == value
  }

  predicate HoldsPointer(members: map<string, Json>, key: string, tokens: seq<string>) {
    key in members && members[key].Str? && PointerTokens(members[key].text) == Ok(tokens)
  }

  /** A value is read as an operation exactly when it spells it; anything else is refused. */
  lemma ReadOperationExactly(json: Json, op: Operation)
    ensures ReadOperation(json) == Ok(op) <==> Spells(json, op)
  {
    hide PointerTokens;
    assert |"add"| == 3 && |"remove"| == 6 && |"replace"| == 7;
    assert "test"[0] == 't' && "move"[0] == 'm' && "copy"[0] == 'c';
  }

  /** A patch of one operation does what that operation does, and a failure is reported at index
      0. */
  lemma OneOperation(target: Json, op: Operation)
    ensures JsonPatch(target, Arr([WriteOperation(op)]))
         == match Perform(target, op).failure
            case None => Ok(Perform(target, op).doc)
            case Some(e) => Err(AtOp(0, e))
  {
    hide ReadOperation, WriteOperation, Perform;
    OperationRoundTrip(op);
    var ops := [WriteOperation(op)];
    assert ApplyOne(target, ops[0]) == Perform(target, op);
    assert ops[1..] == [];
    assert ApplyFrom(Perform(target, op).doc, [], 1) == Applied(Perform(target, op).doc, None);
    assert Arr(ops).items == ops;
  }

  /** An add at the root is the whole new document, whatever the old one was; so is a replace. */
  lemma RootIsReplaced(target: Json, value: Json)
    ensures JsonPatch(target, Arr([WriteOperation(AddOp([], value))])) == Ok(value)
    ensures JsonPatch(target, Arr([WriteOperation(ReplaceOp([], value))])) == Ok(value)
  {
    hide WriteOperation;
    OneOperation(target, AddOp([], value));
    OneOperation(target, ReplaceOp([], value));
  }

  // ---------- what a failed operation leaves ----------

  /** What stands, before a removal at `from`, where `at` will lead after it: slots from the removed
      one on are found one further along. */
  function StandsAt(root: Json, from: seq<string>, at: seq<string>): Option<Json>
    requires from != [] && Resolve(root, from).Some?
  {
    ResolveLast(root, from);
    var parent := Resolve(root, Parent(from)).value;
    if parent.Arr? && Parent(from) <= at && |from| <= |at| then
      var removed := IndexOf(Strict, Last(from), 0).value;
      match IndexOf(Strict, at[|from| - 1], 0)
      case None => None
      case Some(j) =>
        var slot := if j >= removed then j + 1 else j;
        if slot < |parent.items| then Resolve(parent.items[slot], at[|from|..]) else None
    else Resolve(root, at)
  }

  /** How many items an array at `at` will hold once `from` is removed. */
  function LengthAfter(items: seq<Json>, from: seq<string>, at: seq<string>): int
    requires from != []
  {
    |items| - if at == Parent(from) then 1 else 0
  }

  /** The place has a container, and the container takes an add, once `from` is removed. */
  ghost predicate HasRoom(root: Json, from: seq<string>, to: seq<string>)
    requires from != [] && Resolve(root, from).Some?
  {
    to == []
    || match StandsAt(root, from, Parent(to))
       case Some(Obj(_)) => true
       case Some(Arr(items)) => Admits(LengthAfter(items, from, Parent(to)), Last(to))
       case _ => false
  }

  /** The one way an operation can fail with the document changed: a move whose source is there and
      may come out, to a place that has no room for it. All of it can be read off the document
      before the call. */
  ghost predicate LosesValue(root: Json, op: Json) {
    match ReadOperation(op)
    case Ok(MoveOp(from, to)) =>
      && from != [] && Resolve(root, from).Some?
      && !(|to| > |from| && to[..|from|] == from)
      && !HasRoom(root, from, to)
    case _ => false
  }

  /** A write below a place leaves that place a container of the same kind and length. */
  lemma PutAbove(root: Json, at: seq<string>, below: seq<string>, value: Json)
    requires below != [] && Resolve(root, at + below).Some?
    ensures Resolve(root, at).Some? && Resolve(Put(Strict, root, at + below, value), at).Some?
    ensures var before, after := Resolve(root, at).value, Resolve(Put(Strict, root, at + below, value), at).value;
            && (before.Obj? <==> after.Obj?) && (before.Arr? <==> after.Arr?)
            && (before.Arr? ==> |before.items| == |after.items|)
    decreases |at|
  {
    if at == [] {
      assert at + below == below;
    } else {
      assert (at + below)[1..] == at[1..] + below;
      PutAbove(Child(Strict, root, at[0]).value, at[1..], below, value);
    }
  }

  /** After the removal, what stands at `at` is what stood at its place before, except that the
      containers down to the removed value have changed inside. */
  lemma StandsAfterRemove(root: Json, from: seq<string>, at: seq<string>)
    requires Remove(root, from).Ok? && !(from <= at)
    ensures Resolve(root, from).Some?
    ensures var rest := Remove(root, from).value.rest;
            match StandsAt(root, from, at)
            case None => Resolve(rest, at) == None
            case Some(Obj(_)) => Resolve(rest, at).Some? && Resolve(rest, at).value.Obj?
            case Some(Arr(items)) =>
              && Resolve(rest, at).Some? && Resolve(rest, at).value.Arr?
              && |Resolve(rest, at).value.items| == LengthAfter(items, from, at)
            case Some(_) =>
              Resolve(rest, at).Some? && !Resolve(rest, at).value.Arr? && !Resolve(rest, at).value.Obj?
  {
    RemoveMeansResolve(root, from);
    ResolveLast(root, from);
    var above := Parent(from);
    var container := RemoveFrom(Resolve(root, above).value, Last(from)).value.rest;
    if at == above {
      PutGet(Strict, root, above, container);
    } else if at <= above {
      assert above == at + above[|at|..];
      PutAbove(root, at, above[|at|..], container);
    } else if above <= at {
      StandsBelow(root, from, at);
    } else {
      PutFrame(root, above, container, at);
    }
  }

  /** What a token finds in a container something was removed from. */
  lemma ChildAfterRemoval(parent: Json, last: string, token: string)
    requires RemoveFrom(parent, last).Ok? && (parent.Obj? ==> token != last)
    ensures Child(Strict, parent, last).Some?
    ensures Child(Strict, RemoveFrom(parent, last).value.rest, token)
         == if parent.Arr? then
              var removed := IndexOf(Strict, last, 0).value;
              match IndexOf(Strict, token, 0)
              case None => None
              case Some(j) =>
                var slot := if j >= removed then j + 1 else j;
                if slot < |parent.items| then Some(parent.items[slot]) else None
            else Child(Strict, parent, token)
  {
    hide AllDigits, ParseUsize;
    if parent.Arr? {
      var i := IndexOf(Strict, last, 0).value;
      var rest := parent.items[..i] + parent.items[i + 1..];
      assert RemoveFrom(parent, last).value.rest == Arr(rest);
      ChildAt(rest, token);
      if IndexOf(Strict, token, 0).Some? {
        var j := IndexOf(Strict, token, 0).value;
        SlotAfterRemoval(parent.items, i, if j >= i then j + 1 else j);
      }
    }
  }

  lemma StandsBelow(root: Json, from: seq<string>, at: seq<string>)
    requires Remove(root, from).Ok? && !(from <= at) && Parent(from) <= at && Parent(from) != at
    ensures Resolve(root, from).Some?
    ensures Resolve(Remove(root, from).value.rest, at) == StandsAt(root, from, at)
  {
    hide Child, IndexOf, Put, RemoveFrom;
    RemoveMeansResolve(root, from);
    ResolveLast(root, from);
    var above, k := Parent(from), |from| - 1;
    var parent := Resolve(root, above).value;
    var container := RemoveFrom(parent, Last(from)).value.rest;
    var below := at[k..];
    assert at == above + below && below[0] == at[k] && below[1..] == at[k + 1..];
    PrefixByLast(from, at);
    PutThrough(Strict, root, above, container, below);
    GetAppend(Strict, root, above, below);
    ChildAfterRemoval(parent, Last(from), at[k]);
  }

  /** Adding the removed value elsewhere works exactly where there is room for it. */
  lemma RoomIsExact(root: Json, from: seq<string>, to: seq<string>, value: Json)
    requires Remove(root, from).Ok? && !(|to| > |from| && to[..|from|] == from)
    ensures Resolve(root, from).Some?
    ensures Add(Remove(root, from).value.rest, to, value).Ok? <==> HasRoom(root, from, to)
  {
    RemoveMeansResolve(root, from);
    AddExactly(Remove(root, from).value.rest, to, value);
    if to != [] {
      assert !(from <= Parent(to));
      StandsAfterRemove(root, from, Parent(to));
    }
  }

  /** A failed operation changes the document exactly when it is such a move. */
  lemma FailedOpChangesExactly(root: Json, op: Json)
    requires ApplyOne(root, op).failure.Some?
    ensures ApplyOne(root, op).doc != root <==> LosesValue(root, op)
  {
    hide ReadOperation, Nodes, Put, HasRoom, Add, Resolve;
    match ReadOperation(op) {
      case Ok(MoveOp(from, to)) =>
        if from != [] {
          RemoveMeansResolve(root, from);
        }
        if Remove(root, from).Ok? && !(|to| > |from| && to[..|from|] == from) {
          RoomIsExact(root, from, to, Remove(root, from).value.value);
          RemoveConserves(root, from);
        }
      case _ =>
    }
  }

  const ONE_MEMBER: Json := Obj(map["a" := Null])

  const LOSING_MOVE: Json := WriteOperation(MoveOp(["a"], ["b", "c"]))

  lemma LosesMember()
    ensures Move(ONE_MEMBER, ["a"], ["b", "c"]) == Applied(Obj(map[]), Some(ParentMissing))
  {
    var empty: map<string, Json> := map[];
    assert Parent(["a"]) == [] && Parent(["b", "c"]) == ["b"];
    assert ONE_MEMBER.members - {"a"} == empty;
    assert Remove(ONE_MEMBER, ["a"]) == Ok(Removed(Obj(empty), Null));
    assert Resolve(Obj(empty), ["b"]) == None;
  }

  /** The engine alone is not atomic: this move fails and the document has lost its value. */
  lemma HalfPatched()
    ensures ApplyPatch(ONE_MEMBER, Arr([LOSING_MOVE])) == Applied(Obj(map[]), Some(AtOp(0, ParentMissing)))
    ensures JsonPatch(ONE_MEMBER, Arr([LOSING_MOVE])) == Err(AtOp(0, ParentMissing))
  {
    OperationRoundTrip(MoveOp(["a"], ["b", "c"]));
    LosesMember();
    assert ApplyOne(ONE_MEMBER, LOSING_MOVE) == Applied(Obj(map[]), Some(ParentMissing));
    assert Arr([LOSING_MOVE]).items == [LOSING_MOVE];
  }

  // ---------- sizes ----------

  lemma {:induction false} NodesAppend(a: seq<Json>, b: seq<Json>)
    ensures NodesAll(a + b) == NodesAll(a) + NodesAll(b)
  {
    if a == [] {
      assert a + b == b;
    } else {
      assert (a + b)[1..] == a[1..] + b;
      NodesAppend(a[1..], b);
    }
  }

  lemma NodesAt(items: seq<Json>, i: nat)
    requires i < |items|
    ensures NodesAll(items) == NodesAll(items[..i]) + Nodes(items[i]) + NodesAll(items[i + 1..])
  {
    NodesAppend(items[..i], items[i..]);
    assert items[..i] + items[i..] == items;
    assert items[i..][1..] == items[i + 1..];
  }

  lemma NodesOneMore(items: seq<Json>, i: nat)
    requires i < |items|
    ensures NodesAll(items[..i + 1]) == NodesAll(items[..i]) + Nodes(items[i])
  {
    NodesAt(items[..i + 1], i);
    assert items[..i + 1][..i] == items[..i];
  }

  lemma NodesArr(items: seq<Json>)
    ensures Nodes(Arr(items)) == 1 + NodesAll(items) && NodesAll([]) == 0
  {
  }

  lemma NodesLeaf(value: Json)
    requires !value.Arr? && !value.Obj?
    ensures Nodes(value) == 1
  {
  }

  lemma NodesMember(members: map<string, Json>, key: string)
    requires key in members
    ensures Nodes(Obj(members)) == Nodes(members[key]) + Nodes(Obj(members - {key}))
  {
    TotalRemove(NodesOf(members), key);
    assert NodesOf(members) - {key} == NodesOf(members - {key});
    NodesObj(members);
    NodesObj(members - {key});
  }

  lemma NodesObj(members: map<string, Json>)
    ensures Nodes(Obj(members)) == 1 + Total(NodesOf(members))
  {
  }

  lemma NodesNoMembers()
    ensures Nodes(Obj(map[])) == 1
  {
  }

  lemma NodesInsert(members: map<string, Json>, key: string, value: Json)
    ensures Nodes(Obj(members[key := value]))
         == Nodes(Obj(members)) + Nodes(value) - (if key in members then Nodes(members[key]) else 0)
  {
    var after := members[key := value];
    NodesMember(after, key);
    assert after - {key} == members - {key};
    if key in members {
      NodesMember(members, key);
    } else {
      assert members - {key} == members;
    }
  }

  lemma NodesSetChild(node: Json, token: string, value: Json)
    requires Child(Strict, node, token).Some?
    ensures Nodes(SetChild(Strict, node, token, value)) + Nodes(Child(Strict, node, token).value)
         == Nodes(node) + Nodes(value)
  {
    if node.Arr? {
      var i := IndexOf(Strict, token, |node.items|).value;
      var after := node.items[i := value];
      NodesAt(node.items, i);
      NodesAt(after, i);
      assert after[..i] == node.items[..i] && after[i + 1..] == node.items[i + 1..];
    } else {
      NodesInsert(node.members, token, value);
    }
  }

  lemma {:induction false} NodesPut(root: Json, at: seq<string>, value: Json)
    requires Resolve(root, at).Some?
    ensures Nodes(Put(Strict, root, at, value)) + Nodes(Resolve(root, at).value)
         == Nodes(root) + Nodes(value)
    decreases |at|
  {
    if at != [] {
      var child := Child(Strict, root, at[0]).value;
      NodesPut(child, at[1..], value);
      NodesSetChild(root, at[0], Put(Strict, child, at[1..], value));
    }
  }

  lemma NodesAddTo(parent: Json, last: string, value: Json)
    requires AddTo(parent, last, value).Ok?
    ensures Nodes(AddTo(parent, last, value).value)
         == Nodes(parent) + Nodes(value)
            - (if parent.Obj? && last in parent.members then Nodes(parent.members[last]) else 0)
  {
    if parent.Arr? {
      var i := ArrayIndex(last, |parent.items|, true).value;
      var before, after := parent.items[..i], parent.items[i..];
      assert before + after == parent.items;
      NodesAppend(before, after);
      NodesAppend(before + [value], after);
      NodesAppend(before, [value]);
      assert NodesAll([value]) == Nodes(value) + NodesAll([]) by { assert [value][1..] == []; }
    } else {
      NodesInsert(parent.members, last, value);
    }
  }

  /** An add grows the document by the value's nodes, less those of a member it overwrote. */
  lemma AddGrowth(root: Json, p: seq<string>, value: Json)
    requires Add(root, p, value).Ok?
    ensures p != [] ==> Resolve(root, Parent(p)).Some?
    ensures Nodes(Add(root, p, value).value)
         == Nodes(root) + Nodes(value)
            - if p == [] then Nodes(root)
              else
                var parent := Resolve(root, Parent(p)).value;
                if parent.Obj? && Last(p) in parent.members then Nodes(parent.members[Last(p)]) else 0
  {
    if p != [] {
      var parent := Resolve(root, Parent(p)).value;
      NodesAddTo(parent, Last(p), value);
      NodesPut(root, Parent(p), AddTo(parent, Last(p), value).value);
    }
  }

  /** What is left and what came out add up to what was there. */
  lemma RemoveConserves(root: Json, p: seq<string>)
    requires Remove(root, p).Ok?
    ensures Nodes(Remove(root, p).value.rest) + Nodes(Remove(root, p).value.value) == Nodes(root)
  {
    RemoveThenAdd(root, p);
    var removed := Remove(root, p).value;
    var parent := Resolve(root, Parent(p)).value;
    var container := RemoveFrom(parent, Last(p)).value.rest;
    PutGet(Strict, root, Parent(p), container);
    AddGrowth(removed.rest, p, removed.value);
  }

  lemma ReplaceGrowth(root: Json, p: seq<string>, value: Json)
    requires Replace(root, p, value).Ok?
    ensures Nodes(Replace(root, p, value).value) + Nodes(Resolve(root, p).value) == Nodes(root) + Nodes(value)
  {
    NodesPut(root, p, value);
  }

  lemma AddGrowsAtMost(root: Json, p: seq<string>, value: Json)
    ensures Nodes(Settle(root, Add(root, p, value)).doc) <= Nodes(root) + Nodes(value)
  {
    if p != [] && Add(root, p, value).Ok? {
      AddGrowth(root, p, value);
    }
  }

  /** A move never grows the document, however it ends. */
  lemma MoveNeverGrows(root: Json, from: seq<string>, to: seq<string>)
    ensures Nodes(Move(root, from, to).doc) <= Nodes(root)
  {
    if !(|to| > |from| && to[..|from|] == from) && Remove(root, from).Ok? {
      RemoveConserves(root, from);
      AddGrowsAtMost(Remove(root, from).value.rest, to, Remove(root, from).value.value);
    }
  }

  /** What an operation may add to a document: the nodes of the value it carries, or the cap on
      what a copy duplicates. */
  ghost function Charge(op: Operation): nat {
    match op
    case AddOp(_, value) => Nodes(value)
    case ReplaceOp(_, value) => Nodes(value)
    case CopyOp(_, _) => MAX_COPY_NODES
    case _ => 0
  }

  ghost function Charges(ops: seq<Json>): nat {
    if ops == [] then 0
    else (match ReadOperation(ops[0]) case Ok(op) => Charge(op) case Err(_) => 0) + Charges(ops[1..])
  }

  lemma PerformGrowth(root: Json, op: Operation)
    ensures Nodes(Perform(root, op).doc) <= Nodes(root) + Charge(op)
  {
    match op {
      case AddOp(path, value) => AddGrowsAtMost(root, path, value);
      case RemoveOp(path) => if Remove(root, path).Ok? { RemoveConserves(root, path); }
      case ReplaceOp(path, value) => if Replace(root, path, value).Ok? { ReplaceGrowth(root, path, value); }
      case MoveOp(from, path) => MoveNeverGrows(root, from, path);
      case CopyOp(from, path) =>
        if Resolve(root, from).Some? { AddGrowsAtMost(root, path, Resolve(root, from).value); }
      case TestOp(_, _) =>
    }
  }

  /** However a run ends, the document is within what the run was charged. */
  lemma {:induction false} RunGrowth(root: Json, ops: seq<Json>, first: nat)
    ensures Nodes(ApplyFrom(root, ops, first).doc) <= Nodes(root) + Charges(ops)
    decreases |ops|
  {
    if ops != [] {
      if ReadOperation(ops[0]).Ok? {
        PerformGrowth(root, ReadOperation(ops[0]).value);
      }
      RunGrowth(ApplyOne(root, ops[0]).doc, ops[1..], first + 1);
    }
  }

  lemma ChargeWithinOp(op: Json)
    requires ReadOperation(op).Ok?
    ensures Charge(ReadOperation(op).value) <= Nodes(op) + MAX_COPY_NODES
  {
    match ReadOperation(op).value {
      case AddOp(_, value) => NodesMember(op.members, "value");
      case ReplaceOp(_, value) => NodesMember(op.members, "value");
      case _ =>
    }
  }

  lemma {:induction false} ChargesWithin(ops: seq<Json>, cap: nat)
    requires |ops| <= cap
    ensures Charges(ops) <= NodesAll(ops) + cap * MAX_COPY_NODES
    decreases |ops|
  {
    if ops != [] {
      if ReadOperation(ops[0]).Ok? {
        ChargeWithinOp(ops[0]);
      }
      ChargesWithin(ops[1..], cap - 1);
      assert cap * MAX_COPY_NODES == (cap - 1) * MAX_COPY_NODES + MAX_COPY_NODES;
    }
  }

  lemma PatchResult(target: Json, ops: Json, result: Json)
    requires JsonPatch(target, ops) == Ok(result)
    ensures ops.Arr? && |ops.items| <= MAX_PATCH_OPS && ApplyFrom(target, ops.items, 0) == Applied(result, None)
  {
  }

  /** No patch grows a document past the nodes it carries plus one capped copy per allowed
      operation. */
  lemma PatchGrowth(target: Json, ops: Json, result: Json)
    requires JsonPatch(target, ops) == Ok(result)
    ensures Nodes(result) <= Nodes(target) + Charges(ops.items)
    ensures Nodes(result) <= Nodes(target) + Nodes(ops) + 1024 * 65536
  {
    hide JsonPatch, ApplyFrom, Charges;
    PatchResult(target, ops, result);
    RunGrowth(target, ops.items, 0);
    ChargesWithin(ops.items, MAX_PATCH_OPS);
    assert Nodes(ops) == 1 + NodesAll(ops.items);
  }

  /** The cap is what keeps the bound linear: below it, copying the root under a new key doubles
      the document. */
  lemma CopyRootDoubles(root: Json, key: string)
    requires root.Obj? && key !in root.members
    ensures if Nodes(root) <= 65536
            then Copy(root, [], [key]).failure == None && Nodes(Copy(root, [], [key]).doc) == 2 * Nodes(root)
            else Copy(root, [], [key]) == Applied(root, Some(SourceTooLarge))
  {
    assert Parent([key]) == [];
    if Nodes(root) <= MAX_COPY_NODES {
      AddGrowth(root, [key], root);
    }
  }
}
