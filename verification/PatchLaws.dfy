/** What JSON Patch operations do to every other pointer, and how they undo one another. */
module PatchLaws {
  import opened Wrappers
  import opened Text
  import opened Json
  import opened Pointer
  import opened Tree
  import opened Patch

  lemma ResolveLast(root: Json, tokens: seq<string>)
    requires tokens != []
    ensures Resolve(root, tokens)
         == match Resolve(root, Parent(tokens))
            case Some(parent) => Child(Strict, parent, Last(tokens))
            case None => None
  {
    GetStep(Strict, root, Parent(tokens), Last(tokens));
    assert tokens == Parent(tokens) + [Last(tokens)];
  }

  // ---------- where things go ----------

  /** How an insertion at `last` renames the slots of its array. */
  function ShiftUp(parent: Json, last: string, token: string): string {
    if !parent.Arr? then token
    else
      match (ArrayIndex(last, |parent.items|, true), IndexOf(Strict, token, |parent.items|))
      case (Ok(i), Some(j)) => if j >= i then Decimal(j + 1) else token
      case _ => token
  }

  /** How a removal at `last` renames the slots after it. */
  function ShiftDown(parent: Json, last: string, token: string): string {
    if !parent.Arr? then token
    else
      match (ArrayIndex(last, |parent.items|, false), IndexOf(Strict, token, |parent.items|))
      case (Ok(i), Some(j)) => if j > i then Decimal(j - 1) else token
      case _ => token
  }

  /** Where the value at pointer `q` is found after an add at `p`: only the token at `p`'s own
      array is renamed, and only from the touched slot on. */
  function AfterAdd(root: Json, p: seq<string>, q: seq<string>): seq<string>
    requires p != [] && Resolve(root, Parent(p)).Some?
  {
    if Parent(p) <= q && |p| <= |q| then
      q[|p| - 1 := ShiftUp(Resolve(root, Parent(p)).value, Last(p), q[|p| - 1])]
    else q
  }

  function AfterRemove(root: Json, p: seq<string>, q: seq<string>): seq<string>
    requires p != [] && Resolve(root, Parent(p)).Some?
  {
    if Parent(p) <= q && |p| <= |q| then
      q[|p| - 1 := ShiftDown(Resolve(root, Parent(p)).value, Last(p), q[|p| - 1])]
    else q
  }

  /** The pointer an added value is read back at: `-` becomes the old length. */
  function Landed(root: Json, p: seq<string>): seq<string>
    requires p != [] ==> Resolve(root, Parent(p)).Some?
  {
    if p == [] then []
    else
      var parent := Resolve(root, Parent(p)).value;
      if parent.Arr? && Last(p) == "-" then Parent(p) + [Decimal(|parent.items|)] else p
  }

  /** A `Vec` never holds more elements than a `usize` counts. */
  ghost predicate Addressable(node: Json) {
    node.Arr? ==> |node.items| <= USIZE_MAX
  }

  /** The container an add at `p` goes into, if the pointer has one, is such a `Vec`. */
  ghost predicate AddressableAt(root: Json, p: seq<string>) {
    p != [] && Resolve(root, Parent(p)).Some? ==> Addressable(Resolve(root, Parent(p)).value)
  }

  // ---------- one container ----------

  lemma ChildAt(items: seq<Json>, token: string)
    ensures Child(Strict, Arr(items), token)
         == match IndexOf(Strict, token, 0)
            case Some(j) => if j < |items| then Some(items[j]) else None
            case None => None
  {
  }

  lemma SlotAfterInsert(items: seq<Json>, i: nat, value: Json, j: nat)
    requires i <= |items|
    ensures var more, k := items[..i] + [value] + items[i..], if j >= i then j + 1 else j;
            (k < |more| <==> j < |items|) && (k < |more| ==> more[k] == items[j])
  {
  }

  lemma AddToFrame(parent: Json, last: string, value: Json, token: string)
    requires AddTo(parent, last, value).Ok? && Addressable(parent)
    requires parent.Obj? ==> token != last
    ensures Child(Strict, AddTo(parent, last, value).value, ShiftUp(parent, last, token))
         == Child(Strict, parent, token)
  {
    hide AllDigits, ParseUsize, Decimal;
    if parent.Arr? {
      var items := parent.items;
      var i := ArrayIndex(last, |items|, true).value;
      var more := items[..i] + [value] + items[i..];
      ChildAt(items, token);
      ChildAt(more, ShiftUp(parent, last, token));
      assert IndexOf(Strict, token, |items|) == IndexOf(Strict, token, 0);
      match IndexOf(Strict, token, 0) {
        case None =>
        case Some(j) =>
          ReadBack(j + 1, 0);
          SlotAfterInsert(items, i, value, j);
      }
    }
  }

  /** The decimal spelling of a number is read back as that number, if it fits at all. */
  lemma ReadBack(n: nat, len: nat)
    ensures IndexOf(Strict, Decimal(n), len) == if n <= USIZE_MAX then Some(n) else None
  {
    ArrayIndexIsCanonical(Decimal(n), len, n);
    match ArrayIndex(Decimal(n), len, false) {
      case Ok(m) =>
        ArrayIndexIsCanonical(Decimal(n), len, m);
        DecimalValue(n);
        DecimalValue(m);
      case Err(_) =>
    }
  }

  lemma AddToReads(parent: Json, last: string, value: Json)
    requires AddTo(parent, last, value).Ok? && Addressable(parent)
    ensures var token := if parent.Arr? && last == "-" then Decimal(|parent.items|) else last;
            Child(Strict, AddTo(parent, last, value).value, token) == Some(value)
  {
    if parent.Arr? {
      var n := |parent.items|;
      var i := ArrayIndex(last, n, true).value;
      if last != "-" {
        assert ArrayIndex(last, n, false) == Ok(i);
        ArrayIndexIsCanonical(last, n, i);
      }
      ArrayIndexIsCanonical(Decimal(i), n + 1, i);
    }
  }

  lemma SlotAfterRemoval(items: seq<Json>, i: nat, j: nat)
    requires i < |items| && i != j
    ensures var rest, k := items[..i] + items[i + 1..], if j > i then j - 1 else j;
            (k < |rest| <==> j < |items|) && (k < |rest| ==> rest[k] == items[j])
  {
  }

  lemma RemoveFromFrame(parent: Json, last: string, token: string)
    requires RemoveFrom(parent, last).Ok? && token != last
    ensures Child(Strict, RemoveFrom(parent, last).value.rest, ShiftDown(parent, last, token))
         == Child(Strict, parent, token)
  {
    hide AllDigits, ParseUsize, Decimal;
    if parent.Arr? {
      var items := parent.items;
      var i := ArrayIndex(last, |items|, false).value;
      var rest := items[..i] + items[i + 1..];
      var renamed := ShiftDown(parent, last, token);
      ChildAt(items, token);
      ChildAt(rest, renamed);
      assert IndexOf(Strict, token, |items|) == IndexOf(Strict, token, 0);
      match IndexOf(Strict, token, 0) {
        case None =>
        case Some(j) =>
          ArrayIndexIsCanonical(last, |items|, i);
          ArrayIndexIsCanonical(token, 0, j);
          ReadBack(j - (if j > i then 1 else 0), 0);
          SlotAfterRemoval(items, i, j);
      }
    }
  }

  lemma RemoveFromThenAddTo(parent: Json, last: string, value: Json)
    requires RemoveFrom(parent, last).Ok?
    ensures AddTo(RemoveFrom(parent, last).value.rest, last, value)
         == Ok(SetChild(Strict, parent, last, value))
  {
    if parent.Arr? {
      var n := |parent.items|;
      var i := ArrayIndex(last, n, false).value;
      var rest := parent.items[..i] + parent.items[i + 1..];
      assert ArrayIndex(last, n - 1, true) == Ok(i);
      assert rest[..i] + [value] + rest[i..] == parent.items[i := value];
    } else {
      assert (parent.members - {last})[last := value] == parent.members[last := value];
    }
  }

  lemma AddToThenRemoveFrom(parent: Json, last: string, value: Json)
    requires AddTo(parent, last, value).Ok?
    ensures RemoveFrom(AddTo(parent, last, value).value, last) == Ok(Removed(parent, value))
       <==> (if parent.Arr? then last != "-" else last !in parent.members)
  {
    var added := AddTo(parent, last, value).value;
    if parent.Arr? {
      if last != "-" {
        var n := |parent.items|;
        var i := ArrayIndex(last, n, true).value;
        assert ArrayIndex(last, n + 1, false) == Ok(i);
        assert added.items[..i] + added.items[i + 1..] == parent.items;
      }
    } else {
      assert last in added.members;
      if last in parent.members {
        assert last !in (added.members - {last});
      } else {
        assert added.members - {last} == parent.members;
      }
    }
  }

  // ---------- the frame laws ----------

  /** One slot of a container may be renamed under the path; everything below it reads alike. */
  lemma EditFrame(root: Json, at: seq<string>, container: Json, q: seq<string>, renamed: string)
    requires Resolve(root, at).Some? && at <= q && |at| < |q|
    requires Child(Strict, container, renamed)
          == Child(Strict, Resolve(root, at).value, q[|at|])
    ensures Resolve(Put(Strict, root, at, container), q[|at| := renamed]) == Resolve(root, q)
  {
    var k := |at|;
    var parent := Resolve(root, at).value;
    var before, after := [q[k]] + q[k + 1..], [renamed] + q[k + 1..];
    assert q == at + before;
    assert q[k := renamed] == at + after;
    GetAppend(Strict, root, at, before);
    PutThrough(Strict, root, at, container, after);
    assert before[1..] == after[1..] == q[k + 1..];
    assert Get(Strict, parent, before) == Get(Strict, container, after);
  }

  lemma PrefixByLast(p: seq<string>, q: seq<string>)
    requires p != [] && Parent(p) <= q && !(q <= Parent(p))
    ensures |q| >= |p| && (p <= q <==> q[|p| - 1] == Last(p))
  {
  }

  /** After an add at `p`, every pointer `q` that is not the container or above it (nor a value
      the add overwrote) reads what it read before, at most one array slot further on. */
  lemma AddFrame(root: Json, p: seq<string>, value: Json, q: seq<string>)
    requires p != [] && Add(root, p, value).Ok?
    requires Addressable(Resolve(root, Parent(p)).value)
    requires !(q <= Parent(p))
    requires Resolve(root, Parent(p)).value.Obj? ==> !(p <= q)
    ensures Resolve(Add(root, p, value).value, AfterAdd(root, p, q)) == Resolve(root, q)
  {
    var at := Parent(p);
    var parent := Resolve(root, at).value;
    var container := AddTo(parent, Last(p), value).value;
    if at <= q {
      PrefixByLast(p, q);
      AddToFrame(parent, Last(p), value, q[|at|]);
      EditFrame(root, at, container, q, ShiftUp(parent, Last(p), q[|at|]));
    } else {
      PutFrame(root, at, container, q);
    }
  }

  /** An array of this length takes an add at the token. */
  ghost predicate Admits(len: int, token: string) {
    token == "-" || exists i: nat :: i <= len && i <= USIZE_MAX && token == Decimal(i)
  }

  /** Add succeeds at the root, under any key of an object, and in an array at `-` or at the one
      decimal spelling of a slot up to and including the end; nowhere else. */
  lemma AddExactly(root: Json, p: seq<string>, value: Json)
    ensures Add(root, p, value).Ok?
       <==> || p == []
            || match Resolve(root, Parent(p))
               case Some(Obj(_)) => true
               case Some(Arr(items)) => Admits(|items|, Last(p))
               case _ => false
  {
    if p != [] && Resolve(root, Parent(p)).Some? && Resolve(root, Parent(p)).value.Arr? {
      var last, n := Last(p), |Resolve(root, Parent(p)).value.items|;
      if last != "-" {
        assert ArrayIndex(last, n, true) == ArrayIndex(last, n, false);
        if ArrayIndex(last, n, true).Ok? {
          ArrayIndexIsCanonical(last, n, ArrayIndex(last, n, true).value);
        }
        if i: nat :| i <= n && i <= USIZE_MAX && last == Decimal(i) {
          ArrayIndexIsCanonical(last, n, i);
        }
      }
    }
  }

  /** The added value is read back where it landed, and at the root it is the document. */
  lemma AddReads(root: Json, p: seq<string>, value: Json)
    requires Add(root, p, value).Ok? && AddressableAt(root, p)
    ensures p != [] ==> Resolve(root, Parent(p)).Some?
    ensures Resolve(Add(root, p, value).value, Landed(root, p)) == Some(value)
  {
    if p != [] {
      var at := Parent(p);
      var parent := Resolve(root, at).value;
      var container := AddTo(parent, Last(p), value).value;
      AddToReads(parent, Last(p), value);
      PutGet(Strict, root, at, container);
      var landed := Landed(root, p);
      assert landed == Parent(landed) + [Last(landed)] && Parent(landed) == at;
      ResolveLast(Add(root, p, value).value, landed);
    }
  }

  /** A replaced value is read back where it was written, the root included, and only where there
      was one. */
  lemma ReplaceReads(root: Json, p: seq<string>, value: Json)
    ensures Replace(root, p, value).Ok? <==> Resolve(root, p).Some?
    ensures Replace(root, p, value).Ok? ==> Resolve(Replace(root, p, value).value, p) == Some(value)
  {
    if Resolve(root, p).Some? {
      PutGet(Strict, root, p, value);
    }
  }

  /** After a removal at `p`, every pointer not above, at or below `p` reads what it read before,
      at most one array slot earlier. */
  lemma RemoveFrame(root: Json, p: seq<string>, q: seq<string>)
    requires Remove(root, p).Ok?
    requires !(q <= Parent(p)) && !(p <= q)
    ensures Resolve(Remove(root, p).value.rest, AfterRemove(root, p, q)) == Resolve(root, q)
  {
    var at := Parent(p);
    var parent := Resolve(root, at).value;
    var container := RemoveFrom(parent, Last(p)).value.rest;
    if at <= q {
      PrefixByLast(p, q);
      RemoveFromFrame(parent, Last(p), q[|at|]);
      EditFrame(root, at, container, q, ShiftDown(parent, Last(p), q[|at|]));
    } else {
      PutFrame(root, at, container, q);
    }
  }

  /** A replace moves nothing at all. */
  lemma ReplaceFrame(root: Json, p: seq<string>, value: Json, q: seq<string>)
    requires Replace(root, p, value).Ok? && Diverge(p, q)
    ensures Resolve(Replace(root, p, value).value, q) == Resolve(root, q)
  {
    PutFrame(root, p, value, q);
  }

  /** Remove succeeds exactly where something is, and hands that value back. */
  lemma RemoveMeansResolve(root: Json, p: seq<string>)
    requires p != []
    ensures Remove(root, p).Ok? <==> Resolve(root, p).Some?
    ensures Remove(root, p).Ok? ==> Remove(root, p).value.value == Resolve(root, p).value
  {
    ResolveLast(root, p);
  }

  // ---------- undoing ----------

  /** Adding anything where something was just removed is a write at that place. */
  lemma RemoveThenAddIsPut(root: Json, p: seq<string>, value: Json)
    requires Remove(root, p).Ok?
    ensures Resolve(root, p).Some?
    ensures Add(Remove(root, p).value.rest, p, value) == Ok(Put(Strict, root, p, value))
  {
    RemoveMeansResolve(root, p);
    var at, last := Parent(p), Last(p);
    var parent := Resolve(root, at).value;
    var rest := RemoveFrom(parent, last).value.rest;
    RemoveFromThenAddTo(parent, last, value);
    PutGet(Strict, root, at, rest);
    PutPut(Strict, root, at, rest, SetChild(Strict, parent, last, value));
    assert p == at + [last];
    PutStep(Strict, root, at, last, value);
  }

  /** Putting a removed value back where it was restores the document. */
  lemma RemoveThenAdd(root: Json, p: seq<string>)
    requires Remove(root, p).Ok?
    ensures Add(Remove(root, p).value.rest, p, Remove(root, p).value.value) == Ok(root)
  {
    RemoveMeansResolve(root, p);
    RemoveThenAddIsPut(root, p, Remove(root, p).value.value);
    GetPut(Strict, root, p);
  }

  /** The add put something where nothing was, at a pointer that still names it afterwards. */
  predicate Fresh(root: Json, p: seq<string>) {
    && p != []
    && match Resolve(root, Parent(p))
       case Some(Arr(_)) => Last(p) != "-"
       case Some(Obj(members)) => Last(p) !in members
       case _ => false
  }

  /** Removing at the same pointer undoes an add exactly when the add overwrote no key and did
      not spell its slot `-`. */
  lemma AddThenRemove(root: Json, p: seq<string>, value: Json)
    requires Add(root, p, value).Ok?
    ensures Remove(Add(root, p, value).value, p) == Ok(Removed(root, value)) <==> Fresh(root, p)
  {
    if p != [] {
      var at, last := Parent(p), Last(p);
      var parent := Resolve(root, at).value;
      var container := AddTo(parent, last, value).value;
      AddToThenRemoveFrom(parent, last, value);
      PutGet(Strict, root, at, container);
      GetPut(Strict, root, at);
      match RemoveFrom(container, last) {
        case Ok(removed) =>
          PutPut(Strict, root, at, container, removed.rest);
          PutGet(Strict, root, at, removed.rest);
        case Err(_) =>
      }
    }
  }

  /** Section 4.3 of RFC 6902: away from the root, replace is remove followed by add, and fails
      exactly when the remove does. */
  lemma ReplaceIsRemoveThenAdd(root: Json, p: seq<string>, value: Json)
    requires p != []
    ensures match Remove(root, p)
            case Err(_) => Replace(root, p, value).Err?
            case Ok(removed) => Replace(root, p, value).Ok? && Add(removed.rest, p, value) == Replace(root, p, value)
  {
    RemoveMeansResolve(root, p);
    if Remove(root, p).Ok? {
      RemoveThenAddIsPut(root, p, value);
    }
  }

  /** Moving a place to itself changes nothing, and succeeds exactly where a non-root value is. */
  lemma MoveToSelf(root: Json, p: seq<string>)
    ensures Move(root, p, p).doc == root
    ensures Move(root, p, p).failure == None <==> p != [] && Resolve(root, p).Some?
  {
    if p != [] {
      RemoveMeansResolve(root, p);
      if Remove(root, p).Ok? {
        RemoveThenAdd(root, p);
      }
    }
  }

  lemma EditErrors(root: Json, from: seq<string>, to: seq<string>)
    ensures Remove(root, from) != Err(IntoDescendant)
    ensures forall rest, value :: Add(rest, to, value) != Err(IntoDescendant)
  {
  }

  /** The textual prefix test of `move` refuses exactly the targets whose container lies at or
      inside the source. */
  lemma MoveRefusal(root: Json, from: seq<string>, to: seq<string>)
    requires to != [] && Resolve(root, from).Some? && Resolve(root, Parent(to)).Some?
    ensures Move(root, from, to).failure == Some(IntoDescendant)
       <==> Locate(Strict, root, from) <= Locate(Strict, root, Parent(to))
  {
    hide Locate, Get, Add, Remove;
    LocatePrefix(root, from, Parent(to));
    EditErrors(root, from, to);
    assert |to| > |from| && to[..|from|] == from <==> from <= Parent(to);
  }

  /** A completed move puts the source's value at the target. */
  lemma MoveCarries(root: Json, from: seq<string>, to: seq<string>)
    requires Move(root, from, to).failure == None && AddressableAt(Remove(root, from).value.rest, to)
    ensures Resolve(root, from).Some?
    ensures to != [] ==> Resolve(Remove(root, from).value.rest, Parent(to)).Some?
    ensures Resolve(Move(root, from, to).doc, Landed(Remove(root, from).value.rest, to)) == Resolve(root, from)
  {
    RemoveMeansResolve(root, from);
    AddReads(Remove(root, from).value.rest, to, Resolve(root, from).value);
  }

  /** A completed copy puts the source's value at the target, and it is the add of that value. */
  lemma CopyCarries(root: Json, from: seq<string>, to: seq<string>)
    requires Copy(root, from, to).failure == None && AddressableAt(root, to)
    ensures Resolve(root, from).Some?
    ensures to != [] ==> Resolve(root, Parent(to)).Some?
    ensures Resolve(Copy(root, from, to).doc, Landed(root, to)) == Resolve(root, from)
  {
    AddReads(root, to, Resolve(root, from).value);
  }

  // ---------- independence ----------

  lemma SetChildCommute(node: Json, t: string, x: Json, u: string, y: Json)
    requires Child(Strict, node, t).Some? && Child(Strict, node, u).Some? && t != u
    ensures Child(Strict, SetChild(Strict, node, t, x), u).Some?
    ensures Child(Strict, SetChild(Strict, node, u, y), t).Some?
    ensures SetChild(Strict, SetChild(Strict, node, t, x), u, y)
         == SetChild(Strict, SetChild(Strict, node, u, y), t, x)
  {
    DistinctTokens(node, t, x, u);
    DistinctTokens(node, u, y, t);
    if node.Arr? {
      var n := |node.items|;
      var i, j := IndexOf(Strict, t, n).value, IndexOf(Strict, u, n).value;
      ArrayIndexIsCanonical(t, n, i);
      ArrayIndexIsCanonical(u, n, i);
      assert i != j;
      assert node.items[i := x][j := y] == node.items[j := y][i := x];
    } else {
      assert node.members[t := x][u := y] == node.members[u := y][t := x];
    }
  }

  lemma PutCommuteBelow(root: Json, a: seq<string>, x: Json, b: seq<string>, y: Json)
    requires Resolve(root, a).Some? && Resolve(root, b).Some? && a != [] && b != [] && a[0] == b[0]
    requires var child := Child(Strict, root, a[0]).value;
             && Resolve(Put(Strict, child, a[1..], x), b[1..]).Some?
             && Resolve(Put(Strict, child, b[1..], y), a[1..]).Some?
             && Put(Strict, Put(Strict, child, a[1..], x), b[1..], y)
                == Put(Strict, Put(Strict, child, b[1..], y), a[1..], x)
    ensures Resolve(Put(Strict, root, a, x), b).Some? && Resolve(Put(Strict, root, b, y), a).Some?
    ensures Put(Strict, Put(Strict, root, a, x), b, y) == Put(Strict, Put(Strict, root, b, y), a, x)
  {
    var child := Child(Strict, root, a[0]).value;
    var inA, inB := Put(Strict, child, a[1..], x), Put(Strict, child, b[1..], y);
    SetChildTwice(Strict, root, a[0], inA, Put(Strict, inA, b[1..], y));
    SetChildTwice(Strict, root, a[0], inB, Put(Strict, inB, a[1..], x));
  }

  lemma PutCommuteApart(root: Json, a: seq<string>, x: Json, b: seq<string>, y: Json)
    requires Resolve(root, a).Some? && Resolve(root, b).Some? && a != [] && b != [] && a[0] != b[0]
    ensures Resolve(Put(Strict, root, a, x), b).Some? && Resolve(Put(Strict, root, b, y), a).Some?
    ensures Put(Strict, Put(Strict, root, a, x), b, y) == Put(Strict, Put(Strict, root, b, y), a, x)
  {
    var inA := Put(Strict, Child(Strict, root, a[0]).value, a[1..], x);
    var inB := Put(Strict, Child(Strict, root, b[0]).value, b[1..], y);
    DistinctTokens(root, a[0], inA, b[0]);
    DistinctTokens(root, b[0], inB, a[0]);
    SetChildCommute(root, a[0], inA, b[0], inB);
  }

  /** Writes at pointers that diverge commute. */
  lemma {:induction false} PutCommute(root: Json, a: seq<string>, x: Json, b: seq<string>, y: Json)
    requires Resolve(root, a).Some? && Resolve(root, b).Some? && Diverge(a, b)
    ensures Resolve(Put(Strict, root, a, x), b).Some? && Resolve(Put(Strict, root, b, y), a).Some?
    ensures Put(Strict, Put(Strict, root, a, x), b, y) == Put(Strict, Put(Strict, root, b, y), a, x)
    decreases |a|
  {
    if a[0] == b[0] {
      assert a == [a[0]] + a[1..] && b == [b[0]] + b[1..];
      PutCommute(Child(Strict, root, a[0]).value, a[1..], x, b[1..], y);
      PutCommuteBelow(root, a, x, b, y);
    } else {
      PutCommuteApart(root, a, x, b, y);
    }
  }

  /** Adds into containers that diverge commute: each sees the container the other left alone. */
  lemma AddsCommute(root: Json, p: seq<string>, x: Json, q: seq<string>, y: Json)
    requires p != [] && q != [] && Diverge(Parent(p), Parent(q))
    requires Add(root, p, x).Ok? && Add(root, q, y).Ok?
    ensures Add(Add(root, p, x).value, q, y).Ok?
    ensures Add(Add(root, p, x).value, q, y) == Add(Add(root, q, y).value, p, x)
  {
    var a, b := Parent(p), Parent(q);
    var inA := AddTo(Resolve(root, a).value, Last(p), x).value;
    var inB := AddTo(Resolve(root, b).value, Last(q), y).value;
    PutFrame(root, a, inA, b);
    PutFrame(root, b, inB, a);
    PutCommute(root, a, inA, b, inB);
  }
}
