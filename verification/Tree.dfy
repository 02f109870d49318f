/** Reading and writing one place in a document. The source has two path languages that differ
    only in how a token names an array slot: pointers (`resolve`) and slash paths (`walk`). */
module Tree {
  import opened Wrappers
  import opened Text
  import opened Json
  import opened Pointer

  /** Strict tokens are read by `array_index`, lenient ones by `parse::<usize>`. */
  datatype Dialect = Strict | Lenient

  function IndexOf(d: Dialect, token: string, len: nat): Option<nat> {
    match d
    case Lenient => ParseUsize(token)
    case Strict =>
      match ArrayIndex(token, len, false)
      case Ok(n) => Some(n)
      case Err(_) => None
  }

  /** One step down. */
  function Child(d: Dialect, node: Json, token: string): Option<Json> {
    match node
    case Arr(items) =>
      (match IndexOf(d, token, |items|)
       case Some(i) => if i < |items| then Some(items[i]) else None
       case None => None)
    case Obj(members) => if token in members then Some(members[token]) else None
    case _ => None
  }

  /** Overwrites a child that is there, which is what assigning through the reference does. */
  function SetChild(d: Dialect, node: Json, token: string, value: Json): Json
    requires Child(d, node, token).Some?
  {
    match node
    case Arr(items) => Arr(items[IndexOf(d, token, |items|).value := value])
    case Obj(members) => Obj(members[token := value])
  }

  /** The value a token list addresses. */
  function Get(d: Dialect, root: Json, tokens: seq<string>): Option<Json>
    decreases |tokens|
  {
    if tokens == [] then Some(root)
    else
      match Child(d, root, tokens[0])
      case Some(child) => Get(d, child, tokens[1..])
      case None => None
  }

  /** The document after assigning `value` through a reference to `tokens`. */
  function Put(d: Dialect, root: Json, tokens: seq<string>, value: Json): Json
    requires Get(d, root, tokens).Some?
    decreases |tokens|
  {
    if tokens == [] then value
    else
      SetChild(d, root, tokens[0], Put(d, Child(d, root, tokens[0]).value, tokens[1..], value))
  }

  // ---------- reads compose ----------

  lemma {:induction false} GetAppend(d: Dialect, root: Json, a: seq<string>, b: seq<string>)
    ensures Get(d, root, a + b)
         == match Get(d, root, a) case Some(node) => Get(d, node, b) case None => None
    decreases |a|
  {
    if a == [] {
      assert a + b == b;
    } else {
      assert (a + b)[1..] == a[1..] + b;
      if Child(d, root, a[0]).Some? {
        GetAppend(d, Child(d, root, a[0]).value, a[1..], b);
      }
    }
  }

  lemma GetStep(d: Dialect, root: Json, parents: seq<string>, token: string)
    ensures Get(d, root, parents + [token])
         == match Get(d, root, parents) case Some(node) => Child(d, node, token) case None => None
  {
    GetAppend(d, root, parents, [token]);
    if Get(d, root, parents).Some? {
      var node := Get(d, root, parents).value;
      assert [token][1..] == [];
      if Child(d, node, token).Some? {
        assert Get(d, Child(d, node, token).value, []) == Child(d, node, token);
      }
    }
  }

  // ---------- writing through a reference ----------

  /** Reading at or below the written place reads the written value. */
  lemma {:induction false} PutThrough(d: Dialect, root: Json, at: seq<string>, value: Json, below: seq<string>)
    requires Get(d, root, at).Some?
    ensures Get(d, Put(d, root, at, value), at + below) == Get(d, value, below)
    decreases |at|
  {
    hide IndexOf;
    if at == [] {
      assert at + below == below;
    } else {
      assert (at + below)[1..] == at[1..] + below;
      PutThrough(d, Child(d, root, at[0]).value, at[1..], value, below);
    }
  }

  lemma PutGet(d: Dialect, root: Json, at: seq<string>, value: Json)
    requires Get(d, root, at).Some?
    ensures Get(d, Put(d, root, at, value), at) == Some(value)
  {
  }

  /** Writing back what is there changes nothing. */
  lemma {:induction false} GetPut(d: Dialect, root: Json, at: seq<string>)
    requires Get(d, root, at).Some?
    ensures Put(d, root, at, Get(d, root, at).value) == root
    decreases |at|
  {
    if at != [] {
      GetPut(d, Child(d, root, at[0]).value, at[1..]);
    }
  }

  lemma SetChildTwice(d: Dialect, node: Json, token: string, first: Json, second: Json)
    requires Child(d, node, token).Some?
    ensures Child(d, SetChild(d, node, token, first), token) == Some(first)
    ensures SetChild(d, SetChild(d, node, token, first), token, second) == SetChild(d, node, token, second)
  {
  }

  /** A later write to the same place wins. */
  lemma {:induction false} PutPut(d: Dialect, root: Json, at: seq<string>, first: Json, second: Json)
    requires Get(d, root, at).Some?
    ensures Get(d, Put(d, root, at, first), at).Some?
    ensures Put(d, Put(d, root, at, first), at, second) == Put(d, root, at, second)
    decreases |at|
  {
    PutGet(d, root, at, first);
    if at != [] {
      var child := Child(d, root, at[0]).value;
      PutPut(d, child, at[1..], first, second);
      SetChildTwice(d, root, at[0], Put(d, child, at[1..], first), Put(d, child, at[1..], second));
    }
  }

  /** Writing one step further down is writing the node with that child changed. */
  lemma {:induction false} PutStep(d: Dialect, root: Json, at: seq<string>, token: string, value: Json)
    requires Get(d, root, at).Some? && Child(d, Get(d, root, at).value, token).Some?
    ensures Get(d, root, at + [token]).Some?
    ensures Put(d, root, at + [token], value)
         == Put(d, root, at, SetChild(d, Get(d, root, at).value, token, value))
    decreases |at|
  {
    GetStep(d, root, at, token);
    if at == [] {
      assert (at + [token])[1..] == [];
    } else {
      assert (at + [token])[1..] == at[1..] + [token];
      PutStep(d, Child(d, root, at[0]).value, at[1..], token, value);
    }
  }

  /** Two pointer tokens that differ never name the same slot, since spellings are canonical. */
  lemma DistinctTokens(node: Json, t: string, value: Json, u: string)
    requires Child(Strict, node, t).Some? && t != u
    ensures Child(Strict, SetChild(Strict, node, t, value), u) == Child(Strict, node, u)
  {
    if node.Arr? {
      var len := |node.items|;
      var i := IndexOf(Strict, t, len).value;
      ArrayIndexIsCanonical(t, len, i);
      ArrayIndexIsCanonical(u, len, i);
    }
  }

  /** Neither list is a prefix of the other. */
  ghost predicate Diverge(a: seq<string>, b: seq<string>) {
    !(a <= b) && !(b <= a)
  }

  /** A write leaves every pointer that diverges from it where it was. */
  lemma {:induction false} PutFrame(root: Json, at: seq<string>, value: Json, q: seq<string>)
    requires Get(Strict, root, at).Some? && Diverge(at, q)
    ensures Get(Strict, Put(Strict, root, at, value), q) == Get(Strict, root, q)
    decreases |at|
  {
    hide IndexOf;
    if at[0] == q[0] {
      assert at == [at[0]] + at[1..] && q == [q[0]] + q[1..];
      PutFrame(Child(Strict, root, at[0]).value, at[1..], value, q[1..]);
    } else {
      DistinctTokens(root, at[0], Put(Strict, Child(Strict, root, at[0]).value, at[1..], value), q[0]);
    }
  }

  // ---------- physical locations ----------

  datatype Step = Slot(index: nat) | Key(name: string)

  function StepOf(d: Dialect, node: Json, token: string): Step
    requires Child(d, node, token).Some?
  {
    match node
    case Arr(items) => Slot(IndexOf(d, token, |items|).value)
    case Obj(_) => Key(token)
  }

  /** Where in the tree a token list leads, in terms of slots and keys. */
  function Locate(d: Dialect, root: Json, tokens: seq<string>): seq<Step>
    requires Get(d, root, tokens).Some?
    decreases |tokens|
  {
    if tokens == [] then []
    else [StepOf(d, root, tokens[0])] + Locate(d, Child(d, root, tokens[0]).value, tokens[1..])
  }

  /** Pointers are prefix-comparable exactly when the places they name contain one another. */
  lemma {:induction false} LocatePrefix(root: Json, a: seq<string>, b: seq<string>)
    requires Get(Strict, root, a).Some? && Get(Strict, root, b).Some?
    ensures Locate(Strict, root, a) <= Locate(Strict, root, b) <==> a <= b
    decreases |a|
  {
    if a != [] && b != [] {
      if a[0] == b[0] {
        LocatePrefix(Child(Strict, root, a[0]).value, a[1..], b[1..]);
        assert a <= b <==> a[1..] <= b[1..] by {
          assert a == [a[0]] + a[1..] && b == [b[0]] + b[1..];
        }
        var la, lb := Locate(Strict, root, a), Locate(Strict, root, b);
        assert la <= lb <==> la[1..] <= lb[1..] by {
          assert la == [la[0]] + la[1..] && lb == [lb[0]] + lb[1..];
        }
      } else {
        if root.Arr? {
          var i := IndexOf(Strict, a[0], |root.items|).value;
          ArrayIndexIsCanonical(a[0], |root.items|, i);
          ArrayIndexIsCanonical(b[0], |root.items|, i);
        }
        assert Locate(Strict, root, a)[0] != Locate(Strict, root, b)[0];
      }
    }
  }

  /** In one document, two pointers name the same place exactly when they are equal. */
  lemma LocateInjective(root: Json, a: seq<string>, b: seq<string>)
    requires Get(Strict, root, a).Some? && Get(Strict, root, b).Some?
    ensures Locate(Strict, root, a) == Locate(Strict, root, b) <==> a == b
  {
    LocatePrefix(root, a, b);
    LocatePrefix(root, b, a);
  }

  /** The two tokens name one slot of the node, read as slash path segments. */
  predicate SameSlot(node: Json, t: string, u: string) {
    t == u || (node.Arr? && ParseUsize(t).Some? && ParseUsize(t) == ParseUsize(u))
  }

  /** Token by token the two paths name one slot of the node they have come to. */
  predicate SamePath(root: Json, a: seq<string>, b: seq<string>)
    requires Get(Lenient, root, a).Some?
    decreases |a|
  {
    |a| == |b|
    && (a != [] ==>
          SameSlot(root, a[0], b[0]) && SamePath(Child(Lenient, root, a[0]).value, a[1..], b[1..]))
  }

  /** In one document, two slash paths name one place exactly when they agree up to the spelling of
      array slots. */
  lemma {:induction false} LenientLocate(root: Json, a: seq<string>, b: seq<string>)
    requires Get(Lenient, root, a).Some? && Get(Lenient, root, b).Some?
    ensures Locate(Lenient, root, a) == Locate(Lenient, root, b) <==> SamePath(root, a, b)
    decreases |a|
  {
    if a != [] && b != [] {
      var la, lb := Locate(Lenient, root, a), Locate(Lenient, root, b);
      assert la == [la[0]] + la[1..] && lb == [lb[0]] + lb[1..];
      assert la[0] == lb[0] <==> SameSlot(root, a[0], b[0]);
      if SameSlot(root, a[0], b[0]) {
        LenientLocate(Child(Lenient, root, a[0]).value, a[1..], b[1..]);
      }
    }
  }

  /** Every array slot has all its spellings as a slash path, and a pointer reads just one of them. */
  lemma LenientSpellings(items: seq<Json>, i: nat, signed: bool, zeros: nat)
    requires i < |items| && i <= USIZE_MAX
    ensures var token := Spelling(i, signed, zeros);
            && Child(Lenient, Arr(items), token) == Some(items[i])
            && Child(Strict, Arr(items), token) == if !signed && zeros == 0 then Some(items[i]) else None
  {
    var token := Spelling(i, signed, zeros);
    ParseSpelling(i, signed, zeros);
    match ArrayIndex(token, |items|, false) {
      case Ok(n) =>
        ArrayIndexIsCanonical(token, |items|, n);
        assert n == i;
        assert |token| == (if signed then 1 else 0) + zeros + |Decimal(i)|;
      case Err(_) =>
        ArrayIndexIsCanonical(token, |items|, i);
        assert !signed && zeros == 0 ==> token == Decimal(i);
    }
  }

  /** A smallest witness: `01` and `+1` both read slot 1, and a pointer reads neither. */
  lemma LenientAliases(x: Json, y: Json)
    ensures var doc := Arr([x, y]);
            && Child(Lenient, doc, "01") == Child(Lenient, doc, "+1") == Child(Lenient, doc, "1") == Some(y)
            && Child(Strict, doc, "01") == Child(Strict, doc, "+1") == None
  {
    hide Child;
    SpellingsOfOne();
    LenientSpellings([x, y], 1, false, 0);
    LenientSpellings([x, y], 1, false, 1);
    LenientSpellings([x, y], 1, true, 0);
  }

  lemma SpellingsOfOne()
    ensures Spelling(1, false, 0) == "1" && Spelling(1, false, 1) == "01" && Spelling(1, true, 0) == "+1"
  {
    assert Decimal(1) == "1";
  }

  /** Wherever a pointer leads, the same tokens read as a slash path lead too, and to the same
      value. */
  lemma {:induction false} StrictWithinLenient(root: Json, tokens: seq<string>)
    requires Get(Strict, root, tokens).Some?
    ensures Get(Lenient, root, tokens) == Get(Strict, root, tokens)
    decreases |tokens|
  {
    if tokens != [] {
      StrictWithinLenient(Child(Strict, root, tokens[0]).value, tokens[1..]);
    }
  }
}
