/** JSON documents as `serde_json::Value` holds them. Object key order is not observable in
    anything below, so an object is a map; a number is an opaque token with equality. */
module Json {

  datatype Json =
    | Null
    | Bool(b: bool)
    | Num(token: string)
    | Str(text: string)
    | Arr(items: seq<Json>)
    | Obj(members: map<string, Json>)

  /** The members a write goes into: anything that is not an object becomes an empty one. */
  function MembersOf(node: Json): map<string, Json> {
    if node.Obj? then node.members else map[]
  }

  // ---------- sums over a map ----------

  /** The sum of a map's values. */
  ghost function Total(m: map<string, nat>): nat {
    if m == map[] then 0
    else
      var k :| k in m;
      m[k] + Total(m - {k})
  }

  /** The sum does not depend on the order the keys are taken in. */
  lemma {:induction false} TotalRemove(m: map<string, nat>, k: string)
    requires k in m
    ensures Total(m) == m[k] + Total(m - {k})
    decreases |m|
  {
    var j :| j in m && Total(m) == m[j] + Total(m - {j});
    if j != k {
      assert |m - {j}| < |m| && |m - {k}| < |m| by {
        assert (m - {j}).Keys == m.Keys - {j} && (m - {k}).Keys == m.Keys - {k};
      }
      TotalRemove(m - {j}, k);
      TotalRemove(m - {k}, j);
      assert m - {j} - {k} == m - {k} - {j};
    }
  }

  lemma {:induction false} TotalAtMost(m: map<string, nat>, bound: nat)
    requires forall k :: k in m ==> m[k] <= bound
    ensures Total(m) <= |m| * bound
    decreases |m|
  {
    if m != map[] {
      var k :| k in m;
      TotalRemove(m, k);
      assert (m - {k}).Keys == m.Keys - {k};
      TotalAtMost(m - {k}, bound);
      assert |m - {k}| == |m| - 1;
      assert (|m| - 1) * bound + bound == |m| * bound;
    }
  }

  // ---------- node counts ----------

  /** The size of a document: every value in it counts one, itself included. */
  ghost function Nodes(value: Json): (n: nat)
    ensures n >= 1
    decreases value
  {
    match value
    case Arr(items) => 1 + NodesAll(items)
    case Obj(members) => 1 + Total(map k | k in members :: Nodes(members[k]))
    case _ => 1
  }

  ghost function NodesAll(items: seq<Json>): nat
    decreases items
  {
    if items == [] then 0 else Nodes(items[0]) + NodesAll(items[1..])
  }

  ghost function NodesOf(members: map<string, Json>): (m: map<string, nat>)
    ensures m.Keys == members.Keys
  {
    map k | k in members :: Nodes(members[k])
  }
}
