/** The JSON Patch engine as the source runs it: a document edited in place through a cursor, one
    operation at a time, and the working copy that makes a whole patch all or nothing. */
module PatchEngine {
  import opened Wrappers
  import opened Json
  import opened Pointer
  import opened Tree
  import opened Patch
  import opened PatchRuns

  /** `nodes`, which sums over the items or the values in whatever order they come. */
  method CountNodes(value: Json) returns (n: nat)
    ensures n == Nodes(value)
    decreases value
  {
    hide Nodes, NodesAll, Total;
    n := 1;
    match value {
      case Arr(items) =>
        NodesArr(items);
        assert items[..0] == [];
        for i := 0 to |items|
          invariant n == 1 + NodesAll(items[..i])
        {
          var count := CountNodes(items[i]);
          n := n + count;
          NodesOneMore(items, i);
        }
        assert items[..|items|] == items;
      case Obj(members) =>
        var todo := members.Keys;
        NodesNoMembers();
        assert members - todo == map[];
        while todo != {}
          invariant todo <= members.Keys
          invariant n == Nodes(Obj(members - todo))
        {
          var key :| key in todo;
          var count := CountNodes(members[key]);
          n := n + count;
          NodesMember(members - (todo - {key}), key);
          assert members - (todo - {key}) - {key} == members - todo;
          todo := todo - {key};
        }
        assert members - {} == members;
      case _ => NodesLeaf(value);
    }
  }

  class Document {
    var root: Json

    constructor (root: Json)
      ensures this.root == root
    {
      this.root := root;
    }

    /** `resolve` and `resolve_mut`: a cursor stepped token by token. */
    method Find(tokens: seq<string>) returns (found: Option<Json>)
      ensures found == Resolve(root, tokens)
    {
      var node := root;
      var i := 0;
      while i < |tokens|
        invariant i <= |tokens|
        invariant Resolve(root, tokens) == Resolve(node, tokens[i..])
      {
        match node {
          case Arr(items) =>
            var index := ArrayIndex(tokens[i], |items|, false);
            if index.Err? || index.value >= |items| {
              return None;
            }
            node := items[index.value];
          case Obj(members) =>
            if tokens[i] !in members {
              return None;
            }
            node := members[tokens[i]];
          case _ =>
            return None;
        }
        assert tokens[i..][1..] == tokens[i + 1..];
        i := i + 1;
      }
      return Some(node);
    }

    /** Assigning through the reference `resolve_mut` returned. */
    method Assign(tokens: seq<string>, value: Json)
      requires Resolve(root, tokens).Some?
      modifies this
      ensures root == Put(Strict, old(root), tokens, value)
    {
      root := Put(Strict, root, tokens, value);
    }

    method PatchAdd(tokens: seq<string>, value: Json) returns (failure: Option<PatchError>)
      modifies this
      ensures Applied(root, failure) == Settle(old(root), Add(old(root), tokens, value))
    {
      if tokens == [] {
        root := value;
        return None;
      }
      var parent := Find(Parent(tokens));
      if parent.None? {
        return Some(ParentMissing);
      }
      match parent.value {
        case Arr(items) =>
          var index := ArrayIndex(Last(tokens), |items|, true);
          if index.Err? {
            return Some(BadPointer(index.error));
          }
          var i := index.value;
          if i > |items| {
            return Some(PastEnd);
          }
          Assign(Parent(tokens), Arr(items[..i] + [value] + items[i..]));
        case Obj(members) =>
          Assign(Parent(tokens), Obj(members[Last(tokens) := value]));
        case _ =>
          return Some(NotContainer);
      }
      return None;
    }

    method PatchRemove(tokens: seq<string>) returns (taken: Result<Json, PatchError>)
      modifies this
      ensures match Remove(old(root), tokens)
              case Ok(removed) => root == removed.rest && taken == Ok(removed.value)
              case Err(e) => root == old(root) && taken == Err(e)
    {
      if tokens == [] {
        return Err(WholeDocument);
      }
      var parent := Find(Parent(tokens));
      if parent.None? {
        return Err(ParentMissing);
      }
      match parent.value {
        case Arr(items) =>
          var index := ArrayIndex(Last(tokens), |items|, false);
          if index.Err? {
            return Err(BadPointer(index.error));
          }
          var i := index.value;
          if i >= |items| {
            return Err(PastEnd);
          }
          Assign(Parent(tokens), Arr(items[..i] + items[i + 1..]));
          return Ok(items[i]);
        case Obj(members) =>
          if Last(tokens) !in members {
            return Err(KeyMissing);
          }
          Assign(Parent(tokens), Obj(members - {Last(tokens)}));
          return Ok(members[Last(tokens)]);
        case _ =>
          return Err(NotContainer);
      }
    }

    /** On a failed add the removed value is gone from the document. */
    method PatchMove(from: seq<string>, to: seq<string>) returns (failure: Option<PatchError>)
      modifies this
      ensures Applied(root, failure) == Move(old(root), from, to)
    {
      if |to| > |from| && to[..|from|] == from {
        return Some(IntoDescendant);
      }
      var taken := PatchRemove(from);
      if taken.Err? {
        return Some(taken.error);
      }
      failure := PatchAdd(to, taken.value);
    }

    method PatchCopy(from: seq<string>, to: seq<string>) returns (failure: Option<PatchError>)
      modifies this
      ensures Applied(root, failure) == Copy(old(root), from, to)
    {
      var source := Find(from);
      if source.None? {
        return Some(SourceMissing);
      }
      var size := CountNodes(source.value);
      if size > MAX_COPY_NODES {
        return Some(SourceTooLarge);
      }
      failure := PatchAdd(to, source.value);
    }

    method ApplyOperation(op: Json) returns (failure: Option<PatchError>)
      modifies this
      ensures Applied(root, failure) == ApplyOne(old(root), op)
    {
      var operation := ReadOperation(op);
      if operation.Err? {
        return Some(operation.error);
      }
      match operation.value {
        case AddOp(path, value) =>
          failure := PatchAdd(path, value);
        case RemoveOp(path) =>
          var taken := PatchRemove(path);
          failure := if taken.Err? then Some(taken.error) else None;
        case ReplaceOp(path, value) =>
          var slot := Find(path);
          if slot.None? {
            return Some(LocationMissing);
          }
          Assign(path, value);
          failure := None;
        case MoveOp(from, path) =>
          failure := PatchMove(from, path);
        case CopyOp(from, path) =>
          failure := PatchCopy(from, path);
        case TestOp(path, value) =>
          var found := Find(path);
          if found.None? {
            return Some(LocationMissing);
          }
          failure := if found.value == value then None else Some(TestFailed);
      }
    }

    /** Stops at the first failing operation, with the document half patched. */
    method ApplyInPlace(ops: Json) returns (failure: Option<PatchError>)
      modifies this
      ensures Applied(root, failure) == ApplyPatch(old(root), ops)
    {
      if !ops.Arr? {
        return Some(NotAnArray);
      }
      if |ops.items| > MAX_PATCH_OPS {
        return Some(TooManyOps);
      }
      for index := 0 to |ops.items|
        invariant ApplyFrom(old(root), ops.items, 0) == ApplyFrom(root, ops.items[index..], index)
      {
        assert ops.items[index..][1..] == ops.items[index + 1..];
        var stopped := ApplyOperation(ops.items[index]);
        if stopped.Some? {
          return Some(AtOp(index, stopped.value));
        }
      }
      return None;
    }

    /** `util::json_patch`: the work lands on a copy, so this document never changes and a failure
        hands back nothing. */
    method Patched(ops: Json) returns (result: Result<Json, PatchError>)
      ensures result == JsonPatch(root, ops)
    {
      var copy := new Document(root);
      var failure := copy.ApplyInPlace(ops);
      if failure.Some? {
        return Err(failure.value);
      }
      return Ok(copy.root);
    }
  }
}
