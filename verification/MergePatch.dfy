/** JSON Merge Patch (RFC 7386): the in-place merge of the source, the declarative MergePatch of
    section 2 of the RFC, and what a merge keeps. */
module MergePatch {
  import opened Wrappers
  import opened Json

  /** The keys a patch object leaves in its target: it deletes its null members and adds the rest. */
  function Kept(target: map<string, Json>, patch: map<string, Json>): set<string> {
    set k | k in target.Keys + patch.Keys && (k in patch ==> patch[k] != Null)
  }

  /** MergePatch of section 2 of RFC 7386, key by key. */
  function Merge(target: Json, patch: Json): Json
    decreases patch
  {
    match patch
    case Obj(members) =>
      var present := MembersOf(target);
      Obj(map k | k in Kept(present, members) ::
            if k in members then Merge(if k in present then present[k] else Null, members[k]) else present[k])
    case _ => patch
  }

  /** One turn of the RFC's loop. */
  function MergeKey(target: map<string, Json>, key: string, value: Json): map<string, Json> {
    if value == Null then target - {key}
    else target[key := Merge(if key in target then target[key] else Null, value)]
  }

  /** `merge_json`. The loop takes the patch's keys in whatever order it likes, and the result is
      the same. */
  method MergeInPlace(target: Json, patch: Json) returns (merged: Json)
    ensures merged == Merge(target, patch)
    decreases patch
  {
    if !patch.Obj? {
      return patch;
    }
    var members := MembersOf(target);
    var todo := patch.members;
    while todo != map[]
      invariant forall k :: k in todo ==> k in patch.members && todo[k] == patch.members[k]
      invariant Merge(Obj(members), Obj(todo)) == Merge(target, patch)
      decreases |todo|
    {
      var key :| key in todo;
      var value := todo[key];
      var rest := todo - {key};
      MergeOneKey(members, todo, key);
      assert |rest| < |todo| by { assert rest.Keys == todo.Keys - {key}; }
      if value == Null {
        members := members - {key};
      } else {
        var inner := MergeInPlace(if key in members then members[key] else Null, value);
        members := members[key := inner];
      }
      todo := rest;
    }
    EmptyPatch(members);
    return Obj(members);
  }

  /** Taking one key first does not change what the whole patch does. */
  lemma MergeOneKey(target: map<string, Json>, patch: map<string, Json>, key: string)
    requires key in patch
    ensures Merge(Obj(MergeKey(target, key, patch[key])), Obj(patch - {key})) == Merge(Obj(target), Obj(patch))
  {
    var after := MergeKey(target, key, patch[key]);
    var left, right := Merge(Obj(after), Obj(patch - {key})), Merge(Obj(target), Obj(patch));
    assert left.members.Keys == right.members.Keys;
    forall k | k in left.members
      ensures left.members[k] == right.members[k]
    {
    }
    assert left.members == right.members;
  }

  lemma EmptyPatch(target: map<string, Json>)
    ensures Merge(Obj(target), Obj(map[])) == Obj(target)
  {
  }

  /** Merging the same patch again changes nothing. */
  lemma {:induction false} MergeIdempotent(target: Json, patch: Json)
    ensures Merge(Merge(target, patch), patch) == Merge(target, patch)
    decreases patch
  {
    if patch.Obj? {
      var present := MembersOf(target);
      var once := Merge(target, patch);
      var twice := Merge(once, patch);
      assert twice.members.Keys == once.members.Keys;
      forall k | k in once.members
        ensures twice.members[k] == once.members[k]
      {
        if k in patch.members {
          MergeIdempotent(if k in present then present[k] else Null, patch.members[k]);
        }
      }
      assert twice.members == once.members;
    }
  }

  /** No object outside an array has a null member. */
  ghost predicate NullFree(node: Json)
    decreases node
  {
    match node
    case Obj(members) => forall k :: k in members ==> members[k] != Null && NullFree(members[k])
    case _ => true
  }

  /** A merge never leaves a null member that the target did not have. */
  lemma {:induction false} MergeKeepsNullFree(target: Json, patch: Json)
    requires NullFree(target)
    ensures NullFree(Merge(target, patch))
    ensures patch != Null ==> Merge(target, patch) != Null
    decreases patch
  {
    if patch.Obj? {
      var present := MembersOf(target);
      forall k | k in Merge(target, patch).members
        ensures Merge(target, patch).members[k] != Null && NullFree(Merge(target, patch).members[k])
      {
        if k in patch.members {
          MergeKeepsNullFree(if k in present then present[k] else Null, patch.members[k]);
        }
      }
    }
  }

  /** Merging into nothing yields the patch itself exactly when the patch is null-free. */
  lemma {:induction false} MergeIntoNothing(patch: Json)
    ensures Merge(Null, patch) == patch <==> NullFree(patch)
    decreases patch
  {
    if patch.Obj? {
      var merged := Merge(Null, patch);
      forall k | k in patch.members
        ensures Merge(Null, patch.members[k]) == patch.members[k] <==> NullFree(patch.members[k])
      {
        MergeIntoNothing(patch.members[k]);
      }
      if NullFree(patch) {
        assert merged.members == patch.members;
      }
      MergeKeepsNullFree(Null, patch);
    }
  }

  // ---------- what each path reads after a merge ----------

  /** The member a list of keys leads to, through objects only. */
  function Field(node: Json, keys: seq<string>): Option<Json>
    decreases |keys|
  {
    if keys == [] then Some(node)
    else if node.Obj? && keys[0] in node.members then Field(node.members[keys[0]], keys[1..])
    else None
  }

  /** The patch says nothing about the path: it leaves it at an object without the next key. */
  predicate Silent(patch: Json, keys: seq<string>)
    decreases |keys|
  {
    keys != [] && patch.Obj? && (keys[0] in patch.members ==> Silent(patch.members[keys[0]], keys[1..]))
  }

  /** A path the patch is silent on reads what it read before. */
  lemma {:induction false} MergeLeaves(target: Json, patch: Json, keys: seq<string>)
    requires Silent(patch, keys)
    ensures Field(Merge(target, patch), keys) == Field(target, keys)
    decreases |keys|
  {
    var present := MembersOf(target);
    if keys[0] in patch.members {
      MergeLeaves(if keys[0] in present then present[keys[0]] else Null, patch.members[keys[0]], keys[1..]);
    }
  }

  /** A path the patch gives a value reads that value, and a null deletes it. */
  lemma {:induction false} MergeWrites(target: Json, patch: Json, keys: seq<string>)
    requires Field(patch, keys).Some? && !Field(patch, keys).value.Obj?
    ensures Field(Merge(target, patch), keys)
         == if keys != [] && Field(patch, keys) == Some(Null) then None else Field(patch, keys)
    decreases |keys|
  {
    if keys != [] {
      var present := MembersOf(target);
      var value := patch.members[keys[0]];
      MergeWrites(if keys[0] in present then present[keys[0]] else Null, value, keys[1..]);
      if value == Null {
        assert keys[1..] == [];
      } else if keys[1..] == [] {
        assert Field(patch, keys) == Some(value);
      }
    }
  }

  /** Where the patch has an object there is an object, an empty one onto a scalar included. */
  lemma {:induction false} MergeKeepsObjects(target: Json, patch: Json, keys: seq<string>)
    requires Field(patch, keys).Some? && Field(patch, keys).value.Obj?
    ensures Field(Merge(target, patch), keys).Some? && Field(Merge(target, patch), keys).value.Obj?
    decreases |keys|
  {
    if keys != [] {
      var present := MembersOf(target);
      MergeKeepsObjects(if keys[0] in present then present[keys[0]] else Null, patch.members[keys[0]], keys[1..]);
    }
  }

  /** What the three laws say of a document, path by path. */
  ghost predicate IsMergeOf(result: Json, target: Json, patch: Json) {
    && (forall keys :: Silent(patch, keys) ==> Field(result, keys) == Field(target, keys))
    && (forall keys :: Field(patch, keys).Some? && !Field(patch, keys).value.Obj? ==>
          Field(result, keys) == if keys != [] && Field(patch, keys) == Some(Null) then None else Field(patch, keys))
    && (forall keys :: Field(patch, keys).Some? && Field(patch, keys).value.Obj? ==>
          Field(result, keys).Some? && Field(result, keys).value.Obj?)
  }

  lemma IsMergeBelow(result: Json, target: Json, patch: Json, key: string)
    requires IsMergeOf(result, target, patch) && result.Obj? && key in result.members
    requires patch.Obj? && key in patch.members && patch.members[key] != Null
    ensures var below := if target.Obj? && key in target.members then target.members[key] else Null;
            IsMergeOf(result.members[key], below, patch.members[key])
  {
    var below := if target.Obj? && key in target.members then target.members[key] else Null;
    var inner, changed := result.members[key], patch.members[key];
    forall keys
      ensures Silent(changed, keys) ==> Field(inner, keys) == Field(below, keys)
      ensures Field(changed, keys).Some? && !Field(changed, keys).value.Obj? ==>
                Field(inner, keys) == if keys != [] && Field(changed, keys) == Some(Null) then None
                                      else Field(changed, keys)
      ensures Field(changed, keys).Some? && Field(changed, keys).value.Obj? ==>
                Field(inner, keys).Some? && Field(inner, keys).value.Obj?
    {
      var longer := [key] + keys;
      FieldBelow(result, key, keys);
      FieldBelow(patch, key, keys);
      FieldBelow(target, key, keys);
      assert longer[0] == key && longer[1..] == keys;
      assert Silent(changed, keys) ==> Silent(patch, longer);
      assert Field(patch, longer) == Field(changed, keys) && Field(result, longer) == Field(inner, keys);
    }
  }

  lemma FieldBelow(node: Json, key: string, keys: seq<string>)
    ensures Field(node, [key] + keys)
         == if node.Obj? && key in node.members then Field(node.members[key], keys) else None
  {
    assert ([key] + keys)[1..] == keys;
  }

  lemma OneField(node: Json, key: string)
    ensures Field(node, [key]) == if node.Obj? && key in node.members then Some(node.members[key]) else None
  {
    FieldBelow(node, key, []);
    assert [key] + [] == [key];
  }

  /** The merge is the one document of which the three laws hold. */
  lemma {:induction false} MergeExactly(result: Json, target: Json, patch: Json)
    ensures result == Merge(target, patch) <==> IsMergeOf(result, target, patch)
    decreases patch
  {
    var merged := Merge(target, patch);
    forall keys
      ensures Silent(patch, keys) ==> Field(merged, keys) == Field(target, keys)
      ensures Field(patch, keys).Some? && !Field(patch, keys).value.Obj? ==>
                Field(merged, keys) == if keys != [] && Field(patch, keys) == Some(Null) then None
                                       else Field(patch, keys)
      ensures Field(patch, keys).Some? && Field(patch, keys).value.Obj? ==>
                Field(merged, keys).Some? && Field(merged, keys).value.Obj?
    {
      if Silent(patch, keys) { MergeLeaves(target, patch, keys); }
      if Field(patch, keys).Some? {
        if Field(patch, keys).value.Obj? {
          MergeKeepsObjects(target, patch, keys);
        } else {
          MergeWrites(target, patch, keys);
        }
      }
    }
    if IsMergeOf(result, target, patch) {
      OnlyOneMerge(result, target, patch);
    }
  }

  lemma {:induction false} OnlyOneMerge(result: Json, target: Json, patch: Json)
    requires IsMergeOf(result, target, patch)
    ensures result == Merge(target, patch)
    decreases patch
  {
    assert Field(patch, []) == Some(patch) && Field(result, []) == Some(result);
    if patch.Obj? {
      var merged := Merge(target, patch);
      forall key
        ensures key in result.members <==> key in merged.members
        ensures key in result.members && key in merged.members ==> result.members[key] == merged.members[key]
      {
        SameMember(result, target, patch, key);
        if key in patch.members && patch.members[key] != Null {
          IsMergeBelow(result, target, patch, key);
          OnlyOneMerge(result.members[key],
                       if target.Obj? && key in target.members then target.members[key] else Null,
                       patch.members[key]);
        }
      }
      assert result.members == merged.members;
    }
  }

  lemma SameMember(result: Json, target: Json, patch: Json, key: string)
    requires IsMergeOf(result, target, patch) && patch.Obj? && result.Obj?
    ensures key !in patch.members ==> Field(result, [key]) == Field(target, [key])
    ensures key in result.members
       <==> if key in patch.members then patch.members[key] != Null else target.Obj? && key in target.members
    ensures key !in patch.members && key in result.members ==> result.members[key] == target.members[key]
  {
    OneField(result, key);
    OneField(target, key);
    OneField(patch, key);
    assert key !in patch.members ==> Silent(patch, [key]);
  }
}
