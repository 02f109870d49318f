/** What `resolve_ids` answers in terms of the documents a BMC serves: collections written out as
    JSON, in the order they list their members. */
module SystemDocuments {
  import opened Wrappers
  import opened Text
  import opened Json
  import opened Systems

  // ---------- collections ----------

  /** A member that links to the id under its collection. */
  predicate LinksTo(member: Json, front: string, id: string) {
    && member.Obj? && "@odata.id" in member.members
    && member.members["@odata.id"] == Str(front + "/" + id)
  }

  predicate HasNoLink(member: Json) {
    !member.Obj? || "@odata.id" !in member.members || !member.members["@odata.id"].Str?
  }

  /** The document is a collection that lists these ids, in this order. */
  ghost predicate Lists(document: Option<Json>, front: string, ids: seq<string>) {
    && document.Some? && document.value.Obj? && "Members" in document.value.members
    && document.value.members["Members"].Arr?
    && var items := document.value.members["Members"].items;
       && |items| == |ids|
       && forall i :: 0 <= i < |ids| ==> ids[i] != "" && Free(ids[i], '/') && LinksTo(items[i], front, ids[i])
  }

  lemma MemberLinked(member: Json, front: string, id: string)
    requires id != "" && Free(id, '/') && LinksTo(member, front, id)
    ensures MemberId(member) == Some(id)
  {
    hide LastSegment;
    LastSegmentOfMember(front, id, 0);
    assert front + "/" + id + seq(0, _ => '/') == front + "/" + id;
  }

  lemma {:induction false} IdsInOrder(items: seq<Json>, front: string, ids: seq<string>)
    requires |items| == |ids|
    requires forall i :: 0 <= i < |ids| ==> ids[i] != "" && Free(ids[i], '/') && LinksTo(items[i], front, ids[i])
    ensures IdsOf(items) == ids
  {
    hide MemberId;
    if ids != [] {
      MemberLinked(items[0], front, ids[0]);
      IdsInOrder(items[1..], front, ids[1..]);
    }
  }

  /** A collection's ids are the ones its members link to, in the order it lists them. */
  lemma ListedInOrder(document: Json, front: string, ids: seq<string>)
    requires Lists(Some(document), front, ids)
    ensures MemberIds(document) == ids
  {
    hide IdsOf;
    IdsInOrder(document.members["Members"].items, front, ids);
  }

  lemma Listed(docs: string -> Option<Json>, path: string, ids: seq<string>)
    requires Lists(docs(path), path, ids)
    ensures docs(path).Some? && MemberIds(docs(path).value) == ids
  {
    hide MemberIds;
    ListedInOrder(docs(path).value, path, ids);
  }

  lemma {:induction false} IdsAppend(a: seq<Json>, b: seq<Json>)
    ensures IdsOf(a + b) == IdsOf(a) + IdsOf(b)
  {
    hide IdsOf;
    if a == [] {
      assert a + b == b;
      NoIds();
    } else {
      IdsAppend(a[1..], b);
      assert (a + b)[1..] == a[1..] + b && (a + b)[0] == a[0];
      FirstId(a);
      FirstId(a + b);
    }
  }

  lemma NoIds()
    ensures IdsOf([]) == []
  {
  }

  lemma FirstId(members: seq<Json>)
    requires members != []
    ensures IdsOf(members) == IdsOf([members[0]]) + IdsOf(members[1..])
  {
    hide MemberId;
    assert [members[0]][1..] == [];
  }

  /** A member without a link is passed over where it stands; what lists no members has no ids. */
  lemma UnlinkedPassedOver(before: seq<Json>, member: Json, after: seq<Json>)
    requires HasNoLink(member)
    ensures MemberIds(Obj(map["Members" := Arr(before + [member] + after)]))
         == MemberIds(Obj(map["Members" := Arr(before + after)]))
    ensures forall other: Json ::
              !other.Obj? || "Members" !in other.members || !other.members["Members"].Arr? ==> MemberIds(other) == []
  {
    hide IdsOf;
    IdsAppend(before + [member], after);
    IdsAppend(before, [member]);
    IdsAppend(before, after);
    OneUnlinked(member);
  }

  lemma OneUnlinked(member: Json)
    requires HasNoLink(member)
    ensures IdsOf([member]) == []
  {
    assert [member][1..] == [];
  }

  // ---------- the system ----------

  /** A BMC that answers by path alone. */
  function Serving(docs: string -> Option<Json>): Bmc {
    (at: nat, path: string) => docs(path)
  }

  predicate ServesBios(docs: string -> Option<Json>, id: string) {
    match docs("/redfish/v1/Systems/" + id)
    case Some(Obj(members)) => "Bios" in members
    case _ => false
  }

  /** The system a client is told of: the preferred one, `System_0` if it is listed and else the
      first listed, unless another has a `Bios` and it has none; then the first listed that has. */
  ghost predicate IsChosen(docs: string -> Option<Json>, ids: seq<string>, system: string)
    requires ids != []
  {
    var preferred := if "System_0" in ids then "System_0" else ids[0];
    if ServesBios(docs, preferred) || forall i :: 0 <= i < |ids| ==> !ServesBios(docs, ids[i]) then
      system == preferred
    else
      exists k :: 0 <= k < |ids| && ids[k] == system && ServesBios(docs, system)
                  && forall j :: 0 <= j < k ==> !ServesBios(docs, ids[j])
  }

  lemma {:induction false} FirstOfOthers(docs: string -> Option<Json>, ids: seq<string>, preferred: string, i: nat)
    requires !ServesBios(docs, preferred) && i < |Others(ids, preferred)|
    requires ServesBios(docs, Others(ids, preferred)[i])
    requires forall j :: 0 <= j < i ==> !ServesBios(docs, Others(ids, preferred)[j])
    ensures exists k :: 0 <= k < |ids| && ids[k] == Others(ids, preferred)[i]
                        && forall j :: 0 <= j < k ==> !ServesBios(docs, ids[j])
  {
    hide ServesBios;
    var others := Others(ids, preferred);
    if ids[0] != others[i] {
      var rest := Others(ids[1..], preferred);
      var at := if ids[0] == preferred then i else i - 1;
      assert ids[0] != preferred ==> i > 0 && others[0] == ids[0];
      assert forall j :: 0 <= j < |rest| ==> rest[j] == others[j + i - at];
      FirstOfOthers(docs, ids[1..], preferred, at);
      var k :| 0 <= k < |ids[1..]| && ids[1..][k] == others[i]
               && forall j :: 0 <= j < k ==> !ServesBios(docs, ids[1..][j]);
      assert ids[k + 1] == others[i];
      assert forall j :: 1 <= j < k + 1 ==> ids[j] == ids[1..][j - 1];
    }
  }

  lemma SameAnswer(docs: string -> Option<Json>, order: seq<string>, i: nat)
    requires i < |order|
    ensures Probe(Serving(docs), order, i) == docs("/redfish/v1/Systems/" + order[i])
    ensures HasBios(Serving(docs), order, i) <==> ServesBios(docs, order[i])
  {
    assert SYSTEMS + "/" == "/redfish/v1/Systems/";
  }

  /** What the probing comes to: the chosen system, found by its `Bios` or else preferred. */
  lemma ProbingChooses(docs: string -> Option<Json>, ids: seq<string>)
    requires ids != []
    ensures var order := ProbeOrder(ids);
            var found := FirstWithBios(Serving(docs), order, 0);
            var system := match found case Some(i) => order[i] case None => order[0];
            IsChosen(docs, ids, system) && (found.Some? <==> ServesBios(docs, system))
  {
    hide ServesBios, HasBios, Others, FirstWithBios;
    var order, preferred := ProbeOrder(ids), PreferredOf(ids);
    var found := FirstWithBios(Serving(docs), order, 0);
    FirstWithBiosIsFirst(Serving(docs), order, 0);
    ProbeOrderCovers(ids);
    forall j | 0 <= j < |order|
      ensures HasBios(Serving(docs), order, j) <==> ServesBios(docs, order[j])
    {
      SameAnswer(docs, order, j);
    }
    match found {
      case None =>
        forall i | 0 <= i < |ids|
          ensures !ServesBios(docs, ids[i])
        {
          assert ids[i] in order;
        }
      case Some(i) =>
        assert order[i] in order;
        if i > 0 {
          var others := Others(ids, preferred);
          assert forall j :: 0 <= j < |others| ==> others[j] == order[j + 1];
          FirstOfOthers(docs, ids, preferred, i - 1);
        }
    }
  }

  lemma OneChosen(docs: string -> Option<Json>, ids: seq<string>, a: string, b: string)
    requires ids != [] && IsChosen(docs, ids, a) && IsChosen(docs, ids, b)
    ensures a == b
  {
    hide ServesBios;
  }

  // ---------- the manager ----------

  /** The system's document names the manager first in `Links/ManagedBy`. */
  predicate NamesManager(document: Json, manager: string) {
    && document.Obj? && "Links" in document.members && document.members["Links"].Obj?
    && var links := document.members["Links"].members;
       && "ManagedBy" in links && links["ManagedBy"].Arr? && links["ManagedBy"].items != []
       && LinksTo(links["ManagedBy"].items[0], "/redfish/v1/Managers", manager)
  }

  /** It names none: no links, no `ManagedBy` among them, an empty one, or a first entry without a
      link. */
  predicate NamesNoManager(document: Json) {
    || !document.Obj? || "Links" !in document.members || !document.members["Links"].Obj?
    || var links := document.members["Links"].members;
       || "ManagedBy" !in links || !links["ManagedBy"].Arr? || links["ManagedBy"].items == []
       || HasNoLink(links["ManagedBy"].items[0])
  }

  lemma ManagerRead(document: Json, manager: string)
    requires manager != "" && Free(manager, '/')
    ensures NamesManager(document, manager) ==> ManagedBy(document) == Some(manager)
    ensures NamesNoManager(document) ==> ManagedBy(document) == None
  {
    if NamesManager(document, manager) {
      MemberLinked(document.members["Links"].members["ManagedBy"].items[0], "/redfish/v1/Managers", manager);
    }
  }

  // ---------- the ids ----------

  lemma ResolvesWith(docs: string -> Option<Json>, ids: seq<string>, system: string)
    requires Lists(docs("/redfish/v1/Systems"), "/redfish/v1/Systems", ids) && ids != []
    requires IsChosen(docs, ids, system)
    ensures var linked := if ServesBios(docs, system)
                          then ManagedBy(docs("/redfish/v1/Systems/" + system).value) else None;
            Resolve(Serving(docs)).ids
            == match linked
               case Some(manager) => Ok(Ids(system, manager))
               case None =>
                 match FirstManager(Serving(docs), 0)
                 case Ok(manager) => Ok(Ids(system, manager))
                 case Err(e) => Err(e)
  {
    hide FirstWithBios, ManagedBy, MemberIds, ProbeOrder, IsChosen, Lists;
    var order := ProbeOrder(ids);
    var found := FirstWithBios(Serving(docs), order, 0);
    Listed(docs, "/redfish/v1/Systems", ids);
    ProbeOrderCovers(ids);
    ProbingChooses(docs, ids);
    OneChosen(docs, ids, system, match found case Some(i) => order[i] case None => order[0]);
    if found.Some? {
      SameAnswer(docs, order, found.value);
    }
  }

  /** With a `Bios` and a manager of its own, the chosen system is answered with that manager. */
  lemma OwnManagerAnswers(docs: string -> Option<Json>, ids: seq<string>, system: string, manager: string)
    requires Lists(docs("/redfish/v1/Systems"), "/redfish/v1/Systems", ids) && ids != []
    requires IsChosen(docs, ids, system) && ServesBios(docs, system)
    requires manager != "" && Free(manager, '/')
    requires NamesManager(docs("/redfish/v1/Systems/" + system).value, manager)
    ensures Resolve(Serving(docs)).ids == Ok(Ids(system, manager))
  {
    hide Resolve, IsChosen, Lists, NamesManager, ManagedBy, FirstManager;
    ResolvesWith(docs, ids, system);
    ManagerRead(docs("/redfish/v1/Systems/" + system).value, manager);
  }

  /** With no `Bios`, or no manager named by the system that has one, the first listed manager
      answers; a missing or empty manager collection is the error. */
  lemma FirstManagerAnswers(docs: string -> Option<Json>, ids: seq<string>, system: string, managers: seq<string>)
    requires Lists(docs("/redfish/v1/Systems"), "/redfish/v1/Systems", ids) && ids != []
    requires IsChosen(docs, ids, system)
    requires ServesBios(docs, system) ==> NamesNoManager(docs("/redfish/v1/Systems/" + system).value)
    ensures docs("/redfish/v1/Managers") == None ==>
              Resolve(Serving(docs)).ids == Err(FetchFailed("/redfish/v1/Managers"))
    ensures Lists(docs("/redfish/v1/Managers"), "/redfish/v1/Managers", managers) ==>
              Resolve(Serving(docs)).ids == if managers == [] then Err(NoManagers) else Ok(Ids(system, managers[0]))
  {
    hide Resolve, IsChosen, Lists, NamesNoManager, ManagedBy, MemberIds;
    ResolvesWith(docs, ids, system);
    if ServesBios(docs, system) {
      ManagerRead(docs("/redfish/v1/Systems/" + system).value, "m");
    }
    if Lists(docs("/redfish/v1/Managers"), "/redfish/v1/Managers", managers) {
      Listed(docs, "/redfish/v1/Managers", managers);
    }
  }

  /** A missing systems collection, or one that lists none, is an error before anything is probed. */
  lemma NoSystemsAnswered(docs: string -> Option<Json>)
    ensures docs("/redfish/v1/Systems") == None ==>
              Resolve(Serving(docs)) == Resolution(Err(FetchFailed("/redfish/v1/Systems")), 1)
    ensures Lists(docs("/redfish/v1/Systems"), "/redfish/v1/Systems", []) ==>
              Resolve(Serving(docs)) == Resolution(Err(NoSystems), 1)
  {
    hide MemberIds, Lists;
    if Lists(docs("/redfish/v1/Systems"), "/redfish/v1/Systems", []) {
      Listed(docs, "/redfish/v1/Systems", []);
    }
  }
}
