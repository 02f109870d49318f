/** Which system and manager a request is about (`resolve_ids`). The BMC is an oracle that answers
    each request by its position in the request's own sequence, so it may change its mind between
    two requests for one path. */
module Systems {
  import opened Wrappers
  import opened Text
  import opened Json

  const SYSTEMS: string := "/redfish/v1/Systems"
  const MANAGERS: string := "/redfish/v1/Managers"
  const PREFERRED: string := "System_0"

  /** `get_json`: the document, or nothing on any failure. */
  type Bmc = (nat, string) -> Option<Json>

  datatype Ids = Ids(system: string, manager: string)

  datatype IdError = FetchFailed(path: string) | NoSystems | NoManagers

  // ---------- reading a collection ----------

  /** Indexing a JSON value by key, as `serde_json` does: null where there is no such member. */
  function Index(value: Json, key: string): Json {
    if value.Obj? && key in value.members then value.members[key] else Null
  }

  /** The last non-empty segment of a link, with trailing slashes ignored. */
  function LastSegment(id: string): Option<string> {
    var parts := Split(TrimSlashes(id), '/');
    if parts[|parts| - 1] == "" then None else Some(parts[|parts| - 1])
  }

  /** The id a member link ends in. */
  function MemberId(member: Json): Option<string> {
    match Index(member, "@odata.id")
    case Str(id) => LastSegment(id)
    case _ => None
  }

  function IdsOf(members: seq<Json>): seq<string> {
    if members == [] then []
    else (match MemberId(members[0]) case Some(id) => [id] case None => []) + IdsOf(members[1..])
  }

  function MemberIds(collection: Json): seq<string> {
    match Index(collection, "Members")
    case Arr(members) => IdsOf(members)
    case _ => []
  }

  /** An id is a path segment: not empty, and no slash in it. */
  lemma LastSegmentIsSegment(id: string)
    ensures LastSegment(id).Some? ==> LastSegment(id).value != "" && Free(LastSegment(id).value, '/')
  {
    JoinSplit(TrimSlashes(id), '/');
  }

  /** A link under a collection gives back its id, however many slashes trail it. */
  lemma LastSegmentOfMember(collection: string, id: string, slashes: nat)
    requires id != "" && Free(id, '/')
    ensures LastSegment(collection + "/" + id + seq(slashes, _ => '/')) == Some(id)
  {
    var link := collection + "/" + id;
    TrimSlashesAll(link, slashes);
    SplitEnds(collection, id);
  }

  lemma {:induction false} SplitEnds(front: string, id: string)
    requires Free(id, '/')
    ensures var parts := Split(front + "/" + id, '/'); parts[|parts| - 1] == id && |parts| >= 2
  {
    var s := front + "/" + id;
    if front == "" {
      SplitWhole(id, '/');
      assert s[1..] == id;
    } else {
      SplitEnds(front[1..], id);
      assert s[1..] == front[1..] + "/" + id;
    }
  }

  // ---------- what is chosen ----------

  /** `System_0` if it is listed, else the first listed. */
  function PreferredOf(systems: seq<string>): string
    requires systems != []
  {
    if PREFERRED in systems then PREFERRED else systems[0]
  }

  function Others(systems: seq<string>, preferred: string): seq<string> {
    if systems == [] then []
    else (if systems[0] != preferred then [systems[0]] else []) + Others(systems[1..], preferred)
  }

  /** The order the systems are probed in: the preferred one, then the rest as listed. */
  function ProbeOrder(systems: seq<string>): seq<string>
    requires systems != []
  {
    [PreferredOf(systems)] + Others(systems, PreferredOf(systems))
  }

  function SystemPath(id: string): string {
    SYSTEMS + "/" + id
  }

  /** The answer to probe `i`, which is request `i + 1`. */
  function Probe(bmc: Bmc, order: seq<string>, i: nat): Option<Json>
    requires i < |order|
  {
    bmc(i + 1, SystemPath(order[i]))
  }

  /** The probe answered with a document that has a `Bios` member, whatever it holds. */
  predicate HasBios(bmc: Bmc, order: seq<string>, i: nat)
    requires i < |order|
  {
    match Probe(bmc, order, i)
    case Some(Obj(members)) => "Bios" in members
    case _ => false
  }

  /** The first probed system with a `Bios`, if any has one. */
  ghost predicate IsFirstWithBios(bmc: Bmc, order: seq<string>, found: Option<nat>) {
    match found
    case Some(i) => i < |order| && HasBios(bmc, order, i) && forall j: nat :: j < i ==> !HasBios(bmc, order, j)
    case None => forall j: nat :: j < |order| ==> !HasBios(bmc, order, j)
  }

  function FirstWithBios(bmc: Bmc, order: seq<string>, from: nat): (found: Option<nat>)
    requires from <= |order|
    ensures found.Some? ==> from <= found.value < |order| && HasBios(bmc, order, found.value)
    decreases |order| - from
  {
    if from == |order| then None
    else if HasBios(bmc, order, from) then Some(from)
    else FirstWithBios(bmc, order, from + 1)
  }

  lemma {:induction false} FirstWithBiosIsFirst(bmc: Bmc, order: seq<string>, from: nat)
    requires from <= |order| && forall j: nat :: j < from ==> !HasBios(bmc, order, j)
    ensures IsFirstWithBios(bmc, order, FirstWithBios(bmc, order, from))
    decreases |order| - from
  {
    if from < |order| && !HasBios(bmc, order, from) {
      FirstWithBiosIsFirst(bmc, order, from + 1);
    }
  }

  /** The manager a system links to first. */
  function ManagedBy(system: Json): Option<string> {
    match Index(Index(system, "Links"), "ManagedBy")
    case Arr(items) => if items == [] then None else MemberId(items[0])
    case _ => None
  }

  /** The first listed manager, as the fallback. */
  function FirstManager(bmc: Bmc, at: nat): Result<string, IdError> {
    match bmc(at, MANAGERS)
    case None => Err(FetchFailed(MANAGERS))
    case Some(collection) =>
      if MemberIds(collection) == [] then Err(NoManagers) else Ok(MemberIds(collection)[0])
  }

  /** The ids an uncached request resolves, and how many requests that takes. */
  datatype Resolution = Resolution(ids: Result<Ids, IdError>, requests: nat)

  function Resolve(bmc: Bmc): Resolution {
    match bmc(0, SYSTEMS)
    case None => Resolution(Err(FetchFailed(SYSTEMS)), 1)
    case Some(collection) =>
      var systems := MemberIds(collection);
      if systems == [] then Resolution(Err(NoSystems), 1)
      else ResolveAmong(bmc, ProbeOrder(systems))
  }

  function ResolveAmong(bmc: Bmc, order: seq<string>): Resolution
    requires order != []
  {
    match FirstWithBios(bmc, order, 0)
    case Some(i) =>
      (match ManagedBy(Probe(bmc, order, i).value)
       case Some(manager) => Resolution(Ok(Ids(order[i], manager)), i + 2)
       case None => Named(order[i], FirstManager(bmc, i + 2), i + 3))
    case None => Named(order[0], FirstManager(bmc, |order| + 1), |order| + 2)
  }

  function Named(system: string, manager: Result<string, IdError>, requests: nat): Resolution {
    match manager
    case Ok(id) => Resolution(Ok(Ids(system, id)), requests)
    case Err(e) => Resolution(Err(e), requests)
  }

  lemma {:induction false} OthersAtMost(systems: seq<string>, preferred: string)
    ensures |Others(systems, preferred)| <= |systems|
    ensures preferred in systems ==> |Others(systems, preferred)| < |systems|
    ensures forall id :: id in Others(systems, preferred) <==> id in systems && id != preferred
  {
    if systems != [] {
      OthersAtMost(systems[1..], preferred);
      assert systems == [systems[0]] + systems[1..];
    }
  }

  /** Every listed system is probed in its turn, and the preferred one first. */
  lemma ProbeOrderCovers(systems: seq<string>)
    requires systems != []
    ensures ProbeOrder(systems) != [] && ProbeOrder(systems)[0] == PreferredOf(systems)
    ensures forall id :: id in ProbeOrder(systems) <==> id in systems
    ensures |ProbeOrder(systems)| <= |systems|
  {
    OthersAtMost(systems, PreferredOf(systems));
  }

  /** The manager is the one the found system links to, or else the first listed, which takes one
      more request, after all the probes. */
  ghost predicate IsManager(bmc: Bmc, order: seq<string>, found: Option<nat>, manager: string)
    requires found.Some? ==> found.value < |order|
  {
    var linked := match found
      case Some(i) => (match Probe(bmc, order, i) case Some(system) => ManagedBy(system) case None => None)
      case None => None;
    match linked
    case Some(id) => manager == id
    case None =>
      var at := match found case Some(i) => i + 2 case None => |order| + 1;
      FirstManager(bmc, at) == Ok(manager)
  }

  /** When systems are listed, the one resolved is the first in probe order that answers with a
      `Bios`, or the preferred one if none does, with its own manager, and it is resolved exactly
      when there is such a manager; a resolution never takes more requests than there are systems,
      and two more. */
  lemma ResolvesFirstWithBios(bmc: Bmc, collection: Json)
    requires bmc(0, SYSTEMS) == Some(collection) && MemberIds(collection) != []
    ensures var systems := MemberIds(collection);
            var order := ProbeOrder(systems);
            && Resolve(bmc).requests <= |systems| + 2
            && exists found ::
                 && IsFirstWithBios(bmc, order, found)
                 && (Resolve(bmc).ids.Ok? <==> exists manager :: IsManager(bmc, order, found, manager))
                 && (Resolve(bmc).ids.Ok? ==>
                       && Resolve(bmc).ids.value.system
                          == (match found case Some(i) => order[i] case None => PreferredOf(systems))
                       && IsManager(bmc, order, found, Resolve(bmc).ids.value.manager))
  {
    hide MemberIds, ProbeOrder, PreferredOf, FirstWithBios, HasBios, IsFirstWithBios, Index;
    var order := ProbeOrder(MemberIds(collection));
    ProbeOrderCovers(MemberIds(collection));
    FirstWithBiosIsFirst(bmc, order, 0);
    ResolvesAmong(bmc, order);
    assert Resolve(bmc) == ResolveAmong(bmc, order);
  }

  lemma ResolvesAmong(bmc: Bmc, order: seq<string>)
    requires order != []
    ensures var found := FirstWithBios(bmc, order, 0);
            && ResolveAmong(bmc, order).requests <= |order| + 2
            && (ResolveAmong(bmc, order).ids.Ok? <==> exists manager :: IsManager(bmc, order, found, manager))
            && (ResolveAmong(bmc, order).ids.Ok? ==>
                  && ResolveAmong(bmc, order).ids.value.system
                     == (match found case Some(i) => order[i] case None => order[0])
                  && IsManager(bmc, order, found, ResolveAmong(bmc, order).ids.value.manager))
  {
    hide FirstWithBios, ManagedBy, MemberIds;
    if ResolveAmong(bmc, order).ids.Ok? {
      assert IsManager(bmc, order, FirstWithBios(bmc, order, 0), ResolveAmong(bmc, order).ids.value.manager);
    }
  }

  // ---------- the request context ----------

  class Context {
    var ids: Option<Ids>
    /** How many requests this context has sent. */
    ghost var sent: nat

    constructor ()
      ensures ids == None && sent == 0
    {
      ids := None;
      sent := 0;
    }

    method GetJson(bmc: Bmc, at: nat, path: string) returns (found: Option<Json>)
      modifies this`sent
      ensures found == bmc(at, path) && sent == old(sent) + 1
    {
      found := bmc(at, path);
      sent := sent + 1;
    }

    /** Fetches the systems in turn until one has a `Bios`: how many were fetched, the manager that
        one links to, and whether there was one. */
    method ProbeSystems(bmc: Bmc, order: seq<string>) returns (probed: nat, managedBy: Option<string>, found: bool)
      modifies this`sent
      ensures sent == old(sent) + probed
      ensures match FirstWithBios(bmc, order, 0)
              case Some(i) => found && probed == i + 1 && managedBy == ManagedBy(Probe(bmc, order, i).value)
              case None => !found && probed == |order| && managedBy == None
    {
      probed, managedBy, found := 0, None, false;
      while probed < |order|
        invariant probed <= |order| && sent == old(sent) + probed
        invariant managedBy.None? && !found
        invariant FirstWithBios(bmc, order, 0) == FirstWithBios(bmc, order, probed)
      {
        var system := GetJson(bmc, probed + 1, SystemPath(order[probed]));
        probed := probed + 1;
        if system.Some? && system.value.Obj? && "Bios" in system.value.members {
          return probed, ManagedBy(system.value), true;
        }
      }
    }

    /** `resolve_ids`. The cache is written only when both ids are known, and once it is, nothing is
        fetched. */
    method ResolveIds(bmc: Bmc) returns (result: Result<Ids, IdError>)
      modifies this
      ensures match old(ids)
              case Some(cached) => result == Ok(cached) && ids == old(ids) && sent == old(sent)
              case None =>
                && Resolve(bmc).ids == result && sent == old(sent) + Resolve(bmc).requests
                && ids == (match result case Ok(resolved) => Some(resolved) case Err(_) => None)
    {
      if ids.Some? {
        return Ok(ids.value);
      }
      var collection := GetJson(bmc, 0, SYSTEMS);
      if collection.None? {
        return Err(FetchFailed(SYSTEMS));
      }
      var systems := MemberIds(collection.value);
      if systems == [] {
        return Err(NoSystems);
      }
      var order := ProbeOrder(systems);
      var i, managedBy, found := ProbeSystems(bmc, order);
      var manager := "";
      if managedBy.Some? {
        manager := managedBy.value;
      } else {
        var managers := GetJson(bmc, i + 1, MANAGERS);
        if managers.None? {
          return Err(FetchFailed(MANAGERS));
        }
        var listed := MemberIds(managers.value);
        if listed == [] {
          return Err(NoManagers);
        }
        manager := listed[0];
      }
      var resolved := Ids(if found then order[i - 1] else order[0], manager);
      ids := Some(resolved);
      return Ok(resolved);
    }
  }
}
