/** The store-backed Supermicro scripts: KCS privilege, host interface, system lockdown and secure
    boot, the factory reset that clears them, and the two other scripts that write beside them.
    Each request performs one store operation, so a run of the proxy is a sequence of requests. */
module Lockdown {
  import opened Wrappers
  import opened Text
  import opened Json
  import opened DeepPath
  import opened Tree
  import opened StoreModel

  // ---------- resources and their keys ----------

  datatype Script = KcsInterface | HostInterface | SysLockdown | SecureBoot

  /** What one script keeps for one member: the manager or system, and for host interfaces the
      interface too. */
  datatype Resource = Resource(script: Script, member: string, interface: string)

  /** `util::segment`: a negative index counts from the end. */
  function SegmentOf(path: string, index: int): Option<string> {
    var parts := Split(path, '/');
    var at := if index < 0 then |parts| + index else index;
    if 0 <= at < |parts| then Some(parts[at]) else None
  }

  /** A segment is a slash-free piece of the path, whichever end it is counted from. */
  lemma SegmentIsPiece(path: string, index: int)
    ensures SegmentOf(path, index).Some? <==> -|Split(path, '/')| <= index < |Split(path, '/')|
    ensures match SegmentOf(path, index)
            case None => true
            case Some(segment) => Free(segment, '/') && segment in Split(path, '/')
  {
    JoinSplit(path, '/');
  }

  function ResourceAt(script: Script, path: string): Option<Resource> {
    match SegmentOf(path, 4)
    case None => None
    case Some(member) =>
      if script != HostInterface then Some(Resource(script, member, ""))
      else
        match SegmentOf(path, 6)
        case Some(id) => Some(Resource(script, member, id))
        case None => None
  }

  function Field(script: Script): string {
    match script
    case KcsInterface => "Privilege"
    case HostInterface => "InterfaceEnabled"
    case SysLockdown => "SysLockdownEnabled"
    case SecureBoot => "SecureBootEnable"
  }

  /** The last part of the script's keys. */
  function Suffix(script: Script): string {
    match script
    case KcsInterface => "KCSPrivilege"
    case HostInterface => "HostInterfaceEnabled"
    case SysLockdown => "SysLockdownEnabled"
    case SecureBoot => "SecureBootEnable"
  }

  /** Everything these scripts keep: a resource's value, a system's boot order, or the fact that a
      password was set. */
  datatype Slot = Kept(r: Resource) | BootOrder(system: string) | Password

  const PREFIX: string := "supermicro/"

  /** The parts of a slot's key, in the order the scripts' templates put them. */
  function KeyParts(slot: Slot): (parts: seq<string>)
    ensures |parts| >= 2 && parts[0] == "supermicro"
  {
    match slot
    case Kept(Resource(HostInterface, member, interface)) =>
      ["supermicro", member, interface, Suffix(HostInterface)]
    case Kept(Resource(script, member, _)) => ["supermicro", member, Suffix(script)]
    case BootOrder(system) => ["supermicro", system, "BootOrder"]
    case Password => ["supermicro", "UefiPasswordSet"]
  }

  function SlotKey(slot: Slot): string {
    Join(KeyParts(slot), '/')
  }

  function KeyOf(r: Resource): string {
    SlotKey(Kept(r))
  }

  /** The values a client can have stored. */
  predicate Accepts(script: Script, value: Json) {
    if script == KcsInterface then
      value == Str("Administrator") || value == Str("Operator") || value == Str("User") || value == Str("Callback")
    else value.Bool?
  }

  /** What a read answers before any write. */
  function Default(script: Script): Json {
    match script
    case KcsInterface => Str("Administrator")
    case HostInterface => Bool(true)
    case SysLockdown => Bool(false)
    case SecureBoot => Bool(false)
  }

  /** Path segments hold no slash. */
  ghost predicate SlashFree(r: Resource) {
    Free(r.member, '/') && Free(r.interface, '/') && (r.script != HostInterface ==> r.interface == "")
  }

  lemma ResourcesAreSlashFree(script: Script, path: string)
    requires ResourceAt(script, path).Some?
    ensures SlashFree(ResourceAt(script, path).value) && ResourceAt(script, path).value.script == script
  {
    SegmentIsPiece(path, 4);
    SegmentIsPiece(path, 6);
  }

  ghost predicate SlashFreeSlot(slot: Slot) {
    match slot
    case Kept(r) => SlashFree(r)
    case BootOrder(system) => Free(system, '/')
    case Password => true
  }

  /** The keys spelled as the scripts' templates spell them. */
  lemma KeyText(r: Resource)
    ensures KeyOf(r)
         == match r.script
            case KcsInterface => "supermicro/" + r.member + "/KCSPrivilege"
            case HostInterface => "supermicro/" + r.member + "/" + r.interface + "/HostInterfaceEnabled"
            case SysLockdown => "supermicro/" + r.member + "/SysLockdownEnabled"
            case SecureBoot => "supermicro/" + r.member + "/SecureBootEnable"
  {
    hide KeyOf, Suffix;
    KeyAsText(r);
    SlashedSuffix(r.script);
    var slashed := "/" + Suffix(r.script);
    Slashed("supermicro/" + r.member, Suffix(r.script), slashed);
    Slashed("supermicro/" + r.member + "/" + r.interface, Suffix(r.script), slashed);
  }

  lemma SlashedSuffix(script: Script)
    ensures "/" + Suffix(script)
         == match script
            case KcsInterface => "/KCSPrivilege"
            case HostInterface => "/HostInterfaceEnabled"
            case SysLockdown => "/SysLockdownEnabled"
            case SecureBoot => "/SecureBootEnable"
  {
    hide Suffix;
    if script == HostInterface || script == SysLockdown {
      LongSuffixes();
    } else {
      ShortSuffixes();
    }
  }

  lemma LongSuffixes()
    ensures "/" + Suffix(HostInterface) == "/HostInterfaceEnabled"
    ensures "/" + Suffix(SysLockdown) == "/SysLockdownEnabled"
  {
  }

  lemma ShortSuffixes()
    ensures "/" + Suffix(KcsInterface) == "/KCSPrivilege"
    ensures "/" + Suffix(SecureBoot) == "/SecureBootEnable"
  {
  }

  lemma Slashed(front: string, last: string, slashed: string)
    requires "/" + last == slashed
    ensures front + "/" + last == front + slashed
  {
  }

  lemma KeyAsText(r: Resource)
    ensures KeyOf(r) == if r.script == HostInterface
                        then "supermicro/" + r.member + "/" + r.interface + "/" + Suffix(r.script)
                        else "supermicro/" + r.member + "/" + Suffix(r.script)
  {
    var suffix := Suffix(r.script);
    JoinThree("supermicro", r.member, suffix);
    if r.script == HostInterface {
      JoinThree(r.member, r.interface, suffix);
      assert KeyParts(Kept(r))[1..] == [r.member, r.interface, suffix];
    }
  }

  lemma OtherKeyText(system: string)
    ensures SlotKey(BootOrder(system)) == "supermicro/" + system + "/BootOrder"
    ensures SlotKey(Password) == "supermicro/UefiPasswordSet"
  {
    hide Join;
    JoinThree("supermicro", system, "BootOrder");
    JoinTwo("supermicro", "UefiPasswordSet");
  }

  lemma JoinTwo(a: string, b: string)
    ensures Join([a, b], '/') == a + "/" + b
  {
  }

  lemma JoinThree(a: string, b: string, c: string)
    ensures Join([a, b, c], '/') == a + "/" + b + "/" + c
  {
    JoinTwo(b, c);
    assert [a, b, c][1..] == [b, c];
  }

  /** Each kind of slot has its own last part, of its own length. */
  function TailLen(slot: Slot): nat {
    match slot
    case Kept(r) =>
      (match r.script case KcsInterface => 12 case HostInterface => 20 case SysLockdown => 18 case SecureBoot => 16)
    case BootOrder(_) => 9
    case Password => 15
  }

  lemma TailLength(slot: Slot)
    ensures var parts := KeyParts(slot); |parts[|parts| - 1]| == TailLen(slot)
  {
  }

  lemma PartsFree(slot: Slot)
    requires SlashFreeSlot(slot)
    ensures AllFree(KeyParts(slot), '/')
  {
    match slot {
      case Kept(r) => SuffixFree(r.script);
      case _ =>
    }
  }

  lemma SuffixFree(script: Script)
    ensures Free(Suffix(script), '/')
  {
  }

  /** No two slots share a key: not two resources, nor a resource and what the other scripts keep. */
  lemma KeysInjective(a: Slot, b: Slot)
    requires SlashFreeSlot(a) && SlashFreeSlot(b)
    ensures SlotKey(a) == SlotKey(b) <==> a == b
  {
    if SlotKey(a) == SlotKey(b) {
      PartsFree(a);
      PartsFree(b);
      SplitJoin(KeyParts(a), '/');
      SplitJoin(KeyParts(b), '/');
      assert KeyParts(a) == KeyParts(b);
      TailLength(a);
      TailLength(b);
      assert KeyParts(a)[1] == KeyParts(b)[1];
    }
  }

  lemma UnderPrefix(r: Resource)
    ensures PREFIX <= KeyOf(r)
  {
  }

  /** A resource can be kept exactly when its names leave room in the key for the prefix, the slashes
      and the last part. */
  lemma KeyFitsExactly(r: Resource)
    ensures CheckKey(KeyOf(r)) == None
       <==> |PREFIX| + Utf8Len(r.member) + 1
            + (if r.script == HostInterface then Utf8Len(r.interface) + 1 else 0)
            + |Suffix(r.script)| <= MAX_KEY_LEN
  {
    hide KeyOf, Utf8Len;
    KeyAsText(r);
    var suffix := Suffix(r.script);
    assert forall i :: 0 <= i < |suffix| ==> suffix[i] as int < 0x80;
    Utf8LenAscii(PREFIX);
    Utf8LenAscii("/");
    Utf8LenAscii(suffix);
    Utf8LenAppend(PREFIX, r.member);
    Utf8LenAppend(PREFIX + r.member, "/");
    var front := PREFIX + r.member + "/";
    if r.script == HostInterface {
      Utf8LenAppend(front, r.interface);
      Utf8LenAppend(front + r.interface, "/");
      Utf8LenAppend(front + r.interface + "/", suffix);
    } else {
      Utf8LenAppend(front, suffix);
    }
  }

  // ---------- requests ----------

  /** The body as a script sees it: not declared JSON, declared but unreadable, or a document. */
  datatype Body = NotJson | Malformed | Parsed(json: Json)

  datatype Request =
    | Access(script: Script, verb: string, path: string, body: Body)
    | ConfigReset
    | SetBootOrder(system: string, order: Json)
    | SetPassword

  datatype Answer =
    | Status(code: nat)
    | Shown(value: Json, current: Option<string>)
    | Failed

  datatype Served = Served(entries: Entries, answer: Answer)

  predicate IsWrite(verb: string) {
    verb == "PATCH" || verb == "PUT"
  }

  /** The value a write asks for, if the body holds an acceptable one. */
  function Wanted(script: Script, body: Body): Option<Json> {
    if body.Parsed? && At(body.json, Field(script)).Some? && Accepts(script, At(body.json, Field(script)).value)
    then At(body.json, Field(script))
    else None
  }

  ghost function AnswerTo(reply: Reply): Answer {
    if reply == Stored || reply.Removed? then Status(204) else Failed
  }

  /** One request against the store. */
  ghost function Serve(entries: Entries, request: Request): Served {
    match request
    case Access(script, verb, path, body) =>
      (match ResourceAt(script, path)
       case None => Served(entries, Failed)
       case Some(r) => if IsWrite(verb) then Write(entries, r, body) else Served(entries, Read(entries, r)))
    case ConfigReset =>
      var outcome := Perform(entries, RemovePrefix(PREFIX));
      Served(outcome.entries, AnswerTo(outcome.reply))
    case SetBootOrder(system, order) =>
      var outcome := Perform(entries, Set(SlotKey(BootOrder(system)), order));
      Served(outcome.entries, AnswerTo(outcome.reply))
    case SetPassword =>
      var outcome := Perform(entries, Set(SlotKey(Password), Bool(true)));
      Served(outcome.entries, AnswerTo(outcome.reply))
  }

  /** A write of a resource: 400 unless the body holds an acceptable value. */
  ghost function Write(entries: Entries, r: Resource, body: Body): Served {
    if body == Malformed then Served(entries, Failed)
    else
      match Wanted(r.script, body)
      case None => Served(entries, Status(400))
      case Some(value) =>
        var outcome := Perform(entries, Set(KeyOf(r), value));
        Served(outcome.entries, AnswerTo(outcome.reply))
  }

  /** What a read of a resource answers. Secure boot branches on the stored value, so a value that
      is not a boolean would end the script. */
  function Read(entries: Entries, r: Resource): Answer {
    match ReadOr(entries, KeyOf(r), Default(r.script))
    case Err(_) => Failed
    case Ok(value) => if r.script == SecureBoot && !value.Bool? then Failed else Show(r.script, value)
  }

  /** The answer that shows a value; secure boot adds `SecureBootCurrentBoot`, derived from it. */
  function Show(script: Script, value: Json): Answer
    requires script == SecureBoot ==> value.Bool?
  {
    Shown(value, if script == SecureBoot then Some(if value.b then "Enabled" else "Disabled") else None)
  }

  // ---------- the scripts ----------

  /** The write half of the `handle` function the four resource scripts share, with its `seen`
      flag. `encoded` stands for the JSON library's encoder. */
  method HandleWrite(store: Store, r: Resource, body: Body, encoded: Json -> nat) returns (answer: Answer)
    requires forall value :: encoded(value) == EncodedLen(value)
    modifies store
    ensures Served(store.entries, answer) == Write(old(store.entries), r, body)
  {
    hide KeyOf;
    var seen := false;
    if body == Malformed {
      return Failed;
    }
    if body.Parsed? {
      var value := WalkPath(body.json, Field(r.script));
      if value.Some? && Accepts(r.script, value.value) {
        var reply := store.SetValue(KeyOf(r), value.value, encoded(value.value));
        if reply != Stored {
          return Failed;
        }
        seen := true;
      }
    }
    return if seen then Status(204) else Status(400);
  }

  /** The whole of it: which resource the path names, then a write or a read. */
  method Handle(store: Store, script: Script, verb: string, path: string, body: Body, encoded: Json -> nat)
    returns (answer: Answer)
    requires forall value :: encoded(value) == EncodedLen(value)
    modifies store
    ensures Served(store.entries, answer) == Serve(old(store.entries), Access(script, verb, path, body))
  {
    hide KeyOf;
    var resource := ResourceAt(script, path);
    if resource.None? {
      return Failed;
    }
    if IsWrite(verb) {
      answer := HandleWrite(store, resource.value, body, encoded);
      return;
    }
    var stored := store.GetOr(KeyOf(resource.value), Default(script));
    if stored.Err? || (script == SecureBoot && !stored.value.Bool?) {
      return Failed;
    }
    return Show(script, stored.value);
  }

  method HandleReset(store: Store) returns (answer: Answer)
    modifies store
    ensures Served(store.entries, answer) == Serve(old(store.entries), ConfigReset)
  {
    var reply := store.RemoveUnder(PREFIX);
    return if reply.Removed? then Status(204) else Failed;
  }

  // ---------- whole runs ----------

  datatype Exchange = Exchange(request: Request, answer: Answer)

  /** Boot order keys are named by a path segment too. */
  ghost predicate Sane(request: Request) {
    request.SetBootOrder? ==> Free(request.system, '/')
  }

  ghost function StateAfter(requests: seq<Request>): Entries {
    if requests == [] then map[]
    else Serve(StateAfter(requests[..|requests| - 1]), requests[|requests| - 1]).entries
  }

  ghost function Exchanges(requests: seq<Request>): (log: seq<Exchange>)
    ensures |log| == |requests|
  {
    if requests == [] then []
    else
      var init, last := requests[..|requests| - 1], requests[|requests| - 1];
      Exchanges(init) + [Exchange(last, Serve(StateAfter(init), last).answer)]
  }

  ghost predicate AllSane(requests: seq<Request>) {
    forall i :: 0 <= i < |requests| ==> Sane(requests[i])
  }

  /** A write of this resource that was answered 204, and the value it wrote. */
  ghost predicate Wrote(exchange: Exchange, r: Resource) {
    && exchange.request.Access? && IsWrite(exchange.request.verb)
    && ResourceAt(exchange.request.script, exchange.request.path) == Some(r)
    && exchange.answer == Status(204)
    && Wanted(r.script, exchange.request.body).Some?
  }

  /** What a client who saw every answer expects to read: the last write answered 204 since the
      last reset, or the default. */
  ghost function ExpectedValue(log: seq<Exchange>, r: Resource): Json {
    if log == [] then Default(r.script)
    else
      var last := log[|log| - 1];
      if last.request.ConfigReset? then Default(r.script)
      else if Wrote(last, r) then Wanted(r.script, last.request.body).value
      else ExpectedValue(log[..|log| - 1], r)
  }

  lemma ResetTakes(entries: Entries)
    ensures CheckKey(PREFIX) == None
    ensures Serve(entries, ConfigReset).answer == Status(204)
  {
    hide Utf8Len;
    PrefixLength();
  }

  lemma PrefixLength()
    ensures Utf8Len(PREFIX) <= MAX_KEY_LEN
  {
  }

  /** One request changes a resource's key only by writing that resource or by a reset. */
  lemma ServeEffect(entries: Entries, request: Request, r: Resource)
    requires SlashFree(r) && Sane(request)
    ensures var served := Serve(entries, request);
            Lookup(served.entries, KeyOf(r))
            == if request.ConfigReset? then None
               else if Wrote(Exchange(request, served.answer), r) then Wanted(r.script, request.body)
               else Lookup(entries, KeyOf(r))
  {
    hide SlotKey, Accepts, At, Perform;
    match request {
      case Access(_, _, _, _) => AccessEffect(entries, request, r);
      case ConfigReset => ResetEffect(entries, r);
      case SetBootOrder(system, order) =>
        KeysInjective(BootOrder(system), Kept(r));
        SetElsewhere(entries, SlotKey(BootOrder(system)), order, KeyOf(r));
      case SetPassword =>
        KeysInjective(Password, Kept(r));
        SetElsewhere(entries, SlotKey(Password), Bool(true), KeyOf(r));
    }
  }

  lemma ResetEffect(entries: Entries, r: Resource)
    ensures Lookup(Serve(entries, ConfigReset).entries, KeyOf(r)) == None
  {
    hide KeyOf, Utf8Len;
    PrefixLength();
    UnderPrefix(r);
  }

  lemma SetElsewhere(entries: Entries, key: string, value: Json, other: string)
    requires key != other
    ensures Lookup(Perform(entries, Set(key, value)).entries, other) == Lookup(entries, other)
  {
  }

  lemma SetHere(entries: Entries, key: string, value: Json)
    ensures var outcome := Perform(entries, Set(key, value));
            && (outcome.reply == Stored || outcome.reply.Refused?)
            && Lookup(outcome.entries, key) == if outcome.reply == Stored then Some(value) else Lookup(entries, key)
  {
  }

  lemma AccessEffect(entries: Entries, request: Request, r: Resource)
    requires SlashFree(r) && request.Access?
    ensures var served := Serve(entries, request);
            Lookup(served.entries, KeyOf(r))
            == if Wrote(Exchange(request, served.answer), r) then Wanted(r.script, request.body)
               else Lookup(entries, KeyOf(r))
  {
    var script, body := request.script, request.body;
    if ResourceAt(script, request.path).Some? {
      var touched := ResourceAt(script, request.path).value;
      ResourcesAreSlashFree(script, request.path);
      KeysInjective(Kept(touched), Kept(r));
      if IsWrite(request.verb) && body != Malformed && Wanted(script, body).Some? {
        var value := Wanted(script, body).value;
        SetHere(entries, KeyOf(touched), value);
        if touched != r {
          SetElsewhere(entries, KeyOf(touched), value, KeyOf(r));
        }
      }
    }
  }

  ghost function StoredOr(entries: Entries, r: Resource): Json {
    match Lookup(entries, KeyOf(r))
    case Some(value) => value
    case None => Default(r.script)
  }

  /** StateAfter any run, a resource holds what its clients expect, and that is a value the script
      accepts. */
  lemma {:induction false} ResourceHoldsExpected(requests: seq<Request>, r: Resource)
    requires SlashFree(r) && AllSane(requests)
    ensures StoredOr(StateAfter(requests), r) == ExpectedValue(Exchanges(requests), r)
    ensures Accepts(r.script, ExpectedValue(Exchanges(requests), r))
  {
    if requests != [] {
      var init, last := requests[..|requests| - 1], requests[|requests| - 1];
      ResourceHoldsExpected(init, r);
      assert Sane(last);
      ServeEffect(StateAfter(init), last, r);
      assert Exchanges(requests)[..|requests| - 1] == Exchanges(init);
      assert Exchanges(requests)[|requests| - 1] == Exchange(last, Serve(StateAfter(init), last).answer);
    }
  }

  /** Every read, in every run, answers with what the client expects; it fails only where the key
      is too long to store. In particular KCS privilege reads one of the vendor's four values and
      the three flags read booleans. */
  lemma ReadShowsExpected(requests: seq<Request>, r: Resource)
    requires SlashFree(r) && AllSane(requests)
    ensures Accepts(r.script, ExpectedValue(Exchanges(requests), r))
    ensures Read(StateAfter(requests), r)
         == if CheckKey(KeyOf(r)) == None then Show(r.script, ExpectedValue(Exchanges(requests), r)) else Failed
  {
    ResourceHoldsExpected(requests, r);
  }

  /** Neither a reset nor a write of this resource. */
  predicate Leaves(request: Request, r: Resource) {
    && !request.ConfigReset?
    && !(request.Access? && IsWrite(request.verb) && ResourceAt(request.script, request.path) == Some(r))
  }

  lemma {:induction false} Undisturbed(start: seq<Request>, between: seq<Request>, r: Resource)
    requires SlashFree(r) && forall i :: 0 <= i < |between| ==> Sane(between[i]) && Leaves(between[i], r)
    ensures Lookup(StateAfter(start + between), KeyOf(r)) == Lookup(StateAfter(start), KeyOf(r))
    decreases |between|
  {
    hide Serve, KeyOf;
    if between == [] {
      assert start + between == start;
    } else {
      var shorter, last := between[..|between| - 1], between[|between| - 1];
      Undisturbed(start, shorter, r);
      assert (start + between)[..|start + between| - 1] == start + shorter;
      assert Sane(between[|between| - 1]) && Leaves(between[|between| - 1], r);
      ServeEffect(StateAfter(start + shorter), last, r);
    }
  }

  /** A write answered 204 is what every read shows until the resource is written again or a reset
      comes, whatever the other resources do in between. */
  lemma WriteReadBack(before: seq<Request>, write: Request, between: seq<Request>, r: Resource)
    requires SlashFree(r) && Wrote(Exchange(write, Serve(StateAfter(before), write).answer), r)
    requires forall i :: 0 <= i < |between| ==> Sane(between[i]) && Leaves(between[i], r)
    ensures Read(StateAfter(before + [write] + between), r) == Show(r.script, Wanted(r.script, write.body).value)
  {
    var start := before + [write];
    assert start[..|start| - 1] == before;
    ResourcesAreSlashFree(write.script, write.path);
    ServeEffect(StateAfter(before), write, r);
    WroteMeansKeyFits(StateAfter(before), write, r);
    Undisturbed(start, between, r);
  }

  lemma WroteMeansKeyFits(entries: Entries, write: Request, r: Resource)
    requires Wrote(Exchange(write, Serve(entries, write).answer), r)
    ensures CheckKey(KeyOf(r)) == None
  {
  }

  /** No request changes what another resource reads, unless it is a reset. */
  lemma WritesStayApart(entries: Entries, request: Request, r: Resource)
    requires SlashFree(r) && Sane(request) && !request.ConfigReset?
    requires request.Access? ==> ResourceAt(request.script, request.path) != Some(r)
    ensures Read(Serve(entries, request).entries, r) == Read(entries, r)
  {
    hide KeyOf, Serve, Wanted, CheckKey;
    ServeEffect(entries, request, r);
  }

  /** A reset is always answered 204 and puts every resource back to its default. */
  lemma ResetRestoresDefaults(entries: Entries, r: Resource)
    requires SlashFree(r) && CheckKey(KeyOf(r)) == None
    ensures Serve(entries, ConfigReset).answer == Status(204)
    ensures Read(Serve(entries, ConfigReset).entries, r) == Show(r.script, Default(r.script))
  {
    ResetTakes(entries);
    ServeEffect(entries, ConfigReset, r);
  }

  // ---------- what the URLs of the resources show ----------

  /** The URL of each resource. */
  function UrlOf(r: Resource): string {
    match r.script
    case KcsInterface => "/redfish/v1/Managers/" + r.member + "/Oem/Supermicro/KCSInterface"
    case HostInterface => "/redfish/v1/Managers/" + r.member + "/HostInterfaces/" + r.interface
    case SysLockdown => "/redfish/v1/Managers/" + r.member + "/Oem/Supermicro/SysLockdown"
    case SecureBoot => "/redfish/v1/Systems/" + r.member + "/SecureBoot"
  }

  lemma SplitSlash(head: string, rest: string)
    requires Free(head, '/')
    ensures Split(head + "/" + rest, '/') == [head] + Split(rest, '/')
  {
    hide Split;
    SplitHead(head, '/', rest);
    assert head + ['/'] + rest == head + "/" + rest;
  }

  lemma UrlRoot(rest: string)
    ensures Split("/redfish/v1/" + rest, '/') == ["", "redfish", "v1"] + Split(rest, '/')
  {
    hide Split;
    SplitSlash("v1", rest);
    SplitSlash("redfish", "v1/" + rest);
    SplitSlash("", "redfish/v1/" + rest);
    assert "v1" + "/" + rest == "v1/" + rest;
    assert "redfish" + "/" + ("v1/" + rest) == "redfish/v1/" + rest;
    assert "" + "/" + ("redfish/v1/" + rest) == "/redfish/v1/" + rest;
  }

  lemma UrlFront(front: string, collection: string, rest: string)
    requires Free(collection, '/') && front == "/redfish/v1/" + collection + "/"
    ensures Split(front + rest, '/') == ["", "redfish", "v1", collection] + Split(rest, '/')
  {
    hide Split;
    SplitSlash(collection, rest);
    UrlRoot(collection + "/" + rest);
    assert front + rest == "/redfish/v1/" + (collection + "/" + rest);
  }

  lemma UrlSegment(front: string, collection: string, member: string, rest: string)
    requires Free(collection, '/') && Free(member, '/') && front == "/redfish/v1/" + collection + "/"
    requires rest != "" && rest[0] == '/'
    ensures SegmentOf(front + member + rest, 4) == Some(member)
  {
    hide Split;
    UrlFront(front, collection, member + rest);
    SplitSlash(member, rest[1..]);
    assert member + rest == member + "/" + rest[1..];
    assert front + member + rest == front + (member + rest);
  }

  lemma InterfaceSegment(manager: string, interface: string)
    requires Free(manager, '/') && Free(interface, '/')
    ensures SegmentOf("/redfish/v1/Managers/" + manager + ("/HostInterfaces/" + interface), 6) == Some(interface)
  {
    hide Split;
    var rest := "HostInterfaces/" + interface;
    UrlFront("/redfish/v1/Managers/", "Managers", manager + "/" + rest);
    SplitSlash(manager, rest);
    SplitSlash("HostInterfaces", interface);
    SplitWhole(interface, '/');
    assert "HostInterfaces" + "/" + interface == rest;
    assert "/redfish/v1/Managers/" + manager + ("/HostInterfaces/" + interface)
        == "/redfish/v1/Managers/" + (manager + "/" + rest);
  }

  /** Each URL names the resource of its own manager, system and interface. */
  lemma UrlNamesResource(m: string, i: string)
    requires Free(m, '/') && Free(i, '/')
    ensures ResourceAt(KcsInterface, "/redfish/v1/Managers/" + m + "/Oem/Supermicro/KCSInterface")
         == Some(Resource(KcsInterface, m, ""))
    ensures ResourceAt(HostInterface, "/redfish/v1/Managers/" + m + "/HostInterfaces/" + i)
         == Some(Resource(HostInterface, m, i))
    ensures ResourceAt(SysLockdown, "/redfish/v1/Managers/" + m + "/Oem/Supermicro/SysLockdown")
         == Some(Resource(SysLockdown, m, ""))
    ensures ResourceAt(SecureBoot, "/redfish/v1/Systems/" + m + "/SecureBoot")
         == Some(Resource(SecureBoot, m, ""))
  {
    hide SegmentOf;
    UrlSegment("/redfish/v1/Managers/", "Managers", m, "/Oem/Supermicro/KCSInterface");
    UrlSegment("/redfish/v1/Managers/", "Managers", m, "/HostInterfaces/" + i);
    UrlSegment("/redfish/v1/Managers/", "Managers", m, "/Oem/Supermicro/SysLockdown");
    UrlSegment("/redfish/v1/Systems/", "Systems", m, "/SecureBoot");
    InterfaceSegment(m, i);
    assert "/redfish/v1/Managers/" + m + ("/HostInterfaces/" + i)
        == "/redfish/v1/Managers/" + m + "/HostInterfaces/" + i;
  }

  lemma UrlIsOf(r: Resource)
    requires SlashFree(r)
    ensures ResourceAt(r.script, UrlOf(r)) == Some(r)
  {
    hide ResourceAt;
    UrlNamesResource(r.member, r.interface);
  }

  /** What a request body must hold for a write to be taken, script by script. */
  lemma WantedExactly(body: Body)
    ensures forall script: Script :: !body.Parsed? || !body.json.Obj? ==> Wanted(script, body) == None
    ensures body.Parsed? && body.json.Obj? ==>
              var members := body.json.members;
              && Wanted(KcsInterface, body)
                 == (if "Privilege" in members
                        && (members["Privilege"] == Str("Administrator") || members["Privilege"] == Str("Operator")
                            || members["Privilege"] == Str("User") || members["Privilege"] == Str("Callback"))
                     then Some(members["Privilege"]) else None)
              && Wanted(HostInterface, body)
                 == (if "InterfaceEnabled" in members && members["InterfaceEnabled"].Bool?
                     then Some(members["InterfaceEnabled"]) else None)
              && Wanted(SysLockdown, body)
                 == (if "SysLockdownEnabled" in members && members["SysLockdownEnabled"].Bool?
                     then Some(members["SysLockdownEnabled"]) else None)
              && Wanted(SecureBoot, body)
                 == (if "SecureBootEnable" in members && members["SecureBootEnable"].Bool?
                     then Some(members["SecureBootEnable"]) else None)
  {
    hide At;
    if body.Parsed? {
      forall script: Script
        ensures At(body.json, Field(script))
             == if body.json.Obj? && Field(script) in body.json.members
                then Some(body.json.members[Field(script)]) else None
      {
        FieldAt(body.json, script);
      }
      assert Field(KcsInterface) == "Privilege" && Field(HostInterface) == "InterfaceEnabled";
      assert Field(SysLockdown) == "SysLockdownEnabled" && Field(SecureBoot) == "SecureBootEnable";
    }
  }

  lemma FieldAt(json: Json, script: Script)
    ensures At(json, Field(script))
         == if json.Obj? && Field(script) in json.members then Some(json.members[Field(script)]) else None
  {
    var field := Field(script);
    assert Free(field, '/') && 'A' <= field[0] <= 'Z';
    SplitWhole(field, '/');
    FieldOfAny(json, field);
  }

  lemma FieldOfAny(json: Json, field: string)
    requires field != "" && 'A' <= field[0] <= 'Z'
    ensures Walk(json, [field])
         == if json.Obj? && field in json.members then Some(json.members[field]) else None
  {
    assert ParseUsize(field) == None;
    assert [field][1..] == [];
    assert json.Obj? && field in json.members ==> Walk(json.members[field], []) == Some(json.members[field]);
  }

  /** A request that writes nothing under this resource's URL: no reset, and if a write, one at the
      URL of another resource. */
  ghost predicate Elsewhere(request: Request, r: Resource) {
    && Sane(request) && !request.ConfigReset?
    && (request.Access? && (request.verb == "PATCH" || request.verb == "PUT") ==>
          exists other :: SlashFree(other) && other != r && other.script == request.script
                          && request.path == UrlOf(other))
  }

  /** A write at a resource's URL, if answered 204, is what a read of that URL shows from then on,
      whatever is written under the URLs of the other resources. */
  lemma UrlShowsLastWrite(before: seq<Request>, r: Resource, verb: string, body: Body, value: Json,
      between: seq<Request>, read: string, any: Body)
    requires SlashFree(r) && (verb == "PATCH" || verb == "PUT") && read != "PATCH" && read != "PUT"
    requires Wanted(r.script, body) == Some(value)
    requires Serve(StateAfter(before), Access(r.script, verb, UrlOf(r), body)).answer == Status(204)
    requires forall k :: 0 <= k < |between| ==> Elsewhere(between[k], r)
    ensures var state := StateAfter(before + [Access(r.script, verb, UrlOf(r), body)] + between);
            Serve(state, Access(r.script, read, UrlOf(r), any)).answer
            == Shown(value, if r.script != SecureBoot then None
                            else if value == Bool(true) then Some("Enabled") else Some("Disabled"))
  {
    hide UrlOf, StateAfter, Wanted, KeyOf;
    UrlIsOf(r);
    forall k | 0 <= k < |between|
      ensures Sane(between[k]) && Leaves(between[k], r)
    {
      ElsewhereLeaves(between[k], r);
    }
    WriteReadBack(before, Access(r.script, verb, UrlOf(r), body), between, r);
    WantedIsAccepted(r.script, body);
  }

  lemma WantedIsAccepted(script: Script, body: Body)
    requires Wanted(script, body).Some?
    ensures Accepts(script, Wanted(script, body).value)
  {
  }

  lemma ElsewhereLeaves(request: Request, r: Resource)
    requires Elsewhere(request, r)
    ensures Sane(request) && Leaves(request, r)
  {
    hide UrlOf, ResourceAt;
    if request.Access? && (request.verb == "PATCH" || request.verb == "PUT") {
      var other :| SlashFree(other) && other != r && other.script == request.script && request.path == UrlOf(other);
      UrlIsOf(other);
    }
  }

  /** A write at one resource's URL, whatever its answer, leaves what a read of another's shows. */
  lemma UrlsStayApart(entries: Entries, a: Resource, verb: string, body: Body, b: Resource, read: string, any: Body)
    requires SlashFree(a) && SlashFree(b) && a != b && read != "PATCH" && read != "PUT"
    ensures Serve(Serve(entries, Access(a.script, verb, UrlOf(a), body)).entries,
                  Access(b.script, read, UrlOf(b), any)).answer
         == Serve(entries, Access(b.script, read, UrlOf(b), any)).answer
  {
    hide UrlOf, ResourceAt, Write, Read;
    UrlIsOf(a);
    UrlIsOf(b);
    WritesStayApart(entries, Access(a.script, verb, UrlOf(a), body), b);
  }

  /** Before any write, and again after every reset, each URL shows its default. */
  lemma UrlShowsDefault(entries: Entries, r: Resource, read: string, any: Body)
    requires SlashFree(r) && CheckKey(KeyOf(r)) == None && read != "PATCH" && read != "PUT"
    ensures var shown := match r.script
              case KcsInterface => Shown(Str("Administrator"), None)
              case HostInterface => Shown(Bool(true), None)
              case SysLockdown => Shown(Bool(false), None)
              case SecureBoot => Shown(Bool(false), Some("Disabled"));
            && Serve(map[], Access(r.script, read, UrlOf(r), any)).answer == shown
            && Serve(entries, ConfigReset).answer == Status(204)
            && Serve(Serve(entries, ConfigReset).entries, Access(r.script, read, UrlOf(r), any)).answer == shown
  {
    hide UrlOf, ResourceAt, KeyOf, CheckKey, Perform;
    UrlIsOf(r);
    ResetRestoresDefaults(entries, r);
  }

  /** A reset removes what is kept under `supermicro/` and nothing else. */
  lemma ResetTakesPrefix(entries: Entries, key: string)
    ensures Lookup(Serve(entries, ConfigReset).entries, key)
         == if "supermicro/" <= key then None else Lookup(entries, key)
  {
    hide Utf8Len;
    PrefixLength();
  }

  /** Exactly how a write is answered: an acceptable value is never itself the obstacle. */
  lemma WriteTakenExactly(entries: Entries, r: Resource, script: Script, verb: string, path: string, body: Body)
    requires ResourceAt(script, path) == Some(r) && (verb == "PATCH" || verb == "PUT")
    ensures Serve(entries, Access(script, verb, path, body)).answer
         == if body == Malformed then Failed
            else if Wanted(script, body) == None then Status(400)
            else if CheckKey(KeyOf(r)) == None && (KeyOf(r) in entries || |entries| < 1024) then Status(204)
            else Failed
  {
    hide KeyOf, At, CheckKey, EncodedLen, Accepts;
    if Wanted(script, body).Some? {
      AcceptedIsSmall(script, Wanted(script, body).value);
    }
  }

  lemma AcceptedIsSmall(script: Script, value: Json)
    requires Accepts(script, value)
    ensures EncodedLen(value) <= MAX_VALUE_BYTES
  {
    if value.Str? {
      EncodedAtMost(value.text);
      assert |value.text| <= 13;
    }
  }

  lemma {:induction false} EncodedAtMost(s: string)
    ensures EncodedCharsLen(s) <= 6 * |s|
  {
    if s != [] {
      EncodedAtMost(s[1..]);
    }
  }
}
