/** The shared store of `script_store.rs`: a map under a mutex, with three limits. Each operation
    holds the lock from start to end, so a run of the process is a sequence of whole operations in
    some order, whichever requests they came from. */
module StoreModel {
  import opened Wrappers
  import opened Text
  import opened Json

  const MAX_KEYS: nat := 1024
  const MAX_KEY_LEN: nat := 256
  const MAX_VALUE_BYTES: nat := 64 * 1024

  /** 1024 keys of 256 bytes with values of 64 KiB. */
  const MAX_HELD_BYTES: nat := 67_371_008

  // ---------- encoded length ----------

  /** Bytes of one character inside an encoded JSON string. */
  function EncodedCharLen(c: char): nat {
    if c == '"' || c == '\\' || c == '\n' || c == '\r' || c == '\t' || c as int == 8 || c as int == 12 then 2
    else if c as int < 0x20 then 6
    else Utf8Width(c)
  }

  function EncodedCharsLen(s: string): nat {
    if s == [] then 0 else EncodedCharLen(s[0]) + EncodedCharsLen(s[1..])
  }

  function EncodedStringLen(s: string): nat {
    2 + EncodedCharsLen(s)
  }

  function Commas(n: nat): nat {
    if n == 0 then 0 else n - 1
  }

  /** Length of the compact encoding `serde_json::to_vec` writes. */
  ghost function EncodedLen(value: Json): nat
    decreases value
  {
    match value
    case Null => 4
    case Bool(b) => if b then 4 else 5
    case Num(token) => Utf8Len(token)
    case Str(text) => EncodedStringLen(text)
    case Arr(items) => 2 + Commas(|items|) + EncodedItemsLen(items)
    case Obj(members) =>
      2 + Commas(|members|) + Total(map k | k in members :: EncodedStringLen(k) + 1 + EncodedLen(members[k]))
  }

  ghost function EncodedItemsLen(items: seq<Json>): nat
    decreases items
  {
    if items == [] then 0 else EncodedLen(items[0]) + EncodedItemsLen(items[1..])
  }

  // ---------- operations on values ----------

  type Entries = map<string, Json>

  datatype StoreError = KeyEmpty | KeyTooLong | ValueTooLarge | StoreFull

  datatype StoreOp =
    | Get(key: string)
    | Set(key: string, value: Json)
    | Remove(key: string)
    | RemovePrefix(prefix: string)
    | Contains(key: string)

  datatype Reply =
    | Found(value: Option<Json>)
    | Stored
    | Flag(present: bool)
    | Removed(count: nat)
    | Refused(error: StoreError)

  datatype Outcome = Outcome(entries: Entries, reply: Reply)

  function CheckKey(key: string): Option<StoreError> {
    if key == "" then Some(KeyEmpty)
    else if Utf8Len(key) > MAX_KEY_LEN then Some(KeyTooLong)
    else None
  }

  function Lookup(entries: Entries, key: string): Option<Json> {
    if key in entries then Some(entries[key]) else None
  }

  /** The keys `remove_prefix` takes out. */
  function Under(entries: Entries, prefix: string): set<string> {
    set k | k in entries && prefix <= k
  }

  ghost function Perform(entries: Entries, op: StoreOp): Outcome {
    var key := match op case RemovePrefix(prefix) => prefix case _ => op.key;
    match CheckKey(key)
    case Some(error) => Outcome(entries, Refused(error))
    case None =>
      match op
      case Get(_) => Outcome(entries, Found(Lookup(entries, key)))
      case Contains(_) => Outcome(entries, Flag(key in entries))
      case Remove(_) => Outcome(entries - {key}, Flag(key in entries))
      case RemovePrefix(_) => Outcome(entries - Under(entries, key), Removed(|Under(entries, key)|))
      case Set(_, value) =>
        if EncodedLen(value) > MAX_VALUE_BYTES then Outcome(entries, Refused(ValueTooLarge))
        else if |entries| >= MAX_KEYS && key !in entries then Outcome(entries, Refused(StoreFull))
        else Outcome(entries[key := value], Stored)
  }

  function ReadOr(entries: Entries, key: string, fallback: Json): Result<Json, StoreError> {
    match CheckKey(key)
    case Some(error) => Err(error)
    case None => Ok(if key in entries then entries[key] else fallback)
  }

  // ---------- the shared object ----------

  class Store {
    var entries: Entries

    constructor ()
      ensures entries == map[]
    {
      entries := map[];
    }

    method GetValue(key: string) returns (reply: Reply)
      ensures Perform(entries, Get(key)) == Outcome(entries, reply)
    {
      var refused := CheckKey(key);
      if refused.Some? {
        return Refused(refused.value);
      }
      return Found(Lookup(entries, key));
    }

    /** `get` with a default for a miss. */
    method GetOr(key: string, fallback: Json) returns (value: Result<Json, StoreError>)
      ensures value == ReadOr(entries, key, fallback)
    {
      var reply := GetValue(key);
      match reply {
        case Found(Some(stored)) => return Ok(stored);
        case Found(None) => return Ok(fallback);
        case Refused(error) => return Err(error);
      }
    }

    /** `encoded` is the length of the encoding the JSON library produced for `value`. */
    method SetValue(key: string, value: Json, encoded: nat) returns (reply: Reply)
      requires encoded == EncodedLen(value)
      modifies this
      ensures Outcome(entries, reply) == Perform(old(entries), Set(key, value))
    {
      var refused := CheckKey(key);
      if refused.Some? {
        return Refused(refused.value);
      }
      if encoded > MAX_VALUE_BYTES {
        return Refused(ValueTooLarge);
      }
      if |entries| >= MAX_KEYS && key !in entries {
        return Refused(StoreFull);
      }
      entries := entries[key := value];
      return Stored;
    }

    method RemoveKey(key: string) returns (reply: Reply)
      modifies this
      ensures Outcome(entries, reply) == Perform(old(entries), Remove(key))
    {
      var refused := CheckKey(key);
      if refused.Some? {
        return Refused(refused.value);
      }
      var present := key in entries;
      entries := entries - {key};
      return Flag(present);
    }

    /** Counts by the difference in length, as the source does. */
    method RemoveUnder(prefix: string) returns (reply: Reply)
      modifies this
      ensures Outcome(entries, reply) == Perform(old(entries), RemovePrefix(prefix))
    {
      var refused := CheckKey(prefix);
      if refused.Some? {
        return Refused(refused.value);
      }
      var before := |entries|;
      RetainCount(entries, prefix);
      entries := map k | k in entries && !(prefix <= k) :: entries[k];
      assert entries == old(entries) - Under(old(entries), prefix);
      return Removed(before - |entries|);
    }

    method ContainsKey(key: string) returns (reply: Reply)
      ensures Perform(entries, Contains(key)) == Outcome(entries, reply)
    {
      var refused := CheckKey(key);
      if refused.Some? {
        return Refused(refused.value);
      }
      return Flag(key in entries);
    }
  }

  /** What goes and what stays under a prefix partition the store. */
  lemma RetainCount(entries: Entries, prefix: string)
    ensures |entries - Under(entries, prefix)| + |Under(entries, prefix)| == |entries|
  {
  }

  // ---------- what every operation keeps ----------

  ghost predicate Bounded(entries: Entries) {
    && |entries| <= MAX_KEYS
    && forall key :: key in entries ==>
         1 <= Utf8Len(key) <= MAX_KEY_LEN && EncodedLen(entries[key]) <= MAX_VALUE_BYTES
  }

  lemma PerformKeepsBounded(entries: Entries, op: StoreOp)
    requires Bounded(entries)
    ensures Bounded(Perform(entries, op).entries)
  {
  }

  /** A refused operation changes nothing. */
  lemma RefusedChangesNothing(entries: Entries, op: StoreOp)
    requires Perform(entries, op).reply.Refused?
    ensures Perform(entries, op).entries == entries
  {
  }

  /** A prefix removal takes exactly the matching keys, leaves every other entry, and counts what
      it took. */
  lemma RemovePrefixExactly(entries: Entries, prefix: string)
    requires CheckKey(prefix) == None
    ensures var after := Perform(entries, RemovePrefix(prefix));
            && (forall key :: Lookup(after.entries, key) == if prefix <= key then None else Lookup(entries, key))
            && after.reply == Removed(|entries| - |after.entries|)
  {
  }

  // ---------- whole runs ----------

  datatype Event = Event(op: StoreOp, reply: Reply)

  /** The store after a run of operations. */
  ghost function After(entries: Entries, ops: seq<StoreOp>): Entries {
    if ops == [] then entries
    else Perform(After(entries, ops[..|ops| - 1]), ops[|ops| - 1]).entries
  }

  /** What the callers of a run saw. */
  ghost function Log(entries: Entries, ops: seq<StoreOp>): (log: seq<Event>)
    ensures |log| == |ops|
  {
    if ops == [] then []
    else
      var init := ops[..|ops| - 1];
      Log(entries, init) + [Event(ops[|ops| - 1], Perform(After(entries, init), ops[|ops| - 1]).reply)]
  }

  /** In every state of every run, from an empty store, the limits hold and so does the bound on
      the bytes held. */
  lemma {:induction false} RunBounded(ops: seq<StoreOp>)
    ensures Bounded(After(map[], ops))
    ensures HeldBytes(After(map[], ops)) <= MAX_HELD_BYTES
  {
    if ops != [] {
      RunBounded(ops[..|ops| - 1]);
      PerformKeepsBounded(After(map[], ops[..|ops| - 1]), ops[|ops| - 1]);
    }
    BoundedBytes(After(map[], ops));
  }

  /** In every state of every run, a key that is there can be overwritten with any value within the
      limit, a full store included. */
  lemma {:induction false} OverwriteAlwaysTaken(ops: seq<StoreOp>, key: string, value: Json)
    requires key in After(map[], ops) && EncodedLen(value) <= MAX_VALUE_BYTES
    ensures Perform(After(map[], ops), Set(key, value)) == Outcome(After(map[], ops)[key := value], Stored)
  {
    RunBounded(ops);
  }

  ghost function HeldBytes(entries: Entries): nat {
    Total(map key | key in entries :: Utf8Len(key) + EncodedLen(entries[key]))
  }

  lemma BoundedBytes(entries: Entries)
    requires Bounded(entries)
    ensures HeldBytes(entries) <= MAX_HELD_BYTES
  {
    var sizes := map key | key in entries :: Utf8Len(key) + EncodedLen(entries[key]);
    assert sizes.Keys == entries.Keys && |sizes| == |sizes.Keys| && |entries| == |entries.Keys|;
    TotalAtMost(sizes, 65792);
    assert |sizes| * 65792 <= 1024 * 65792;
  }

  /** What a caller who saw the whole log would say a key holds: the last accepted write, unless
      it has been removed since. */
  ghost function Expected(log: seq<Event>, key: string): Option<Json> {
    if log == [] then None
    else
      var earlier := Expected(log[..|log| - 1], key);
      match log[|log| - 1]
      case Event(Set(k, value), Stored) => if k == key then Some(value) else earlier
      case Event(Remove(k), Flag(_)) => if k == key then None else earlier
      case Event(RemovePrefix(prefix), Removed(_)) => if prefix <= key then None else earlier
      case _ => earlier
  }

  lemma StepHoldsExpected(before: Entries, log: seq<Event>, op: StoreOp, key: string)
    requires Lookup(before, key) == Expected(log, key)
    ensures Lookup(Perform(before, op).entries, key)
         == Expected(log + [Event(op, Perform(before, op).reply)], key)
  {
    hide EncodedLen, CheckKey;
    var longer := log + [Event(op, Perform(before, op).reply)];
    assert longer[..|longer| - 1] == log;
  }

  /** The store always holds what its callers expect of it. */
  lemma {:induction false} RunHoldsExpected(ops: seq<StoreOp>, key: string)
    ensures Lookup(After(map[], ops), key) == Expected(Log(map[], ops), key)
  {
    if ops != [] {
      var init, op := ops[..|ops| - 1], ops[|ops| - 1];
      RunHoldsExpected(init, key);
      var before := After(map[], init);
      assert Log(map[], ops) == Log(map[], init) + [Event(op, Perform(before, op).reply)];
      StepHoldsExpected(before, Log(map[], init), op, key);
    }
  }

  /** So every read in a run answers with the last accepted write before it. */
  lemma {:induction false} ReadsExpected(ops: seq<StoreOp>, i: nat)
    requires i < |ops| && ops[i].Get? && CheckKey(ops[i].key) == None
    ensures Log(map[], ops)[i].reply == Found(Expected(Log(map[], ops)[..i], ops[i].key))
  {
    var init := ops[..|ops| - 1];
    if i < |ops| - 1 {
      ReadsExpected(init, i);
      assert Log(map[], ops)[..i] == Log(map[], init)[..i];
    } else {
      RunHoldsExpected(init, ops[i].key);
      assert Log(map[], ops)[..i] == Log(map[], init);
    }
  }

  /** A removal and a question answer whether the key was there, by the same log; both refuse only
      a key that is empty or too long. */
  lemma {:induction false} FlagsExpected(ops: seq<StoreOp>, i: nat)
    requires i < |ops| && (ops[i].Remove? || ops[i].Contains?)
    ensures Log(map[], ops)[i].reply
         == if ops[i].key == "" then Refused(KeyEmpty)
            else if Utf8Len(ops[i].key) > 256 then Refused(KeyTooLong)
            else Flag(Expected(Log(map[], ops)[..i], ops[i].key).Some?)
  {
    hide Expected, Utf8Len, EncodedLen;
    var init := ops[..|ops| - 1];
    if i < |ops| - 1 {
      FlagsExpected(init, i);
      assert Log(map[], ops)[..i] == Log(map[], init)[..i];
    } else {
      RunHoldsExpected(init, ops[i].key);
      assert Log(map[], ops)[..i] == Log(map[], init);
    }
  }

  /** A write is taken exactly within the limits: a key of 1 to 256 bytes, a value whose encoding has
      at most 65536, and a key that is there already or fewer than 1024 of them. Otherwise the first
      limit broken is the answer. */
  lemma WriteTakenWithinLimits(entries: Entries, key: string, value: Json)
    ensures Perform(entries, Set(key, value)).reply
         == if key == "" then Refused(KeyEmpty)
            else if Utf8Len(key) > 256 then Refused(KeyTooLong)
            else if EncodedLen(value) > 65536 then Refused(ValueTooLarge)
            else if key !in entries && |entries| >= 1024 then Refused(StoreFull)
            else Stored
  {
    hide Utf8Len, EncodedLen;
  }
}
