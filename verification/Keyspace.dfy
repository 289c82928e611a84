/**
 The keyspace of 07-systems-programming/src/store.rs and the commands of command.rs, with
 the clock as a parameter: lazy and active expiry against a map that forgets a key the
 moment its deadline passes.
 */
module Keyspace {
  import opened Bytes
  import opened Numerals
  import opened RespProtocol

  /** expiresAt None: never. Some(t): dead once now >= t. */
  datatype Entry = Entry(value: bytes, expiresAt: Option<nat>)

  type Keys = map<bytes, Entry>

  predicate Expired(e: Entry, now: nat) {
    e.expiresAt.Some? && now >= e.expiresAt.value
  }

  /** What a client can see at time now. */
  function Live(m: Keys, now: nat): Keys {
    map k | k in m && !Expired(m[k], now) :: m[k]
  }

  datatype Command =
    | Ping(message: Option<bytes>)
    | Echo(text: bytes)
    | Get(key: bytes)
    | Set(key: bytes, value: bytes, expireAt: Option<nat>)
    | Del(keys: seq<bytes>)
    | Exists(keys: seq<bytes>)
    | Incr(key: bytes)
    | Expire(key: bytes, seconds: nat)
    | Ttl(key: bytes)
    | DbSize
    | Save
    | CommandDocs

  function Text(s: string): bytes {
    seq(|s|, i requires 0 <= i < |s| => if s[i] < 128 as char then s[i] as int else 63)
  }

  function Ok(): Resp { Simple(Text("OK")) }

  function NotAnInteger(): Resp { Error(Text("ERR value is not an integer or out of range")) }

  function NotConfigured(): Resp { Error(Text("ERR persistence is not configured")) }

  /** The absolute deadline `seconds` from now, in the source's wrapping u64 arithmetic. */
  function Deadline(now: nat, seconds: nat): (t: nat)
    ensures t < U64_LIMIT
    ensures now + 1000 * seconds < U64_LIMIT ==> t == now + 1000 * seconds
  {
    (now + seconds * 1000 % U64_LIMIT) % U64_LIMIT
  }

  // ---- store.rs, operation by operation -------------------------------------------------

  function GetOp(m: Keys, key: bytes, now: nat): (Keys, Option<bytes>) {
    if key in m && Expired(m[key], now) then (m - {key}, None)
    else (m, if key in m then Some(m[key].value) else None)
  }

  function SetOp(m: Keys, key: bytes, value: bytes, expireAt: Option<nat>): Keys {
    m[key := Entry(value, expireAt)]
  }

  function DelOp(m: Keys, key: bytes, now: nat): (Keys, bool) {
    (m - {key}, key in m && !Expired(m[key], now))
  }

  function IncrOp(m: Keys, key: bytes, now: nat): (Keys, Option<int>) {
    var existing := if key in m && !Expired(m[key], now) then Some(m[key]) else None;
    var current := if existing.Some? then ParseI64(existing.value.value) else Some(0);
    match current
    case None => (m, None)
    case Some(i) =>
      var next := WrapI64(i + 1);
      (SetOp(m, key, Numeral(next), if existing.Some? then existing.value.expiresAt else None), Some(next))
  }

  function ExpireOp(m: Keys, key: bytes, seconds: nat, now: nat): (Keys, bool) {
    if key in m && !Expired(m[key], now) then (m[key := m[key].(expiresAt := Some(Deadline(now, seconds)))], true)
    else (m, false)
  }

  function TtlOp(m: Keys, key: bytes, now: nat): int {
    if key !in m || Expired(m[key], now) then -2
    else match m[key].expiresAt
      case Some(deadline) => (deadline - now) / 1000
      case None => -1
  }

  // ---- command.rs: execute --------------------------------------------------------------

  function DelAll(m: Keys, keys: seq<bytes>, now: nat): (Keys, nat)
    decreases |keys|
  {
    if keys == [] then (m, 0)
    else
      var (m1, removed) := DelOp(m, keys[0], now);
      var (m2, rest) := DelAll(m1, keys[1..], now);
      (m2, (if removed then 1 else 0) + rest)
  }

  function ExistsAll(m: Keys, keys: seq<bytes>, now: nat): (Keys, nat)
    decreases |keys|
  {
    if keys == [] then (m, 0)
    else
      var (m1, value) := GetOp(m, keys[0], now);
      var (m2, rest) := ExistsAll(m1, keys[1..], now);
      (m2, (if value.Some? then 1 else 0) + rest)
  }

  function Execute(m: Keys, configured: bool, c: Command, now: nat): (Keys, Resp) {
    match c
    case Ping(None) => (m, Simple(Text("PONG")))
    case Ping(Some(message)) => (m, Bulk(message))
    case Echo(text) => (m, Bulk(text))
    case Get(key) =>
      var (m1, value) := GetOp(m, key, now);
      (m1, if value.Some? then Bulk(value.value) else Null)
    case Set(key, value, expireAt) => (SetOp(m, key, value, expireAt), Ok())
    case Del(keys) =>
      var (m1, n) := DelAll(m, keys, now);
      (m1, Integer(n))
    case Exists(keys) =>
      var (m1, n) := ExistsAll(m, keys, now);
      (m1, Integer(n))
    case Incr(key) =>
      var (m1, next) := IncrOp(m, key, now);
      (m1, if next.Some? then Integer(next.value) else NotAnInteger())
    case Expire(key, seconds) =>
      var (m1, done) := ExpireOp(m, key, seconds, now);
      (m1, Integer(if done then 1 else 0))
    case Ttl(key) => (m, Integer(TtlOp(m, key, now)))
    case DbSize => (m, Integer(|Live(m, now)|))
    case Save => (m, if configured then Ok() else NotConfigured())
    case CommandDocs => (m, Array([]))
  }

  // ---- the code ---------------------------------------------------------------------------

  class Store {
    var entries: Keys
    var configured: bool

    constructor (configured: bool)
      ensures entries == map[] && this.configured == configured
    {
      entries := map[];
      this.configured := configured;
    }

    method Lookup(key: bytes, now: nat) returns (value: Option<bytes>)
      modifies this`entries
      ensures (entries, value) == GetOp(old(entries), key, now)
      ensures Live(entries, now) == Live(old(entries), now)
      ensures value == if key in Live(entries, now) then Some(Live(entries, now)[key].value) else None
    {
      var expired := key in entries && Expired(entries[key], now);
      if expired {
        entries := entries - {key};
        return None;
      }
      return if key in entries then Some(entries[key].value) else None;
    }

    method Insert(key: bytes, value: bytes, expireAt: Option<nat>)
      modifies this`entries
      ensures entries == SetOp(old(entries), key, value, expireAt)
    {
      entries := entries[key := Entry(value, expireAt)];
    }

    method Remove(key: bytes, now: nat) returns (live: bool)
      modifies this`entries
      ensures (entries, live) == DelOp(old(entries), key, now)
    {
      live := key in entries && !Expired(entries[key], now);
      entries := entries - {key};
    }

    method Increment(key: bytes, now: nat) returns (next: Option<int>)
      modifies this`entries
      ensures (entries, next) == IncrOp(old(entries), key, now)
      ensures Live(entries, now) - {key} == Live(old(entries), now) - {key}
      ensures next.None? ==> Live(entries, now) == Live(old(entries), now)
      ensures next.None? <==> key in Live(old(entries), now) && ParseI64(Live(old(entries), now)[key].value).None?
      ensures next.Some? ==> key in Live(entries, now) && ParseI64(Live(entries, now)[key].value) == next
    {
      var ttl: Option<nat> := None;
      var current: Option<int> := Some(0);
      if key in entries && !Expired(entries[key], now) {
        ttl := entries[key].expiresAt;
        current := ParseI64(entries[key].value);
      }
      if current.None? { return None; }
      next := Some(WrapI64(current.value + 1));
      NumeralRoundTrip(next.value);
      Insert(key, Numeral(next.value), ttl);
    }

    method SetDeadline(key: bytes, seconds: nat, now: nat) returns (done: bool)
      modifies this`entries
      ensures (entries, done) == ExpireOp(old(entries), key, seconds, now)
      ensures done <==> key in Live(old(entries), now)
      ensures Live(entries, now) - {key} == Live(old(entries), now) - {key}
      ensures done ==> entries[key] == Entry(Live(old(entries), now)[key].value, Some(Deadline(now, seconds)))
    {
      if key in entries && !Expired(entries[key], now) {
        entries := entries[key := entries[key].(expiresAt := Some(Deadline(now, seconds)))];
        return true;
      }
      return false;
    }

    /** Active expiry: retain only entries not yet expired. */
    method PurgeExpired(now: nat)
      modifies this`entries
      ensures entries == Live(old(entries), now)
    {
      entries := map k | k in entries && !Expired(entries[k], now) :: entries[k];
    }

    method Run(c: Command, now: nat) returns (reply: Resp)
      modifies this`entries
      ensures (entries, reply) == Execute(old(entries), configured, c, now)
    {
      hide ParseI64, Numeral, Text, WrapI64, DelOp, GetOp, IncrOp, ExpireOp;
      match c {
        case Ping(None) => reply := Simple(Text("PONG"));
        case Ping(Some(message)) => reply := Bulk(message);
        case Echo(text) => reply := Bulk(text);
        case Get(key) =>
          var value := Lookup(key, now);
          reply := if value.Some? then Bulk(value.value) else Null;
        case Set(key, value, expireAt) =>
          Insert(key, value, expireAt);
          reply := Ok();
        case Del(keys) =>
          var n := RemoveAll(keys, now);
          reply := Integer(n);
        case Exists(keys) =>
          var n := CountPresent(keys, now);
          reply := Integer(n);
        case Incr(key) =>
          var next := Increment(key, now);
          reply := if next.Some? then Integer(next.value) else NotAnInteger();
        case Expire(key, seconds) =>
          var done := SetDeadline(key, seconds, now);
          reply := Integer(if done then 1 else 0);
        case Ttl(key) => reply := Integer(TtlOp(entries, key, now));
        case DbSize => reply := Integer(|Live(entries, now)|);
        case Save => reply := if configured then Ok() else NotConfigured();
        case CommandDocs => reply := Array([]);
      }
    }

    method RemoveAll(keys: seq<bytes>, now: nat) returns (n: nat)
      modifies this`entries
      ensures (entries, n) == DelAll(old(entries), keys, now)
    {
      hide DelOp;
      n := 0;
      assert keys[0..] == keys;
      for i := 0 to |keys|
        invariant DelAll(old(entries), keys, now) ==
                  var (m, rest) := DelAll(entries, keys[i..], now); (m, n + rest)
      {
        assert keys[i..][1..] == keys[i + 1..];
        var live := Remove(keys[i], now);
        if live { n := n + 1; }
      }
    }

    method CountPresent(keys: seq<bytes>, now: nat) returns (n: nat)
      modifies this`entries
      ensures (entries, n) == ExistsAll(old(entries), keys, now)
    {
      hide GetOp;
      n := 0;
      assert keys[0..] == keys;
      for i := 0 to |keys|
        invariant ExistsAll(old(entries), keys, now) ==
                  var (m, rest) := ExistsAll(entries, keys[i..], now); (m, n + rest)
      {
        assert keys[i..][1..] == keys[i + 1..];
        var value := Lookup(keys[i], now);
        if value.Some? { n := n + 1; }
      }
    }
  }

  // ---- the timed map ------------------------------------------------------------------------

  /**
   The reference: a map without any notion of expiry in its commands. Dead keys are gone
   before the command runs, because the state is swept first.
   */
  function Plain(v: Keys, configured: bool, c: Command, now: nat): (Keys, Resp) {
    match c
    case Get(key) => (v, if key in v then Bulk(v[key].value) else Null)
    case Set(key, value, expireAt) => (v[key := Entry(value, expireAt)], Simple(Text("OK")))
    case Del(keys) =>
      (Without(v, keys), Integer(|v| - |Without(v, keys)|))
    case Exists(keys) => (v, Integer(Occurrences(v, keys)))
    case Incr(key) =>
      (match if key in v then ParseI64(v[key].value) else Some(0)
       case None => (v, Error(Text("ERR value is not an integer or out of range")))
       case Some(i) =>
         var ttl := if key in v then v[key].expiresAt else None;
         (v[key := Entry(Numeral(WrapI64(i + 1)), ttl)], Integer(WrapI64(i + 1))))
    case Expire(key, seconds) =>
      if key in v then (v[key := Entry(v[key].value, Some(Deadline(now, seconds)))], Integer(1)) else (v, Integer(0))
    case Ttl(key) =>
      (v, Integer(if key !in v then -2
                  else match v[key].expiresAt case Some(t) => (t - now) / 1000 case None => -1))
    case DbSize => (v, Integer(|v|))
    case Ping(None) => (v, Simple(Text("PONG")))
    case Ping(Some(message)) => (v, Bulk(message))
    case Echo(text) => (v, Bulk(text))
    case Save => (v, if configured then Simple(Text("OK")) else Error(Text("ERR persistence is not configured")))
    case CommandDocs => (v, Array([]))
  }

  /** How many of the listed keys, repeats included, are present. */
  function Occurrences(v: Keys, keys: seq<bytes>): nat {
    if keys == [] then 0 else (if keys[0] in v then 1 else 0) + Occurrences(v, keys[1..])
  }

  /** Two states that no client can tell apart from now on. */
  predicate SameView(a: Keys, b: Keys, now: nat) {
    Live(a, now) == Live(b, now)
  }

  /** Keys only ever disappear from view as time passes. */
  lemma LiveLater(m: Keys, now: nat, later: nat)
    requires now <= later
    ensures Live(Live(m, now), later) == Live(m, later)
  {
  }

  lemma SameViewLater(a: Keys, b: Keys, now: nat, later: nat)
    requires now <= later && SameView(a, b, now)
    ensures SameView(a, b, later)
  {
    LiveLater(a, now, later);
    LiveLater(b, now, later);
  }

  lemma RemoveFromView(m: Keys, key: bytes, now: nat)
    ensures Live(m - {key}, now) == Live(m, now) - {key}
  {
  }

  function Without(v: Keys, keys: seq<bytes>): Keys {
    v - (set k | k in keys)
  }

  lemma WithoutStep(v: Keys, keys: seq<bytes>)
    ensures keys == [] ==> Without(v, keys) == v
    ensures keys != [] ==> Without(v, keys) == Without(v - {keys[0]}, keys[1..])
  {
    if keys != [] {
      assert keys == [keys[0]] + keys[1..];
      assert (set k | k in keys) == {keys[0]} + (set k | k in keys[1..]);
    }
  }

  /** DEL removes the listed keys, and its count is the drop in the number of visible keys. */
  lemma {:induction false} DelAllCounts(m: Keys, keys: seq<bytes>, now: nat)
    ensures var (m1, n) := DelAll(m, keys, now);
            && Live(m1, now) == Without(Live(m, now), keys)
            && n == |Live(m, now)| - |Live(m1, now)|
    decreases |keys|
  {
    hide Live, Without;
    WithoutStep(Live(m, now), keys);
    if keys != [] {
      RemoveFromView(m, keys[0], now);
      RemoveOne(Live(m, now), keys[0]);
      DelAllCounts(m - {keys[0]}, keys[1..], now);
      VisibleIff(m, keys[0], now);
    }
  }

  lemma RemoveOne(v: Keys, key: bytes)
    ensures |v - {key}| == if key in v then |v| - 1 else |v|
  {
    assert (v - {key}).Keys == v.Keys - {key};
    if key !in v { assert v - {key} == v; }
  }

  lemma VisibleIff(m: Keys, key: bytes, now: nat)
    ensures key in Live(m, now) <==> key in m && !Expired(m[key], now)
    ensures key in Live(m, now) ==> Live(m, now)[key] == m[key]
  {
  }

  /** EXISTS may drop dead keys on the way; it counts visible ones and changes no view. */
  lemma {:induction false} ExistsAllCounts(m: Keys, keys: seq<bytes>, now: nat)
    ensures var (m1, n) := ExistsAll(m, keys, now);
            Live(m1, now) == Live(m, now) && n == Occurrences(Live(m, now), keys)
    decreases |keys|
  {
    if keys != [] {
      var (m1, _) := GetOp(m, keys[0], now);
      assert Live(m1, now) == Live(m, now);
      ExistsAllCounts(m1, keys[1..], now);
    }
  }

  /** Storing the same entry in two indistinguishable maps. */
  lemma StoreKeepsView(m: Keys, v: Keys, key: bytes, e: Entry, now: nat)
    requires Live(m, now) == Live(v, now)
    ensures Live(m[key := e], now) == Live(v[key := e], now)
  {
    var a, b := Live(m[key := e], now), Live(v[key := e], now);
    forall k
      ensures k in a <==> k in b
      ensures k in a ==> a[k] == b[k]
    {
      VisibleIff(m, k, now);
      VisibleIff(v, k, now);
    }
  }

  lemma IncrRefines(m: Keys, v: Keys, configured: bool, key: bytes, now: nat)
    requires Live(m, now) == v
    ensures Execute(m, configured, Incr(key), now).1 == Plain(v, configured, Incr(key), now).1
    ensures SameView(Execute(m, configured, Incr(key), now).0, Plain(v, configured, Incr(key), now).0, now)
  {
    hide ParseI64, Numeral, Text, WrapI64, Live;
    VisibleIff(m, key, now);
    LiveLater(m, now, now);
    var i := if key in v then ParseI64(v[key].value) else Some(0);
    if i.Some? {
      StoreKeepsView(m, v, key, Entry(Numeral(WrapI64(i.value + 1)), if key in v then v[key].expiresAt else None), now);
    }
  }

  lemma WriteRefines(m: Keys, v: Keys, configured: bool, c: Command, now: nat)
    requires Live(m, now) == v && (c.Set? || c.Expire?)
    ensures Execute(m, configured, c, now).1 == Plain(v, configured, c, now).1
    ensures SameView(Execute(m, configured, c, now).0, Plain(v, configured, c, now).0, now)
  {
    hide Text, Live, Deadline;
    LiveLater(m, now, now);
    match c
    case Set(key, value, expireAt) => StoreKeepsView(m, v, key, Entry(value, expireAt), now);
    case Expire(key, seconds) =>
      VisibleIff(m, key, now);
      if key in v { StoreKeepsView(m, v, key, Entry(v[key].value, Some(Deadline(now, seconds))), now); }
  }

  lemma ReadRefines(m: Keys, v: Keys, configured: bool, c: Command, now: nat)
    requires Live(m, now) == v && !c.Set? && !c.Expire? && !c.Incr?
    ensures Execute(m, configured, c, now).1 == Plain(v, configured, c, now).1
    ensures SameView(Execute(m, configured, c, now).0, Plain(v, configured, c, now).0, now)
  {
    hide Text, Live, Without, DelAll, ExistsAll;
    LiveLater(m, now, now);
    match c
    case Del(keys) =>
      DelAllCounts(m, keys, now);
      LiveLater(DelAll(m, keys, now).0, now, now);
    case Exists(keys) => ExistsAllCounts(m, keys, now);
    case Get(key) =>
      VisibleIff(m, key, now);
      RemoveFromView(m, key, now);
      if key !in v { assert v - {key} == v; }
    case Ttl(key) => VisibleIff(m, key, now);
    case _ =>
  }

  /** Every command replies like the swept map and leaves a state no client can tell from it. */
  lemma CommandRefinesTimedMap(m: Keys, v: Keys, configured: bool, c: Command, now: nat)
    requires SameView(m, v, now)
    ensures Execute(m, configured, c, now).1 == Plain(Live(v, now), configured, c, now).1
    ensures SameView(Execute(m, configured, c, now).0, Plain(Live(v, now), configured, c, now).0, now)
  {
    hide Execute, Plain, Live;
    match c
    case Incr(key) => IncrRefines(m, Live(v, now), configured, key, now);
    case Set(_, _, _) => WriteRefines(m, Live(v, now), configured, c, now);
    case Expire(_, _) => WriteRefines(m, Live(v, now), configured, c, now);
    case _ => ReadRefines(m, Live(v, now), configured, c, now);
  }

  datatype Event = Request(c: Command) | Sweep

  /** One turn of the server: a client command or the timer's sweep, at its time. */
  function ServerStep(m: Keys, configured: bool, e: Event, now: nat): (Keys, seq<Resp>) {
    match e
    case Request(c) => var (m1, reply) := Execute(m, configured, c, now); (m1, [reply])
    case Sweep => (Live(m, now), [])
  }

  function PlainStep(v: Keys, configured: bool, e: Event, now: nat): (Keys, seq<Resp>) {
    match e
    case Request(c) => var (v1, reply) := Plain(Live(v, now), configured, c, now); (v1, [reply])
    case Sweep => (v, [])
  }

  function ServerReplies(m: Keys, configured: bool, events: seq<(nat, Event)>): seq<Resp>
    decreases |events|
  {
    if events == [] then []
    else
      var (m1, replies) := ServerStep(m, configured, events[0].1, events[0].0);
      replies + ServerReplies(m1, configured, events[1..])
  }

  function PlainReplies(v: Keys, configured: bool, events: seq<(nat, Event)>): seq<Resp>
    decreases |events|
  {
    if events == [] then []
    else
      var (v1, replies) := PlainStep(v, configured, events[0].1, events[0].0);
      replies + PlainReplies(v1, configured, events[1..])
  }

  predicate ClockAdvances(start: nat, events: seq<(nat, Event)>)
    decreases |events|
  {
    events != [] ==> start <= events[0].0 && ClockAdvances(events[0].0, events[1..])
  }

  /**
   Over any run with a clock that never goes back, every reply is that of the timed map,
   whenever lazy removals and sweeps happen.
   */
  lemma {:induction false} RunRefinesTimedMap(m: Keys, v: Keys, configured: bool, start: nat, events: seq<(nat, Event)>)
    requires SameView(m, v, start) && ClockAdvances(start, events)
    ensures ServerReplies(m, configured, events) == PlainReplies(v, configured, events)
    decreases |events|
  {
    if events != [] {
      hide Execute, Plain, SameView;
      var (now, e) := events[0];
      SameViewLater(m, v, start, now);
      var m1, v1 := ServerStep(m, configured, e, now).0, PlainStep(v, configured, e, now).0;
      match e
      case Request(c) =>
        CommandRefinesTimedMap(m, v, configured, c, now);
        RunRefinesTimedMap(m1, v1, configured, now, events[1..]);
      case Sweep =>
        SweepKeepsView(m, v, now);
        RunRefinesTimedMap(m1, v1, configured, now, events[1..]);
    }
  }

  lemma SweepKeepsView(m: Keys, v: Keys, now: nat)
    requires SameView(m, v, now)
    ensures SameView(Live(m, now), v, now)
  {
    LiveLater(m, now, now);
  }

  /** INCR on a live integer key adds one, keeps its deadline and touches nothing else. */
  lemma IncrKeepsDeadline(m: Keys, key: bytes, now: nat)
    requires key in Live(m, now)
    ensures var (m1, next) := IncrOp(m, key, now);
            && (next.Some? <==> ParseI64(m[key].value).Some?)
            && (next.Some? ==> m1[key].expiresAt == m[key].expiresAt && ParseI64(m1[key].value) == next)
            && (next.Some? && ParseI64(m[key].value).value < I64_MAX ==> next.value == ParseI64(m[key].value).value + 1)
            && m1 - {key} == m - {key}
  {
    VisibleIff(m, key, now);
    hide ParseI64, Numeral, WrapI64, Live;
    var i := ParseI64(m[key].value);
    if i.Some? { NumeralRoundTrip(WrapI64(i.value + 1)); }
  }
}
