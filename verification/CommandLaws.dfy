/** What a client can count on from one command to the next, stated on replies alone. */
module CommandLaws {
  import opened Bytes
  import opened Numerals
  import opened RespProtocol
  import opened Keyspace

  lemma TwoReplies(m: Keys, configured: bool, t0: nat, c0: Command, t1: nat, c1: Command)
    ensures var (m1, first) := Execute(m, configured, c0, t0);
            ServerReplies(m, configured, [(t0, Request(c0)), (t1, Request(c1))]) == [first, Execute(m1, configured, c1, t1).1]
  {
    hide Execute;
    var events := [(t0, Request(c0)), (t1, Request(c1))];
    var (m1, first) := Execute(m, configured, c0, t0);
    var (m2, second) := Execute(m1, configured, c1, t1);
    assert events[1..] == [(t1, Request(c1))] && [(t1, Request(c1))][1..] == [];
    assert ServerReplies(m2, configured, []) == [];
    assert ServerReplies(m1, configured, [(t1, Request(c1))]) == [second] + [];
  }

  /** A value is read back as it was set, until its deadline. */
  lemma SetThenGet(m: Keys, configured: bool, k: bytes, v: bytes, deadline: Option<nat>, t0: nat, t1: nat)
    ensures ServerReplies(m, configured, [(t0, Request(Set(k, v, deadline))), (t1, Request(Get(k)))])
         == [Simple(Text("OK")), if deadline.None? || t1 < deadline.value then Bulk(v) else Null]
  {
    TwoReplies(m, configured, t0, Set(k, v, deadline), t1, Get(k));
    hide Text;
  }

  /** A deleted key is gone; the reply says whether it was there. */
  lemma DelThenGet(m: Keys, configured: bool, k: bytes, t0: nat, t1: nat)
    ensures ServerReplies(m, configured, [(t0, Request(Del([k]))), (t1, Request(Get(k)))])
         == [Integer(if k in m && !Expired(m[k], t0) then 1 else 0), Null]
  {
    TwoReplies(m, configured, t0, Del([k]), t1, Get(k));
    assert [k][1..] == [];
    assert DelAll(m - {k}, [], t0) == (m - {k}, 0);
  }

  /** EXPIRE on a key that is there makes TTL count the seconds down from there, and then the key is gone. */
  lemma ExpireThenTtl(m: Keys, configured: bool, k: bytes, seconds: nat, t0: nat, t1: nat)
    requires k in m && !Expired(m[k], t0) && t0 <= t1 && t0 + 1000 * seconds < U64_LIMIT
    ensures ServerReplies(m, configured, [(t0, Request(Expire(k, seconds))), (t1, Request(Ttl(k)))])
         == [Integer(1), Integer(if t1 < t0 + 1000 * seconds then (t0 + 1000 * seconds - t1) / 1000 else -2)]
  {
    TwoReplies(m, configured, t0, Expire(k, seconds), t1, Ttl(k));
    hide Deadline;
  }

  /** EXPIRE and TTL on a key that is not there; TTL on one that never expires. */
  lemma TtlOtherwise(m: Keys, configured: bool, k: bytes, seconds: nat, now: nat)
    ensures k !in m || Expired(m[k], now) ==>
              Execute(m, configured, Expire(k, seconds), now).1 == Integer(0) && Execute(m, configured, Ttl(k), now).1 == Integer(-2)
    ensures k in m && m[k].expiresAt == None ==> Execute(m, configured, Ttl(k), now).1 == Integer(-1)
  {
  }

  /** INCR replies one more than the text that GET returned, or one on an absent key, and GET then returns it. */
  lemma IncrThenGet(m: Keys, configured: bool, k: bytes, i: int, now: nat)
    requires I64_MIN <= i < I64_MAX
    requires if k in m && !Expired(m[k], now) then ParseI64(m[k].value) == Some(i) else i == 0
    ensures ServerReplies(m, configured, [(now, Request(Incr(k))), (now, Request(Get(k)))]) == [Integer(i + 1), Bulk(Numeral(i + 1))]
  {
    TwoReplies(m, configured, now, Incr(k), now, Get(k));
    hide Text, ParseI64, Numeral, WrapI64;
  }

  /** What is not an integer is not counted up and not changed. */
  lemma IncrRefuses(m: Keys, configured: bool, k: bytes, now: nat)
    requires k in m && !Expired(m[k], now) && ParseI64(m[k].value) == None
    ensures Execute(m, configured, Incr(k), now) == (m, Error(Text("ERR value is not an integer or out of range")))
  {
    hide Text, ParseI64;
  }

  /** The keys a command names. */
  function KeysOf(c: Command): set<bytes> {
    match c
    case Get(k) => {k}
    case Set(k, _, _) => {k}
    case Del(ks) => set k | k in ks
    case Exists(ks) => set k | k in ks
    case Incr(k) => {k}
    case Expire(k, _) => {k}
    case Ttl(k) => {k}
    case _ => {}
  }

  lemma {:induction false} DelSpares(m: Keys, keys: seq<bytes>, now: nat, other: bytes)
    requires other !in keys
    ensures other in DelAll(m, keys, now).0 <==> other in m
    ensures other in m ==> DelAll(m, keys, now).0[other] == m[other]
    decreases |keys|
  {
    if keys != [] {
      assert keys == [keys[0]] + keys[1..];
      DelSpares(DelOp(m, keys[0], now).0, keys[1..], now, other);
    }
  }

  lemma {:induction false} ExistsSpares(m: Keys, keys: seq<bytes>, now: nat, other: bytes)
    requires other !in keys
    ensures other in ExistsAll(m, keys, now).0 <==> other in m
    ensures other in m ==> ExistsAll(m, keys, now).0[other] == m[other]
    decreases |keys|
  {
    if keys != [] {
      assert keys == [keys[0]] + keys[1..];
      ExistsSpares(GetOp(m, keys[0], now).0, keys[1..], now, other);
    }
  }

  /** A command leaves every key it does not name exactly as it was. */
  lemma OtherKeysAreSpared(m: Keys, configured: bool, c: Command, now: nat, other: bytes)
    requires other !in KeysOf(c)
    ensures var m1 := Execute(m, configured, c, now).0; (other in m1 <==> other in m) && (other in m ==> m1[other] == m[other])
  {
    hide Text, ParseI64, Numeral, WrapI64, Deadline, Live, DelAll, ExistsAll;
    match c
    case Del(ks) => DelSpares(m, ks, now, other);
    case Exists(ks) => ExistsSpares(m, ks, now, other);
    case _ =>
  }
}
