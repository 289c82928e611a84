/** What a client can count on from one request to the next, stated on the words it sends. */
module RequestLaws {
  import opened Bytes
  import opened Numerals
  import opened Utf8
  import opened RespProtocol
  import opened Keyspace
  import opened Connections
  import opened CommandLaws

  // The words of a request, in small letters: set, get, ex, px, incr, echo, ping, exists, expire, ttl, del.
  const SET: bytes := [115, 101, 116]
  const GET: bytes := [103, 101, 116]
  const EX: bytes := [101, 120]
  const PX: bytes := [112, 120]
  const INCR: bytes := [105, 110, 99, 114]
  const ECHO: bytes := [101, 99, 104, 111]
  const EXISTS: bytes := [101, 120, 105, 115, 116, 115]
  const EXPIRE: bytes := [101, 120, 112, 105, 114, 101]
  const TTL: bytes := [116, 116, 108]
  const DEL: bytes := [100, 101, 108]

  lemma Spelled()
    ensures Spells(SET, Text("SET")) && Spells(GET, Text("GET")) && Spells(EX, Text("EX")) && Spells(PX, Text("PX"))
    ensures Spells(INCR, Text("INCR")) && Spells(ECHO, Text("ECHO")) && Spells(EXISTS, Text("EXISTS"))
    ensures Spells(EXPIRE, Text("EXPIRE")) && Spells(TTL, Text("TTL")) && Spells(DEL, Text("DEL"))
  {
  }

  lemma AsksGet(k: bytes, now: nat)
    ensures Asks([GET, k], Get(k), now) && Asks([TTL, k], Ttl(k), now)
  {
    Spelled();
    hide Spells, Text;
  }

  lemma AsksSet(k: bytes, v: bytes, now: nat)
    ensures Asks([SET, k, v], Set(k, v, None), now)
  {
    Spelled();
    hide Spells, Text;
  }

  lemma DeadlinesFit(n: nat, now: nat)
    requires now + 1000 * n < U64_LIMIT
    ensures Deadline(now, n) == now + 1000 * n && (now + n) % U64_LIMIT == now + n
  {
  }

  lemma ExpiriesOf(n: nat, now: nat)
    requires now + 1000 * n < U64_LIMIT
    ensures Expires(EX, Digits(n), now, now + 1000 * n) && Expires(PX, Digits(n), now, now + n)
  {
    Spelled();
    DigitsAreRead(n);
    DeadlinesFit(n, now);
    hide Spells, Text, ParseU64, Digits, Deadline;
  }

  lemma AsksExpiring(k: bytes, v: bytes, n: nat, now: nat)
    requires now + 1000 * n < U64_LIMIT
    ensures Asks([SET, k, v, EX, Digits(n)], Set(k, v, Some(now + 1000 * n)), now)
    ensures Asks([SET, k, v, PX, Digits(n)], Set(k, v, Some(now + n)), now)
  {
    Spelled();
    ExpiriesOf(n, now);
    hide Spells, Text, Digits, Expires;
  }

  lemma AsksExpire(k: bytes, n: nat, now: nat)
    requires n < U64_LIMIT
    ensures Asks([EXPIRE, k, Digits(n)], Expire(k, n), now)
  {
    Spelled();
    DigitsAreRead(n);
    hide Spells, Text, ParseU64, Digits;
  }

  lemma DigitsAreRead(n: nat)
    requires n < U64_LIMIT
    ensures ParseU64(Digits(n)) == Some(n)
  {
    assert ZeroDigits(0) + Digits(n) == Digits(n);
    assert Padded(Digits(n), n);
    ParseU64Iff(Digits(n), n);
  }

  lemma AskedIsExecuted(keys: Keys, configured: bool, args: seq<bytes>, now: nat, c: Command)
    requires args != [] && Asks(args, c, now)
    ensures Respond(keys, configured, BulkArray(args), now) == Execute(keys, configured, c, now)
  {
    hide Asks, ParseArgs, BulkArray, Execute, ArgsOf;
    ArgsOfBulkArray(args);
    ArgsParseIff(args, now, c);
  }

  /** The replies to two requests, in terms of what they ask for. */
  lemma TwoRequests(keys: Keys, configured: bool, clock: Clock, served: nat, a: seq<bytes>, c: Command, b: seq<bytes>, d: Command)
    requires a != [] && Asks(a, c, clock(served)) && b != [] && Asks(b, d, clock(served + 1))
    ensures AnswerAll(keys, configured, clock, served, [BulkArray(a), BulkArray(b)]).1
         == ServerReplies(keys, configured, [(clock(served), Request(c)), (clock(served + 1), Request(d))])
  {
    hide Asks, BulkArray, Execute, Respond;
    var (keys1, first) := Execute(keys, configured, c, clock(served));
    AskedIsExecuted(keys, configured, a, clock(served), c);
    AskedIsExecuted(keys1, configured, b, clock(served + 1), d);
    TwoReplies(keys, configured, clock(served), c, clock(served + 1), d);
    var (keys2, second) := Execute(keys1, configured, d, clock(served + 1));
    assert [BulkArray(a), BulkArray(b)][1..] == [BulkArray(b)] && [BulkArray(b)][1..] == [];
    assert AnswerAll(keys2, configured, clock, served + 2, []) == (keys2, []);
    assert AnswerAll(keys1, configured, clock, served + 1, [BulkArray(b)]).1 == [second] + [];
  }

  /** "set k v" and then "get k" reply OK and v. */
  lemma SetGet(keys: Keys, configured: bool, clock: Clock, served: nat, k: bytes, v: bytes)
    ensures AnswerAll(keys, configured, clock, served, [BulkArray([SET, k, v]), BulkArray([GET, k])]).1 == [Simple([79, 75]), Bulk(v)]
  {
    assert Text("OK") == [79, 75];
    hide Text, Asks, AnswerAll, ServerReplies;
    AsksSet(k, v, clock(served));
    AsksGet(k, clock(served + 1));
    TwoRequests(keys, configured, clock, served, [SET, k, v], Set(k, v, None), [GET, k], Get(k));
    SetThenGet(keys, configured, k, v, None, clock(served), clock(served + 1));
  }

  /** "set k v ex n": for n seconds get replies v, and then nothing; "px n" does so for n milliseconds. */
  lemma SetExpiring(keys: Keys, configured: bool, clock: Clock, served: nat, k: bytes, v: bytes, n: nat)
    requires clock(served) + 1000 * n < U64_LIMIT
    ensures AnswerAll(keys, configured, clock, served, [BulkArray([SET, k, v, EX, Digits(n)]), BulkArray([GET, k])]).1
         == [Simple([79, 75]), if clock(served + 1) < clock(served) + 1000 * n then Bulk(v) else Null]
    ensures AnswerAll(keys, configured, clock, served, [BulkArray([SET, k, v, PX, Digits(n)]), BulkArray([GET, k])]).1
         == [Simple([79, 75]), if clock(served + 1) < clock(served) + n then Bulk(v) else Null]
  {
    assert Text("OK") == [79, 75];
    hide Text, Asks, AnswerAll, ServerReplies, Digits;
    var now, later := clock(served), clock(served + 1);
    AsksExpiring(k, v, n, now);
    AsksGet(k, later);
    TwoRequests(keys, configured, clock, served, [SET, k, v, EX, Digits(n)], Set(k, v, Some(now + 1000 * n)), [GET, k], Get(k));
    SetThenGet(keys, configured, k, v, Some(now + 1000 * n), now, later);
    TwoRequests(keys, configured, clock, served, [SET, k, v, PX, Digits(n)], Set(k, v, Some(now + n)), [GET, k], Get(k));
    SetThenGet(keys, configured, k, v, Some(now + n), now, later);
  }

  /** "expire k n" on a key that is there and then "ttl k": the seconds left, rounded down. */
  lemma ExpireTtl(keys: Keys, configured: bool, clock: Clock, served: nat, k: bytes, n: nat)
    requires k in keys && !Expired(keys[k], clock(served))
    requires clock(served) <= clock(served + 1) && clock(served) + 1000 * n < U64_LIMIT
    ensures AnswerAll(keys, configured, clock, served, [BulkArray([EXPIRE, k, Digits(n)]), BulkArray([TTL, k])]).1
         == [Integer(1), Integer(if clock(served + 1) < clock(served) + 1000 * n
                                 then (clock(served) + 1000 * n - clock(served + 1)) / 1000 else -2)]
  {
    hide Asks, AnswerAll, ServerReplies, Digits;
    AsksExpire(k, n, clock(served));
    AsksGet(k, clock(served + 1));
    TwoRequests(keys, configured, clock, served, [EXPIRE, k, Digits(n)], Expire(k, n), [TTL, k], Ttl(k));
    ExpireThenTtl(keys, configured, k, n, clock(served), clock(served + 1));
  }

  /** "exists k k" counts a key twice, and "del k k" deletes it once. */
  lemma ExistsDel(keys: Keys, configured: bool, clock: Clock, served: nat, k: bytes)
    requires k in keys && !Expired(keys[k], clock(served)) && !Expired(keys[k], clock(served + 1))
    ensures AnswerAll(keys, configured, clock, served, [BulkArray([EXISTS, k, k]), BulkArray([DEL, k, k])]).1 == [Integer(2), Integer(1)]
  {
    AsksTwice(k, clock(served));
    AsksTwice(k, clock(served + 1));
    ExistsTwice(keys, k, clock(served));
    DelTwice(keys, k, clock(served + 1));
    hide Asks, DelAll, ExistsAll, AnswerAll, Execute, Expired, ServerReplies, BulkArray;
    TwoRequests(keys, configured, clock, served, [EXISTS, k, k], Exists([k, k]), [DEL, k, k], Del([k, k]));
    CountsInTurn(keys, configured, [k, k], clock(served), clock(served + 1));
  }

  lemma CountsInTurn(m: Keys, configured: bool, ks: seq<bytes>, t0: nat, t1: nat)
    ensures var (m1, n) := ExistsAll(m, ks, t0);
            ServerReplies(m, configured, [(t0, Request(Exists(ks))), (t1, Request(Del(ks)))]) == [Integer(n), Integer(DelAll(m1, ks, t1).1)]
  {
    hide DelAll, ExistsAll;
    TwoReplies(m, configured, t0, Exists(ks), t1, Del(ks));
  }

  lemma AsksTwice(k: bytes, now: nat)
    ensures Asks([EXISTS, k, k], Exists([k, k]), now) && Asks([DEL, k, k], Del([k, k]), now)
  {
    Spelled();
    hide Text, Spells;
    assert [EXISTS, k, k][1..] == [k, k] && [DEL, k, k][1..] == [k, k];
  }

  lemma ExistsTwice(keys: Keys, k: bytes, now: nat)
    requires k in keys && !Expired(keys[k], now)
    ensures ExistsAll(keys, [k, k], now) == (keys, 2)
  {
    assert [k, k][1..] == [k] && [k][1..] == [];
    assert ExistsAll(keys, [], now) == (keys, 0);
    assert ExistsAll(keys, [k], now) == (keys, 1);
  }

  lemma DelTwice(keys: Keys, k: bytes, now: nat)
    requires k in keys && !Expired(keys[k], now)
    ensures DelAll(keys, [k, k], now).1 == 1
  {
    assert [k, k][1..] == [k] && [k][1..] == [];
    var gone := keys - {k};
    assert gone - {k} == gone;
    assert DelAll(gone, [], now) == (gone, 0);
    assert DelAll(gone, [k], now) == (gone, 0);
  }

  /** "echo t" and "incr k" on the decimal text of i. */
  lemma EchoIncr(keys: Keys, configured: bool, clock: Clock, served: nat, t: bytes, k: bytes, i: int)
    requires I64_MIN <= i < I64_MAX && k in keys && !Expired(keys[k], clock(served + 1)) && keys[k].value == Numeral(i)
    ensures AnswerAll(keys, configured, clock, served, [BulkArray([ECHO, t]), BulkArray([INCR, k])]).1 == [Bulk(t), Integer(i + 1)]
  {
    Spelled();
    NumeralRoundTrip(i);
    hide Text, Spells, Numeral, ParseI64, WrapI64;
    TwoRequests(keys, configured, clock, served, [ECHO, t], Echo(t), [INCR, k], Incr(k));
    TwoReplies(keys, configured, clock(served), Echo(t), clock(served + 1), Incr(k));
  }
}
