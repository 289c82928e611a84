/**
 A whole session against the timed map: the bytes a client is sent are, in order, the map's
 replies to the requests in the bytes it sent, however both were cut up.
 */
module Sessions {
  import opened Bytes
  import opened Numerals
  import opened RespProtocol
  import opened Keyspace
  import opened Connections
  import opened Replies

  // ---- one request -----------------------------------------------------------------------

  /** A request for a command is answered as the timed map answers it. */
  lemma AnsweredAsAsked(keys: Keys, m: Keys, configured: bool, v: Resp, now: nat, c: Command)
    requires SameView(keys, m, now) && Requests(v, c, now)
    ensures var (keys1, reply) := Respond(keys, configured, v, now);
            var (m1, expected) := Plain(Live(m, now), configured, c, now);
            reply == expected && SameView(keys1, m1, now)
  {
    hide ParseCommand, Requests, Execute, Plain, Live;
    ParseCommandIff(v, now, c);
    CommandRefinesTimedMap(keys, m, configured, c, now);
  }

  ghost predicate RequestsNothing(v: Resp, now: nat) {
    forall c :: !Requests(v, c, now)
  }

  /** The error that says what is wrong with the frame. */
  ghost predicate Refuses(v: Resp, reply: Resp) {
    exists message :: FrameComplaint(v, message) && reply == Error(Text("ERR protocol error: ") + message)
  }

  /** Any other frame is refused with that error, and changes nothing. */
  lemma RefusedOtherwise(keys: Keys, configured: bool, v: Resp, now: nat)
    requires RequestsNothing(v, now)
    ensures var (keys1, reply) := Respond(keys, configured, v, now); keys1 == keys && Refuses(v, reply)
  {
    hide ParseCommand, Requests, Execute, FrameComplaint, Text;
    match ParseCommand(v, now)
    case Valid(c) => ParseCommandIff(v, now, c);
    case Invalid(message) => FrameRefusedIff(v, now, message);
  }

  // ---- a stream of requests ----------------------------------------------------------------

  /** The values at the front of the buffer, and what is left behind them. */
  function Frames(buf: bytes): (seq<Resp>, bytes)
    decreases |buf|
  {
    match Parse(buf)
    case Done(v, used) => var (vs, rest) := Frames(buf[used..]); ([v] + vs, rest)
    case _ => ([], buf)
  }

  /** Values sent back to back are found as they were. */
  lemma {:induction false} FramesOfEncoded(vs: seq<Resp>, tail: bytes)
    requires forall k :: 0 <= k < |vs| ==> WellFormed(vs[k])
    requires !Parse(tail).Done?
    ensures Frames(EncodeAll(vs) + tail) == (vs, tail)
    decreases |vs|
  {
    hide Parse, Encode, WellFormed;
    if vs == [] {
      assert [] + tail == tail;
    } else {
      var first, others := Encode(vs[0]), EncodeAll(vs[1..]);
      Regroup(first, others, tail);
      ParseEncoded(vs[0], others + tail);
      FramesOfEncoded(vs[1..], tail);
      assert [vs[0]] + vs[1..] == vs;
    }
  }

  /**
   The timed map, starting as m, replies this to these requests, the n-th at its clock
   reading, and ends as m'. A frame that is no request for a command is refused.
   */
  ghost predicate Answers(m: Keys, configured: bool, clock: Clock, served: nat, requests: seq<Resp>, replies: seq<Resp>, m': Keys)
    decreases |requests|
  {
    if requests == [] then replies == [] && m' == m
    else
      var v, now := requests[0], clock(served);
      && replies != []
      && if RequestsNothing(v, now) then
           Refuses(v, replies[0]) && Answers(m, configured, clock, served + 1, requests[1..], replies[1..], m')
         else
           exists c :: Requests(v, c, now) && replies[0] == Plain(Live(m, now), configured, c, now).1
             && Answers(Plain(Live(m, now), configured, c, now).0, configured, clock, served + 1, requests[1..], replies[1..], m')
  }

  ghost predicate ClockForward(clock: Clock) {
    forall i: nat, j: nat :: i <= j ==> clock(i) <= clock(j)
  }

  lemma FirstAnswer(m: Keys, configured: bool, clock: Clock, served: nat, v: Resp, c: Command, requests: seq<Resp>,
                    replies: seq<Resp>, m': Keys)
    requires Requests(v, c, clock(served))
    requires Answers(Plain(Live(m, clock(served)), configured, c, clock(served)).0, configured, clock, served + 1, requests, replies, m')
    ensures Answers(m, configured, clock, served, [v] + requests, [Plain(Live(m, clock(served)), configured, c, clock(served)).1] + replies, m')
  {
    hide Requests, Plain, Live;
    var now := clock(served);
    var reply := Plain(Live(m, now), configured, c, now).1;
    assert ([v] + requests)[1..] == requests && ([reply] + replies)[1..] == replies;
    assert !RequestsNothing(v, now);
  }

  lemma FirstRefusal(m: Keys, configured: bool, clock: Clock, served: nat, v: Resp, reply: Resp, requests: seq<Resp>,
                     replies: seq<Resp>, m': Keys)
    requires RequestsNothing(v, clock(served)) && Refuses(v, reply)
    requires Answers(m, configured, clock, served + 1, requests, replies, m')
    ensures Answers(m, configured, clock, served, [v] + requests, [reply] + replies, m')
  {
    hide RequestsNothing, Refuses, Plain, Live;
    assert ([v] + requests)[1..] == requests && ([reply] + replies)[1..] == replies;
  }

  /** What processing does to the status: nothing, unless what is left can never become a value. */
  function StatusAfter(status: Status, rest: bytes): Status {
    match Parse(rest)
    case Bad => Failed
    case Panicked => Crashed
    case _ => status
  }

  /** Draining a read buffer appends the replies of the timed map to the requests in it. */
  lemma {:induction false} ProcessAnswers(s: Conn, m: Keys, configured: bool, clock: Clock) returns (replies: seq<Resp>, m': Keys)
    requires SameView(s.keys, m, clock(s.served)) && ClockForward(clock)
    ensures Answers(m, configured, clock, s.served, Frames(s.readBuf).0, replies, m')
    ensures var t := Process(s, configured, clock);
      && t.writeBuf == s.writeBuf + EncodeAll(replies) && t.readBuf == Frames(s.readBuf).1
      && t.served == s.served + |Frames(s.readBuf).0| && t.status == StatusAfter(s.status, t.readBuf)
      && SameView(t.keys, m', clock(t.served))
    decreases |s.readBuf|
  {
    hide Parse, Respond, Encode, SameView, Plain, Live, Answers, Requests, RequestsNothing;
    match Parse(s.readBuf) {
      case Done(v, used) =>
        var now, next := clock(s.served), Serve(s, configured, clock, v, used);
        var reply := Respond(s.keys, configured, v, now).1;
        var m1 := MapAfter(s.keys, m, configured, v, now);
        SameViewLater(next.keys, m1, now, clock(s.served + 1));
        var rest: seq<Resp>;
        rest, m' := ProcessAnswers(next, m1, configured, clock);
        replies := [reply] + rest;
        ReplyInFront(s.writeBuf, reply, rest);
        if RequestsNothing(v, now) {
          RefusedOtherwise(s.keys, configured, v, now);
          FirstRefusal(m, configured, clock, s.served, v, reply, Frames(next.readBuf).0, rest, m');
        } else {
          var c := SomeRequest(v, now);
          AnsweredAsAsked(s.keys, m, configured, v, now, c);
          FirstAnswer(m, configured, clock, s.served, v, c, Frames(next.readBuf).0, rest, m');
        }
      case _ =>
        replies, m' := [], m;
        NoAnswers(m, configured, clock, s.served);
        assert s.writeBuf + [] == s.writeBuf;
    }
  }

  lemma NoAnswers(m: Keys, configured: bool, clock: Clock, served: nat)
    ensures Answers(m, configured, clock, served, [], [], m)
  {
  }

  lemma SomeRequest(v: Resp, now: nat) returns (c: Command)
    requires !RequestsNothing(v, now)
    ensures Requests(v, c, now)
  {
    hide Requests;
    c :| Requests(v, c, now);
  }

  /** The timed map after one frame. */
  lemma MapAfter(keys: Keys, m: Keys, configured: bool, v: Resp, now: nat) returns (m1: Keys)
    requires SameView(keys, m, now)
    ensures SameView(Respond(keys, configured, v, now).0, m1, now)
    ensures RequestsNothing(v, now) ==> m1 == m
    ensures forall c :: Requests(v, c, now) ==> m1 == Plain(Live(m, now), configured, c, now).0
  {
    hide SameView, Respond, Plain, Live, Requests;
    if RequestsNothing(v, now) {
      RefusedOtherwise(keys, configured, v, now);
      m1 := m;
    } else {
      var c := SomeRequest(v, now);
      AnsweredAsAsked(keys, m, configured, v, now, c);
      m1 := Plain(Live(m, now), configured, c, now).0;
      forall d | Requests(v, d, now)
        ensures d == c
      {
        OneRequest(v, now, c, d);
      }
    }
  }

  /** A frame asks for at most one command. */
  lemma OneRequest(v: Resp, now: nat, c: Command, d: Command)
    requires Requests(v, c, now) && Requests(v, d, now)
    ensures c == d
  {
    hide Requests, ParseCommand;
    ParseCommandIff(v, now, c);
    ParseCommandIff(v, now, d);
  }

  /** The replies to a list of frames are those of the timed map. */
  lemma {:induction false} AnswerAllAnswers(keys: Keys, m: Keys, configured: bool, clock: Clock, served: nat, requests: seq<Resp>)
      returns (m': Keys)
    requires SameView(keys, m, clock(served)) && ClockForward(clock)
    ensures Answers(m, configured, clock, served, requests, AnswerAll(keys, configured, clock, served, requests).1, m')
    decreases |requests|
  {
    hide Respond, SameView, Plain, Live, Answers, Requests, RequestsNothing;
    if requests == [] {
      m' := m;
      NoAnswers(m, configured, clock, served);
    } else {
      var v, now, others := requests[0], clock(served), requests[1..];
      var (keys1, reply) := Respond(keys, configured, v, now);
      var m1 := MapAfter(keys, m, configured, v, now);
      SameViewLater(keys1, m1, now, clock(served + 1));
      var rest := AnswerAll(keys1, configured, clock, served + 1, others).1;
      m' := AnswerAllAnswers(keys1, m1, configured, clock, served + 1, others);
      assert requests == [v] + others;
      if RequestsNothing(v, now) {
        RefusedOtherwise(keys, configured, v, now);
        FirstRefusal(m, configured, clock, served, v, reply, others, rest, m');
      } else {
        var c := SomeRequest(v, now);
        AnsweredAsAsked(keys, m, configured, v, now, c);
        FirstAnswer(m, configured, clock, served, v, c, others, rest, m');
      }
    }
  }

  // ---- a whole session -------------------------------------------------------------------------

  /** A connection just accepted. */
  function Accepting(keys: Keys): Session {
    Session(Conn([], [], keys, 0, Open), [])
  }

  /**
   For every interleaving of reads and partial writes: the bytes sent, followed by those
   still buffered, are the encoded replies of the timed map to the requests in everything
   that arrived, in order.
   */
  lemma SessionAnswers(keys: Keys, m: Keys, configured: bool, clock: Clock, ios: seq<Io>) returns (replies: seq<Resp>, m': Keys)
    requires SameView(keys, m, clock(0)) && ClockForward(clock)
    ensures Answers(m, configured, clock, 0, Frames(Concat(Chunks(ios))).0, replies, m')
    ensures var x := HandleAll(Accepting(keys), configured, clock, ios);
      && x.sent + x.conn.writeBuf == EncodeAll(replies)
      && SameView(x.conn.keys, m', clock(x.conn.served))
      && x.conn.status == StatusAfter(Open, Frames(Concat(Chunks(ios))).1)
  {
    hide Parse, Process, SameView, Answers, Frames, HandleAll, Chunks, Concat, EncodeAll;
    var x, all := Accepting(keys), Concat(Chunks(ios));
    assert Drained(x.conn) by { NothingParses(); }
    SessionOutcome(x, configured, clock, ios);
    assert [] + all == all && [] + [] == x.sent;
    replies, m' := ProcessAnswers(Unsent(x).(readBuf := all), m, configured, clock);
    assert [] + EncodeAll(replies) == EncodeAll(replies);
  }

  lemma NothingParses()
    ensures Parse([]) == NeedMore
  {
  }

  /** Hence for a client that sends well-formed requests and reads everything it is sent. */
  lemma RequestsAnswered(keys: Keys, m: Keys, configured: bool, clock: Clock, ios: seq<Io>, requests: seq<Resp>)
      returns (replies: seq<Resp>, m': Keys)
    requires SameView(keys, m, clock(0)) && ClockForward(clock)
    requires forall k :: 0 <= k < |requests| ==> WellFormed(requests[k])
    requires Concat(Chunks(ios)) == EncodeAll(requests)
    requires HandleAll(Accepting(keys), configured, clock, ios).conn.writeBuf == []
    ensures Answers(m, configured, clock, 0, requests, replies, m')
    ensures HandleAll(Accepting(keys), configured, clock, ios).sent == EncodeAll(replies)
  {
    hide Answers, Frames, HandleAll, Chunks, Concat, EncodeAll, WellFormed, SameView;
    NothingParses();
    FramesOfEncoded(requests, []);
    assert EncodeAll(requests) + [] == EncodeAll(requests);
    replies, m' := SessionAnswers(keys, m, configured, clock, ios);
    var x := HandleAll(Accepting(keys), configured, clock, ios);
    assert x.sent + [] == x.sent;
  }

  // ---- on the wire -------------------------------------------------------------------------------

  lemma SmallNumerals()
    ensures Numeral(1) == [49] && Numeral(2) == [50] && Numeral(3) == [51]
  {
  }

  /** Short texts in frames. */
  lemma BulkOnTheWire(b: byte)
    ensures Encode(Bulk([b])) == [36, 49, 13, 10, b, 13, 10]
    ensures Encode(Bulk([103, 101, 116])) == [36, 51, 13, 10, 103, 101, 116, 13, 10]
  {
    SmallNumerals();
    hide Numeral;
  }

  lemma PairOnTheWire(a: Resp, b: Resp)
    ensures Encode(Array([a, b])) == [42, 50, 13, 10] + Encode(a) + Encode(b)
  {
    SmallNumerals();
    assert [a, b][1..] == [b] && [b][1..] == [];
    assert EncodeAll([b]) == Encode(b) + [] == Encode(b);
    assert EncodeAll([a, b]) == Encode(a) + Encode(b);
    assert Encode(Array([a, b])) == [42, 50, 13, 10] + EncodeAll([a, b]);
    hide Numeral, Encode, EncodeAll;
  }

  /** "*2", "$3" "get", "$1" and the key. */
  lemma GetOnTheWire(k: byte)
    ensures Encode(BulkArray([[103, 101, 116], [k]]))
         == [42, 50, 13, 10, 36, 51, 13, 10, 103, 101, 116, 13, 10, 36, 49, 13, 10, k, 13, 10]
  {
    BulkOnTheWire(k);
    var get, key := Bulk([103, 101, 116]), Bulk([k]);
    assert BulkArray([[103, 101, 116], [k]]).items == [get, key];
    hide Encode, BulkArray;
    PairOnTheWire(get, key);
  }

  /** Those twenty bytes are answered with the value's frame, and with "$-1" when there is none. */
  lemma GetIsAnswered(s: Conn, configured: bool, clock: Clock, k: byte, v: byte)
    requires s.readBuf == [42, 50, 13, 10, 36, 51, 13, 10, 103, 101, 116, 13, 10, 36, 49, 13, 10, k, 13, 10]
    requires var live := Live(s.keys, clock(s.served)); [k] in live ==> live[[k]].value == [v]
    ensures Process(s, configured, clock).writeBuf == s.writeBuf +
            if [k] in Live(s.keys, clock(s.served)) then [36, 49, 13, 10, v, 13, 10] else [36, 45, 49, 13, 10]
  {
    var now, c, args := clock(s.served), Command.Get([k]), [[103, 101, 116], [k]];
    assert Text("GET") == [71, 69, 84];
    assert Asks(args, c, now);
    assert Requests(BulkArray(args), c, now);
    assert |args[0]| <= 3 && WellFormed(BulkArray(args));
    GetOnTheWire(k);
    BulkOnTheWire(v);
    assert Encode(Null) == [36, 45, 49, 13, 10];
    hide Live, Requests, Respond, Encode, BulkArray, WellFormed, Asks, Text;
    AnsweredAsAsked(s.keys, s.keys, configured, BulkArray(args), now, c);
    assert s.readBuf == Encode(BulkArray(args)) + [];
    PipelineStep(s, configured, clock, BulkArray(args), []);
    NothingToProcess(Serve(s, configured, clock, BulkArray(args), |Encode(BulkArray(args))|), configured, clock);
  }
}
