/**
 Requests and connections of 07-systems-programming: command.rs turns a frame into a
 command, connection.rs drains a read buffer fed by arbitrary chunks and a write buffer
 emptied by partial writes.
 */
module Connections {
  import opened Bytes
  import opened Numerals
  import opened Utf8
  import opened RespProtocol
  import opened Keyspace

  // ---- command.rs: parse ------------------------------------------------------------------

  datatype Request = Valid(c: Command) | Invalid(message: bytes)

  predicate AllBulk(items: seq<Resp>) {
    forall i :: 0 <= i < |items| ==> items[i].Bulk?
  }

  /** args_of: a non-empty array of bulk strings. */
  function ArgsOf(v: Resp): (r: Option<seq<bytes>>)
    ensures r.Some? ==> r.value != []
  {
    if v.Array? && AllBulk(v.items) && v.items != []
    then Some(seq(|v.items|, i requires 0 <= i < |v.items| => v.items[i].body))
    else None
  }

  function ArgsError(v: Resp): bytes {
    if !v.Array? then Text("expected an array of bulk strings")
    else if !AllBulk(v.items) then Text("command arguments must be bulk strings")
    else Text("empty command")
  }

  /** The deadline of SET key value EX|PX amount. */
  function SetDeadline(unit: bytes, amount: nat, now: nat): Option<nat> {
    if unit == Text("EX") then Some(Deadline(now, amount))
    else if unit == Text("PX") then Some((now + amount) % U64_LIMIT)
    else None
  }

  function ParseSet(args: seq<bytes>, now: nat): Request
    requires |args| > 0
  {
    if |args| != 3 && |args| != 5 then Invalid(Text("SET requires key, value, and optional EX/PX"))
    else if |args| == 3 then Valid(Set(args[1], args[2], None))
    else match ParseU64(args[4])
      case None => Invalid(Text("invalid SET expiry amount"))
      case Some(amount) =>
        match SetDeadline(Upper(Lossy(args[3])), amount, now)
        case None => Invalid(Text("SET expiry unit must be EX or PX"))
        case Some(t) => Valid(Set(args[1], args[2], Some(t)))
  }

  function ParseExpire(args: seq<bytes>): Request
    requires |args| > 0
  {
    if |args| != 3 then Invalid(Text("EXPIRE requires key and seconds"))
    else match ParseU64(args[2])
      case None => Invalid(Text("invalid expire seconds"))
      case Some(seconds) => Valid(Expire(args[1], seconds))
  }

  function ParseCommand(v: Resp, now: nat): Request {
    match ArgsOf(v)
    case None => Invalid(ArgsError(v))
    case Some(args) => ParseArgs(args, now)
  }

  function ParseArgs(args: seq<bytes>, now: nat): Request
    requires args != []
  {
    ParseNamed(Upper(Lossy(args[0])), args, now)
  }

  function ParseNamed(name: bytes, args: seq<bytes>, now: nat): Request
    requires args != []
  {
    if name == Text("PING") then Valid(Ping(if |args| > 1 then Some(args[1]) else None))
    else if name == Text("ECHO") then
      (if |args| != 2 then Invalid(Text("ECHO requires one argument")) else Valid(Echo(args[1])))
    else if name == Text("GET") then
      (if |args| != 2 then Invalid(Text("GET requires one argument")) else Valid(Get(args[1])))
    else if name == Text("INCR") then
      (if |args| != 2 then Invalid(Text("INCR requires one argument")) else Valid(Incr(args[1])))
    else if name == Text("TTL") then
      (if |args| != 2 then Invalid(Text("TTL requires one argument")) else Valid(Ttl(args[1])))
    else if name == Text("DEL") then
      (if |args| < 2 then Invalid(Text("DEL requires at least one key")) else Valid(Del(args[1..])))
    else if name == Text("EXISTS") then
      (if |args| < 2 then Invalid(Text("EXISTS requires at least one key")) else Valid(Exists(args[1..])))
    else if name == Text("EXPIRE") then ParseExpire(args)
    else if name == Text("SET") then ParseSet(args, now)
    else if name == Text("DBSIZE") then Valid(DbSize)
    else if name == Text("SAVE") then Valid(Save)
    else if name == Text("COMMAND") then Valid(CommandDocs)
    else Invalid(Text("unknown command '") + name + Text("'"))
  }

  // ---- which requests are which commands --------------------------------------------------------

  /** The command's name, in any mix of cases, followed by n arguments. */
  predicate Names(args: seq<bytes>, name: string, n: nat) {
    |args| == n + 1 && Spells(args[0], Text(name))
  }

  /** EX counts seconds, PX milliseconds from now. */
  ghost predicate Expires(unit: bytes, amountText: bytes, now: nat, t: nat) {
    exists amount ::
      && ParseU64(amountText) == Some(amount)
      && ((Spells(unit, Text("EX")) && t == Deadline(now, amount))
          || (Spells(unit, Text("PX")) && t == (now + amount) % U64_LIMIT))
  }

  /** What a client sends, at time now, for this command. */
  ghost predicate Asks(args: seq<bytes>, c: Command, now: nat) {
    match c
    case Ping(None) => Names(args, "PING", 0)
    case Ping(Some(message)) => |args| > 1 && Spells(args[0], Text("PING")) && args[1] == message
    case Echo(text) => Names(args, "ECHO", 1) && args[1] == text
    case Get(key) => Names(args, "GET", 1) && args[1] == key
    case Incr(key) => Names(args, "INCR", 1) && args[1] == key
    case Ttl(key) => Names(args, "TTL", 1) && args[1] == key
    case Del(keys) => |keys| > 0 && Names(args, "DEL", |keys|) && args[1..] == keys
    case Exists(keys) => |keys| > 0 && Names(args, "EXISTS", |keys|) && args[1..] == keys
    case Expire(key, seconds) => Names(args, "EXPIRE", 2) && args[1] == key && ParseU64(args[2]) == Some(seconds)
    case Set(key, value, None) => Names(args, "SET", 2) && args[1] == key && args[2] == value
    case Set(key, value, Some(t)) =>
      Names(args, "SET", 4) && args[1] == key && args[2] == value && Expires(args[3], args[4], now, t)
    case DbSize => |args| > 0 && Spells(args[0], Text("DBSIZE"))
    case Save => |args| > 0 && Spells(args[0], Text("SAVE"))
    case CommandDocs => |args| > 0 && Spells(args[0], Text("COMMAND"))
  }

  /** Length and first letter tell the names apart, but for EXISTS and EXPIRE. */
  lemma NameBytes()
    ensures |Text("PING")| == 4 && Text("PING")[0] == 80
    ensures |Text("ECHO")| == 4 && Text("ECHO")[0] == 69
    ensures |Text("GET")| == 3 && Text("GET")[0] == 71
    ensures |Text("INCR")| == 4 && Text("INCR")[0] == 73
    ensures |Text("TTL")| == 3 && Text("TTL")[0] == 84
    ensures |Text("DEL")| == 3 && Text("DEL")[0] == 68
    ensures |Text("EXISTS")| == 6 && Text("EXISTS")[0] == 69
    ensures |Text("EXPIRE")| == 6 && Text("EXPIRE")[0] == 69
    ensures |Text("SET")| == 3 && Text("SET")[0] == 83
    ensures |Text("DBSIZE")| == 6 && Text("DBSIZE")[0] == 68
    ensures |Text("SAVE")| == 4 && Text("SAVE")[0] == 83
    ensures |Text("COMMAND")| == 7 && Text("COMMAND")[0] == 67
    ensures Text("EXISTS")[2] != Text("EXPIRE")[2]
  {
  }

  /** Text that can stand in a reply line as it is. */
  predicate OneLine(text: bytes) {
    Ascii(text) && CR !in text
  }

  lemma OneLineText(s: string)
    requires '\r' !in s
    ensures OneLine(Text(s))
  {
  }

  lemma CommandNames()
    ensures OneLine(Text("PING")) && OneLine(Text("ECHO")) && OneLine(Text("GET")) && OneLine(Text("INCR"))
    ensures OneLine(Text("TTL")) && OneLine(Text("DEL")) && OneLine(Text("EXISTS")) && OneLine(Text("EXPIRE"))
    ensures OneLine(Text("SET")) && OneLine(Text("DBSIZE")) && OneLine(Text("SAVE")) && OneLine(Text("COMMAND"))
  {
    hide Text, OneLine;
    OneLineText("PING");
    OneLineText("ECHO");
    OneLineText("GET");
    OneLineText("INCR");
    OneLineText("TTL");
    OneLineText("DEL");
    OneLineText("EXISTS");
    OneLineText("EXPIRE");
    OneLineText("SET");
    OneLineText("DBSIZE");
    OneLineText("SAVE");
    OneLineText("COMMAND");
  }

  /** A name that is not one line of ASCII is no command, and is quoted. */
  lemma UnknownName(name: bytes, args: seq<bytes>, now: nat)
    requires args != [] && !OneLine(name)
    ensures ParseNamed(name, args, now) == Invalid(Text("unknown command '") + name + Text("'"))
  {
    hide Text, OneLine, ParseSet, ParseExpire;
    CommandNames();
  }

  /** Decoding the name lossily before matching it changes which command a request is for no name. */
  lemma NameAsSent(args: seq<bytes>, now: nat, c: Command)
    requires args != []
    ensures ParseArgs(args, now) == Valid(c) <==> ParseNamed(Upper(args[0]), args, now) == Valid(c)
  {
    hide Upper, Lossy, ParseNamed, Ascii, Text;
    var sent, decoded := Upper(args[0]), Upper(Lossy(args[0]));
    if Ascii(sent) {
      LossyNames(args[0], sent);
    } else if Ascii(decoded) {
      LossyNames(args[0], decoded);
    } else {
      UnknownName(sent, args, now);
      UnknownName(decoded, args, now);
    }
  }

  lemma CapitalText(s: string)
    requires forall i :: 0 <= i < |s| ==> 'A' <= s[i] <= 'Z'
    ensures Capitals(Text(s))
  {
  }

  /** Comparing the upper-case form with a command name is comparing in any mix of cases. */
  lemma UpperNames(b: bytes)
    ensures Upper(b) == Text("PING") <==> Spells(b, Text("PING"))
    ensures Upper(b) == Text("ECHO") <==> Spells(b, Text("ECHO"))
    ensures Upper(b) == Text("GET") <==> Spells(b, Text("GET"))
    ensures Upper(b) == Text("INCR") <==> Spells(b, Text("INCR"))
    ensures Upper(b) == Text("TTL") <==> Spells(b, Text("TTL"))
    ensures Upper(b) == Text("DEL") <==> Spells(b, Text("DEL"))
    ensures Upper(b) == Text("EXISTS") <==> Spells(b, Text("EXISTS"))
    ensures Upper(b) == Text("EXPIRE") <==> Spells(b, Text("EXPIRE"))
    ensures Upper(b) == Text("SET") <==> Spells(b, Text("SET"))
    ensures Upper(b) == Text("DBSIZE") <==> Spells(b, Text("DBSIZE"))
    ensures Upper(b) == Text("SAVE") <==> Spells(b, Text("SAVE"))
    ensures Upper(b) == Text("COMMAND") <==> Spells(b, Text("COMMAND"))
  {
    hide Upper, Text, Spells, Capitals;
    UpperName(b, "PING");
    UpperName(b, "ECHO");
    UpperName(b, "GET");
    UpperName(b, "INCR");
    UpperName(b, "TTL");
    UpperName(b, "DEL");
    UpperName(b, "EXISTS");
    UpperName(b, "EXPIRE");
    UpperName(b, "SET");
    UpperName(b, "DBSIZE");
    UpperName(b, "SAVE");
    UpperName(b, "COMMAND");
  }

  lemma UpperName(b: bytes, s: string)
    requires forall i :: 0 <= i < |s| ==> 'A' <= s[i] <= 'Z'
    ensures Upper(b) == Text(s) <==> Spells(b, Text(s))
  {
    CapitalText(s);
    hide Upper, Text, Spells, Capitals;
    UpperIsAnyCase(b, Text(s));
  }

  /** An array of bulk strings, as clients send requests. */
  function BulkArray(args: seq<bytes>): Resp {
    Array(seq(|args|, i requires 0 <= i < |args| => Bulk(args[i])))
  }

  lemma ArgsOfBulkArray(args: seq<bytes>)
    ensures ArgsOf(BulkArray(args)) == if args == [] then None else Some(args)
  {
    if args != [] { assert ArgsOf(BulkArray(args)).value == args; }
  }

  lemma ArgsAreBulkArray(v: Resp)
    requires ArgsOf(v).Some?
    ensures v == BulkArray(ArgsOf(v).value)
  {
    assert v.items == BulkArray(ArgsOf(v).value).items;
  }

  /** The frame is a request for this command. */
  ghost predicate Requests(v: Resp, c: Command, now: nat) {
    exists args :: v == BulkArray(args) && args != [] && Asks(args, c, now)
  }

  /** A frame is read as a command exactly when it is an array of bulk strings that asks for it. */
  lemma ParseCommandIff(v: Resp, now: nat, c: Command)
    ensures ParseCommand(v, now) == Valid(c) <==> Requests(v, c, now)
  {
    hide ParseArgs, ParseNamed, Asks, Upper, BulkArray, ArgsOf;
    if Requests(v, c, now) {
      var args :| v == BulkArray(args) && args != [] && Asks(args, c, now);
      ArgsOfBulkArray(args);
      ArgsParseIff(args, now, c);
    }
    if ParseCommand(v, now) == Valid(c) {
      ArgsAreBulkArray(v);
      ArgsParseIff(ArgsOf(v).value, now, c);
    }
  }

  lemma ArgsParseIff(args: seq<bytes>, now: nat, c: Command)
    requires args != []
    ensures ParseArgs(args, now) == Valid(c) <==> Asks(args, c, now)
  {
    hide ParseArgs, ParseNamed, Asks, Upper;
    NameAsSent(args, now, c);
    if ParseNamed(Upper(args[0]), args, now) == Valid(c) { ParsedAsks(args, now, c); }
    if Asks(args, c, now) { AskedParses(args, now, c); }
  }

  lemma ParsedAsks(args: seq<bytes>, now: nat, c: Command)
    requires args != [] && ParseNamed(Upper(args[0]), args, now) == Valid(c)
    ensures Asks(args, c, now)
  {
    hide Upper, Spells, ParseU64, Text, Deadline, ParseSet, Expires;
    UpperNames(args[0]);
    if Upper(args[0]) == Text("SET") { ParseSetIff(args, now, c); }
  }

  lemma AskedParses(args: seq<bytes>, now: nat, c: Command)
    requires args != [] && Asks(args, c, now)
    ensures ParseNamed(Upper(args[0]), args, now) == Valid(c)
  {
    NameBytes();
    hide Upper, Spells, ParseU64, Text, Deadline, ParseSet, Expires;
    UpperNames(args[0]);
    if c.Set? { ParseSetIff(args, now, c); }
  }

  /** The expiry units, decoded and compared in upper case, are the units in any mix of cases. */
  lemma UnitNames(b: bytes)
    ensures Upper(Lossy(b)) == Text("EX") <==> Spells(b, Text("EX"))
    ensures Upper(Lossy(b)) == Text("PX") <==> Spells(b, Text("PX"))
    ensures Text("EX") != Text("PX")
  {
    assert Text("EX")[0] != Text("PX")[0];
    assert Ascii(Text("EX")) && Ascii(Text("PX"));
    UpperName(b, "EX");
    UpperName(b, "PX");
    hide Upper, Lossy, Spells, Text;
    LossyNames(b, Text("EX"));
    LossyNames(b, Text("PX"));
  }

  lemma ParseSetIff(args: seq<bytes>, now: nat, c: Command)
    requires |args| > 0 && Upper(args[0]) == Text("SET")
    ensures ParseSet(args, now) == Valid(c) <==> c.Set? && Asks(args, c, now)
  {
    UpperName(args[0], "SET");
    if |args| == 5 { UnitNames(args[3]); }
    hide Upper, Lossy, Spells, Text, ParseU64, Deadline;
  }

  /** The store after one request frame, and the reply. */
  function Respond(keys: Keys, configured: bool, v: Resp, now: nat): (Keys, Resp) {
    match ParseCommand(v, now)
    case Valid(c) => Execute(keys, configured, c, now)
    case Invalid(message) => (keys, Error(Text("ERR protocol error: ") + message))
  }

  // ---- connection.rs: process ------------------------------------------------------------------

  /** Failed: process returned a protocol error, and the event loop drops the connection. */
  datatype Status = Open | Failed | Crashed

  datatype Conn = Conn(readBuf: bytes, writeBuf: bytes, keys: Keys, served: nat, status: Status)

  /** The wall clock as the n-th request sees it. */
  type Clock = nat -> nat

  /** One frame taken off the read buffer and answered. */
  function Serve(s: Conn, configured: bool, clock: Clock, v: Resp, used: nat): Conn
    requires used <= |s.readBuf|
  {
    var (keys, reply) := Respond(s.keys, configured, v, clock(s.served));
    Conn(s.readBuf[used..], s.writeBuf + Encode(reply), keys, s.served + 1, s.status)
  }

  function Process(s: Conn, configured: bool, clock: Clock): Conn
    decreases |s.readBuf|
  {
    match Parse(s.readBuf)
    case Done(v, used) => Process(Serve(s, configured, clock, v, used), configured, clock)
    case NeedMore => s
    case Bad => s.(status := Failed)
    case Panicked => s.(status := Crashed)
  }

  /** The socket delivers one chunk: it is buffered, then everything complete is processed. */
  function Feed(s: Conn, configured: bool, clock: Clock, chunk: bytes): Conn {
    if s.status == Open then Process(s.(readBuf := s.readBuf + chunk), configured, clock) else s
  }

  function FeedAll(s: Conn, configured: bool, clock: Clock, chunks: seq<bytes>): Conn
    decreases |chunks|
  {
    if chunks == [] then s else FeedAll(Feed(s, configured, clock, chunks[0]), configured, clock, chunks[1..])
  }

  /** Everything the peer and the store can observe; while the connection is open, the unparsed bytes too. */
  predicate SameOutcome(a: Conn, b: Conn) {
    && a.writeBuf == b.writeBuf && a.keys == b.keys && a.served == b.served && a.status == b.status
    && (a.status == Open ==> a.readBuf == b.readBuf)
  }

  /** Bytes that arrive after a full drain continue where it stopped; bytes after a failure change nothing. */
  lemma {:induction false} ProcessExtended(s: Conn, configured: bool, clock: Clock, more: bytes)
    requires s.status == Open
    ensures SameOutcome(Feed(Process(s, configured, clock), configured, clock, more),
                        Process(s.(readBuf := s.readBuf + more), configured, clock))
    decreases |s.readBuf|
  {
    hide Parse, Respond, Encode;
    var longer := s.(readBuf := s.readBuf + more);
    match Parse(s.readBuf)
    case NeedMore =>
    case Done(v, used) =>
      ParseStable(s.readBuf, more);
      assert longer.readBuf[used..] == s.readBuf[used..] + more;
      ProcessExtended(Serve(s, configured, clock, v, used), configured, clock, more);
    case Bad => ParseStable(s.readBuf, more);
    case Panicked => ParseStable(s.readBuf, more);
  }

  lemma FeedTwice(s: Conn, configured: bool, clock: Clock, a: bytes, b: bytes)
    ensures SameOutcome(Feed(Feed(s, configured, clock, a), configured, clock, b), Feed(s, configured, clock, a + b))
  {
    if s.status == Open {
      hide Process, Parse, SameOutcome;
      var first := s.(readBuf := s.readBuf + a);
      ProcessExtended(first, configured, clock, b);
      Regrouped(s.readBuf, a, b);
      assert first.(readBuf := first.readBuf + b) == s.(readBuf := s.readBuf + (a + b));
    }
  }

  /** An open connection with nothing complete in its buffer. */
  predicate Drained(s: Conn) {
    s.status == Open ==> Parse(s.readBuf) == NeedMore
  }

  lemma {:induction false} ProcessDrains(s: Conn, configured: bool, clock: Clock)
    ensures Drained(Process(s, configured, clock))
    decreases |s.readBuf|
  {
    hide Parse, Respond, Encode;
    match Parse(s.readBuf)
    case Done(v, used) => ProcessDrains(Serve(s, configured, clock, v, used), configured, clock);
    case _ =>
  }

  lemma {:induction false} SameOutcomeFed(a: Conn, b: Conn, configured: bool, clock: Clock, chunks: seq<bytes>)
    requires SameOutcome(a, b)
    ensures SameOutcome(FeedAll(a, configured, clock, chunks), FeedAll(b, configured, clock, chunks))
    decreases |chunks|
  {
    if chunks != [] {
      hide Process;
      SameOutcomeFed(Feed(a, configured, clock, chunks[0]), Feed(b, configured, clock, chunks[0]), configured, clock, chunks[1..]);
    }
  }

  /** However the client's bytes are cut into reads, the outcome is that of one read of them all. */
  lemma {:induction false} ChunkIndependence(s: Conn, configured: bool, clock: Clock, chunks: seq<bytes>)
    requires Drained(s)
    ensures SameOutcome(FeedAll(s, configured, clock, chunks), Feed(s, configured, clock, Concat(chunks)))
    decreases |chunks|
  {
    if chunks == [] {
      assert s.readBuf + [] == s.readBuf;
    } else {
      hide Process, SameOutcome, Parse;
      var first := Feed(s, configured, clock, chunks[0]);
      ProcessDrains(s.(readBuf := s.readBuf + chunks[0]), configured, clock);
      ChunkIndependence(first, configured, clock, chunks[1..]);
      FeedTwice(s, configured, clock, chunks[0], Concat(chunks[1..]));
      SameOutcomeTransitive(FeedAll(s, configured, clock, chunks), Feed(first, configured, clock, Concat(chunks[1..])),
                            Feed(s, configured, clock, Concat(chunks)));
    }
  }

  lemma SameOutcomeTransitive(a: Conn, b: Conn, c: Conn)
    requires SameOutcome(a, b) && SameOutcome(b, c)
    ensures SameOutcome(a, c)
  {
  }

  lemma PipelineStep(s: Conn, configured: bool, clock: Clock, v: Resp, rest: bytes)
    requires s.readBuf == Encode(v) + rest && WellFormed(v)
    ensures var next := Serve(s, configured, clock, v, |Encode(v)|);
            next.readBuf == rest && Process(s, configured, clock) == Process(next, configured, clock)
  {
    hide Respond, Encode, WellFormed, Parse;
    ParseEncoded(v, rest);
  }

  /** Pipelined well-formed requests are answered one by one, in order, and nothing is left over. */
  lemma {:induction false} PipelinedRequests(s: Conn, configured: bool, clock: Clock, requests: seq<Resp>)
    requires s.status == Open && s.readBuf == EncodeAll(requests)
    requires forall k :: 0 <= k < |requests| ==> WellFormed(requests[k])
    ensures var (keys, replies) := AnswerAll(s.keys, configured, clock, s.served, requests);
            Process(s, configured, clock) == Conn([], s.writeBuf + EncodeAll(replies), keys, s.served + |requests|, Open)
    decreases |requests|
  {
    hide Respond, Encode, WellFormed, Parse, Process;
    if requests == [] {
      NothingToProcess(s, configured, clock);
      assert s.writeBuf + [] == s.writeBuf;
    } else {
      PipelineStep(s, configured, clock, requests[0], EncodeAll(requests[1..]));
      var next := Serve(s, configured, clock, requests[0], |Encode(requests[0])|);
      PipelinedRequests(next, configured, clock, requests[1..]);
      var reply := Respond(s.keys, configured, requests[0], clock(s.served)).1;
      var rest := AnswerAll(next.keys, configured, clock, next.served, requests[1..]).1;
      ReplyInFront(s.writeBuf, reply, rest);
    }
  }

  lemma NothingToProcess(s: Conn, configured: bool, clock: Clock)
    requires s.readBuf == []
    ensures Process(s, configured, clock) == s
  {
  }

  lemma ReplyInFront(out: bytes, reply: Resp, rest: seq<Resp>)
    ensures out + EncodeAll([reply] + rest) == out + Encode(reply) + EncodeAll(rest)
  {
    hide Encode;
    assert ([reply] + rest)[1..] == rest;
    assert out + Encode(reply) + EncodeAll(rest) == out + (Encode(reply) + EncodeAll(rest));
  }

  /** The store and the replies after a list of request frames, the n-th at its clock reading. */
  function AnswerAll(keys: Keys, configured: bool, clock: Clock, served: nat, requests: seq<Resp>): (Keys, seq<Resp>)
    decreases |requests|
  {
    if requests == [] then (keys, [])
    else
      var (keys1, reply) := Respond(keys, configured, requests[0], clock(served));
      var (keys2, replies) := AnswerAll(keys1, configured, clock, served + 1, requests[1..]);
      (keys2, [reply] + replies)
  }

  // ---- connection.rs: flush_write_buf --------------------------------------------------------------

  /** What one call to write returns. */
  datatype WriteResult = Wrote(n: nat) | WouldBlock | Interrupted | Broken

  /** How many of `len` pending bytes leave the buffer when write answers like this. */
  function Accepted(len: nat, script: seq<WriteResult>): (n: nat)
    ensures n <= len
    decreases |script|
  {
    if len == 0 || script == [] then 0
    else match script[0]
      case Wrote(n) => if n == 0 then 0 else if n >= len then len else n + Accepted(len - n, script[1..])
      case Interrupted => Accepted(len, script[1..])
      case _ => 0
  }

  /** Does the write loop end in an error before the buffer is empty? */
  predicate WriteFails(len: nat, script: seq<WriteResult>)
    decreases |script|
  {
    len > 0 && script != [] &&
    match script[0]
    case Wrote(n) => 0 < n < len && WriteFails(len - n, script[1..])
    case Interrupted => WriteFails(len, script[1..])
    case WouldBlock => false
    case Broken => true
  }

  /** The write loop ends at this answer, whatever is left. */
  predicate StopsWriting(w: WriteResult) {
    w == Wrote(0) || w == WouldBlock || w == Broken
  }

  /** The first n answers are writes and interruptions, and the next one, if any, ends the loop. */
  predicate WritesUpTo(script: seq<WriteResult>, n: nat) {
    && n <= |script|
    && (forall i :: 0 <= i < n ==> !StopsWriting(script[i]))
    && (n < |script| ==> StopsWriting(script[n]))
  }

  /** Where that is. */
  function WriteStop(script: seq<WriteResult>): (n: nat)
    ensures WritesUpTo(script, n)
    decreases |script|
  {
    if script == [] || StopsWriting(script[0]) then 0 else 1 + WriteStop(script[1..])
  }

  /** The sum of the counts that writes report. */
  function Written(script: seq<WriteResult>): nat {
    if script == [] then 0 else (match script[0] case Wrote(n) => n case _ => 0) + Written(script[1..])
  }

  /**
   The bytes that leave the buffer are as many as the writes before the end of the loop
   report, and no more than there are; and the loop fails exactly when it ends on a broken
   socket with bytes left.
   */
  lemma {:induction false} AcceptedIs(len: nat, script: seq<WriteResult>, n: nat)
    requires WritesUpTo(script, n)
    ensures Accepted(len, script) == if Written(script[..n]) < len then Written(script[..n]) else len
    ensures WriteFails(len, script) <==> n < |script| && script[n] == Broken && Written(script[..n]) < len
    decreases n
  {
    if n > 0 {
      var rest := script[1..];
      assert rest[..n - 1] == script[..n][1..];
      assert forall i :: 0 <= i < |rest| ==> rest[i] == script[i + 1];
      AcceptedIs(match script[0] case Wrote(k) => if k < len then len - k else 0 case _ => len, rest, n - 1);
    }
  }

  lemma {:induction false} WrittenParts(a: seq<WriteResult>, b: seq<WriteResult>, n: nat)
    ensures Written(a + b) == Written(a) + Written(b)
    ensures Written([Wrote(n)]) == n && Written([Interrupted]) == 0
    decreases |a|
  {
    if a == [] {
      assert a + b == b;
    } else {
      assert (a + b)[1..] == a[1..] + b;
      WrittenParts(a[1..], b, n);
    }
  }

  // ---- connection.rs: read_into_buf ------------------------------------------------------------------

  /** What one call to read returns; no bytes is the end of the stream. */
  datatype ReadResult = Arrived(data: bytes) | NothingYet | Retry | ReadError

  datatype ReadEnd = PeerClosed | Exhausted | ReadBroken

  /** The bytes a readable event brings in, and how the read loop ends. */
  function Received(script: seq<ReadResult>): (bytes, ReadEnd)
    decreases |script|
  {
    if script == [] then ([], Exhausted)
    else match script[0]
      case Arrived(data) =>
        if data == [] then ([], PeerClosed)
        else var (more, end) := Received(script[1..]); (data + more, end)
      case NothingYet => ([], Exhausted)
      case Retry => Received(script[1..])
      case ReadError => ([], ReadBroken)
  }

  /** The read loop ends at this answer. */
  predicate StopsReading(r: ReadResult) {
    r == Arrived([]) || r == NothingYet || r == ReadError
  }

  /** The first n answers are data and interruptions, and the next one, if any, ends the loop. */
  predicate ReadsUpTo(script: seq<ReadResult>, n: nat) {
    && n <= |script|
    && (forall i :: 0 <= i < n ==> !StopsReading(script[i]))
    && (n < |script| ==> StopsReading(script[n]))
  }

  function ReadStop(script: seq<ReadResult>): (n: nat)
    ensures ReadsUpTo(script, n)
    decreases |script|
  {
    if script == [] || StopsReading(script[0]) then 0 else 1 + ReadStop(script[1..])
  }

  /** What each answer brings. */
  function Payloads(script: seq<ReadResult>): (chunks: seq<bytes>)
    ensures |chunks| == |script|
  {
    seq(|script|, i requires 0 <= i < |script| => match script[i] case Arrived(data) => data case _ => [])
  }

  /** How a read loop ends on this answer. */
  function EndingOf(r: ReadResult): ReadEnd {
    match r
    case Arrived(_) => PeerClosed
    case ReadError => ReadBroken
    case _ => Exhausted
  }

  /** What a read loop brings in is the data before the answer that ends it, in order. */
  lemma {:induction false} ReceivedIs(script: seq<ReadResult>, n: nat)
    requires ReadsUpTo(script, n)
    ensures Received(script).0 == Concat(Payloads(script[..n]))
    ensures Received(script).1 == if n < |script| then EndingOf(script[n]) else Exhausted
    decreases n
  {
    if n > 0 {
      var rest := script[1..];
      assert rest[..n - 1] == script[..n][1..];
      assert forall i :: 0 <= i < |rest| ==> rest[i] == script[i + 1];
      ReceivedIs(rest, n - 1);
      assert Payloads(script[..n])[1..] == Payloads(rest[..n - 1]);
      assert Payloads(script[..n])[0] == match script[0] case Arrived(data) => data case _ => [];
    }
  }

  class Connection {
    var readBuf: bytes
    var writeBuf: bytes
    var served: nat
    var status: Status
    ghost var sent: bytes

    constructor ()
      ensures readBuf == [] && writeBuf == [] && served == 0 && status == Open && sent == []
    {
      readBuf, writeBuf, served, status, sent := [], [], 0, Open, [];
    }

    function State(store: Store): Conn
      reads this, store
    {
      Conn(readBuf, writeBuf, store.entries, served, status)
    }

    /** read_into_buf against a socket that answers each read as scripted. */
    method ReadIntoBuf(script: seq<ReadResult>) returns (end: ReadEnd)
      modifies this`readBuf
      ensures readBuf == old(readBuf) + Received(script).0 && end == Received(script).1
      ensures var n := ReadStop(script);
        && readBuf == old(readBuf) + Concat(Payloads(script[..n]))
        && end == if n < |script| then EndingOf(script[n]) else Exhausted
    {
      ReceivedIs(script, ReadStop(script));
      hide ReadStop, Payloads, Concat;
      var i := 0;
      assert script[0..] == script;
      while i < |script|
        invariant i <= |script| && readBuf + Received(script[i..]).0 == old(readBuf) + Received(script).0
        invariant Received(script[i..]).1 == Received(script).1
        decreases |script| - i
      {
        assert script[i..][0] == script[i] && script[i..][1..] == script[i + 1..];
        match script[i] {
          case Arrived(data) =>
            if data == [] { return PeerClosed; }
            Regrouped(readBuf, data, Received(script[i + 1..]).0);
            readBuf := readBuf + data;
          case NothingYet => return Exhausted;
          case Retry =>
          case ReadError => return ReadBroken;
        }
        i := i + 1;
      }
      return Exhausted;
    }

    /**
     A readable event: everything the socket holds is buffered and processed, unless the
     read itself fails. `drop` tells the event loop to forget the connection.
     */
    method Receive(store: Store, clock: Clock, script: seq<ReadResult>) returns (drop: bool)
      requires status == Open
      modifies this, store`entries
      ensures var (data, end) := Received(script);
        if end == ReadBroken then
          drop && State(store) == old(State(store)).(readBuf := old(readBuf) + data)
        else
          && State(store) == Feed(old(State(store)), store.configured, clock, data)
          && (drop <==> status != Open || end == PeerClosed)
      ensures sent == old(sent)
    {
      hide Process, Received;
      var end := ReadIntoBuf(script);
      if end == ReadBroken { return true; }
      ProcessLoop(store, clock);
      return status != Open || end == PeerClosed;
    }

    /** Drop the frame's bytes, run the request, append the encoded reply. */
    method Answer(store: Store, clock: Clock, v: Resp, used: nat)
      requires used <= |readBuf|
      modifies this, store`entries
      ensures State(store) == Serve(old(State(store)), store.configured, clock, v, used) && sent == old(sent)
    {
      hide ParseCommand, Execute, Encode;
      readBuf := readBuf[used..];
      var now := clock(served);
      var request := ParseCommand(v, now);
      var reply: Resp;
      match request {
        case Valid(c) => reply := store.Run(c, now);
        case Invalid(message) => reply := Error(Text("ERR protocol error: ") + message);
      }
      writeBuf := EncodeInto(reply, writeBuf);
      served := served + 1;
    }

    method ProcessLoop(store: Store, clock: Clock)
      modifies this, store`entries
      ensures State(store) == Process(old(State(store)), store.configured, clock) && sent == old(sent)
    {
      hide Parse, Respond, Encode;
      while true
        invariant Process(State(store), store.configured, clock) == Process(old(State(store)), store.configured, clock)
        invariant sent == old(sent)
        decreases |readBuf|
      {
        var frame := ParseBuffer(readBuf);
        match frame {
          case Done(v, used) => Answer(store, clock, v, used);
          case NeedMore => return;
          case Bad =>
            status := Failed;
            return;
          case Panicked =>
            status := Crashed;
            return;
        }
      }
    }

    /** flush_write_buf against a socket that answers each write as scripted. */
    method FlushWriteBuf(script: seq<WriteResult>) returns (ok: bool)
      modifies this`writeBuf, this`sent
      ensures var n := WriteStop(script);
        var moved := if Written(script[..n]) < |old(writeBuf)| then Written(script[..n]) else |old(writeBuf)|;
        && sent == old(sent) + old(writeBuf)[..moved] && writeBuf == old(writeBuf)[moved..]
        && (ok <==> !(n < |script| && script[n] == Broken && Written(script[..n]) < |old(writeBuf)|))
    {
      AcceptedIs(|writeBuf|, script, WriteStop(script));
      hide WriteStop, Written;
      var done := 0;
      var i := 0;
      ok := true;
      assert script[0..] == script;
      while done < |writeBuf| && i < |script|
        invariant done <= |writeBuf| && i <= |script|
        invariant done + Accepted(|writeBuf| - done, script[i..]) == Accepted(|writeBuf|, script)
        invariant ok && (WriteFails(|writeBuf| - done, script[i..]) <==> WriteFails(|writeBuf|, script))
        decreases |script| - i
      {
        assert script[i..][0] == script[i] && script[i..][1..] == script[i + 1..];
        match script[i] {
          case Wrote(n) =>
            if n == 0 { break; }
            done := if n >= |writeBuf| - done then |writeBuf| else done + n;
          case WouldBlock => break;
          case Interrupted =>
          case Broken =>
            ok := false;
            break;
        }
        i := i + 1;
      }
      sent := sent + writeBuf[..done];
      writeBuf := writeBuf[done..];
    }
  }

  lemma Regrouped(a: bytes, b: bytes, c: bytes)
    ensures a + (b + c) == a + b + c
  {
  }

  // ---- reads and writes interleaved ----------------------------------------------------------------------

  datatype Io = Read(chunk: bytes) | Write(script: seq<WriteResult>)

  /** The connection and the bytes already handed to the socket. */
  datatype Session = Session(conn: Conn, sent: bytes)

  function Handle(x: Session, configured: bool, clock: Clock, io: Io): Session {
    match io
    case Read(chunk) => x.(conn := Feed(x.conn, configured, clock, chunk))
    case Write(script) =>
      var n := Accepted(|x.conn.writeBuf|, script);
      Session(x.conn.(writeBuf := x.conn.writeBuf[n..]), x.sent + x.conn.writeBuf[..n])
  }

  function HandleAll(x: Session, configured: bool, clock: Clock, ios: seq<Io>): Session
    decreases |ios|
  {
    if ios == [] then x else HandleAll(Handle(x, configured, clock, ios[0]), configured, clock, ios[1..])
  }

  function Chunks(ios: seq<Io>): seq<bytes> {
    if ios == [] then []
    else (match ios[0] case Read(chunk) => [chunk] case Write(_) => []) + Chunks(ios[1..])
  }

  /** The session with all its output still in the write buffer. */
  function Unsent(x: Session): Conn {
    x.conn.(writeBuf := x.sent + x.conn.writeBuf)
  }

  /** Output is only ever appended, so earlier output can be put in front at any time. */
  lemma {:induction false} ProcessAppends(s: Conn, configured: bool, clock: Clock, front: bytes)
    ensures Process(s.(writeBuf := front + s.writeBuf), configured, clock) ==
            var t := Process(s, configured, clock); t.(writeBuf := front + t.writeBuf)
    decreases |s.readBuf|
  {
    hide Parse, Respond, Encode;
    match Parse(s.readBuf)
    case Done(v, used) =>
      var reply := Respond(s.keys, configured, v, clock(s.served)).1;
      assert front + s.writeBuf + Encode(reply) == front + (s.writeBuf + Encode(reply));
      ProcessAppends(Serve(s, configured, clock, v, used), configured, clock, front);
    case _ =>
  }

  lemma WholeSlice(b: bytes)
    ensures b[..|b|] == b && b[|b|..] == []
  {
  }

  lemma AllAccepted(len: nat, script: seq<WriteResult>)
    requires forall i :: 0 <= i < |script| ==> script[i] == Interrupted || (script[i].Wrote? && script[i].n > 0)
    requires Written(script) >= len
    ensures Accepted(len, script) == len
  {
    assert WritesUpTo(script, |script|);
    assert script[..|script|] == script;
    hide Written, Accepted, WriteFails;
    AcceptedIs(len, script, |script|);
  }

  /** Writes that make progress, interrupted or not, empty the buffer once their counts reach its length. */
  lemma WritesDrain(x: Session, configured: bool, clock: Clock, script: seq<WriteResult>)
    requires forall i :: 0 <= i < |script| ==> script[i] == Interrupted || (script[i].Wrote? && script[i].n > 0)
    requires Written(script) >= |x.conn.writeBuf|
    ensures Handle(x, configured, clock, Write(script)) == Session(x.conn.(writeBuf := []), x.sent + x.conn.writeBuf)
  {
    hide Written, Accepted, Feed;
    AllAccepted(|x.conn.writeBuf|, script);
    WholeSlice(x.conn.writeBuf);
  }

  /** One write of everything behind interruptions does so; a blocked socket takes nothing. */
  lemma OneWriteDrains(x: Session, configured: bool, clock: Clock, script: seq<WriteResult>, k: nat, n: nat)
    requires k < |script| && forall i :: 0 <= i < k ==> script[i] == Interrupted
    ensures script[k] == Wrote(n) && n >= |x.conn.writeBuf| ==>
              Handle(x, configured, clock, Write(script[..k + 1])).sent == x.sent + x.conn.writeBuf
    ensures script[k] == WouldBlock ==> Handle(x, configured, clock, Write(script)) == x
    decreases k
  {
    var len := |x.conn.writeBuf|;
    AcceptedBehindInterrupts(len, script, k);
    AcceptedBehindInterrupts(len, script[..k + 1], k);
    assert script[..k + 1][k..] == [script[k]];
    assert x.conn.writeBuf[..len] == x.conn.writeBuf && x.conn.writeBuf[0..] == x.conn.writeBuf;
    assert x.conn.writeBuf[..0] == [] && x.sent + [] == x.sent;
  }

  lemma {:induction false} AcceptedBehindInterrupts(len: nat, script: seq<WriteResult>, k: nat)
    requires k <= |script| && forall i :: 0 <= i < k ==> script[i] == Interrupted
    ensures Accepted(len, script) == Accepted(len, script[k..])
    decreases k
  {
    if k > 0 {
      assert script[1..][k - 1..] == script[k..];
      AcceptedBehindInterrupts(len, script[1..], k - 1);
    }
  }

  lemma HandleUnsent(x: Session, configured: bool, clock: Clock, io: Io)
    ensures Unsent(Handle(x, configured, clock, io)) ==
            match io case Read(chunk) => Feed(Unsent(x), configured, clock, chunk) case Write(_) => Unsent(x)
  {
    hide Process;
    match io
    case Read(chunk) =>
      if x.conn.status == Open {
        ProcessAppends(x.conn.(readBuf := x.conn.readBuf + chunk), configured, clock, x.sent);
      }
    case Write(script) =>
      var n := Accepted(|x.conn.writeBuf|, script);
      assert x.sent + x.conn.writeBuf[..n] + x.conn.writeBuf[n..] == x.sent + x.conn.writeBuf;
  }

  /**
   For every interleaving of reads and partial writes, the bytes sent followed by the
   write buffer are what processing the whole input at once would have queued.
   */
  lemma {:induction false} OutputIsRepliesInOrder(x: Session, configured: bool, clock: Clock, ios: seq<Io>)
    ensures Unsent(HandleAll(x, configured, clock, ios)) == FeedAll(Unsent(x), configured, clock, Chunks(ios))
    decreases |ios|
  {
    if ios != [] {
      hide Unsent, Handle, Feed;
      var next := Handle(x, configured, clock, ios[0]);
      HandleUnsent(x, configured, clock, ios[0]);
      OutputIsRepliesInOrder(next, configured, clock, ios[1..]);
      if ios[0].Read? {
        assert Chunks(ios) == [ios[0].chunk] + Chunks(ios[1..]);
        assert Chunks(ios)[1..] == Chunks(ios[1..]);
      } else {
        assert Chunks(ios) == Chunks(ios[1..]);
      }
    }
  }

  /** The same against one read of the whole input: chunking and partial writes together are invisible. */
  lemma SessionOutcome(x: Session, configured: bool, clock: Clock, ios: seq<Io>)
    requires Drained(x.conn)
    ensures SameOutcome(Unsent(HandleAll(x, configured, clock, ios)), Feed(Unsent(x), configured, clock, Concat(Chunks(ios))))
  {
    hide Process, SameOutcome, Parse, HandleAll, Handle;
    OutputIsRepliesInOrder(x, configured, clock, ios);
    ChunkIndependence(Unsent(x), configured, clock, Chunks(ios));
  }
}
