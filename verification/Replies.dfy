/**
 What a client makes of the replies: an error reply quotes the name of an unknown command,
 so the stream of replies stays readable exactly as long as no name holds a line break.
 */
module Replies {
  import opened Bytes
  import opened Numerals
  import opened Utf8
  import opened RespProtocol
  import opened Keyspace
  import opened Connections

  // ---- line breaks and lossy decoding -------------------------------------------------------

  lemma NoCrlfBehind(front: bytes, rest: bytes)
    requires CR !in front
    ensures NoCrlf(front + rest) <==> NoCrlf(rest)
  {
    var all, n := front + rest, |front|;
    assert forall j :: 0 <= j < n ==> !CrlfAt(all, j);
    assert forall j :: 0 <= j < |rest| ==> (CrlfAt(rest, j) <==> CrlfAt(all, n + j));
    if NoCrlf(rest) {
      forall j | 0 <= j < |all|
        ensures !CrlfAt(all, j)
      {
        if j >= n { assert !CrlfAt(rest, j - n); }
      }
    }
  }

  predicate StartsWithLf(b: bytes) {
    b != [] && b[0] == LF
  }

  lemma NoCrlfCons(b: byte, rest: bytes)
    ensures NoCrlf([b] + rest) <==> NoCrlf(rest) && !(b == CR && StartsWithLf(rest))
  {
    var all := [b] + rest;
    assert CrlfAt(all, 0) <==> b == CR && StartsWithLf(rest);
    assert forall j :: 0 <= j < |rest| ==> (CrlfAt(rest, j) <==> CrlfAt(all, j + 1));
    if NoCrlf(rest) && !CrlfAt(all, 0) {
      forall j | 0 <= j < |all|
        ensures !CrlfAt(all, j)
      {
        if j > 0 { assert !CrlfAt(rest, j - 1); }
      }
    }
  }

  lemma NoCrlfSnoc(text: bytes, b: byte)
    requires b != LF
    ensures NoCrlf(text + [b]) <==> NoCrlf(text)
  {
    var all := text + [b];
    assert forall j :: 0 <= j < |text| ==> (CrlfAt(text, j) <==> CrlfAt(all, j));
  }

  /** How many bytes at the front of b lossy decoding takes, and what it makes of them. */
  function Taken(b: bytes): (r: (nat, bytes))
    requires b != []
    ensures 0 < r.0 <= |b|
  {
    var n := Utf8Char(b);
    if n > 0 then (n, b[..n]) else (BrokenLength(b), REPLACEMENT)
  }

  lemma TakenHigh(b: bytes)
    requires b != [] && b[0] >= 0x80
    ensures forall i :: 0 <= i < Taken(b).0 ==> b[i] >= 0x80
  {
  }

  lemma TakenText(b: bytes)
    requires b != []
    ensures b[0] < 0x80 ==> Taken(b) == (1, [b[0]])
    ensures Taken(b).1 == b[..Taken(b).0] || Taken(b).1 == REPLACEMENT
    ensures Lossy(b) == Taken(b).1 + Lossy(b[Taken(b).0..])
  {
    assert b[..1] == [b[0]];
  }

  lemma TakenHasNoCr(b: bytes)
    requires b != [] && b[0] >= 0x80
    ensures CR !in b[..Taken(b).0] && CR !in Taken(b).1
    ensures Taken(b).1 != [] && Taken(b).1[0] >= 0x80
  {
    TakenHigh(b);
    TakenText(b);
    hide Taken, Lossy;
  }

  /** Lossy decoding neither makes nor removes a line break. */
  lemma {:induction false} LossyKeepsCrlf(b: bytes)
    ensures NoCrlf(Lossy(b)) <==> NoCrlf(b)
    ensures StartsWithLf(Lossy(b)) <==> StartsWithLf(b)
    decreases |b|
  {
    if b != [] {
      TakenText(b);
      if b[0] >= 0x80 { TakenHasNoCr(b); }
      hide NoCrlf, Taken, Lossy;
      var (n, text) := Taken(b);
      var rest := b[n..];
      assert b == b[..n] + rest;
      LossyKeepsCrlf(rest);
      if b[0] < 0x80 {
        assert b[..1] == [b[0]];
        NoCrlfCons(b[0], rest);
        NoCrlfCons(b[0], Lossy(rest));
      } else {
        NoCrlfBehind(b[..n], rest);
        NoCrlfBehind(text, Lossy(rest));
      }
    }
  }

  lemma UpperKeepsCrlf(b: bytes)
    ensures NoCrlf(Upper(b)) <==> NoCrlf(b)
  {
    assert forall j :: 0 <= j < |b| ==> (CrlfAt(Upper(b), j) <==> CrlfAt(b, j));
  }

  // ---- the texts of the server ------------------------------------------------------------------

  lemma OneLineIsFramed(text: bytes)
    requires OneLine(text)
    ensures ValidUtf8(text) && NoCrlf(text)
  {
    AsciiIsUtf8(text);
  }

  /** The name as it is matched and quoted. */
  function NameOf(args: seq<bytes>): bytes
    requires args != []
  {
    Upper(Lossy(args[0]))
  }

  lemma NameIsText(args: seq<bytes>)
    requires args != []
    ensures ValidUtf8(NameOf(args))
    ensures NoCrlf(NameOf(args)) <==> NoCrlf(args[0])
  {
    LossyIsUtf8(args[0]);
    LossyKeepsCrlf(args[0]);
    UpperIsUtf8(Lossy(args[0]));
    UpperKeepsCrlf(Lossy(args[0]));
  }

  lemma OneArgumentLines()
    ensures OneLine(Text("ECHO requires one argument")) && OneLine(Text("GET requires one argument"))
  {
    hide Text, OneLine;
    OneLineText("ECHO requires one argument");
    OneLineText("GET requires one argument");
  }

  lemma OneKeyLines()
    ensures OneLine(Text("INCR requires one argument")) && OneLine(Text("TTL requires one argument"))
  {
    hide Text, OneLine;
    OneLineText("INCR requires one argument");
    OneLineText("TTL requires one argument");
  }

  lemma AnyKeyLines()
    ensures OneLine(Text("DEL requires at least one key")) && OneLine(Text("EXISTS requires at least one key"))
  {
    hide Text, OneLine;
    OneLineText("DEL requires at least one key");
    OneLineText("EXISTS requires at least one key");
  }

  lemma SetLine()
    ensures OneLine(Text("SET requires key, value, and optional EX/PX"))
  {
    hide Text, OneLine;
    OneLineText("SET requires key, value, and optional EX/PX");
  }

  lemma SetExpiryLines()
    ensures OneLine(Text("invalid SET expiry amount")) && OneLine(Text("SET expiry unit must be EX or PX"))
  {
    hide Text, OneLine;
    OneLineText("invalid SET expiry amount");
    OneLineText("SET expiry unit must be EX or PX");
  }

  lemma SetRefusals(args: seq<bytes>, now: nat)
    requires args != [] && ParseSet(args, now).Invalid?
    ensures OneLine(ParseSet(args, now).message)
  {
    hide Text, OneLine, Upper, Lossy, ParseU64, SetDeadline;
    SetLine();
    SetExpiryLines();
  }

  lemma ExpireRefusals(args: seq<bytes>)
    requires args != [] && ParseExpire(args).Invalid?
    ensures OneLine(ParseExpire(args).message)
  {
    hide Text, OneLine, ParseU64;
    OneLineText("EXPIRE requires key and seconds");
    OneLineText("invalid expire seconds");
  }

  /** A request is refused with a fixed text, or its unknown name is quoted. */
  lemma RefusalTexts(args: seq<bytes>, now: nat)
    requires args != [] && ParseArgs(args, now).Invalid?
    ensures var message := ParseArgs(args, now).message;
            OneLine(message) || message == Text("unknown command '") + NameOf(args) + Text("'")
  {
    hide Text, OneLine, Upper, Lossy, ParseSet, ParseExpire;
    OneArgumentLines();
    OneKeyLines();
    AnyKeyLines();
    if ParseSet(args, now).Invalid? { SetRefusals(args, now); }
    if ParseExpire(args).Invalid? { ExpireRefusals(args); }
  }

  /** No command is spelled like this. */
  predicate NoCommand(b: bytes) {
    && !Spells(b, Text("PING")) && !Spells(b, Text("ECHO")) && !Spells(b, Text("GET")) && !Spells(b, Text("INCR"))
    && !Spells(b, Text("TTL")) && !Spells(b, Text("DEL")) && !Spells(b, Text("EXISTS")) && !Spells(b, Text("EXPIRE"))
    && !Spells(b, Text("SET")) && !Spells(b, Text("DBSIZE")) && !Spells(b, Text("SAVE")) && !Spells(b, Text("COMMAND"))
  }

  /** What is wrong with a SET request. */
  predicate SetComplaint(args: seq<bytes>, message: bytes) {
    || (|args| != 3 && |args| != 5 && message == Text("SET requires key, value, and optional EX/PX"))
    || (|args| == 5 && ParseU64(args[4]) == None && message == Text("invalid SET expiry amount"))
    || (|args| == 5 && ParseU64(args[4]) != None && !Spells(args[3], Text("EX")) && !Spells(args[3], Text("PX"))
        && message == Text("SET expiry unit must be EX or PX"))
  }

  predicate ExpireComplaint(args: seq<bytes>, message: bytes) {
    || (|args| != 3 && message == Text("EXPIRE requires key and seconds"))
    || (|args| == 3 && ParseU64(args[2]) == None && message == Text("invalid expire seconds"))
  }

  /** Every way to be refused, and what is said about it. */
  predicate Complains(args: seq<bytes>, message: bytes)
    requires args != []
  {
    || (Spells(args[0], Text("ECHO")) && |args| != 2 && message == Text("ECHO requires one argument"))
    || (Spells(args[0], Text("GET")) && |args| != 2 && message == Text("GET requires one argument"))
    || (Spells(args[0], Text("INCR")) && |args| != 2 && message == Text("INCR requires one argument"))
    || (Spells(args[0], Text("TTL")) && |args| != 2 && message == Text("TTL requires one argument"))
    || (Spells(args[0], Text("DEL")) && |args| < 2 && message == Text("DEL requires at least one key"))
    || (Spells(args[0], Text("EXISTS")) && |args| < 2 && message == Text("EXISTS requires at least one key"))
    || (Spells(args[0], Text("EXPIRE")) && ExpireComplaint(args, message))
    || (Spells(args[0], Text("SET")) && SetComplaint(args, message))
    || (NoCommand(args[0]) && message == Text("unknown command '") + NameOf(args) + Text("'"))
  }

  lemma DecodedName(b: bytes, s: string)
    ensures Upper(Lossy(b)) == Text(s) <==> Upper(b) == Text(s)
  {
    hide Upper, Lossy;
    assert Ascii(Text(s));
    LossyNames(b, Text(s));
  }

  /** Matching the decoded upper-case name is matching the name in any mix of cases. */
  lemma DecodedNames(b: bytes)
    ensures Upper(Lossy(b)) == Text("PING") <==> Spells(b, Text("PING"))
    ensures Upper(Lossy(b)) == Text("ECHO") <==> Spells(b, Text("ECHO"))
    ensures Upper(Lossy(b)) == Text("GET") <==> Spells(b, Text("GET"))
    ensures Upper(Lossy(b)) == Text("INCR") <==> Spells(b, Text("INCR"))
    ensures Upper(Lossy(b)) == Text("TTL") <==> Spells(b, Text("TTL"))
    ensures Upper(Lossy(b)) == Text("DEL") <==> Spells(b, Text("DEL"))
    ensures Upper(Lossy(b)) == Text("EXISTS") <==> Spells(b, Text("EXISTS"))
    ensures Upper(Lossy(b)) == Text("EXPIRE") <==> Spells(b, Text("EXPIRE"))
    ensures Upper(Lossy(b)) == Text("SET") <==> Spells(b, Text("SET"))
    ensures Upper(Lossy(b)) == Text("DBSIZE") <==> Spells(b, Text("DBSIZE"))
    ensures Upper(Lossy(b)) == Text("SAVE") <==> Spells(b, Text("SAVE"))
    ensures Upper(Lossy(b)) == Text("COMMAND") <==> Spells(b, Text("COMMAND"))
  {
    hide Upper, Lossy, Text, Spells;
    UpperNames(b);
    DecodedName(b, "PING");
    DecodedName(b, "ECHO");
    DecodedName(b, "GET");
    DecodedName(b, "INCR");
    DecodedName(b, "TTL");
    DecodedName(b, "DEL");
    DecodedName(b, "EXISTS");
    DecodedName(b, "EXPIRE");
    DecodedName(b, "SET");
    DecodedName(b, "DBSIZE");
    DecodedName(b, "SAVE");
    DecodedName(b, "COMMAND");
  }

  lemma SetRefusedIff(args: seq<bytes>, now: nat, message: bytes)
    requires args != []
    ensures ParseSet(args, now) == Invalid(message) <==> SetComplaint(args, message)
  {
    if |args| == 5 {
      UnitNames(args[3]);
    }
    hide Text, Upper, Lossy, Spells, ParseU64, Deadline;
  }

  lemma ExpireRefusedIff(args: seq<bytes>, message: bytes)
    requires args != []
    ensures ParseExpire(args) == Invalid(message) <==> ExpireComplaint(args, message)
  {
    hide Text, ParseU64;
  }

  /** A request is refused with this message exactly when it has that fault. */
  lemma RefusedIff(args: seq<bytes>, now: nat, message: bytes)
    requires args != []
    ensures ParseArgs(args, now) == Invalid(message) <==> Complains(args, message)
  {
    NameBytes();
    hide Text, Upper, Lossy, Spells, ParseSet, ParseExpire, SetComplaint, ExpireComplaint;
    DecodedNames(args[0]);
    SetRefusedIff(args, now, message);
    ExpireRefusedIff(args, message);
  }

  /** What is wrong with a frame that is no request for a command. */
  ghost predicate FrameComplaint(v: Resp, message: bytes) {
    || (!v.Array? && message == Text("expected an array of bulk strings"))
    || (v.Array? && (exists item :: item in v.items && !item.Bulk?) && message == Text("command arguments must be bulk strings"))
    || (v == Array([]) && message == Text("empty command"))
    || (exists args :: args != [] && v == BulkArray(args) && Complains(args, message))
  }

  lemma NotBulkArray(v: Resp)
    requires ArgsOf(v).None?
    ensures forall args :: args != [] ==> v != BulkArray(args)
    ensures v.Array? ==> (AllBulk(v.items) <==> !exists item :: item in v.items && !item.Bulk?)
  {
    forall args: seq<bytes> | args != []
      ensures v != BulkArray(args)
    {
      ArgsOfBulkArray(args);
    }
    if v.Array? && !AllBulk(v.items) {
      var i :| 0 <= i < |v.items| && !v.items[i].Bulk?;
      assert v.items[i] in v.items;
    }
  }

  /** Every frame that is refused, and why. */
  lemma FrameRefusedIff(v: Resp, now: nat, message: bytes)
    ensures ParseCommand(v, now) == Invalid(message) <==> FrameComplaint(v, message)
  {
    hide ParseArgs, Complains, Text, BulkArray;
    match ArgsOf(v)
    case None => NotBulkArray(v);
    case Some(args) =>
      ArgsAreBulkArray(v);
      RefusedIff(args, now, message);
      forall other | other != [] && v == BulkArray(other)
        ensures other == args
      {
        ArgsOfBulkArray(other);
      }
  }

  /** A name with a line break names no command. */
  lemma CrlfIsUnknown(args: seq<bytes>, now: nat)
    requires args != [] && !NoCrlf(NameOf(args))
    ensures ParseArgs(args, now) == Invalid(Text("unknown command '") + NameOf(args) + Text("'"))
  {
    hide NoCrlf, OneLine, Text, ParseNamed, Upper, Lossy;
    if OneLine(NameOf(args)) { OneLineIsFramed(NameOf(args)); }
    UnknownName(NameOf(args), args, now);
  }

  /** The reply to a refused request. */
  function Refusal(message: bytes): bytes {
    Text("ERR protocol error: ") + message
  }

  lemma RefusalFramed(message: bytes)
    requires ValidUtf8(message)
    ensures ValidUtf8(Refusal(message))
    ensures NoCrlf(Refusal(message)) <==> NoCrlf(message)
  {
    OneLineText("ERR protocol error: ");
    var front := Text("ERR protocol error: ");
    hide Text;
    OneLineIsFramed(front);
    ValidConcat(front, message);
    NoCrlfBehind(front, message);
  }

  lemma QuotedFramed(name: bytes)
    requires ValidUtf8(name)
    ensures var quoted := Text("unknown command '") + name + Text("'");
            ValidUtf8(quoted) && (NoCrlf(quoted) <==> NoCrlf(name))
  {
    OneLineText("unknown command '");
    var front := Text("unknown command '");
    assert Text("'") == [39];
    hide Text;
    OneLineIsFramed(front);
    ValidConcat(front, name);
    ValidConcat(front + name, [39]);
    NoCrlfBehind(front, name);
    NoCrlfSnoc(front + name, 39);
  }

  /** The request is a bulk array whose first element holds a line break. */
  predicate NameHoldsCrlf(v: Resp) {
    ArgsOf(v).Some? && !NoCrlf(ArgsOf(v).value[0])
  }

  lemma RefusalWellFormedIff(v: Resp, now: nat)
    requires ParseCommand(v, now).Invalid?
    ensures WellFormed(Error(Refusal(ParseCommand(v, now).message))) <==> !NameHoldsCrlf(v)
  {
    hide Text, Refusal, ParseArgs;
    match ArgsOf(v)
    case None =>
      var message := ArgsError(v);
      OneLineText("expected an array of bulk strings");
      OneLineText("command arguments must be bulk strings");
      OneLineText("empty command");
      OneLineIsFramed(message);
      RefusalFramed(message);
    case Some(args) =>
      NameIsText(args);
      QuotedFramed(NameOf(args));
      RefusalTexts(args, now);
      if !NoCrlf(NameOf(args)) { CrlfIsUnknown(args, now); }
      var message := ParseArgs(args, now).message;
      if OneLine(message) { OneLineIsFramed(message); }
      RefusalFramed(message);
  }

  // ---- the replies of commands ----------------------------------------------------------------------

  /** Stored values and deadlines fit their integer types. */
  predicate KeysFit(m: Keys) {
    forall k :: k in m ==> |m[k].value| <= I64_MAX && (m[k].expiresAt.Some? ==> m[k].expiresAt.value < U64_LIMIT)
  }

  /** Part of the entries, unchanged. */
  predicate Within(a: Keys, m: Keys) {
    forall k :: k in a ==> k in m && a[k] == m[k]
  }

  lemma SubsetSize<T>(a: set<T>, b: set<T>)
    requires a <= b
    ensures |a| <= |b|
  {
    assert b == a + (b - a);
  }

  lemma WithinSize(a: Keys, m: Keys)
    requires Within(a, m)
    ensures |a| <= |m| && (KeysFit(m) ==> KeysFit(a))
  {
    SubsetSize(a.Keys, m.Keys);
  }

  lemma LiveWithin(m: Keys, now: nat)
    ensures Within(Live(m, now), m)
  {
  }

  lemma {:induction false} DelAllWithin(m: Keys, keys: seq<bytes>, now: nat)
    ensures Within(DelAll(m, keys, now).0, m)
    decreases |keys|
  {
    if keys != [] { DelAllWithin(DelOp(m, keys[0], now).0, keys[1..], now); }
  }

  lemma {:induction false} ExistsAllWithin(m: Keys, keys: seq<bytes>, now: nat)
    ensures Within(ExistsAll(m, keys, now).0, m) && ExistsAll(m, keys, now).1 <= |keys|
    decreases |keys|
  {
    if keys != [] { ExistsAllWithin(GetOp(m, keys[0], now).0, keys[1..], now); }
  }

  /** What a command holds fits: it was parsed from a frame. */
  predicate CommandFits(c: Command) {
    match c
    case Ping(message) => message.Some? ==> |message.value| <= I64_MAX
    case Echo(text) => |text| <= I64_MAX
    case Set(_, value, expireAt) => |value| <= I64_MAX && (expireAt.Some? ==> expireAt.value < U64_LIMIT)
    case Exists(keys) => |keys| <= I64_MAX
    case _ => true
  }

  predicate ArgsFit(args: seq<bytes>) {
    |args| <= I64_MAX && forall i :: 0 <= i < |args| ==> |args[i]| <= I64_MAX
  }

  lemma ParsedSetFits(args: seq<bytes>, now: nat)
    requires args != [] && ArgsFit(args) && ParseSet(args, now).Valid?
    ensures CommandFits(ParseSet(args, now).c)
  {
    hide Text, Upper, Lossy, ParseU64;
  }

  lemma ParsedArgsFit(args: seq<bytes>, now: nat)
    requires args != [] && ArgsFit(args) && ParseArgs(args, now).Valid?
    ensures CommandFits(ParseArgs(args, now).c)
  {
    hide Text, Upper, Lossy, ParseSet, ParseU64;
    if ParseSet(args, now).Valid? { ParsedSetFits(args, now); }
  }

  lemma ParsedFits(v: Resp, now: nat)
    requires WellFormed(v) && ParseCommand(v, now).Valid?
    ensures CommandFits(ParseCommand(v, now).c)
  {
    hide ParseArgs;
    var args := ArgsOf(v).value;
    forall i | 0 <= i < |args|
      ensures |args[i]| <= I64_MAX
    {
      assert WellFormed(v.items[i]);
    }
    ParsedArgsFit(args, now);
  }

  lemma StoreFits(m: Keys, key: bytes, e: Entry)
    requires KeysFit(m) && |e.value| <= I64_MAX && (e.expiresAt.Some? ==> e.expiresAt.value < U64_LIMIT)
    ensures KeysFit(m[key := e]) && |m[key := e]| <= |m| + 1
  {
    SubsetSize(m[key := e].Keys, m.Keys + {key});
  }

  lemma {:induction false} DigitsLength(n: nat, limit: nat, width: nat)
    requires n < limit && limit == Pow10(width) && width > 0
    ensures |Digits(n)| <= width
    decreases width
  {
    if n >= 10 { DigitsLength(n / 10, Pow10(width - 1), width - 1); }
  }

  lemma NumeralFits(i: int)
    requires I64_MIN <= i <= I64_MAX
    ensures |Numeral(i)| <= I64_MAX
  {
    var n: nat := if i < 0 then -i else i;
    assert Pow10(20) == 1_0000_0000_0000_0000_0000 by { PowTwenty(); }
    DigitsLength(n, Pow10(20), 20);
  }

  lemma PowTwenty()
    ensures Pow10(20) == 1_0000_0000_0000_0000_0000
  {
    assert Pow10(5) == 10_0000;
    assert Pow10(10) == 10_0000 * Pow10(5);
    assert Pow10(15) == 10_0000 * Pow10(10);
    assert Pow10(20) == 10_0000 * Pow10(15);
  }

  lemma TextFramed(s: string)
    requires '\r' !in s
    ensures WellFormed(Simple(Text(s))) && WellFormed(Error(Text(s)))
  {
    OneLineText(s);
    hide Text, OneLine;
    OneLineIsFramed(Text(s));
  }

  lemma FixedTexts()
    ensures WellFormed(Ok()) && WellFormed(Simple(Text("PONG")))
  {
    hide Text, WellFormed;
    TextFramed("OK");
    TextFramed("PONG");
  }

  lemma FixedErrors()
    ensures WellFormed(NotAnInteger()) && WellFormed(NotConfigured())
  {
    hide Text, WellFormed;
    TextFramed("ERR value is not an integer or out of range");
    TextFramed("ERR persistence is not configured");
  }

  /** The outcome of a command on m: a reply that can be framed, and a store whose contents fit. */
  predicate Fits(m: Keys, outcome: (Keys, Resp)) {
    WellFormed(outcome.1) && KeysFit(outcome.0) && |outcome.0| <= |m| + 1
  }

  lemma DelFits(m: Keys, configured: bool, keys: seq<bytes>, now: nat)
    requires KeysFit(m) && |m| <= I64_MAX
    ensures Fits(m, Execute(m, configured, Del(keys), now))
  {
    hide KeysFit, DelAll, Live, Without;
    DelAllCounts(m, keys, now);
    DelAllWithin(m, keys, now);
    WithinSize(DelAll(m, keys, now).0, m);
    LiveWithin(m, now);
    WithinSize(Live(m, now), m);
  }

  lemma ExistsFits(m: Keys, configured: bool, keys: seq<bytes>, now: nat)
    requires KeysFit(m) && |m| <= I64_MAX && |keys| <= I64_MAX
    ensures Fits(m, Execute(m, configured, Exists(keys), now))
  {
    hide KeysFit, ExistsAll;
    ExistsAllWithin(m, keys, now);
    WithinSize(ExistsAll(m, keys, now).0, m);
  }

  lemma DbSizeFits(m: Keys, configured: bool, now: nat)
    requires KeysFit(m) && |m| <= I64_MAX
    ensures Fits(m, Execute(m, configured, DbSize, now))
  {
    hide KeysFit, Live;
    LiveWithin(m, now);
    WithinSize(Live(m, now), m);
  }

  lemma GetFits(m: Keys, configured: bool, key: bytes, now: nat)
    requires KeysFit(m)
    ensures Fits(m, Execute(m, configured, Get(key), now))
  {
    WithinSize(GetOp(m, key, now).0, m);
  }

  lemma SetFits(m: Keys, configured: bool, key: bytes, value: bytes, expireAt: Option<nat>, now: nat)
    requires KeysFit(m) && |value| <= I64_MAX && (expireAt.Some? ==> expireAt.value < U64_LIMIT)
    ensures Fits(m, Execute(m, configured, Set(key, value, expireAt), now))
  {
    FixedTexts();
    hide Ok;
    StoreFits(m, key, Entry(value, expireAt));
  }

  lemma IncrFits(m: Keys, configured: bool, key: bytes, now: nat)
    requires KeysFit(m)
    ensures Fits(m, Execute(m, configured, Incr(key), now))
  {
    FixedErrors();
    hide ParseI64, Numeral, WrapI64, NotAnInteger, NotConfigured, Ok;
    var (m1, next) := IncrOp(m, key, now);
    if next.Some? {
      NumeralFits(next.value);
      var ttl := if key in m && !Expired(m[key], now) then m[key].expiresAt else None;
      assert ttl.Some? ==> ttl.value < U64_LIMIT;
      StoreFits(m, key, Entry(Numeral(next.value), ttl));
    }
  }

  lemma ExpireFits(m: Keys, configured: bool, key: bytes, seconds: nat, now: nat)
    requires KeysFit(m)
    ensures Fits(m, Execute(m, configured, Expire(key, seconds), now))
  {
    if key in m && !Expired(m[key], now) {
      StoreFits(m, key, m[key].(expiresAt := Some(Deadline(now, seconds))));
    }
  }

  lemma TtlFits(m: Keys, configured: bool, key: bytes, now: nat)
    requires KeysFit(m)
    ensures Fits(m, Execute(m, configured, Ttl(key), now))
  {
  }

  lemma PingFits(m: Keys, configured: bool, message: Option<bytes>, now: nat)
    requires KeysFit(m) && (message.Some? ==> |message.value| <= I64_MAX)
    ensures Fits(m, Execute(m, configured, Ping(message), now))
  {
    FixedTexts();
    hide KeysFit, Text, Ok;
  }

  lemma SaveFits(m: Keys, configured: bool, now: nat)
    requires KeysFit(m)
    ensures Fits(m, Execute(m, configured, Save, now))
  {
    FixedTexts();
    FixedErrors();
    hide KeysFit, Ok, NotAnInteger, NotConfigured, Text;
  }

  lemma EchoFits(m: Keys, configured: bool, text: bytes, now: nat)
    requires KeysFit(m) && |text| <= I64_MAX
    ensures Fits(m, Execute(m, configured, Echo(text), now)) && Fits(m, Execute(m, configured, CommandDocs, now))
  {
    hide KeysFit;
  }

  /** Every command gives a reply that can be framed, and leaves a store whose contents fit. */
  lemma ExecuteFits(m: Keys, configured: bool, c: Command, now: nat)
    requires KeysFit(m) && |m| <= I64_MAX && CommandFits(c)
    ensures Fits(m, Execute(m, configured, c, now))
  {
    hide KeysFit, Fits, Execute;
    match c
    case Get(key) => GetFits(m, configured, key, now);
    case Set(key, value, expireAt) => SetFits(m, configured, key, value, expireAt, now);
    case Del(keys) => DelFits(m, configured, keys, now);
    case Exists(keys) => ExistsFits(m, configured, keys, now);
    case Incr(key) => IncrFits(m, configured, key, now);
    case Expire(key, seconds) => ExpireFits(m, configured, key, seconds, now);
    case Ttl(key) => TtlFits(m, configured, key, now);
    case DbSize => DbSizeFits(m, configured, now);
    case Ping(message) => PingFits(m, configured, message, now);
    case Echo(text) => EchoFits(m, configured, text, now);
    case Save => SaveFits(m, configured, now);
    case CommandDocs => EchoFits(m, configured, [], now);
  }

  // ---- the stream of replies -------------------------------------------------------------------------

  /** One request: its reply can be framed exactly when its name holds no line break. */
  lemma ReplyWellFormedIff(keys: Keys, configured: bool, v: Resp, now: nat)
    requires KeysFit(keys) && |keys| <= I64_MAX && WellFormed(v)
    ensures var (keys1, reply) := Respond(keys, configured, v, now);
            && (WellFormed(reply) <==> !NameHoldsCrlf(v))
            && KeysFit(keys1) && |keys1| <= |keys| + 1
  {
    hide KeysFit, Execute, NameHoldsCrlf, ParseCommand, Text;
    match ParseCommand(v, now)
    case Valid(c) =>
      ParsedFits(v, now);
      ExecuteFits(keys, configured, c, now);
      UnderstoodName(v, now);
    case Invalid(message) => RefusalWellFormedIff(v, now);
  }

  lemma UnderstoodName(v: Resp, now: nat)
    requires ParseCommand(v, now).Valid?
    ensures !NameHoldsCrlf(v)
  {
    hide ParseArgs, NoCrlf;
    var args := ArgsOf(v).value;
    NameIsText(args);
    if !NoCrlf(NameOf(args)) { CrlfIsUnknown(args, now); }
  }

  lemma {:induction false} RepliesWellFormedIff(keys: Keys, configured: bool, clock: Clock, served: nat, requests: seq<Resp>)
    requires KeysFit(keys) && |keys| + |requests| <= I64_MAX
    requires forall k :: 0 <= k < |requests| ==> WellFormed(requests[k])
    ensures var replies := AnswerAll(keys, configured, clock, served, requests).1;
            && |replies| == |requests|
            && forall k :: 0 <= k < |requests| ==> (WellFormed(replies[k]) <==> !NameHoldsCrlf(requests[k]))
    decreases |requests|
  {
    hide KeysFit, Respond, NameHoldsCrlf, WellFormed;
    if requests != [] {
      var first, others := requests[0], requests[1..];
      var (keys1, reply) := Respond(keys, configured, first, clock(served));
      var rest := AnswerAll(keys1, configured, clock, served + 1, others).1;
      assert AnswerAll(keys, configured, clock, served, requests).1 == [reply] + rest;
      hide AnswerAll;
      ReplyWellFormedIff(keys, configured, first, clock(served));
      RepliesWellFormedIff(keys1, configured, clock, served + 1, others);
      assert forall k :: 0 < k < |requests| ==> requests[k] == others[k - 1] && ([reply] + rest)[k] == rest[k - 1];
    }
  }

  /**
   The client reads back every reply as it was sent, in order and whatever follows, exactly
   when no request's command name holds a line break.
   */
  lemma RepliesReadBackIff(keys: Keys, configured: bool, clock: Clock, served: nat, requests: seq<Resp>, tail: bytes)
    requires KeysFit(keys) && |keys| + |requests| <= I64_MAX
    requires forall k :: 0 <= k < |requests| ==> WellFormed(requests[k])
    ensures var replies := AnswerAll(keys, configured, clock, served, requests).1;
            ParseItems(EncodeAll(replies) + tail, |requests|) == Done(replies, |EncodeAll(replies)|)
            <==> forall k :: 0 <= k < |requests| ==> !NameHoldsCrlf(requests[k])
  {
    hide KeysFit, AnswerAll, NameHoldsCrlf, WellFormed, ParseItems, EncodeAll;
    var replies := AnswerAll(keys, configured, clock, served, requests).1;
    RepliesWellFormedIff(keys, configured, clock, served, requests);
    RoundTripIff(replies, tail);
  }
}
