/**
 The wire protocol of 07-systems-programming/src/resp.rs: prefix-tagged, CRLF-framed,
 recursive values, parsed incrementally from the front of a buffer.
 */
module RespProtocol {
  import opened Bytes
  import opened Numerals
  import opened Utf8

  datatype Resp =
    | Simple(text: bytes)
    | Error(text: bytes)
    | Integer(i: int)
    | Bulk(body: bytes)
    | Null
    | Array(items: seq<Resp>)

  /** NeedMore is Ok(None); Bad is a protocol error; Panicked is the slice [1..0] of a frame that starts with CRLF. */
  datatype Parsed<+T> = Done(value: T, used: nat) | NeedMore | Bad | Panicked

  const CR: byte := 13
  const LF: byte := 10
  const CRLF: bytes := [13, 10]

  const TAG_SIMPLE: byte := 43
  const TAG_ERROR: byte := 45
  const TAG_INTEGER: byte := 58
  const TAG_BULK: byte := 36
  const TAG_ARRAY: byte := 42

  // ---- encoding ------------------------------------------------------------------------

  function Line(tag: byte, text: bytes): bytes {
    [tag] + text + CRLF
  }

  function Encode(v: Resp): bytes {
    match v
    case Simple(text) => Line(TAG_SIMPLE, text)
    case Error(text) => Line(TAG_ERROR, text)
    case Integer(i) => Line(TAG_INTEGER, Numeral(i))
    case Bulk(body) => Line(TAG_BULK, Numeral(|body|)) + body + CRLF
    case Null => Line(TAG_BULK, [45, 49])
    case Array(items) => Line(TAG_ARRAY, Numeral(|items|)) + EncodeAll(items)
  }

  function EncodeAll(vs: seq<Resp>): bytes {
    if vs == [] then [] else Encode(vs[0]) + EncodeAll(vs[1..])
  }

  // ---- parsing -------------------------------------------------------------------------

  predicate CrlfAt(buf: bytes, i: nat) {
    i + 1 < |buf| && buf[i] == CR && buf[i + 1] == LF
  }

  /** Position of the first CRLF at or after i. */
  function FindCrlf(buf: bytes, i: nat): (r: Option<nat>)
    requires i <= |buf|
    ensures r.Some? ==> i <= r.value && CrlfAt(buf, r.value) && forall j :: i <= j < r.value ==> !CrlfAt(buf, j)
    ensures r.None? ==> forall j :: i <= j ==> !CrlfAt(buf, j)
    decreases |buf| - i
  {
    if i == |buf| then None
    else if CrlfAt(buf, i) then Some(i)
    else FindCrlf(buf, i + 1)
  }

  function Parse(buf: bytes): (r: Parsed<Resp>)
    ensures r.Done? ==> 0 < r.used <= |buf|
    decreases |buf|, 0
  {
    if buf == [] then NeedMore else
    match FindCrlf(buf, 0)
    case None => NeedMore
    case Some(end) => if end == 0 then Panicked else ParseFrame(buf, end)
  }

  /** The frame whose first line ends at position end. */
  function ParseFrame(buf: bytes, end: nat): (r: Parsed<Resp>)
    requires 0 < end && CrlfAt(buf, end)
    ensures r.Done? ==> 0 < r.used <= |buf|
    decreases |buf|, 0, 0
  {
    var line, after := buf[1..end], end + 2;
    if buf[0] == TAG_SIMPLE then (if ValidUtf8(line) then Done(Simple(line), after) else Bad)
    else if buf[0] == TAG_ERROR then (if ValidUtf8(line) then Done(Error(line), after) else Bad)
    else if buf[0] == TAG_INTEGER then
      match ParseI64(line)
      case Some(n) => Done(Integer(n), after)
      case None => Bad
    else if buf[0] == TAG_BULK then
      match ParseI64(line)
      case None => Bad
      case Some(n) =>
        if n < 0 then Done(Null, after)
        else if |buf| < after + n + 2 then NeedMore
        else Done(Bulk(buf[after..after + n]), after + n + 2)
    else if buf[0] == TAG_ARRAY then
      match ParseI64(line)
      case None => Bad
      case Some(count) =>
        if count < 0 then Done(Null, after)
        else match ParseItems(buf[after..], count)
          case Done(items, used) => Done(Array(items), after + used)
          case NeedMore => NeedMore
          case Bad => Bad
          case Panicked => Panicked
    else Bad
  }

  /** count values back to back. */
  function ParseItems(buf: bytes, count: nat): (r: Parsed<seq<Resp>>)
    ensures r.Done? ==> r.used <= |buf|
    decreases |buf|, 1, count
  {
    if count == 0 then Done([], 0) else
    match Parse(buf)
    case Done(v, used) => Prefixed([v], used, ParseItems(buf[used..], count - 1))
    case NeedMore => NeedMore
    case Bad => Bad
    case Panicked => Panicked
  }

  /** The values and bytes already read in front of the outcome of the rest. */
  function Prefixed(items: seq<Resp>, used: nat, rest: Parsed<seq<Resp>>): Parsed<seq<Resp>> {
    match rest
    case Done(more, n) => Done(items + more, used + n)
    case other => other
  }

  lemma PrefixedNil(rest: Parsed<seq<Resp>>)
    ensures Prefixed([], 0, rest) == rest
  {
    if rest.Done? { assert [] + rest.value == rest.value; }
  }

  lemma PrefixedSnoc(items: seq<Resp>, used: nat, v: Resp, n: nat, rest: Parsed<seq<Resp>>)
    ensures Prefixed(items, used, Prefixed([v], n, rest)) == Prefixed(items + [v], used + n, rest)
  {
    if rest.Done? { assert items + ([v] + rest.value) == items + [v] + rest.value; }
  }

  // ---- the code ------------------------------------------------------------------------

  /** Resp::encode appends to the caller's buffer. */
  method EncodeInto(v: Resp, buf: bytes) returns (out: bytes)
    ensures out == buf + Encode(v)
  {
    hide Numeral;
    match v {
      case Simple(text) =>
        out := buf + [TAG_SIMPLE] + text + CRLF;
        assert out == buf + Line(TAG_SIMPLE, text);
      case Error(text) =>
        out := buf + [TAG_ERROR] + text + CRLF;
        assert out == buf + Line(TAG_ERROR, text);
      case Integer(i) =>
        out := buf + [TAG_INTEGER] + Numeral(i) + CRLF;
        assert out == buf + Line(TAG_INTEGER, Numeral(i));
      case Bulk(body) =>
        out := buf + [TAG_BULK] + Numeral(|body|) + CRLF + body + CRLF;
        assert out == buf + (Line(TAG_BULK, Numeral(|body|)) + body + CRLF);
      case Null =>
        out := buf + [36, 45, 49, 13, 10];
        assert out == buf + Line(TAG_BULK, [45, 49]);
      case Array(items) =>
        out := buf + [TAG_ARRAY] + Numeral(|items|) + CRLF;
        assert out == buf + Line(TAG_ARRAY, Numeral(|items|));
        out := EncodeItems(items, out);
        assert out == buf + (Line(TAG_ARRAY, Numeral(|items|)) + EncodeAll(items));
    }
  }

  method EncodeItems(items: seq<Resp>, buf: bytes) returns (out: bytes)
    ensures out == buf + EncodeAll(items)
    decreases items, 1
  {
    hide Encode;
    out := buf;
    assert items[0..] == items;
    for k := 0 to |items|
      invariant out + EncodeAll(items[k..]) == buf + EncodeAll(items)
    {
      assert items[k..][1..] == items[k + 1..];
      out := EncodeInto(items[k], out);
    }
  }

  /** Resp::parse, with its loop over array items. */
  method ParseBuffer(buf: bytes) returns (r: Parsed<Resp>)
    ensures r == Parse(buf)
    decreases |buf|
  {
    hide ParseI64, ValidUtf8, FindCrlf;
    if buf == [] { return NeedMore; }
    var lineEnd := FindCrlf(buf, 0);
    if lineEnd.None? { return NeedMore; }
    if lineEnd.value == 0 { return Panicked; }
    if buf[0] != TAG_ARRAY { return ParseFrame(buf, lineEnd.value); }
    var line, after := buf[1..lineEnd.value], lineEnd.value + 2;
    var count := ParseI64(line);
    if count.None? { return Bad; }
    if count.value < 0 { return Done(Null, after); }
    var items := ParseArray(buf, after, count.value);
    match items {
      case Done(vs, used) => return Done(Array(vs), after + used);
      case NeedMore => return NeedMore;
      case Bad => return Bad;
      case Panicked => return Panicked;
    }
  }

  method ParseArray(buf: bytes, after: nat, count: nat) returns (r: Parsed<seq<Resp>>)
    requires 0 < after <= |buf|
    ensures r == ParseItems(buf[after..], count)
    decreases |buf|, 0
  {
    hide Parse;
    var consumed := after;
    var items: seq<Resp> := [];
    PrefixedNil(ParseItems(buf[after..], count));
    for k := 0 to count
      invariant after <= consumed <= |buf|
      invariant ParseItems(buf[after..], count) == Prefixed(items, consumed - after, ParseItems(buf[consumed..], count - k))
    {
      var next := ParseBuffer(buf[consumed..]);
      match next {
        case Done(v, used) =>
          PrefixedSnoc(items, consumed - after, v, used, ParseItems(buf[consumed + used..], count - k - 1));
          items := items + [v];
          SliceOfSlice(buf, consumed, 0, used);
          consumed := consumed + used;
        case NeedMore => return NeedMore;
        case Bad => return Bad;
        case Panicked => return Panicked;
      }
    }
    assert items + [] == items;
    return Done(items, consumed - after);
  }

  // ---- incremental parsing is stable --------------------------------------------------------

  lemma FindCrlfExtended(buf: bytes, more: bytes)
    requires FindCrlf(buf, 0).Some?
    ensures FindCrlf(buf + more, 0) == FindCrlf(buf, 0)
  {
    var e := FindCrlf(buf, 0).value;
    assert CrlfAt(buf + more, e);
    assert forall j :: 0 <= j < e ==> (CrlfAt(buf + more, j) <==> CrlfAt(buf, j));
  }

  /** Once a buffer gives a value, an error or a panic, appending bytes never changes that. */
  lemma {:induction false} ParseStable(buf: bytes, more: bytes)
    requires !Parse(buf).NeedMore?
    ensures Parse(buf + more) == Parse(buf)
    decreases |buf|, 0
  {
    hide FindCrlf, ParseFrame;
    FindCrlfExtended(buf, more);
    if FindCrlf(buf, 0).value > 0 {
      ParseFrameStable(buf, FindCrlf(buf, 0).value, more);
    }
  }

  lemma {:induction false} ParseFrameStable(buf: bytes, end: nat, more: bytes)
    requires 0 < end && CrlfAt(buf, end) && !ParseFrame(buf, end).NeedMore?
    ensures ParseFrame(buf + more, end) == ParseFrame(buf, end)
    decreases |buf|, 0, 0
  {
    hide ParseI64, ValidUtf8, ParseItems;
    var all, after := buf + more, end + 2;
    assert all[1..end] == buf[1..end] && all[0] == buf[0];
    if buf[0] == TAG_BULK && ParseI64(buf[1..end]).Some? && ParseI64(buf[1..end]).value >= 0 {
      var n := ParseI64(buf[1..end]).value;
      assert all[after..after + n] == buf[after..after + n];
    }
    if buf[0] == TAG_ARRAY && ParseI64(buf[1..end]).Some? && ParseI64(buf[1..end]).value >= 0 {
      assert all[after..] == buf[after..] + more;
      ParseItemsStable(buf[after..], ParseI64(buf[1..end]).value, more);
    }
  }

  lemma ParseItemsStep(buf: bytes, count: nat, v: Resp, used: nat)
    requires count > 0 && Parse(buf) == Done(v, used)
    ensures used <= |buf| && ParseItems(buf, count) == Prefixed([v], used, ParseItems(buf[used..], count - 1))
    ensures ParseItems(buf, count).NeedMore? <==> ParseItems(buf[used..], count - 1).NeedMore?
  {
    hide Parse;
  }

  lemma ParseItemsStop(buf: bytes, count: nat)
    requires count > 0 && !Parse(buf).Done?
    ensures Parse(buf) == NeedMore ==> ParseItems(buf, count) == NeedMore
    ensures Parse(buf) == Bad ==> ParseItems(buf, count) == Bad
    ensures Parse(buf) == Panicked ==> ParseItems(buf, count) == Panicked
  {
    hide Parse;
  }

  lemma ParseNoItems(buf: bytes)
    ensures ParseItems(buf, 0) == Done([], 0)
  {
  }

  lemma {:induction false} ParseItemsStable(buf: bytes, count: nat, more: bytes)
    requires !ParseItems(buf, count).NeedMore?
    ensures ParseItems(buf + more, count) == ParseItems(buf, count)
    decreases |buf|, 1, count
  {
    hide Parse, ParseItems, Prefixed;
    if count == 0 {
      ParseNoItems(buf);
      ParseNoItems(buf + more);
    } else if Parse(buf).Done? {
      var Done(v, used) := Parse(buf);
      ParseItemsStep(buf, count, v, used);
      ParseStable(buf, more);
      ParseItemsStep(buf + more, count, v, used);
      assert (buf + more)[used..] == buf[used..] + more;
      ParseItemsStable(buf[used..], count - 1, more);
    } else {
      ParseItemsStop(buf, count);
      ParseStable(buf, more);
      ParseItemsStop(buf + more, count);
    }
  }

  // ---- parsing undoes encoding -----------------------------------------------------------------

  predicate NoCrlf(text: bytes) {
    forall j :: 0 <= j < |text| ==> !CrlfAt(text, j)
  }

  /** Values the encoder can frame: valid text without CRLF, integers and lengths in i64. */
  predicate WellFormed(v: Resp) {
    match v
    case Simple(text) => ValidUtf8(text) && NoCrlf(text)
    case Error(text) => ValidUtf8(text) && NoCrlf(text)
    case Integer(i) => I64_MIN <= i <= I64_MAX
    case Bulk(body) => |body| <= I64_MAX
    case Null => true
    case Array(items) => |items| <= I64_MAX && forall k :: 0 <= k < |items| ==> WellFormed(items[k])
  }

  /** The first CRLF of a framed line is its terminator. */
  lemma LineEnds(tag: byte, text: bytes, tail: bytes)
    requires tag != CR && NoCrlf(text)
    ensures var buf := Line(tag, text) + tail;
            && FindCrlf(buf, 0) == Some(1 + |text|)
            && buf[1..1 + |text|] == text && buf[0] == tag && buf[|text| + 3..] == tail
  {
    var buf := Line(tag, text) + tail;
    assert CrlfAt(buf, 1 + |text|);
    forall j | 0 <= j < 1 + |text|
      ensures !CrlfAt(buf, j)
    {
      if 1 <= j < |text| { assert !CrlfAt(text, j - 1); }
    }
  }

  lemma NumeralHasNoCrlf(i: int)
    ensures NoCrlf(Numeral(i))
  {
    NumeralBytes(i);
  }

  /** parse(encode(v) ++ anything) is v, using exactly encode(v). */
  lemma {:induction false} ParseEncoded(v: Resp, tail: bytes)
    requires WellFormed(v)
    ensures Parse(Encode(v) + tail) == Done(v, |Encode(v)|)
    decreases v, 0
  {
    hide FindCrlf, ParseI64, Numeral, ParseItems, ValidUtf8;
    match v
    case Simple(text) => LineEnds(TAG_SIMPLE, text, tail);
    case Error(text) => LineEnds(TAG_ERROR, text, tail);
    case Integer(i) =>
      NumeralHasNoCrlf(i);
      NumeralRoundTrip(i);
      LineEnds(TAG_INTEGER, Numeral(i), tail);
    case Bulk(body) => ParseEncodedBulk(body, tail);
    case Null => ParseEncodedNull(tail);
    case Array(items) =>
      ParseEncodedAll(items, tail);
      ParseEncodedArray(items, tail);
  }

  lemma ParseEncodedArray(items: seq<Resp>, tail: bytes)
    requires |items| <= I64_MAX
    requires ParseItems(EncodeAll(items) + tail, |items|) == Done(items, |EncodeAll(items)|)
    ensures Parse(Encode(Array(items)) + tail) == Done(Array(items), |Encode(Array(items))|)
  {
    hide FindCrlf, ParseI64, Numeral, ParseItems, EncodeAll, ValidUtf8;
    var line, rest := Numeral(|items|), EncodeAll(items) + tail;
    NumeralHasNoCrlf(|items|);
    NumeralRoundTrip(|items|);
    LineEnds(TAG_ARRAY, line, rest);
    var buf := Encode(Array(items)) + tail;
    assert buf == Line(TAG_ARRAY, line) + rest;
    assert buf[|line| + 3..] == rest;
  }

  lemma ParseEncodedBulk(body: bytes, tail: bytes)
    requires |body| <= I64_MAX
    ensures Parse(Encode(Bulk(body)) + tail) == Done(Bulk(body), |Encode(Bulk(body))|)
  {
    hide FindCrlf, ParseI64, Numeral;
    var line := Numeral(|body|);
    var rest := body + CRLF + tail;
    NumeralHasNoCrlf(|body|);
    NumeralRoundTrip(|body|);
    LineEnds(TAG_BULK, line, rest);
    var buf, after := Encode(Bulk(body)) + tail, |line| + 3;
    assert buf == Line(TAG_BULK, line) + rest;
    assert buf[after..after + |body|] == rest[..|body|] == body;
  }

  lemma ParseEncodedNull(tail: bytes)
    ensures Parse(Encode(Null) + tail) == Done(Null, |Encode(Null)|)
  {
    NumeralRoundTrip(-1);
    assert Numeral(-1) == [45, 49];
    hide FindCrlf, ParseI64, Numeral;
    LineEnds(TAG_BULK, [45, 49], tail);
  }

  lemma {:induction false} ParseEncodedAll(vs: seq<Resp>, tail: bytes)
    requires forall k :: 0 <= k < |vs| ==> WellFormed(vs[k])
    ensures ParseItems(EncodeAll(vs) + tail, |vs|) == Done(vs, |EncodeAll(vs)|)
    decreases vs, 1
  {
    hide Parse, Encode, WellFormed, ParseItems, Prefixed;
    if vs == [] {
      ParseNoItems([] + tail);
    } else {
      var first, others := Encode(vs[0]), EncodeAll(vs[1..]);
      assert EncodeAll(vs) == first + others;
      hide EncodeAll;
      Regroup(first, others, tail);
      ParseEncoded(vs[0], others + tail);
      ParseEncodedAll(vs[1..], tail);
      ParseItemsStep(first + (others + tail), |vs|, vs[0], |first|);
      PrefixedValue(vs, |first|, |others|);
    }
  }

  lemma PrefixedValue(vs: seq<Resp>, a: nat, b: nat)
    requires vs != []
    ensures Prefixed([vs[0]], a, Done(vs[1..], b)) == Done(vs, a + b)
  {
    assert [vs[0]] + vs[1..] == vs;
  }

  lemma Regroup(a: bytes, b: bytes, c: bytes)
    ensures a + b + c == a + (b + c) && (a + b + c)[|a|..] == b + c
  {
  }

  lemma LineIsFramed(buf: bytes, end: nat)
    requires FindCrlf(buf, 0) == Some(end) && 0 < end
    ensures NoCrlf(buf[1..end])
  {
    forall j | 0 <= j < |buf[1..end]|
      ensures !CrlfAt(buf[1..end], j)
    {
      assert !CrlfAt(buf, j + 1);
    }
  }

  /** Only values the encoder can frame are ever parsed. */
  lemma {:induction false} ParsedIsWellFormed(buf: bytes)
    ensures Parse(buf).Done? ==> WellFormed(Parse(buf).value)
    decreases |buf|, 0
  {
    hide ValidUtf8, ParseI64, NoCrlf;
    match FindCrlf(buf, 0)
    case None =>
    case Some(end) =>
      if end > 0 {
        LineIsFramed(buf, end);
        if buf[0] == TAG_ARRAY && ParseI64(buf[1..end]).Some? && ParseI64(buf[1..end]).value >= 0 {
          ParsedItemsWellFormed(buf[end + 2..], ParseI64(buf[1..end]).value);
        }
      }
  }

  lemma {:induction false} ParsedItemsWellFormed(buf: bytes, count: nat)
    ensures var r := ParseItems(buf, count);
            r.Done? ==> |r.value| == count && forall k :: 0 <= k < count ==> WellFormed(r.value[k])
    decreases |buf|, 1, count
  {
    if count > 0 {
      ParsedIsWellFormed(buf);
      hide Parse, WellFormed;
      match Parse(buf)
      case Done(v, used) => ParsedItemsWellFormed(buf[used..], count - 1);
      case _ =>
    }
  }

  /** Values sent back to back are read back as they were exactly when each of them can be framed. */
  lemma RoundTripIff(vs: seq<Resp>, tail: bytes)
    ensures ParseItems(EncodeAll(vs) + tail, |vs|) == Done(vs, |EncodeAll(vs)|)
            <==> forall k :: 0 <= k < |vs| ==> WellFormed(vs[k])
  {
    hide ParseItems, EncodeAll, WellFormed;
    ParsedItemsWellFormed(EncodeAll(vs) + tail, |vs|);
    if forall k :: 0 <= k < |vs| ==> WellFormed(vs[k]) { ParseEncodedAll(vs, tail); }
  }

  /** A value cut anywhere short of its end is a call for more bytes, never an error. */
  lemma StrictPrefixNeedsMore(v: Resp, n: nat)
    requires WellFormed(v) && n < |Encode(v)|
    ensures Parse(Encode(v)[..n]) == NeedMore
  {
    hide Parse, Encode, WellFormed;
    var cut, rest := Encode(v)[..n], Encode(v)[n..];
    if !Parse(cut).NeedMore? {
      ParseStable(cut, rest);
      assert cut + rest == Encode(v) + [];
      ParseEncoded(v, []);
    }
  }

  // ---- when parsing panics ------------------------------------------------------------------

  /** The bytes behind a complete array header, and how many items it announces. */
  function ArrayBody(buf: bytes): (r: Option<(bytes, nat)>)
    ensures r.Some? ==> |r.value.0| < |buf|
  {
    if buf == [] || buf[0] != TAG_ARRAY then None else
    match FindCrlf(buf, 0)
    case None => None
    case Some(end) =>
      match ParseI64(buf[1..end])
      case None => None
      case Some(count) => if count < 0 then None else Some((buf[end + 2..], count))
  }

  /** A CRLF stands where a value should begin: at the front, or where an array item is due. */
  predicate ValueStartsWithCrlf(buf: bytes)
    decreases |buf|, 0
  {
    CrlfAt(buf, 0)
    || match ArrayBody(buf)
       case None => false
       case Some(body) => ItemStartsWithCrlf(body.0, body.1)
  }

  predicate ItemStartsWithCrlf(buf: bytes, count: nat)
    decreases |buf|, 1, count
  {
    count > 0 &&
    (ValueStartsWithCrlf(buf)
     || match Parse(buf)
        case Done(_, used) => ItemStartsWithCrlf(buf[used..], count - 1)
        case _ => false)
  }

  /** The parser slices out of range exactly when a CRLF stands where a value should begin. */
  lemma {:induction false} PanicsIff(buf: bytes)
    ensures Parse(buf) == Panicked <==> ValueStartsWithCrlf(buf)
    decreases |buf|, 0
  {
    hide ValidUtf8, ParseI64;
    match FindCrlf(buf, 0)
    case None =>
    case Some(end) =>
      if end > 0 && buf[0] == TAG_ARRAY {
        match ArrayBody(buf)
        case None =>
        case Some(body) => ItemsPanicIff(body.0, body.1);
      }
  }

  lemma {:induction false} ItemsPanicIff(buf: bytes, count: nat)
    ensures ParseItems(buf, count) == Panicked <==> ItemStartsWithCrlf(buf, count)
    decreases |buf|, 1, count
  {
    if count > 0 {
      PanicsIff(buf);
      hide ValueStartsWithCrlf;
      match Parse(buf)
      case Done(v, used) =>
        hide Parse;
        ItemsPanicIff(buf[used..], count - 1);
      case _ =>
    }
  }

  // ---- every kind of first line ------------------------------------------------------------

  /** What the parser makes of a text line: "+" a status, "-" an error, both only as UTF-8. */
  lemma ParseTextLine(line: bytes, tail: bytes)
    requires NoCrlf(line)
    ensures Parse([43] + line + [13, 10] + tail) == if ValidUtf8(line) then Done(Simple(line), |line| + 3) else Bad
    ensures Parse([45] + line + [13, 10] + tail) == if ValidUtf8(line) then Done(Error(line), |line| + 3) else Bad
  {
    hide FindCrlf, ValidUtf8, ParseI64, ParseItems;
    LineEnds(43, line, tail);
    LineEnds(45, line, tail);
  }

  /** ":" an integer, which must fit an i64. */
  lemma ParseIntegerLine(line: bytes, tail: bytes)
    requires NoCrlf(line)
    ensures Parse([58] + line + [13, 10] + tail) == match ParseI64(line) case Some(i) => Done(Integer(i), |line| + 3) case None => Bad
  {
    hide FindCrlf, ParseI64, ParseItems, ValidUtf8;
    LineEnds(58, line, tail);
  }

  /** "$" a length: negative for null, otherwise that many bytes and two more that are not looked at. */
  lemma ParseBulkLine(line: bytes, tail: bytes)
    requires NoCrlf(line)
    ensures Parse([36] + line + [13, 10] + tail) ==
            match ParseI64(line)
            case None => Bad
            case Some(n) =>
              if n < 0 then Done(Null, |line| + 3)
              else if |tail| < n + 2 then NeedMore
              else Done(Bulk(tail[..n]), |line| + 3 + n + 2)
  {
    var buf := Line(36, line) + tail;
    assert buf == [36] + line + [13, 10] + tail;
    LineEnds(36, line, tail);
    hide FindCrlf, Line, ParseI64, ParseFrame;
    BulkFrame(buf, line, tail);
  }

  lemma BulkFrame(buf: bytes, line: bytes, tail: bytes)
    requires CrlfAt(buf, 1 + |line|) && buf[1..1 + |line|] == line && buf[0] == 36 && buf[|line| + 3..] == tail
    ensures ParseFrame(buf, 1 + |line|) ==
            match ParseI64(line)
            case None => Bad
            case Some(n) =>
              if n < 0 then Done(Null, |line| + 3)
              else if |tail| < n + 2 then NeedMore
              else Done(Bulk(tail[..n]), |line| + 3 + n + 2)
  {
    hide ParseI64, ParseItems, ValidUtf8, FindCrlf, Parse;
    if ParseI64(line).Some? && 0 <= ParseI64(line).value && ParseI64(line).value + 2 <= |tail| {
      SliceOfRest(buf, |line| + 3, ParseI64(line).value);
    }
  }

  lemma SliceOfRest(buf: bytes, from: nat, n: nat)
    requires from + n <= |buf|
    ensures buf[from..from + n] == buf[from..][..n]
  {
  }

  /** "*" a count: negative for null, otherwise that many values back to back. */
  lemma ParseArrayLine(line: bytes, tail: bytes)
    requires NoCrlf(line)
    ensures Parse([42] + line + [13, 10] + tail) ==
            match ParseI64(line)
            case None => Bad
            case Some(n) =>
              if n < 0 then Done(Null, |line| + 3)
              else match ParseItems(tail, n)
                case Done(items, used) => Done(Array(items), |line| + 3 + used)
                case NeedMore => NeedMore
                case Bad => Bad
                case Panicked => Panicked
  {
    hide FindCrlf, ParseI64, ParseItems, ValidUtf8;
    LineEnds(42, line, tail);
    assert ([42] + line + [13, 10] + tail)[|line| + 3..] == tail;
  }

  /** Anything else is a protocol error. */
  lemma ParseForeignLine(tag: byte, line: bytes, tail: bytes)
    requires NoCrlf(line) && tag !in {13, 36, 42, 43, 45, 58}
    ensures Parse([tag] + line + [13, 10] + tail) == Bad
  {
    hide FindCrlf, ParseI64, ParseItems, ValidUtf8;
    LineEnds(tag, line, tail);
  }
}
