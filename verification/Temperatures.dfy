/** Lines of the row format and their temperatures in tenths: 08-performance/src/parse.rs. */
module Temperatures {
  import opened Bytes
  import opened Numerals

  const SEMICOLON: byte := 59
  const POINT: byte := 46

  /** The two halves around the first ';'. None is the panic of `expect`. */
  function SplitLine(line: bytes): (r: Option<(bytes, bytes)>)
    ensures r.Some? ==> line == r.value.0 + [SEMICOLON] + r.value.1 && SEMICOLON !in r.value.0
    ensures r.None? ==> SEMICOLON !in line
  {
    if line == [] then None
    else if line[0] == SEMICOLON then Some(([], line[1..]))
    else match SplitLine(line[1..])
         case None => None
         case Some(p) => Some(([line[0]] + p.0, p.1))
  }

  /** d - b'0' on u8: wraps below '0' in a build without overflow checks. */
  function DigitOf(d: byte): (n: nat)
    ensures n < 256
    ensures IsDigit(d) ==> n == d - ZERO
  {
    (d - ZERO) % 256
  }

  /** parse_temp. None is the panic of `unreachable!`. */
  function ParseTemp(text: bytes): (r: Option<int>)
    ensures r.Some? ==> -28305 <= r.value <= 28305
  {
    var neg := text != [] && text[0] == MINUS;
    var b := if neg then text[1..] else text;
    var v: Option<int> :=
      if |b| == 3 && b[1] == POINT then
        Some(DigitOf(b[0]) * 10 + DigitOf(b[2]))
      else if |b| == 4 && b[2] == POINT then
        Some(DigitOf(b[0]) * 100 + DigitOf(b[1]) * 10 + DigitOf(b[3]))
      else None;
    match v
    case None => None
    case Some(n) => Some(if neg then -n else n)
  }

  /** The documented format: an optional minus, one or two digits, a point, one digit. */
  predicate WellFormedTemp(text: bytes) {
    var b := Unsigned(text);
    3 <= |b| <= 4 && b[|b| - 2] == POINT && AllDigits(WithoutPoint(b))
  }

  function Unsigned(text: bytes): bytes {
    if text != [] && text[0] == MINUS then text[1..] else text
  }

  function WithoutPoint(b: bytes): bytes
    requires |b| >= 2
  {
    b[..|b| - 2] + [b[|b| - 1]]
  }

  /** A well-formed temperature is the decimal number read without its point, and parses to that many tenths. */
  lemma ParseTempIsDecimal(text: bytes)
    requires WellFormedTemp(text)
    ensures var v: int := ValueOf(WithoutPoint(Unsigned(text))); ParseTemp(text) == Some(if text[0] == MINUS then -v else v)
    ensures -999 <= ParseTemp(text).value <= 999
  {
    var b := Unsigned(text);
    var d := WithoutPoint(b);
    if |b| == 3 {
      assert d == [b[0], b[2]];
      assert IsDigit(d[0]) && IsDigit(d[1]);
      ValueOfTwo(b[0], b[2]);
    } else {
      assert d == [b[0], b[1], b[3]];
      assert IsDigit(d[0]) && IsDigit(d[1]) && IsDigit(d[2]);
      ValueOfTwo(b[0], b[1]);
      assert d[..2] == [b[0], b[1]];
    }
  }

  lemma ValueOfTwo(a: byte, b: byte)
    requires IsDigit(a) && IsDigit(b)
    ensures ValueOf([a, b]) == 10 * (a - ZERO) + (b - ZERO)
  {
    assert [a, b][..1] == [a] && [a][..0] == [];
    assert ValueOf([a]) == a - ZERO;
  }

  function Signed(negative: bool, b: bytes): bytes {
    if negative then [MINUS] + b else b
  }

  function Rendered(negative: bool, tens: nat, units: nat): bytes
    requires units < 10
  {
    Signed(negative, Digits(tens) + [POINT, ZERO + units])
  }

  /** Printing a number of tenths in the row format. */
  function ShowTemp(tenths: int): bytes
    requires -999 <= tenths <= 999
  {
    var m: nat := if tenths < 0 then -tenths else tenths;
    Rendered(tenths < 0, m / 10, m % 10)
  }

  lemma TempRoundTrip(tenths: int)
    requires -999 <= tenths <= 999
    ensures WellFormedTemp(ShowTemp(tenths)) && ParseTemp(ShowTemp(tenths)) == Some(tenths)
  {
    var m: nat := if tenths < 0 then -tenths else tenths;
    var tens, units := m / 10, m % 10;
    assert m == 10 * tens + units && tens < 100;
    RenderedValue(tenths < 0, tens, units);
    assert ShowTemp(tenths) == Rendered(tenths < 0, tens, units);
    hide ShowTemp, Rendered, ParseTemp, WellFormedTemp;
  }

  lemma RenderedValue(negative: bool, tens: nat, units: nat)
    requires tens < 100 && units < 10
    ensures var text := Rendered(negative, tens, units); var m := 10 * tens + units;
      WellFormedTemp(text) && ParseTemp(text) == Some(if negative then -m else m)
  {
    ShortDigits(tens);
    ValueOfDigits(tens);
    hide Digits, ParseTemp, ValueOf, WellFormedTemp, WithoutPoint, Unsigned, Signed, AllDigits;
    Shown(negative, Digits(tens), ZERO + units);
    ParseTempIsDecimal(Rendered(negative, tens, units));
  }

  lemma Shown(negative: bool, whole: bytes, last: byte)
    requires 1 <= |whole| <= 2 && AllDigits(whole) && IsDigit(last)
    ensures var text := Signed(negative, whole + [POINT, last]);
      && WellFormedTemp(text) && (text[0] == MINUS <==> negative)
      && ValueOf(WithoutPoint(Unsigned(text))) == 10 * ValueOf(whole) + (last - ZERO)
  {
    var b := whole + [POINT, last];
    assert IsDigit(whole[0]) && b[0] == whole[0];
    assert Unsigned(Signed(negative, b)) == b;
    PointRemoved(whole, last);
    hide ValueOf, WithoutPoint;
  }

  lemma PointRemoved(whole: bytes, last: byte)
    requires whole != [] && AllDigits(whole) && IsDigit(last)
    ensures var d := WithoutPoint(whole + [POINT, last]);
      d == whole + [last] && AllDigits(d) && ValueOf(d) == 10 * ValueOf(whole) + (last - ZERO)
  {
    var b := whole + [POINT, last];
    assert b[..|b| - 2] == whole && b[|b| - 1] == last;
    assert (whole + [last])[..|whole|] == whole;
  }

  lemma ShortDigits(n: nat)
    requires n < 100
    ensures 1 <= |Digits(n)| <= 2
  {
  }

  /** Which texts the parser accepts: by length and the place of the point alone, and then every byte counts as a digit. */
  lemma AcceptsIff(text: bytes)
    ensures var b := if text != [] && text[0] == 45 then text[1..] else text;
      && (ParseTemp(text).Some? <==> (|b| == 3 && b[1] == 46) || (|b| == 4 && b[2] == 46))
      && (|b| == 3 && b[1] == 46 && b == text ==> ParseTemp(text) == Some(10 * ((b[0] as int - 48) % 256) + (b[2] as int - 48) % 256))
    ensures text != [] && text[0] == 45 && ParseTemp(text).Some? && text[1] != 45 ==> ParseTemp(text[1..]) == Some(-ParseTemp(text).value)
  {
  }
}
