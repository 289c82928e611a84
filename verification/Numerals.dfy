/** Decimal text: Rust's integer to_string and str::parse for i64 and u64. */
module Numerals {
  import opened Bytes

  const I64_MIN: int := -0x8000_0000_0000_0000
  const I64_MAX: int := 0x7FFF_FFFF_FFFF_FFFF

  const ZERO: byte := 48
  const PLUS: byte := 43
  const MINUS: byte := 45

  predicate IsDigit(b: byte) { 48 <= b <= 57 }

  predicate AllDigits(b: bytes) {
    forall i :: 0 <= i < |b| ==> IsDigit(b[i])
  }

  /** The decimal digits of n, no leading zero. */
  function Digits(n: nat): (d: bytes)
    ensures d != [] && AllDigits(d)
  {
    if n < 10 then [48 + n] else Digits(n / 10) + [48 + n % 10]
  }

  function Numeral(i: int): bytes {
    if i < 0 then [MINUS] + Digits(-i) else Digits(i)
  }

  function ValueOf(d: bytes): nat
    requires AllDigits(d)
  {
    if d == [] then 0 else 10 * ValueOf(d[..|d| - 1]) + (d[|d| - 1] - 48)
  }

  lemma {:induction false} ValueOfDigits(n: nat)
    ensures ValueOf(Digits(n)) == n
  {
    if n >= 10 {
      ValueOfDigits(n / 10);
      assert Digits(n)[..|Digits(n)| - 1] == Digits(n / 10);
    }
  }

  /** str::parse::<i64>: optional sign, at least one digit, in range. */
  function ParseI64(line: bytes): (r: Option<int>)
    ensures r.Some? ==> I64_MIN <= r.value <= I64_MAX
  {
    if line == [] then None else
    var signed := line[0] == PLUS || line[0] == MINUS;
    var digits := if signed then line[1..] else line;
    if digits == [] || !AllDigits(digits) then None else
    var magnitude: int := ValueOf(digits);
    var v := if line[0] == MINUS then -magnitude else magnitude;
    if I64_MIN <= v <= I64_MAX then Some(v) else None
  }

  /** str::parse::<u64>: optional plus sign, at least one digit, in range. */
  function ParseU64(line: bytes): Option<nat> {
    if line == [] then None else
    var digits := if line[0] == PLUS then line[1..] else line;
    if digits == [] || !AllDigits(digits) then None
    else if ValueOf(digits) < U64_LIMIT then Some(ValueOf(digits)) else None
  }

  /** Printing an i64 and reading it back gives the same number. */
  lemma NumeralRoundTrip(i: int)
    requires I64_MIN <= i <= I64_MAX
    ensures ParseI64(Numeral(i)) == Some(i)
  {
    if i < 0 {
      ValueOfDigits(-i);
      assert Numeral(i)[1..] == Digits(-i);
    } else {
      ValueOfDigits(i);
      assert IsDigit(Numeral(i)[0]);
    }
  }

  /** A numeral is a sign and digits: it holds no control character. */
  lemma NumeralBytes(i: int)
    ensures |Numeral(i)| > 0
    ensures forall k :: 0 <= k < |Numeral(i)| ==> IsDigit(Numeral(i)[k]) || Numeral(i)[k] == MINUS
  {
  }

  /** Rust's two's-complement wrap of an i64 sum, as in a build without overflow checks. */
  function WrapI64(x: int): (r: int)
    ensures I64_MIN <= r <= I64_MAX
    ensures I64_MIN <= x <= I64_MAX ==> r == x
    ensures (r - x) % U64_LIMIT == 0
  {
    (x - I64_MIN) % U64_LIMIT + I64_MIN
  }

  // ---- what a text of digits means ---------------------------------------------------------

  function Pow10(width: nat): nat {
    if width == 0 then 1 else 10 * Pow10(width - 1)
  }

  /** Positional notation: the digits in front count for a power of ten more. */
  lemma {:induction false} ValueOfConcat(a: bytes, b: bytes)
    requires AllDigits(a) && AllDigits(b)
    ensures AllDigits(a + b) && ValueOf(a + b) == ValueOf(a) * Pow10(|b|) + ValueOf(b)
    decreases |b|
  {
    if b == [] {
      assert a + b == a;
    } else {
      var front, last := b[..|b| - 1], b[|b| - 1];
      assert (a + b)[..|a + b| - 1] == a + front;
      ValueOfConcat(a, front);
      TenTimes(ValueOf(a), Pow10(|front|), ValueOf(front));
    }
  }

  lemma TenTimes(v: nat, p: nat, w: nat)
    ensures 10 * (v * p + w) == v * (10 * p) + 10 * w
  {
  }

  lemma ValueOfOne(d: byte)
    requires IsDigit(d)
    ensures AllDigits([d]) && ValueOf([d]) == d - 48
  {
    assert [d][..0] == [];
  }

  function ZeroDigits(n: nat): (z: bytes)
    ensures |z| == n
  {
    seq(n, _ => 48)
  }

  /** Leading zeros count for nothing. */
  lemma {:induction false} ValueOfZeros(n: nat)
    ensures AllDigits(ZeroDigits(n)) && ValueOf(ZeroDigits(n)) == 0
  {
    if n > 0 {
      assert ZeroDigits(n)[..n - 1] == ZeroDigits(n - 1);
      ValueOfZeros(n - 1);
    }
  }

  /** Any text of digits is some zeros and then the decimal digits of its value. */
  lemma {:induction false} DigitsOfValue(d: bytes)
    requires AllDigits(d) && d != []
    ensures |Digits(ValueOf(d))| <= |d|
    ensures d == ZeroDigits(|d| - |Digits(ValueOf(d))|) + Digits(ValueOf(d))
    decreases |d|
  {
    var front, last := d[..|d| - 1], d[|d| - 1];
    assert d == front + [last] && IsDigit(last);
    if front == [] {
      ValueOfOne(last);
    } else {
      DigitsOfValue(front);
      var v := ValueOf(front);
      assert ValueOf(d) == 10 * v + (last - 48) && (10 * v + (last - 48)) / 10 == v && (10 * v + (last - 48)) % 10 == last - 48;
      if v == 0 {
        assert Digits(0) == [48];
        assert d == ZeroDigits(|front|) + [last];
      } else {
        assert Digits(ValueOf(d)) == Digits(v) + [last];
      }
    }
  }

  lemma ValueOfPadded(zeros: nat, n: nat)
    ensures AllDigits(ZeroDigits(zeros) + Digits(n)) && ValueOf(ZeroDigits(zeros) + Digits(n)) == n
  {
    hide Digits, ValueOf, ZeroDigits;
    ValueOfZeros(zeros);
    ValueOfDigits(n);
    ValueOfConcat(ZeroDigits(zeros), Digits(n));
  }

  /** The decimal digits of n behind any number of zeros. */
  ghost predicate Padded(text: bytes, n: nat) {
    exists zeros: nat :: text == ZeroDigits(zeros) + Digits(n)
  }

  lemma PaddedIff(text: bytes, n: nat)
    ensures Padded(text, n) <==> text != [] && AllDigits(text) && ValueOf(text) == n
  {
    hide Digits, ValueOf, ZeroDigits;
    if Padded(text, n) {
      var zeros: nat :| text == ZeroDigits(zeros) + Digits(n);
      ValueOfPadded(zeros, n);
      assert |text| == zeros + |Digits(n)|;
    }
    if text != [] && AllDigits(text) && ValueOf(text) == n { DigitsOfValue(text); }
  }

  /** A u64 is read from its decimal digits, with any zeros and at most one plus in front, and from nothing else. */
  lemma ParseU64Iff(text: bytes, n: nat)
    ensures ParseU64(text) == Some(n) <==> n < U64_LIMIT && (Padded(text, n) || (text != [] && text[0] == 43 && Padded(text[1..], n)))
  {
    hide ValueOf, Padded;
    PaddedIff(text, n);
    if text != [] { PaddedIff(text[1..], n); }
    if text != [] && text[0] == 43 { assert !IsDigit(text[0]); }
  }

  ghost predicate SignedText(text: bytes, i: int) {
    || (i >= 0 && Padded(text, i))
    || (i >= 0 && text != [] && text[0] == 43 && Padded(text[1..], i))
    || (i <= 0 && text != [] && text[0] == 45 && Padded(text[1..], -i))
  }

  /** Likewise an i64, with at most one sign; "-0" is zero. */
  lemma ParseI64Iff(text: bytes, i: int)
    ensures ParseI64(text) == Some(i) <==> -0x8000_0000_0000_0000 <= i <= 0x7FFF_FFFF_FFFF_FFFF && SignedText(text, i)
  {
    hide ValueOf, Padded;
    if i >= 0 {
      PaddedIff(text, i);
      if text != [] { PaddedIff(text[1..], i); }
    }
    if i <= 0 && text != [] { PaddedIff(text[1..], -i); }
    if text != [] && (text[0] == 43 || text[0] == 45) { assert !IsDigit(text[0]); }
  }
}
