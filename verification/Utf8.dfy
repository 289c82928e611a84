/** UTF-8 as Rust sees it: str::from_utf8, String::from_utf8_lossy and str::to_ascii_uppercase. */
module Utf8 {
  import opened Bytes

  // ---- validity ------------------------------------------------------------------------

  predicate Continuation(b: bytes, i: nat) {
    i < |b| && 0x80 <= b[i] < 0xC0
  }

  /** Length of the well-formed sequence at the front of b, 0 if there is none. */
  function Utf8Char(b: bytes): (n: nat)
    ensures n <= |b|
  {
    if b == [] then 0
    else if b[0] < 0x80 then 1
    else if 0xC2 <= b[0] < 0xE0 && Continuation(b, 1) then 2
    else if 0xE0 <= b[0] < 0xF0 && Continuation(b, 1) && Continuation(b, 2)
         && (b[0] == 0xE0 ==> b[1] >= 0xA0) && (b[0] == 0xED ==> b[1] < 0xA0) then 3
    else if 0xF0 <= b[0] < 0xF5 && Continuation(b, 1) && Continuation(b, 2) && Continuation(b, 3)
         && (b[0] == 0xF0 ==> b[1] >= 0x90) && (b[0] == 0xF4 ==> b[1] < 0x90) then 4
    else 0
  }

  /** std::str::from_utf8 accepts b. */
  predicate ValidUtf8(b: bytes)
    decreases |b|
  {
    b == [] || (var n := Utf8Char(b); n > 0 && ValidUtf8(b[n..]))
  }

  predicate Ascii(b: bytes) {
    forall i :: 0 <= i < |b| ==> b[i] < 0x80
  }

  lemma {:induction false} AsciiIsUtf8(b: bytes)
    requires Ascii(b)
    ensures ValidUtf8(b)
    decreases |b|
  {
    if b != [] { AsciiIsUtf8(b[1..]); }
  }

  /** A character is decided by its own bytes. */
  lemma CharInFront(b: bytes, rest: bytes)
    requires Utf8Char(b) > 0
    ensures Utf8Char(b[..Utf8Char(b)] + rest) == Utf8Char(b)
    ensures (b[..Utf8Char(b)] + rest)[Utf8Char(b)..] == rest
  {
  }

  lemma {:induction false} ValidConcat(a: bytes, b: bytes)
    requires ValidUtf8(a) && ValidUtf8(b)
    ensures ValidUtf8(a + b)
    decreases |a|
  {
    if a == [] {
      assert a + b == b;
    } else {
      var n := Utf8Char(a);
      CharInFront(a, a[n..] + b);
      assert a + b == a[..n] + (a[n..] + b);
      ValidConcat(a[n..], b);
    }
  }

  // ---- lossy decoding --------------------------------------------------------------------

  /** U+FFFD. */
  const REPLACEMENT: bytes := [0xEF, 0xBF, 0xBD]

  /** Could b[1] follow the lead byte of a longer character? */
  predicate MayFollow(b: bytes) {
    && b != [] && Continuation(b, 1)
    && (b[0] == 0xE0 ==> b[1] >= 0xA0) && (b[0] == 0xED ==> b[1] < 0xA0)
    && (b[0] == 0xF0 ==> b[1] >= 0x90) && (b[0] == 0xF4 ==> b[1] < 0x90)
  }

  /** Where no character starts: how many bytes one replacement stands for, the longest start of a character. */
  function BrokenLength(b: bytes): (n: nat)
    requires b != []
    ensures 0 < n <= |b|
  {
    if 0xE0 <= b[0] < 0xF0 && MayFollow(b) then 2
    else if 0xF0 <= b[0] < 0xF5 && MayFollow(b) then (if Continuation(b, 2) then 3 else 2)
    else 1
  }

  /** p is a proper beginning of some character. */
  ghost predicate BeginsChar(p: bytes) {
    exists rest :: Utf8Char(p + rest) > |p|
  }

  /** One replacement stands for a single byte or for a beginning of a character, and for the longest one there is. */
  lemma BrokenIsMaximal(b: bytes)
    requires b != [] && Utf8Char(b) == 0
    ensures BrokenLength(b) == 1 || BeginsChar(b[..BrokenLength(b)])
    ensures forall n :: BrokenLength(b) < n <= |b| ==> !BeginsChar(b[..n])
  {
    var m := BrokenLength(b);
    if m > 1 {
      assert Utf8Char(b[..m] + [0x80]) > m || Utf8Char(b[..m] + [0x80, 0x80]) > m;
    }
    forall n, rest: bytes | m < n <= |b|
      ensures Utf8Char(b[..n] + rest) <= n
    {
      var all := b[..n] + rest;
      assert forall i :: 0 <= i < n ==> all[i] == b[i];
    }
  }

  /** String::from_utf8_lossy. */
  function Lossy(b: bytes): bytes
    decreases |b|
  {
    if b == [] then []
    else if Utf8Char(b) > 0 then b[..Utf8Char(b)] + Lossy(b[Utf8Char(b)..])
    else REPLACEMENT + Lossy(b[BrokenLength(b)..])
  }

  /** What lossy decoding gives is text. */
  lemma {:induction false} LossyIsUtf8(b: bytes)
    ensures ValidUtf8(Lossy(b))
    decreases |b|
  {
    if b != [] {
      var n := Utf8Char(b);
      if n > 0 {
        LossyIsUtf8(b[n..]);
        CharInFront(b, Lossy(b[n..]));
      } else {
        var rest := Lossy(b[BrokenLength(b)..]);
        LossyIsUtf8(b[BrokenLength(b)..]);
        assert (REPLACEMENT + rest)[3..] == rest;
      }
    }
  }

  /** Text is kept as it is. */
  lemma {:induction false} LossyKeepsText(b: bytes)
    ensures Lossy(b) == b <==> ValidUtf8(b)
    decreases |b|
  {
    LossyIsUtf8(b);
    if b != [] && Utf8Char(b) > 0 {
      var n := Utf8Char(b);
      assert b == b[..n] + b[n..];
      LossyKeepsText(b[n..]);
    }
  }

  lemma {:induction false} LossyAscii(b: bytes)
    ensures Ascii(Lossy(b)) ==> Lossy(b) == b
    decreases |b|
  {
    if b != [] && Ascii(Lossy(b)) {
      var n := Utf8Char(b);
      if n == 0 { assert Lossy(b)[0] == 0xEF; }
      var rest := Lossy(b[n..]);
      assert Lossy(b) == b[..n] + rest && b == b[..n] + b[n..];
      hide Utf8Char, Lossy;
      assert forall i :: 0 <= i < |rest| ==> rest[i] == (b[..n] + rest)[n + i];
      LossyAscii(b[n..]);
    }
  }

  // ---- ASCII case ------------------------------------------------------------------------

  function UpperByte(b: byte): byte {
    if 97 <= b <= 122 then b - 32 else b
  }

  /** to_ascii_uppercase. */
  function Upper(b: bytes): (r: bytes)
    ensures |r| == |b|
  {
    seq(|b|, i requires 0 <= i < |b| => UpperByte(b[i]))
  }

  lemma {:induction false} UpperIsUtf8(b: bytes)
    ensures ValidUtf8(Upper(b)) <==> ValidUtf8(b)
    decreases |b|
  {
    if b != [] {
      var n := Utf8Char(b);
      assert Utf8Char(Upper(b)) == n;
      if n > 0 {
        assert Upper(b)[n..] == Upper(b[n..]);
        UpperIsUtf8(b[n..]);
      }
    }
  }

  /** Decoding a name lossily before comparing it changes no comparison with an ASCII name. */
  lemma LossyNames(b: bytes, name: bytes)
    requires Ascii(name)
    ensures Upper(Lossy(b)) == name <==> Upper(b) == name
  {
    if Upper(Lossy(b)) == name {
      assert forall i :: 0 <= i < |Lossy(b)| ==> UpperByte(Lossy(b)[i]) == name[i];
      LossyAscii(b);
    }
    if Upper(b) == name {
      assert forall i :: 0 <= i < |b| ==> UpperByte(b[i]) == name[i];
      AsciiIsUtf8(b);
      LossyKeepsText(b);
    }
  }

  /** Capital ASCII letters only. */
  predicate Capitals(name: bytes) {
    forall i :: 0 <= i < |name| ==> 65 <= name[i] <= 90
  }

  /** The letter as a capital, or the small letter 32 above it. */
  predicate EitherCase(c: int, capital: int) {
    c == capital || c == capital + 32
  }

  /** b spells the name in any mix of cases. */
  predicate Spells(b: bytes, name: bytes) {
    |b| == |name| && forall i :: 0 <= i < |b| ==> EitherCase(b[i], name[i])
  }

  /** Comparing in upper case is comparing in any mix of cases. */
  lemma UpperIsAnyCase(b: bytes, name: bytes)
    requires Capitals(name)
    ensures Upper(b) == name <==> Spells(b, name)
  {
    assert forall i :: 0 <= i < |b| ==> Upper(b)[i] == UpperByte(b[i]);
  }

  /** What is quoted of an unknown name: small letters as capitals, every other byte as it was. */
  lemma UpperKeepsOthers(b: bytes, i: nat)
    requires i < |b|
    ensures !(97 <= Upper(b)[i] <= 122)
    ensures Upper(b)[i] == b[i] || (97 <= b[i] <= 122 && Upper(b)[i] == b[i] - 32)
  {
  }

  // ---- what UTF-8 is -----------------------------------------------------------------------

  /** A Unicode scalar value: no surrogate, at most U+10FFFF. */
  predicate IsScalar(c: nat) {
    c < 0xD800 || 0xE000 <= c < 0x11_0000
  }

  /** Its bytes, in the fewest that hold it. */
  function ScalarBytes(c: nat): (b: bytes)
    requires IsScalar(c)
    ensures b != []
  {
    if c < 0x80 then [c]
    else if c < 0x800 then [0xC0 + c / 64, 0x80 + c % 64]
    else if c < 0x1_0000 then [0xE0 + c / 64 / 64, 0x80 + c / 64 % 64, 0x80 + c % 64]
    else [0xF0 + c / 64 / 64 / 64, 0x80 + c / 64 / 64 % 64, 0x80 + c / 64 % 64, 0x80 + c % 64]
  }

  function ScalarsBytes(cs: seq<nat>): bytes
    requires forall i :: 0 <= i < |cs| ==> IsScalar(cs[i])
  {
    if cs == [] then [] else ScalarBytes(cs[0]) + ScalarsBytes(cs[1..])
  }

  /** The last six bits and those above them. */
  lemma Sextet(high: nat, low: nat)
    requires low < 64
    ensures (64 * high + low) / 64 == high && (64 * high + low) % 64 == low
  {
  }

  lemma TwoByteScalar(a: nat, b: nat) returns (c: nat)
    requires 0xC2 <= a < 0xE0 && 0x80 <= b < 0xC0
    ensures IsScalar(c) && ScalarBytes(c) == [a, b]
  {
    c := 64 * (a - 0xC0) + (b - 0x80);
    Sextet(a - 0xC0, b - 0x80);
  }

  lemma ThreeByteScalar(a: nat, b: nat, d: nat) returns (c: nat)
    requires 0xE0 <= a < 0xF0 && 0x80 <= b < 0xC0 && 0x80 <= d < 0xC0
    requires (a == 0xE0 ==> b >= 0xA0) && (a == 0xED ==> b < 0xA0)
    ensures IsScalar(c) && ScalarBytes(c) == [a, b, d]
  {
    var high := 64 * (a - 0xE0) + (b - 0x80);
    c := 64 * high + (d - 0x80);
    Sextet(a - 0xE0, b - 0x80);
    Sextet(high, d - 0x80);
  }

  lemma FourByteScalar(a: nat, b: nat, d: nat, e: nat) returns (c: nat)
    requires 0xF0 <= a < 0xF5 && 0x80 <= b < 0xC0 && 0x80 <= d < 0xC0 && 0x80 <= e < 0xC0
    requires (a == 0xF0 ==> b >= 0x90) && (a == 0xF4 ==> b < 0x90)
    ensures IsScalar(c) && ScalarBytes(c) == [a, b, d, e]
  {
    var top := 64 * (a - 0xF0) + (b - 0x80);
    var high := 64 * top + (d - 0x80);
    c := 64 * high + (e - 0x80);
    Sextet(a - 0xF0, b - 0x80);
    Sextet(top, d - 0x80);
    Sextet(high, e - 0x80);
  }

  /** What stands in front of valid text is the encoding of a scalar value. */
  lemma CharIsScalar(b: bytes) returns (c: nat)
    requires Utf8Char(b) > 0
    ensures IsScalar(c) && b[..Utf8Char(b)] == ScalarBytes(c)
  {
    var n := Utf8Char(b);
    if n == 1 {
      c := b[0];
      assert b[..1] == [b[0]];
    } else if n == 2 {
      c := TwoByteScalar(b[0], b[1]);
      assert b[..2] == [b[0], b[1]];
    } else if n == 3 {
      c := ThreeByteScalar(b[0], b[1], b[2]);
      assert b[..3] == [b[0], b[1], b[2]];
    } else {
      c := FourByteScalar(b[0], b[1], b[2], b[3]);
      assert b[..4] == [b[0], b[1], b[2], b[3]];
    }
  }

  lemma ScalarIsChar(c: nat, rest: bytes)
    requires IsScalar(c)
    ensures Utf8Char(ScalarBytes(c) + rest) == |ScalarBytes(c)|
  {
    ScalarBounds(c);
  }

  lemma ScalarBounds(c: nat)
    requires IsScalar(c)
    ensures 0x800 <= c < 0x1000 ==> c / 64 % 64 >= 32
    ensures 0xD000 <= c < 0xE000 ==> c / 64 % 64 < 32
    ensures 0x1_0000 <= c < 0x4_0000 ==> c / 64 / 64 % 64 >= 16
    ensures 0x10_0000 <= c ==> c / 64 / 64 % 64 < 16
  {
  }

  /** Valid is exactly what encodes some scalar values. */
  lemma {:induction false} ValidIff(b: bytes)
    ensures ValidUtf8(b) <==> exists cs: seq<nat> :: (forall i :: 0 <= i < |cs| ==> IsScalar(cs[i])) && b == ScalarsBytes(cs)
  {
    if ValidUtf8(b) { var cs := ScalarsOf(b); }
    if cs: seq<nat> :| (forall i :: 0 <= i < |cs| ==> IsScalar(cs[i])) && b == ScalarsBytes(cs) { ScalarsAreValid(cs); }
  }

  lemma {:induction false} ScalarsOf(b: bytes) returns (cs: seq<nat>)
    requires ValidUtf8(b)
    ensures (forall i :: 0 <= i < |cs| ==> IsScalar(cs[i])) && b == ScalarsBytes(cs)
    decreases |b|
  {
    if b == [] {
      cs := [];
    } else {
      var n := Utf8Char(b);
      var c := CharIsScalar(b);
      assert ValidUtf8(b[n..]) && b == b[..n] + b[n..];
      hide ScalarBytes, Utf8Char, ValidUtf8;
      var rest := ScalarsOf(b[n..]);
      cs := [c] + rest;
      assert cs[0] == c && cs[1..] == rest;
    }
  }

  lemma {:induction false} ScalarsAreValid(cs: seq<nat>)
    requires forall i :: 0 <= i < |cs| ==> IsScalar(cs[i])
    ensures ValidUtf8(ScalarsBytes(cs))
  {
    if cs != [] {
      ScalarsAreValid(cs[1..]);
      ScalarIsChar(cs[0], ScalarsBytes(cs[1..]));
      var b, first := ScalarsBytes(cs), ScalarBytes(cs[0]);
      hide ScalarBytes, Utf8Char;
      assert b[|first|..] == ScalarsBytes(cs[1..]);
    }
  }
}
