/**
 The table-driven CRC-32 of 10-database-internals/src/encoding.rs, checked against
 polynomial long division over GF(2), and the damage it is guaranteed to detect.

 A u32 is written out as its 32 bits, bit 0 first, so that `>> 1` drops the first
 element and `^` is element-wise.
 */
module Crc32 {
  import opened Bytes
  import opened Division

  type Bits = seq<bool>
  type Word = b: Bits | |b| == 32 witness seq(32, _ => false)

  // ---- machine words as bit lists --------------------------------------------

  function Zeros(n: nat): (r: Bits)
    ensures |r| == n
  {
    seq(n, _ => false)
  }

  function Ones(n: nat): (r: Bits)
    ensures |r| == n
  {
    seq(n, _ => true)
  }

  /** Exclusive or of g onto the front of a. */
  function Xor(a: Bits, g: Bits): (r: Bits)
    requires |g| <= |a|
    ensures |r| == |a|
    ensures forall i :: 0 <= i < |a| ==> r[i] == if i < |g| then a[i] != g[i] else a[i]
  {
    seq(|a|, i requires 0 <= i < |a| => if i < |g| then a[i] != g[i] else a[i])
  }

  function Shr(c: Word, n: nat): (r: Word)
    requires n <= 32
  {
    c[n..] + Zeros(n)
  }

  /** The n low bits of x, bit 0 first. */
  function ToBits(x: nat, n: nat): (r: Bits)
    ensures |r| == n
  {
    if n == 0 then [] else [x % 2 == 1] + ToBits(x / 2, n - 1)
  }

  function FromBits(b: Bits): nat {
    if b == [] then 0 else (if b[0] then 1 else 0) + 2 * FromBits(b[1..])
  }

  lemma {:induction false} FromToBits(x: nat, n: nat)
    requires x < Pow2(n)
    ensures FromBits(ToBits(x, n)) == x
  {
    if n > 0 {
      FromToBits(x / 2, n - 1);
      assert ToBits(x, n)[1..] == ToBits(x / 2, n - 1);
    }
  }

  lemma {:induction false} ToFromBits(b: Bits)
    ensures ToBits(FromBits(b), |b|) == b && FromBits(b) < Pow2(|b|)
  {
    if b != [] {
      ToFromBits(b[1..]);
      var x := FromBits(b);
      assert x % 2 == (if b[0] then 1 else 0) && x / 2 == FromBits(b[1..]);
    }
  }

  /** 0xEDB88320, the reflected form of 0x04C11DB7: element i is the coefficient of x^(31-i). */
  function Poly(): Word {
    [false, false, false, false, false, true, false, false,
     true, true, false, false, false, false, false, true,
     false, false, false, true, true, true, false, true,
     true, false, true, true, false, true, true, true]
  }

  function Bit(b: bool): nat { if b then 1 else 0 }

  lemma Digit(b: bool, s: Bits)
    ensures FromBits([b] + s) == Bit(b) + 2 * FromBits(s)
  {
    assert ([b] + s)[1..] == s;
  }

  lemma Nibble(a: bool, b: bool, c: bool, d: bool, s: Bits)
    ensures FromBits([a, b, c, d] + s) == Bit(a) + 2 * Bit(b) + 4 * Bit(c) + 8 * Bit(d) + 16 * FromBits(s)
  {
    assert [a, b, c, d] + s == [a] + ([b] + ([c] + ([d] + s)));
    Digit(d, s);
    Digit(c, [d] + s);
    Digit(b, [c] + ([d] + s));
    Digit(a, [b] + ([c] + ([d] + s)));
  }

  function HexDigit(p: Bits, i: nat): nat
    requires i + 4 <= |p|
  {
    Bit(p[i]) + 2 * Bit(p[i + 1]) + 4 * Bit(p[i + 2]) + 8 * Bit(p[i + 3])
  }

  lemma {:induction false} HexSuffix(p: Bits, i: nat)
    requires i + 4 <= |p|
    ensures FromBits(p[i..]) == HexDigit(p, i) + 16 * FromBits(p[i + 4..])
  {
    assert p[i..] == [p[i], p[i + 1], p[i + 2], p[i + 3]] + p[i + 4..];
    Nibble(p[i], p[i + 1], p[i + 2], p[i + 3], p[i + 4..]);
  }

  lemma HighHalf(p: Word)
    ensures FromBits(p[16..]) == HexDigit(p, 16) + 0x10 * HexDigit(p, 20) + 0x100 * HexDigit(p, 24) + 0x1000 * HexDigit(p, 28)
  {
    assert FromBits(p[32..]) == 0;
    hide FromBits, HexDigit;
    HexSuffix(p, 28);
    HexSuffix(p, 24);
    HexSuffix(p, 20);
    HexSuffix(p, 16);
  }

  lemma LowHalf(p: Word)
    ensures FromBits(p) ==
            HexDigit(p, 0) + 0x10 * HexDigit(p, 4) + 0x100 * HexDigit(p, 8) + 0x1000 * HexDigit(p, 12) +
            0x1_0000 * FromBits(p[16..])
  {
    hide FromBits, HexDigit;
    assert p[0..] == p;
    HexSuffix(p, 12);
    HexSuffix(p, 8);
    HexSuffix(p, 4);
    HexSuffix(p, 0);
  }

  lemma PolyDigits(p: Word)
    requires p == Poly()
    ensures HexDigit(p, 0) == 0x0 && HexDigit(p, 4) == 0x2
  {
  }

  lemma PolyDigits2(p: Word)
    requires p == Poly()
    ensures HexDigit(p, 8) == 0x3 && HexDigit(p, 12) == 0x8
  {
  }

  lemma PolyDigits3(p: Word)
    requires p == Poly()
    ensures HexDigit(p, 16) == 0x8 && HexDigit(p, 20) == 0xB
  {
  }

  lemma PolyDigits4(p: Word)
    requires p == Poly()
    ensures HexDigit(p, 24) == 0xD && HexDigit(p, 28) == 0xE
  {
  }

  /** The generator is the published constant. */
  lemma PolyIsTheConstant(p: Word)
    requires p == Poly()
    ensures FromBits(p) == 0xEDB8_8320
  {
    hide FromBits, HexDigit, Poly;
    LowHalf(p);
    HighHalf(p);
    PolyDigits(p);
    PolyDigits2(p);
    PolyDigits3(p);
    PolyDigits4(p);
  }

  // ---- the register machine ---------------------------------------------------

  /** One turn of the inner loop of the table builder. */
  function BitStep(c: Word): (r: Word) {
    if c[0] then Xor(Shr(c, 1), Poly()) else Shr(c, 1)
  }

  function BitSteps(c: Word, n: nat): (r: Word)
    decreases n
  {
    if n == 0 then c else BitSteps(BitStep(c), n - 1)
  }

  /** Absorbing one byte without a table. */
  function Absorb(c: Word, b: byte): (r: Word) {
    BitSteps(Xor(c, ToBits(b, 8)), 8)
  }

  function AbsorbAll(c: Word, data: bytes): (r: Word)
    decreases |data|
  {
    if data == [] then c else AbsorbAll(Absorb(c, data[0]), data[1..])
  }

  function Crc(data: bytes): (r: Word) {
    Xor(AbsorbAll(Ones(32), data), Ones(32))
  }

  /** The checksum as the u32 that is stored. */
  function CrcValue(data: bytes): (r: nat) {
    FromBits(Crc(data))
  }

  lemma CrcValueInjective(data: bytes, data': bytes)
    ensures CrcValue(data) < U32_LIMIT
    ensures CrcValue(data) == CrcValue(data') <==> Crc(data) == Crc(data')
  {
    ToFromBits(Crc(data));
    ToFromBits(Crc(data'));
    Pow2Of32();
  }

  lemma Pow2Bytes(n: nat)
    ensures Pow2(n + 8) == 256 * Pow2(n)
  {
    assert Pow2(n + 2) == 4 * Pow2(n);
    assert Pow2(n + 4) == 4 * Pow2(n + 2);
    assert Pow2(n + 6) == 4 * Pow2(n + 4);
    assert Pow2(n + 8) == 4 * Pow2(n + 6);
  }

  lemma Pow2Of32()
    ensures Pow2(8) == 256 && Pow2(32) == U32_LIMIT
  {
    assert Pow2(0) == 1;
    hide Pow2;
    Pow2Bytes(0);
    Pow2Bytes(8);
    Pow2Bytes(16);
    Pow2Bytes(24);
  }

  lemma BitStepLinear(x: Word, y: Word)
    ensures BitStep(Xor(x, y)) == Xor(BitStep(x), BitStep(y))
  {
  }

  lemma {:induction false} BitStepsLinear(x: Word, y: Word, n: nat)
    ensures BitSteps(Xor(x, y), n) == Xor(BitSteps(x, n), BitSteps(y, n))
    decreases n
  {
    if n > 0 {
      BitStepLinear(x, y);
      BitStepsLinear(BitStep(x), BitStep(y), n - 1);
    }
  }

  lemma {:induction false} ShiftedOut(c: Word, n: nat)
    requires n <= 32 && forall i :: 0 <= i < n ==> !c[i]
    ensures BitSteps(c, n) == Shr(c, n)
    decreases n
  {
    if n > 0 {
      ShiftedOut(BitStep(c), n - 1);
    }
  }

  /** The table identity: eight bit steps are one shift and one look-up. */
  lemma TableStep(c: Word, b: byte)
    ensures var x := Xor(c, ToBits(b, 8));
            Absorb(c, b) == Xor(Shr(c, 8), BitSteps(x[..8] + Zeros(24), 8))
  {
    var x := Xor(c, ToBits(b, 8));
    var hi: Word := Zeros(8) + x[8..];
    var lo: Word := x[..8] + Zeros(24);
    assert x == Xor(hi, lo);
    BitStepsLinear(hi, lo, 8);
    ShiftedOut(hi, 8);
    assert Shr(hi, 8) == Shr(c, 8);
  }

  predicate IsTable(table: seq<Word>) {
    && |table| == 256
    && forall i :: 0 <= i < 256 ==> table[i] == BitSteps(ToBits(i, 32), 8)
  }

  method TableEntry(i: byte) returns (crc: Word)
    ensures crc == BitSteps(ToBits(i, 32), 8)
  {
    crc := ToBits(i, 32);
    var j := 0;
    while j < 8
      invariant 0 <= j <= 8
      invariant BitSteps(crc, 8 - j) == BitSteps(ToBits(i, 32), 8)
    {
      hide ToBits, Poly;
      if crc[0] {
        crc := Xor(Shr(crc, 1), Poly());
      } else {
        crc := Shr(crc, 1);
      }
      j := j + 1;
    }
  }

  method BuildTable() returns (table: seq<Word>)
    ensures IsTable(table)
  {
    hide BitSteps, ToBits;
    table := [];
    var i := 0;
    while i < 256
      invariant 0 <= i <= 256 && |table| == i
      invariant forall k :: 0 <= k < i ==> table[k] == BitSteps(ToBits(k, 32), 8)
    {
      var crc := TableEntry(i);
      table := table + [crc];
      i := i + 1;
    }
  }

  lemma {:induction false} ToBitsPad(x: nat, n: nat, m: nat)
    requires x < Pow2(n)
    ensures ToBits(x, n + m) == ToBits(x, n) + Zeros(m)
  {
    if n > 0 {
      ToBitsPad(x / 2, n - 1, m);
    } else if m > 0 {
      ToBitsPad(0, 0, m - 1);
      assert Zeros(m) == [false] + Zeros(m - 1);
    }
  }

  /** One turn of the table-driven loop absorbs one byte. */
  lemma LookUp(table: seq<Word>, c: Word, b: byte)
    requires IsTable(table)
    ensures var idx := FromBits(Xor(c, ToBits(b, 8))[..8]);
            idx < 256 && Xor(Shr(c, 8), table[idx]) == Absorb(c, b)
  {
    var low := Xor(c, ToBits(b, 8))[..8];
    var idx := FromBits(low);
    ToFromBits(low);
    Pow2Of32();
    hide ToBits, FromBits, BitSteps, Pow2;
    ToBitsPad(idx, 8, 24);
    TableStep(c, b);
  }

  method Crc32(table: seq<Word>, data: bytes) returns (value: nat)
    requires IsTable(table)
    ensures value == CrcValue(data)
  {
    hide ToBits, FromBits, BitSteps, Absorb;
    var crc: Word := Ones(32);
    var i := 0;
    while i < |data|
      invariant 0 <= i <= |data|
      invariant AbsorbAll(crc, data[i..]) == AbsorbAll(Ones(32), data)
    {
      LookUp(table, crc, data[i]);
      var idx := FromBits(Xor(crc, ToBits(data[i], 8))[..8]);
      assert data[i..][1..] == data[i + 1..];
      crc := Xor(Shr(crc, 8), table[idx]);
      i := i + 1;
    }
    value := FromBits(Xor(crc, Ones(32)));
  }

  // ---- polynomial long division ------------------------------------------------

  /** The remainder after dividing by x^32 + Poly: strike out the leading coefficient until 32 are left. */
  function Remainder(dividend: Bits): (r: Bits)
    requires |dividend| >= 32
    ensures |r| == 32
    decreases |dividend|
  {
    if |dividend| == 32 then dividend
    else Remainder(if dividend[0] then Xor(dividend[1..], Poly()) else dividend[1..])
  }

  /** Coefficients of the message in transmission order: bytes in order, bit 0 of each first. */
  function MessageBits(data: bytes): (r: Bits)
    ensures |r| == 8 * |data|
  {
    if data == [] then [] else ToBits(data[0], 8) + MessageBits(data[1..])
  }

  /** Feeding message bits into the register one at a time. */
  function Feed(c: Word, m: Bits): (r: Word)
    decreases |m|
  {
    if m == [] then c else Feed(BitStep(Xor(c, [m[0]])), m[1..])
  }

  lemma {:induction false} FeedConcat(c: Word, m: Bits, n: Bits)
    ensures Feed(c, m + n) == Feed(Feed(c, m), n)
    decreases |m|
  {
    if m == [] {
      assert m + n == n;
    } else {
      assert (m + n)[1..] == m[1..] + n;
      FeedConcat(BitStep(Xor(c, [m[0]])), m[1..], n);
    }
  }

  /** Injecting a group of bits at once is the same as feeding them one by one. */
  lemma {:induction false} FeedGroup(c: Word, m: Bits)
    requires |m| <= 32
    ensures BitSteps(Xor(c, m), |m|) == Feed(c, m)
    decreases |m|
  {
    if m == [] {
      assert Xor(c, m) == c;
    } else {
      var first := Xor(c, [m[0]]);
      assert BitStep(Xor(c, m)) == Xor(BitStep(first), m[1..]);
      FeedGroup(BitStep(first), m[1..]);
    }
  }

  lemma {:induction false} FeedMessage(c: Word, data: bytes)
    ensures Feed(c, MessageBits(data)) == AbsorbAll(c, data)
    decreases |data|
  {
    if data != [] {
      FeedConcat(c, ToBits(data[0], 8), MessageBits(data[1..]));
      FeedGroup(c, ToBits(data[0], 8));
      FeedMessage(Absorb(c, data[0]), data[1..]);
    }
  }

  lemma DivideStep(c: Word, m: Bits)
    requires m != []
    ensures var dividend := Xor(m + Zeros(32), c);
            (if dividend[0] then Xor(dividend[1..], Poly()) else dividend[1..])
            == Xor(m[1..] + Zeros(32), BitStep(Xor(c, [m[0]])))
  {
    hide Poly;
  }

  /** The register always holds the partial remainder, up to message bits not yet fed. */
  lemma {:induction false} FeedDivides(c: Word, m: Bits)
    ensures Feed(c, m) == Remainder(Xor(m + Zeros(32), c))
    decreases |m|
  {
    var dividend := Xor(m + Zeros(32), c);
    if m == [] {
      assert dividend == c;
    } else {
      hide BitStep, Poly;
      DivideStep(c, m);
      FeedDivides(BitStep(Xor(c, [m[0]])), m[1..]);
    }
  }

  /**
   The checksum is the complemented remainder of the message times x^32, first 32
   coefficients complemented, under division by the generator (section 8 of RFC 1952).
   */
  lemma CrcIsPolynomialRemainder(data: bytes)
    ensures Crc(data) == Xor(Remainder(Xor(MessageBits(data) + Zeros(32), Ones(32))), Ones(32))
  {
    FeedMessage(Ones(32), data);
    FeedDivides(Ones(32), MessageBits(data));
  }

  // ---- guaranteed detection ------------------------------------------------------

  lemma BitStepInjective(x: Word, y: Word)
    requires BitStep(x) == BitStep(y)
    ensures x == y
  {
    assert Poly()[31];
    assert BitStep(x)[31] == x[0] && BitStep(y)[31] == y[0];
    forall i | 1 <= i < 32
      ensures x[i] == y[i]
    {
      assert BitStep(x)[i - 1] == BitStep(y)[i - 1];
    }
  }

  lemma {:induction false} BitStepsInjective(x: Word, y: Word, n: nat)
    requires BitSteps(x, n) == BitSteps(y, n)
    ensures x == y
    decreases n
  {
    if n > 0 {
      BitStepsInjective(BitStep(x), BitStep(y), n - 1);
      BitStepInjective(x, y);
    }
  }

  lemma {:induction false} FeedInjective(x: Word, y: Word, m: Bits)
    requires Feed(x, m) == Feed(y, m)
    ensures x == y
    decreases |m|
  {
    if m != [] {
      FeedInjective(BitStep(Xor(x, [m[0]])), BitStep(Xor(y, [m[0]])), m[1..]);
      BitStepInjective(Xor(x, [m[0]]), Xor(y, [m[0]]));
      forall i | 0 <= i < 32
        ensures x[i] == y[i]
      {
        assert Xor(x, [m[0]])[i] == Xor(y, [m[0]])[i];
      }
    }
  }

  lemma XorCancel(x: Bits, y: Bits, g: Bits)
    requires |x| == |y| && |g| <= |x| && Xor(x, g) == Xor(y, g)
    ensures x == y
  {
    forall i | 0 <= i < |x|
      ensures x[i] == y[i]
    {
      assert Xor(x, g)[i] == Xor(y, g)[i];
    }
  }

  lemma XorCancelMask(x: Bits, g: Bits, g': Bits)
    requires |g| == |g'| <= |x| && Xor(x, g) == Xor(x, g')
    ensures g == g'
  {
    forall i | 0 <= i < |g|
      ensures g[i] == g'[i]
    {
      assert Xor(x, g)[i] == Xor(x, g')[i];
    }
  }

  lemma FeedSeparates(c: Word, w: Bits, w': Bits)
    requires |w| == |w'| <= 32 && Feed(c, w) == Feed(c, w')
    ensures w == w'
  {
    FeedGroup(c, w);
    FeedGroup(c, w');
    BitStepsInjective(Xor(c, w), Xor(c, w'), |w|);
    XorCancelMask(c, w, w');
  }

  lemma FeedThree(c: Word, p: Bits, w: Bits, q: Bits)
    ensures Feed(c, p + w + q) == Feed(Feed(Feed(c, p), w), q)
  {
    FeedConcat(c, p + w, q);
    FeedConcat(c, p, w);
  }

  lemma CrcDeterminesRegister(data: bytes, data': bytes)
    requires Crc(data) == Crc(data')
    ensures Feed(Ones(32), MessageBits(data)) == Feed(Ones(32), MessageBits(data'))
  {
    FeedMessage(Ones(32), data);
    FeedMessage(Ones(32), data');
    XorCancel(AbsorbAll(Ones(32), data), AbsorbAll(Ones(32), data'), Ones(32));
  }

  /** Messages that agree outside one run of 32 bits and have equal checksums are equal. */
  lemma BurstDetected(p: Bits, w: Bits, w': Bits, q: Bits, data: bytes, data': bytes)
    requires |w| == |w'| <= 32
    requires MessageBits(data) == p + w + q && MessageBits(data') == p + w' + q
    requires Crc(data) == Crc(data')
    ensures w == w'
  {
    CrcDeterminesRegister(data, data');
    var c := Feed(Ones(32), p);
    FeedThree(Ones(32), p, w, q);
    FeedThree(Ones(32), p, w', q);
    FeedInjective(Feed(c, w), Feed(c, w'), q);
    FeedSeparates(c, w, w');
  }

  lemma {:induction false} MessageBitsConcat(a: bytes, b: bytes)
    ensures MessageBits(a + b) == MessageBits(a) + MessageBits(b)
  {
    if a == [] {
      assert a + b == b;
    } else {
      assert (a + b)[1..] == a[1..] + b;
      MessageBitsConcat(a[1..], b);
    }
  }

  lemma {:induction false} MessageBitsInjective(a: bytes, b: bytes)
    requires |a| == |b| && MessageBits(a) == MessageBits(b)
    ensures a == b
  {
    if a != [] {
      assert ToBits(a[0], 8) == MessageBits(a)[..8] == MessageBits(b)[..8] == ToBits(b[0], 8);
      assert MessageBits(a[1..]) == MessageBits(a)[8..] == MessageBits(b)[8..] == MessageBits(b[1..]);
      Pow2Of32();
      FromToBits(a[0], 8);
      FromToBits(b[0], 8);
      MessageBitsInjective(a[1..], b[1..]);
    }
  }

  lemma MessageBitsThree(p: bytes, w: bytes, q: bytes)
    ensures MessageBits(p + w + q) == MessageBits(p) + MessageBits(w) + MessageBits(q)
  {
    MessageBitsConcat(p + w, q);
    MessageBitsConcat(p, w);
  }

  /** Equal-length messages that differ only inside four consecutive bytes never collide. */
  lemma WindowDetected(p: bytes, w: bytes, w': bytes, q: bytes)
    requires |w| == |w'| <= 4 && w != w'
    ensures CrcValue(p + w + q) != CrcValue(p + w' + q)
  {
    MessageBitsThree(p, w, q);
    MessageBitsThree(p, w', q);
    CrcValueInjective(p + w + q, p + w' + q);
    if Crc(p + w + q) == Crc(p + w' + q) {
      BurstDetected(MessageBits(p), MessageBits(w), MessageBits(w'), MessageBits(q), p + w + q, p + w' + q);
      MessageBitsInjective(w, w');
    }
  }
}
