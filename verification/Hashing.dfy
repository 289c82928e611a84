/** FNV-1a, the two base hashes of an item and its probe positions: 09-unsafe-ffi/src/hash.rs. */
module Hashing {
  import opened Bytes
  import opened Division
  import opened WordBits

  /** A u64. */
  type word = x: nat | x < U64_LIMIT

  const FNV_OFFSET: word := 0xcbf2_9ce4_8422_2325
  const FNV_PRIME: word := 0x0000_0100_0000_01b3

  lemma Pow2Of64()
    ensures Pow2(64) == U64_LIMIT && Pow2(8) == 256
  {
    assert Pow2(8) == 256;
    assert Pow2(16) == 256 * Pow2(8);
    assert Pow2(24) == 256 * Pow2(16);
    assert Pow2(32) == 256 * Pow2(24);
    assert Pow2(40) == 256 * Pow2(32);
    assert Pow2(48) == 256 * Pow2(40);
    assert Pow2(56) == 256 * Pow2(48);
    assert Pow2(64) == 256 * Pow2(56);
  }

  /** One round: xor the byte into the low end, multiply modulo 2^64. */
  function FnvStep(hash: word, b: byte): word {
    (Xor(hash, b) * FNV_PRIME) % U64_LIMIT
  }

  function Fnv(data: bytes, basis: word): word {
    if data == [] then basis else FnvStep(Fnv(data[..|data| - 1], basis), data[|data| - 1])
  }

  method Fnv1a(data: bytes, basis: word) returns (hash: word)
    ensures hash == Fnv(data, basis)
  {
    hash := basis;
    for i := 0 to |data|
      invariant hash == Fnv(data[..i], basis)
    {
      hash := FnvStep(hash, data[i]);
      assert data[..i + 1][..i] == data[..i];
    }
    assert data[..|data|] == data;
  }

  /** Multiplying by an odd word modulo 2^64 loses nothing. */
  lemma OddMultiplierInjective(x: word, y: word, p: word)
    requires p % 2 == 1 && (x * p) % U64_LIMIT == (y * p) % U64_LIMIT
    ensures x == y
  {
    Pow2Of64();
    hide Pow2;
    var q := ResidueGap(x * p, y * p, U64_LIMIT);
    assert (y - x) * p == y * p - x * p;
    var r := CancelOdd(y - x, p, 64, q);
    if r >= 1 { MulMonotone(1, r, U64_LIMIT); }
    if r <= -1 { MulMonotone(r, -1, U64_LIMIT); }
  }

  /** A round is injective in the running hash and in the byte. */
  lemma FnvStepInjective(g: word, h: word, a: byte, b: byte)
    requires FnvStep(g, a) == FnvStep(h, b)
    ensures a == b ==> g == h
    ensures g == h ==> a == b
  {
    Pow2Of64();
    if g < U64_LIMIT { Pow2Monotone(8, 64); }
    XorBelow(g, a, 64);
    XorBelow(h, b, 64);
    OddMultiplierInjective(Xor(g, a), Xor(h, b), FNV_PRIME);
    XorTwice(g, a);
    XorTwice(h, b);
    XorCommutes(g, a);
    XorCommutes(h, b);
    XorTwice(a, g);
    XorTwice(b, h);
  }

  predicate DifferOnlyAt(a: bytes, b: bytes, i: nat) {
    && i < |a| == |b|
    && a[i] != b[i]
    && a[..i] == b[..i]
    && a[i + 1..] == b[i + 1..]
  }

  /** Changing exactly one byte of an item always changes its hash, from any basis. */
  lemma {:induction false} OneByteChangesHash(a: bytes, b: bytes, i: nat, basis: word)
    requires DifferOnlyAt(a, b, i)
    ensures Fnv(a, basis) != Fnv(b, basis)
  {
    hide FnvStep;
    var n := |a| - 1;
    if Fnv(a, basis) == Fnv(b, basis) {
      FnvStepInjective(Fnv(a[..n], basis), Fnv(b[..n], basis), a[n], b[n]);
      if i < n {
        assert a[n] == a[i + 1..][n - i - 1] == b[n];
        assert a[..n][i + 1..] == a[i + 1..][..n - i - 1] && b[..n][i + 1..] == b[i + 1..][..n - i - 1];
        assert a[..n][..i] == a[..i] && b[..n][..i] == b[..i];
        OneByteChangesHash(a[..n], b[..n], i, basis);
      }
    }
  }

  /** hash_pair: the second hash is forced odd. */
  function HashPair(item: bytes): (r: (word, word))
    ensures r.1 % 2 == 1
  {
    OrOne(Fnv(item, FNV_PRIME));
    (Fnv(item, FNV_OFFSET), Or(Fnv(item, FNV_PRIME), 1))
  }

  lemma OrOne(h: word)
    ensures Or(h, 1) % 2 == 1 && Or(h, 1) < U64_LIMIT
  {
    Pow2Of64();
    Pow2Monotone(8, 64);
    OrBelow(h, 1, 64);
  }

  /** (h + p) mod m as bit_index computes it: product and sum each wrapped first. */
  function Reduce(h: nat, p: nat, wrap: nat, m: nat): (r: nat)
    requires wrap > 0 && m > 0
    ensures r < m
  {
    ((h + p % wrap) % wrap) % m
  }

  /** Wrapping at a multiple of m before reducing modulo m is harmless. */
  lemma DoubleWrap(h: nat, p: nat, q: nat, m: nat, wrap: nat)
    requires q > 0 && m > 0 && wrap > 0 && wrap == q * m
    ensures Reduce(h, p, wrap, m) == (h + p) % m
  {
    var c, d := p % wrap, p / wrap;
    ResidueOfResidue(h + c, q, m);
    assert p == d * wrap + c && d * wrap == (d * q) * m;
    SameResidue(h + p, h + c, d * q, m);
  }

  /** bit_index. */
  function BitIndex(h1: word, h2: word, i: nat, numBits: nat): (index: nat)
    requires numBits > 0
    ensures index < numBits
  {
    Reduce(h1, i * h2, U64_LIMIT, numBits)
  }

  // ---- power-of-two filters ------------------------------------------------------------------

  lemma WrapAtPow2(h: nat, p: nat, k: nat)
    requires k <= 64
    ensures Reduce(h, p, U64_LIMIT, Pow2(k)) == (h + p) % Pow2(k)
  {
    hide Pow2, Reduce;
    PowSplit(k, 64);
    Pow2Of64();
    DoubleWrap(h, p, Pow2(64 - k), Pow2(k), U64_LIMIT);
  }

  /** The two wraps modulo 2^64 do not disturb a reduction modulo a smaller power of two. */
  lemma BitIndexPow2(h1: word, h2: word, i: nat, k: nat)
    requires k <= 64
    ensures BitIndex(h1, h2, i, Pow2(k)) == (h1 + i * h2) % Pow2(k)
  {
    hide Pow2, Reduce;
    assert i * h2 >= 0;
    WrapAtPow2(h1, i * h2, k);
  }

  lemma {:induction false} PowSplit(k: nat, n: nat)
    requires k <= n
    ensures Pow2(n - k) * Pow2(k) == Pow2(n)
    decreases k
  {
    if k > 0 {
      PowSplit(k - 1, n);
      assert Pow2(n - k + 1) == 2 * Pow2(n - k) && Pow2(k) == 2 * Pow2(k - 1);
    }
  }

  /** With an odd step, two probes less than num_bits apart hit different bits. */
  lemma ProbesDiffer(h1: word, h2: word, i: nat, j: nat, k: nat)
    requires k <= 64 && h2 % 2 == 1 && i < j < i + Pow2(k)
    ensures BitIndex(h1, h2, i, Pow2(k)) != BitIndex(h1, h2, j, Pow2(k))
  {
    BitIndexPow2(h1, h2, i, k);
    BitIndexPow2(h1, h2, j, k);
    var m := Pow2(k);
    hide BitIndex, Pow2;
    if (h1 + i * h2) % m == (h1 + j * h2) % m {
      var q := ResidueGap(h1 + i * h2, h1 + j * h2, m);
      assert (j - i) * h2 == j * h2 - i * h2;
      var r := CancelOdd(j - i, h2, k, q);
      if r >= 1 { MulMonotone(1, r, m); }
      if r <= 0 { MulMonotone(r, 0, m); }
    }
  }

  /** The bits hit by the n probes from number `from` on. */
  ghost function Hit(h1: word, h2: word, from: nat, n: nat, numBits: nat): (s: set<nat>)
    requires numBits > 0
  {
    if n == 0 then {} else Hit(h1, h2, from, n - 1, numBits) + {BitIndex(h1, h2, from + n - 1, numBits)}
  }

  lemma {:induction false} HitMembers(h1: word, h2: word, from: nat, n: nat, numBits: nat, b: nat)
    requires numBits > 0
    ensures b in Hit(h1, h2, from, n, numBits) <==> exists i :: from <= i < from + n && BitIndex(h1, h2, i, numBits) == b
    decreases n
  {
    hide BitIndex;
    if n > 0 { HitMembers(h1, h2, from, n - 1, numBits, b); }
  }

  lemma {:induction false} HitInRange(h1: word, h2: word, from: nat, n: nat, numBits: nat)
    requires numBits > 0
    ensures Hit(h1, h2, from, n, numBits) <= UpTo(numBits)
    decreases n
  {
    hide BitIndex;
    if n > 0 { HitInRange(h1, h2, from, n - 1, numBits); }
  }

  ghost function UpTo(m: nat): (s: set<nat>)
    ensures |s| == m && forall b: nat :: b in s <==> b < m
  {
    if m == 0 then {} else UpTo(m - 1) + {m - 1}
  }

  lemma FreshHit(h1: word, h2: word, from: nat, n: nat, k: nat)
    requires k <= 64 && h2 % 2 == 1 && n < Pow2(k)
    ensures BitIndex(h1, h2, from + n, Pow2(k)) !in Hit(h1, h2, from, n, Pow2(k))
  {
    hide BitIndex, Pow2, Hit;
    var m, last := Pow2(k), from + n;
    var bit := BitIndex(h1, h2, last, m);
    HitMembers(h1, h2, from, n, m, bit);
    if bit in Hit(h1, h2, from, n, m) {
      var i :| from <= i < last && BitIndex(h1, h2, i, m) == bit;
      ProbesDiffer(h1, h2, i, last, k);
    }
  }

  lemma {:induction false} HitSize(h1: word, h2: word, from: nat, n: nat, k: nat)
    requires k <= 64 && h2 % 2 == 1 && n <= Pow2(k)
    ensures |Hit(h1, h2, from, n, Pow2(k))| == n
    decreases n
  {
    hide BitIndex, Pow2;
    if n > 0 {
      HitSize(h1, h2, from, n - 1, k);
      FreshHit(h1, h2, from, n - 1, k);
    }
  }

  lemma FullSubset(a: set<nat>, b: set<nat>)
    requires a <= b && |a| == |b|
    ensures a == b
  {
    assert |b - a| == |b| - |a|;
  }

  /** num_bits probes in a row reach every bit of the filter. */
  ghost predicate Covers(h1: word, h2: word, from: nat, numBits: nat)
    requires numBits > 0
  {
    forall b :: 0 <= b < numBits ==> b in Hit(h1, h2, from, numBits, numBits)
  }

  lemma OddStepCovers(h1: word, h2: word, from: nat, k: nat)
    requires k <= 64 && h2 % 2 == 1
    ensures Covers(h1, h2, from, Pow2(k))
  {
    hide BitIndex, Pow2;
    var m := Pow2(k);
    var hit := Hit(h1, h2, from, m, m);
    HitSize(h1, h2, from, m, k);
    HitInRange(h1, h2, from, m, m);
    FullSubset(hit, UpTo(m));
  }

  lemma EvenStepMisses(h1: word, h2: word, from: nat, k: nat)
    requires 0 < k <= 64 && h2 % 2 == 0
    ensures !Covers(h1, h2, from, Pow2(k))
  {
    var m, half := Pow2(k), Pow2(k - 1);
    assert m == 2 * half;
    hide Pow2;
    var missed := (h1 + 1) % 2;
    forall i | from <= i < from + m ensures BitIndex(h1, h2, i, m) != missed {
      BitIndexPow2(h1, h2, i, k);
      EvenStepKeepsParity(h1, h2, i, half);
    }
    hide BitIndex;
    HitMembers(h1, h2, from, m, m, missed);
    assert missed < m && missed !in Hit(h1, h2, from, m, m);
  }

  /** For 2^k bits, k > 0: num_bits consecutive probes cover the filter exactly when the step is odd. */
  lemma CoversIffOdd(h1: word, h2: word, from: nat, k: nat)
    requires 0 < k <= 64
    ensures Covers(h1, h2, from, Pow2(k)) <==> h2 % 2 == 1
  {
    if h2 % 2 == 1 { OddStepCovers(h1, h2, from, k); } else { EvenStepMisses(h1, h2, from, k); }
  }

  lemma EvenStepKeepsParity(h1: word, h2: word, i: nat, half: nat)
    requires h2 % 2 == 0 && half > 0
    ensures ((h1 + i * h2) % (2 * half)) % 2 == h1 % 2
  {
    assert 2 * half == half * 2;
    ResidueOfResidue(h1 + i * h2, half, 2);
    assert i * h2 == (i * (h2 / 2)) * 2;
    SameResidue(h1 + i * h2, h1, i * (h2 / 2), 2);
  }

  /** With the odd step of hash_pair, num_bits consecutive probes visit every bit exactly once. */
  lemma EveryBitOnce(item: bytes, from: nat, k: nat, bit: nat)
    requires 0 < k <= 64 && bit < Pow2(k)
    ensures var (h1, h2) := HashPair(item);
      exists i :: && from <= i < from + Pow2(k) && BitIndex(h1, h2, i, Pow2(k)) == bit
                  && forall j :: from <= j < from + Pow2(k) && BitIndex(h1, h2, j, Pow2(k)) == bit ==> j == i
  {
    var (h1, h2) := HashPair(item);
    var m := Pow2(k);
    OddStepCovers(h1, h2, from, k);
    hide BitIndex, Pow2, HashPair;
    assert bit in Hit(h1, h2, from, m, m);
    HitMembers(h1, h2, from, m, m, bit);
    var i :| from <= i < from + m && BitIndex(h1, h2, i, m) == bit;
    forall j | from <= j < from + m && BitIndex(h1, h2, j, m) == bit ensures j == i {
      if i < j { ProbesDiffer(h1, h2, i, j, k); }
      if j < i { ProbesDiffer(h1, h2, j, i, k); }
    }
  }

  // ---- test vectors --------------------------------------------------------------------------

  lemma XorStep(m: nat, r: nat, b: nat)
    requires Xor(m + r / 2, b / 2) == m + Xor(r / 2, b / 2)
    ensures Xor(2 * m + r, b) == 2 * m + Xor(r, b)
  {
    hide Xor;
    HalvesOfSum(m, r);
    XorHalves(2 * m + r, b);
    XorHalves(r, b);
  }

  function Doubled(m: nat, k: nat): nat {
    if k == 0 then m else 2 * Doubled(m, k - 1)
  }

  /** Xor with a short operand leaves the higher bits alone. */
  lemma {:induction false} XorShort(m: nat, r: nat, b: nat, k: nat)
    requires Shr(r, k) == 0 && Shr(b, k) == 0
    ensures Xor(Doubled(m, k) + r, b) == Doubled(m, k) + Xor(r, b)
    decreases k
  {
    hide Xor;
    if k == 0 {
      XorZero(m);
      XorZero(0);
    } else {
      XorShort(m, r / 2, b / 2, k - 1);
      XorStep(Doubled(m, k - 1), r, b);
    }
  }

  lemma ByteIsShort(b: byte)
    ensures Shr(b, 8) == 0
  {
    assert Shr(b, 8) == Shr(b / 2 / 2, 6) == Shr(b / 2 / 2 / 2 / 2, 4) == Shr(b / 2 / 2 / 2 / 2 / 2 / 2, 2);
  }

  /** Xor with a byte leaves the higher bytes alone. */
  lemma XorLowByte(q: nat, r: byte, b: byte)
    ensures Xor(256 * q + r, b) == 256 * q + Xor(r, b)
  {
    ByteIsShort(r);
    ByteIsShort(b);
    XorShort(q, r, b, 8);
    assert Doubled(q, 1) == 2 * q;
    assert Doubled(q, 2) == 4 * q;
    assert Doubled(q, 3) == 8 * q;
    assert Doubled(q, 4) == 16 * q;
    assert Doubled(q, 5) == 32 * q;
    assert Doubled(q, 6) == 64 * q;
    assert Doubled(q, 7) == 128 * q;
    hide Xor, Shr, Doubled;
  }

  lemma HalvesOfSum(m: nat, r: nat)
    ensures (2 * m + r) / 2 == m + r / 2 && (2 * m + r) % 2 == r % 2
  {
  }

  lemma {:induction false} XorZero(h: nat)
    ensures Xor(h, 0) == h
  {
    if h > 0 { XorZero(h / 2); }
  }

  lemma XorHalves(a: nat, b: nat)
    ensures Xor(a, b) == (if a % 2 == b % 2 then 0 else 1) + 2 * Xor(a / 2, b / 2)
  {
  }

  lemma LowBytes()
    ensures Xor(0x25, 97) == 0x44
  {
    XorHalves(37, 97);
    XorHalves(18, 48);
    XorHalves(9, 24);
    XorHalves(4, 12);
    XorHalves(2, 6);
    XorHalves(1, 3);
    XorHalves(0, 1);
    XorZero(0);
    hide Xor;
  }

  lemma OneStep(b: byte, basis: word)
    ensures Fnv([b], basis) == FnvStep(basis, b)
  {
    hide FnvStep;
    assert [b][..0] == [];
    assert Fnv([], basis) == basis;
  }

  lemma ProductOfA()
    ensures (0xcbf2_9ce4_8422_2344 * 0x0000_0100_0000_01b3) % 0x1_0000_0000_0000_0000 == 0xaf63_dc4c_8601_ec8c
  {
  }

  lemma StepOfA()
    ensures FnvStep(0xcbf2_9ce4_8422_2325, 97) == 0xaf63_dc4c_8601_ec8c
  {
    LowBytes();
    XorLowByte(0xcb_f29c_e484_2223, 0x25, 97);
    hide Xor;
    ProductOfA();
  }

  /** The published FNV-1a hash of "a". */
  lemma HashOfA()
    ensures Fnv([97], 0xcbf2_9ce4_8422_2325) == 0xaf63_dc4c_8601_ec8c
    ensures HashPair([97]).0 == 0xaf63_dc4c_8601_ec8c
  {
    StepOfA();
    OneStep(97, 0xcbf2_9ce4_8422_2325);
    hide Xor, Fnv, FnvStep, Or;
  }

  lemma SmallMod(a: nat, wrap: nat)
    requires a < wrap
    ensures a % wrap == a
  {
  }

  lemma ReduceUnwrapped(h: nat, p: nat, wrap: nat, m: nat)
    requires m > 0 && h + p < wrap
    ensures Reduce(h, p, wrap, m) == (h + p) % m
  {
    SmallMod(p, wrap);
    SmallMod(h + p, wrap);
  }

  /** Where nothing wraps, probe i is h1 + i * h2 reduced to the filter. */
  lemma BitIndexUnwrapped(h1: word, h2: word, i: nat, numBits: nat)
    requires numBits > 0 && h1 + i * h2 < U64_LIMIT
    ensures BitIndex(h1, h2, i, numBits) == (h1 + i * h2) % numBits
  {
    hide Reduce;
    ProductIsNat(i, h2);
    ReduceUnwrapped(h1, i * h2, U64_LIMIT, numBits);
  }

  lemma ProductIsNat(a: nat, b: nat)
    ensures a * b >= 0
  {
  }

  lemma OrOneIs(h: nat)
    ensures Or(h, 1) == 2 * (h / 2) + 1
  {
    OrHalves(h, 1);
    OrZero(h / 2);
    hide Or;
    assert 1 / 2 == 0;
  }

  /** The step is the hash from the other basis with its lowest bit set. */
  lemma StepIsOddHash(item: bytes)
    ensures HashPair(item).1 == 2 * (Fnv(item, 0x0000_0100_0000_01b3) / 2) + 1
  {
    hide Fnv, Or;
    OrOneIs(Fnv(item, FNV_PRIME));
  }

  lemma {:induction false} OrZero(h: nat)
    ensures Or(h, 0) == h
  {
    if h > 0 { OrZero(h / 2); }
  }
}
