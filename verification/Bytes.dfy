/**
 Byte strings and the little-endian fixed-width integers every file format of the
 workspace is built from (Rust's to_le_bytes / from_le_bytes).
 */
module Bytes {
  type byte = x: int | 0 <= x < 256
  type bytes = seq<byte>

  const U32_LIMIT: nat := 0x1_0000_0000
  const U64_LIMIT: nat := 0x1_0000_0000_0000_0000

  datatype Option<+T> = None | Some(value: T)

  /** 256 to the power w: how many values a w-byte integer has. */
  function Limit(w: nat): (r: nat)
    ensures r > 0
  {
    if w == 0 then 1 else 256 * Limit(w - 1)
  }

  lemma LimitValues()
    ensures Limit(4) == U32_LIMIT && Limit(8) == U64_LIMIT
  {
    assert Limit(4) == 256 * 256 * 256 * 256 * Limit(0);
    assert Limit(8) == 256 * 256 * 256 * 256 * Limit(4);
  }

  /** The w low bytes of n, least significant first; higher bytes are cut off, as an `as` cast does. */
  function Le(n: nat, w: nat): (r: bytes)
    ensures |r| == w
  {
    if w == 0 then [] else [n % 256] + Le(n / 256, w - 1)
  }

  function FromLe(b: bytes): (n: nat)
    ensures n < Limit(|b|)
  {
    if b == [] then 0 else b[0] + 256 * FromLe(b[1..])
  }

  lemma {:induction false} LeRoundTrip(n: nat, w: nat)
    requires n < Limit(w)
    ensures FromLe(Le(n, w)) == n
  {
    if w > 0 {
      LeRoundTrip(n / 256, w - 1);
      assert Le(n, w)[1..] == Le(n / 256, w - 1);
    }
  }

  lemma {:induction false} LeOfFromLe(b: bytes)
    ensures Le(FromLe(b), |b|) == b
  {
    if b != [] {
      LeOfFromLe(b[1..]);
      var n := FromLe(b);
      assert n % 256 == b[0] && n / 256 == FromLe(b[1..]);
    }
  }

  function Le32(n: nat): (r: bytes)
    ensures |r| == 4
  {
    Le(n % U32_LIMIT, 4)
  }

  function Le64(n: nat): (r: bytes)
    ensures |r| == 8
  {
    Le(n % U64_LIMIT, 8)
  }

  /** Reading back a written field gives the value modulo the field's range. */
  lemma LeFields(n: nat)
    ensures FromLe(Le32(n)) == n % U32_LIMIT
    ensures FromLe(Le64(n)) == n % U64_LIMIT
    ensures n < U32_LIMIT ==> FromLe(Le32(n)) == n
    ensures n < U64_LIMIT ==> FromLe(Le64(n)) == n
  {
    hide Le, FromLe, Limit;
    LimitValues();
    LeRoundTrip(n % U32_LIMIT, 4);
    LeRoundTrip(n % U64_LIMIT, 8);
  }

  lemma FromLeRange(b: bytes)
    ensures |b| == 4 ==> FromLe(b) < U32_LIMIT
    ensures |b| == 8 ==> FromLe(b) < U64_LIMIT
  {
    hide Le, FromLe, Limit;
    LimitValues();
  }

  lemma LeFieldsInverse(b: bytes)
    ensures |b| == 4 ==> Le32(FromLe(b)) == b
    ensures |b| == 8 ==> Le64(FromLe(b)) == b
  {
    hide Le, FromLe, Limit;
    LeOfFromLe(b);
    FromLeRange(b);
  }

  lemma SliceOfSlice<T>(b: seq<T>, start: nat, i: nat, j: nat)
    requires i <= j && start + j <= |b|
    ensures b[start..][i..j] == b[start + i..start + j]
    ensures b[start..][j..] == b[start + j..]
  {
  }

  function Concat(chunks: seq<bytes>): bytes {
    if chunks == [] then [] else chunks[0] + Concat(chunks[1..])
  }

  lemma {:induction false} ConcatSnoc(chunks: seq<bytes>, last: bytes)
    ensures Concat(chunks + [last]) == Concat(chunks) + last
  {
    if chunks == [] {
      assert ([] + [last])[1..] == [];
    } else {
      assert (chunks + [last])[1..] == chunks[1..] + [last];
      ConcatSnoc(chunks[1..], last);
    }
  }

  /** Least significant byte first. */
  lemma {:induction false} FromLeDigits(b: bytes, high: byte)
    ensures FromLe(b + [high]) == FromLe(b) + Limit(|b|) * high
    ensures FromLe([]) == 0
  {
    if b == [] {
      assert [high][1..] == [];
    } else {
      assert (b + [high])[1..] == b[1..] + [high];
      FromLeDigits(b[1..], high);
      ShiftDigit(b[0], FromLe(b[1..]), Limit(|b| - 1), high);
    }
  }

  lemma ShiftDigit(low: nat, rest: nat, p: nat, high: nat)
    ensures low + 256 * (rest + p * high) == low + 256 * rest + 256 * p * high
  {
  }

  /** A u32 field in full. */
  lemma FromLe32(a: byte, b: byte, c: byte, d: byte)
    ensures FromLe([a, b, c, d]) == a + 0x100 * b + 0x1_0000 * c + 0x100_0000 * d
  {
    assert [a, b, c, d][1..] == [b, c, d] && [b, c, d][1..] == [c, d] && [c, d][1..] == [d] && [d][1..] == [];
    assert FromLe([d]) == d && FromLe([c, d]) == c + 256 * d;
    assert FromLe([b, c, d]) == b + 256 * (c + 256 * d);
  }
}
