/** Bitwise operations on unsigned words, defined bit by bit, and residues modulo a power of two. */
module WordBits {
  import opened Division

  /** w >> k */
  function Shr(w: nat, k: nat): nat {
    if k == 0 then w else Shr(w / 2, k - 1)
  }

  /** (w >> k) & 1 == 1 */
  predicate Bit(w: nat, k: nat) {
    Shr(w, k) % 2 == 1
  }

  function Or(a: nat, b: nat): nat
    decreases a + b
  {
    if a + b == 0 then 0 else (if a % 2 == 1 || b % 2 == 1 then 1 else 0) + 2 * Or(a / 2, b / 2)
  }

  function Xor(a: nat, b: nat): nat
    decreases a + b
  {
    if a + b == 0 then 0 else (if a % 2 == b % 2 then 0 else 1) + 2 * Xor(a / 2, b / 2)
  }

  lemma {:induction false} ZeroHasNoBit(k: nat)
    ensures !Bit(0, k)
  {
    if k > 0 { ZeroHasNoBit(k - 1); }
  }

  lemma OrHalves(a: nat, b: nat)
    ensures Or(a, b) / 2 == Or(a / 2, b / 2)
    ensures Or(a, b) % 2 == 1 <==> a % 2 == 1 || b % 2 == 1
  {
  }

  lemma {:induction false} BitOfOr(a: nat, b: nat, k: nat)
    ensures Bit(Or(a, b), k) <==> Bit(a, k) || Bit(b, k)
    decreases k
  {
    hide Or;
    OrHalves(a, b);
    if k > 0 { BitOfOr(a / 2, b / 2, k - 1); }
  }

  lemma {:induction false} BitOfPow2(k: nat, j: nat)
    ensures Bit(Pow2(k), j) <==> j == k
  {
    if k == 0 && j > 0 {
      ZeroHasNoBit(j - 1);
    } else if k > 0 && j > 0 {
      assert Pow2(k) / 2 == Pow2(k - 1);
      BitOfPow2(k - 1, j - 1);
    }
  }

  lemma {:induction false} OrBelow(a: nat, b: nat, n: nat)
    requires a < Pow2(n) && b < Pow2(n)
    ensures Or(a, b) < Pow2(n)
    decreases n
  {
    if n > 0 && a + b > 0 { OrBelow(a / 2, b / 2, n - 1); }
  }

  lemma {:induction false} XorBelow(a: nat, b: nat, n: nat)
    requires a < Pow2(n) && b < Pow2(n)
    ensures Xor(a, b) < Pow2(n)
    decreases n
  {
    if n > 0 && a + b > 0 { XorBelow(a / 2, b / 2, n - 1); }
  }

  lemma {:induction false} Pow2Monotone(a: nat, b: nat)
    requires a <= b
    ensures Pow2(a) <= Pow2(b)
    decreases b
  {
    if a < b { Pow2Monotone(a, b - 1); }
  }

  lemma {:induction false} Pow2StrictlyMonotone(a: nat, b: nat)
    requires a < b
    ensures Pow2(a) < Pow2(b)
  {
    Pow2Monotone(a, b - 1);
  }

  /** Two n-bit words with the same bits are the same word. */
  lemma {:induction false} SameBits(a: nat, b: nat, n: nat)
    requires a < Pow2(n) && b < Pow2(n)
    requires forall k :: 0 <= k < n ==> (Bit(a, k) <==> Bit(b, k))
    ensures a == b
    decreases n
  {
    if n > 0 {
      assert Bit(a, 0) <==> Bit(b, 0);
      forall k | 0 <= k < n - 1 ensures Bit(a / 2, k) <==> Bit(b / 2, k) {
        assert Bit(a, k + 1) <==> Bit(b, k + 1);
      }
      SameBits(a / 2, b / 2, n - 1);
    }
  }

  /** Xor undoes itself. */
  lemma {:induction false} XorTwice(a: nat, b: nat)
    ensures Xor(Xor(a, b), b) == a
    decreases a + b
  {
    if a + b > 0 {
      var x := Xor(a, b);
      assert x / 2 == Xor(a / 2, b / 2) && x % 2 == (if a % 2 == b % 2 then 0 else 1);
      XorTwice(a / 2, b / 2);
      if x + b == 0 { XorZero(a); }
    }
  }

  lemma {:induction false} XorZero(a: nat)
    ensures Xor(a, 0) == a && Xor(0, a) == a
  {
    if a > 0 { XorZero(a / 2); }
  }

  lemma {:induction false} XorCommutes(a: nat, b: nat)
    ensures Xor(a, b) == Xor(b, a)
    decreases a + b
  {
    if a + b > 0 { XorCommutes(a / 2, b / 2); }
  }

  /** An odd factor can be cancelled modulo a power of two. */
  lemma {:induction false} CancelOdd(d: int, h: int, k: nat, q: int) returns (r: int)
    requires h % 2 == 1 && d * h == q * Pow2(k)
    ensures d == r * Pow2(k)
    decreases k
  {
    if k == 0 {
      r := d;
    } else {
      var p := Pow2(k - 1);
      assert q * (2 * p) == 2 * (q * p);
      if d % 2 == 1 { OddProduct(d, h); }
      var e := d / 2;
      assert (2 * e) * h == 2 * (e * h);
      r := CancelOdd(e, h, k - 1, q);
      assert 2 * (r * p) == r * (2 * p);
    }
  }
}
