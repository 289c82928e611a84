/** Powers of two, and facts about quotients and residues that the solver does not find by itself. */
module Division {
  function Pow2(k: nat): (r: nat)
    ensures r > 0
  {
    if k == 0 then 1 else 2 * Pow2(k - 1)
  }

  /** Cross-multiplied comparison of a quotient. */
  lemma DivBelow(a: nat, q: nat, n: nat)
    requires n > 0
    ensures a < (q + 1) * n ==> a / n <= q
    ensures q * n <= a ==> q <= a / n
  {
    var d := a / n;
    assert a == d * n + a % n;
    if d >= q + 1 { MulMonotone(q + 1, d, n); }
    if d + 1 <= q { MulMonotone(d + 1, q, n); assert (d + 1) * n == d * n + n; }
  }

  lemma MulMonotone(a: int, b: int, n: nat)
    requires a <= b
    ensures a * n <= b * n
  {
  }

  lemma DivExact(n: nat, len: nat)
    requires n > 0
    ensures n * len / n == len
  {
    assert n * len == len * n && (len + 1) * n == len * n + n;
    DivBelow(n * len, len, n);
  }

  lemma DivMonotone(a: nat, b: nat, n: nat)
    requires a <= b && n > 0
    ensures a / n <= b / n
  {
    var d := b / n;
    assert b == d * n + b % n && (d + 1) * n == d * n + n;
    DivBelow(a, d, n);
  }

  /** Adding a multiple of the modulus does not change the residue. */
  lemma SameResidue(x: int, y: int, c: int, m: nat)
    requires m > 0 && x == y + c * m
    ensures x % m == y % m
  {
    var d := x / m - y / m - c;
    assert x == (x / m) * m + x % m && y == (y / m) * m + y % m;
    assert d * m == (x / m) * m - (y / m) * m - c * m;
    if d >= 1 { MulMonotone(1, d, m); }
    if d <= -1 { MulMonotone(d, -1, m); }
  }

  /** Equal residues differ by a multiple of the modulus. */
  lemma ResidueGap(a: int, b: int, m: nat) returns (q: int)
    requires m > 0 && a % m == b % m
    ensures b - a == q * m
  {
    q := b / m - a / m;
    assert a == (a / m) * m + a % m && b == (b / m) * m + b % m;
    assert q * m == (b / m) * m - (a / m) * m;
  }

  /** Reducing first modulo a multiple of m changes nothing modulo m. */
  lemma ResidueOfResidue(x: int, q: nat, m: nat)
    requires m > 0 && q > 0
    ensures q * m > 0 && (x % (q * m)) % m == x % m
  {
    MulMonotone(1, q, m);
    var n := q * m;
    var d := x / n;
    assert x == d * n + x % n;
    assert d * n == (d * q) * m;
    SameResidue(x, x % n, d * q, m);
  }

  lemma OddProduct(a: int, b: int)
    requires a % 2 == 1 && b % 2 == 1
    ensures (a * b) % 2 == 1
  {
    var e, g := a / 2, b / 2;
    assert a * b == (2 * e + 1) * b == 2 * (e * b) + b;
  }
}
