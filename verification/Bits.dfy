/** Bits of natural numbers. */
module Bits {
  import opened HeapSizes

  /** Bit `k` of `b`. */
  predicate Bit(b: nat, k: nat) {
    b / Pow2(k) % 2 == 1
  }

  lemma MulAtLeast(m: nat, k: int)
    requires k >= 1
    ensures m * k >= m
  {
  }

  /** Quotient and remainder are determined by the number. */
  lemma DivModIs(n: nat, m: nat, q: nat, r: nat)
    requires n == m * q + r && r < m
    ensures n / m == q && n % m == r
  {
    var a, b := n / m, n % m;
    assert m * a + b == m * q + r;
    assert m * (a - q) == r - b && m * (q - a) == b - r;
    if a > q { MulAtLeast(m, a - q); }
    if q > a { MulAtLeast(m, q - a); }
  }

  lemma Halves(z: nat, m: nat)
    requires m > 0
    ensures z / (2 * m) == z / 2 / m && z % (2 * m) / 2 == z / 2 % m && z % (2 * m) % 2 == z % 2
  {
    var d := 2 * m;
    var q, r := z / d, z % d;
    var t := m * q;
    assert z == d * q + r && d * q == 2 * t;
    assert z / 2 == t + r / 2;
    DivModIs(z / 2, m, q, r / 2);
  }

  lemma BitHalf(b: nat, k: nat)
    ensures Bit(b, k + 1) <==> Bit(b / 2, k)
  {
    Halves(b, Pow2(k));
  }

  /** Cutting a number to `n` bits keeps them. */
  lemma {:induction false} MaskBit(z: nat, n: nat, k: nat)
    requires k < n
    ensures Bit(z % Pow2(n), k) <==> Bit(z, k)
  {
    Halves(z, Pow2(n - 1));
    if k > 0 {
      BitHalf(z % Pow2(n), k - 1);
      BitHalf(z, k - 1);
      MaskBit(z / 2, n - 1, k - 1);
    }
  }
}
