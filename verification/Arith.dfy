/** Powers of two, products and quotients, shared by the modules that calculate with them. */
module Arith {

  function Pow2(n: nat): (p: nat)
    ensures p > 0
  {
    if n == 0 then 1 else 2 * Pow2(n - 1)
  }

  lemma {:induction false} Pow2Adds(m: nat, n: nat)
    ensures Pow2(m + n) == Pow2(m) * Pow2(n)
  {
    if m > 0 {
      Pow2Adds(m - 1, n);
      assert Pow2(m + n) == 2 * Pow2(m + n - 1);
      DoubledFactor(Pow2(m - 1), Pow2(n));
    }
  }

  lemma Pow2Of16()
    ensures Pow2(16) == 65536
  {
    assert Pow2(2) == 4;
    Pow2Adds(2, 2);
    Pow2Adds(4, 4);
    Pow2Adds(8, 8);
  }

  lemma DoubledFactor(a: nat, b: nat)
    ensures (2 * a) * b == 2 * (a * b)
  {
  }

  lemma Monotone(k: nat, l: nat, step: nat)
    requires k <= l
    ensures k * step <= l * step
  {
  }

  /** A multiple is divisible, and dividing gives the factor back. */
  lemma ProductDivides(c: int, m: nat)
    requires m > 0
    ensures (c * m) % m == 0 && c * m / m == c
  {
    NonzeroMultipleIsFar(c - c * m / m, m);
  }

  lemma NonzeroMultipleIsFar(x: int, m: nat)
    ensures x == 0 || x * m >= m || x * m <= 0 - m as int
  {
  }
}
