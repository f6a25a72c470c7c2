/** Exact model of `math.pow(x, n)` for a non-negative whole exponent. */
module RealPow {

  /** x raised to the n-th power; positive whenever the base is. */
  function Pow(x: real, n: nat): (r: real)
    ensures x > 0.0 ==> r > 0.0
  {
    if n == 0 then 1.0 else x * Pow(x, n - 1)
  }

  /** A base above one raised to a positive power stays above one. */
  lemma {:induction false} PowAboveOne(x: real, n: nat)
    requires x > 1.0 && n >= 1
    ensures Pow(x, n) > 1.0
  {
    if n > 1 {
      PowAboveOne(x, n - 1);
      assert x * Pow(x, n - 1) > 1.0 * Pow(x, n - 1);
    }
  }

  /** For a base of at least one, a larger exponent gives a larger power. */
  lemma {:induction false} PowMonotone(x: real, j: nat, k: nat)
    requires x >= 1.0 && j <= k
    ensures Pow(x, j) <= Pow(x, k)
    decreases k
  {
    if j < k {
      PowMonotone(x, j, k - 1);
      assert Pow(x, k - 1) >= 1.0 by { PowMonotone(x, 0, k - 1); }
      assert x * Pow(x, k - 1) >= 1.0 * Pow(x, k - 1);
    }
  }
}
