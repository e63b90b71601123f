/**
 * Facts about Euclidean division that the grid and raster proofs rely on.
 * Every remainder here is taken by a positive modulus.
 */
module Arithmetic {

  lemma MulNonneg(a: int, b: int)
    requires a >= 0 && b >= 0
    ensures a * b >= 0
  {
  }

  /** A quotient-remainder decomposition with `0 <= r < m` is the one `/` and `%` give. */
  lemma DivModUnique(x: int, m: int, q: int, r: int)
    requires m > 0 && 0 <= r < m && x == q * m + r
    ensures x % m == r && x / m == q
  {
    var q' := x / m;
    assert x == q' * m + x % m;
    if q' > q {
      MulNonneg(q' - q - 1, m);
      assert false;
    } else if q' < q {
      MulNonneg(q - q' - 1, m);
      assert false;
    }
  }

  /** Adding whole periods does not change the remainder. */
  lemma ModPeriodic(a: int, q: int, m: int)
    requires m > 0
    ensures (a + q * m) % m == a % m
  {
    var p := a / m;
    assert a == p * m + a % m;
    assert a + q * m == (p + q) * m + a % m;
    DivModUnique(a + q * m, m, p + q, a % m);
  }

  /** Reducing the left operand first does not change the remainder of a sum. */
  lemma ModAddLeft(a: int, b: int, m: int)
    requires m > 0
    ensures (a % m + b) % m == (a + b) % m
  {
    var p := a / m;
    assert a == p * m + a % m;
    assert a + b == (a % m + b) + p * m;
    ModPeriodic(a % m + b, p, m);
  }

  /** An in-range value is its own remainder. */
  lemma ModSmall(a: int, m: int)
    requires 0 <= a < m
    ensures a % m == a && a / m == 0
  {
    DivModUnique(a, m, 0, a);
  }
}
