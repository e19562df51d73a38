/** Small facts of real arithmetic that the solver does not find unaided
    once products and quotients of several variables are involved. */
module RealAlgebra {

  lemma ProductNonNegative(a: real, b: real)
    requires a >= 0.0 && b >= 0.0
    ensures a * b >= 0.0
  {
  }

  lemma ProductPositive(a: real, b: real)
    requires a > 0.0 && b > 0.0
    ensures a * b > 0.0
  {
  }

  /** Multiplication by a non-zero factor can be cancelled. */
  lemma MulCancel(x: real, y: real, m: real)
    requires m != 0.0 && x * m == y * m
    ensures x == y
  {
    assert (x - y) * m == 0.0;
  }

  /** A factor in the numerator can be taken out of a division. */
  lemma ScaleDiv(k: real, x: real, d: real)
    requires d != 0.0
    ensures (k * x) / d == k * (x / d)
  {
    var q := x / d;
    assert q * d == x;
    assert (k * q) * d == k * x;
  }
}
