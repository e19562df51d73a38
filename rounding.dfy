/** Rounding of a rate to four decimal places, as `round(x, 4)` does for the
    WACC. Exact reals replace binary floating point; a value exactly halfway
    between two four-decimal neighbours is rounded upward. */
module Rounding {

  /** Number of four-decimal steps in one unit. */
  const Scale: real := 10000.0

  /** Largest distance between a value and its rounded form: half a step. */
  const HalfStep: real := 1.0 / 20000.0

  /** True when `x` is a whole number of four-decimal steps. */
  predicate OnGrid(x: real) {
    (x * Scale).Floor as real == x * Scale
  }

  /** The nearest multiple of 1/10000 (ties upward). */
  function Round4(x: real): (r: real)
    ensures x - HalfStep < r <= x + HalfStep
    ensures OnGrid(r)
  {
    var k := (x * Scale + 0.5).Floor;
    assert k as real * Scale / Scale == k as real;
    k as real / Scale
  }

  /** Rounding keeps the order of its arguments. */
  lemma Round4Monotone(x: real, y: real)
    requires x <= y
    ensures Round4(x) <= Round4(y)
  {
    var a, b := (x * Scale + 0.5).Floor, (y * Scale + 0.5).Floor;
    assert a <= b;
    assert a as real / Scale <= b as real / Scale;
  }

  /** A value that is already a whole number of steps is left unchanged. */
  lemma Round4OnGrid(x: real)
    requires OnGrid(x)
    ensures Round4(x) == x
  {
    var k := (x * Scale).Floor;
    assert (x * Scale + 0.5).Floor == k;
  }
}
