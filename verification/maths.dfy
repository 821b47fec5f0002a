/** Real-number helpers shared by the model: the `f32::min`/`f32::max` of the
    standard library (on reals there is no NaN, so they are plain min/max) and
    the square-root relation that stands in for `sqrt`. */
module Maths {

  /** `a.min(b)`. */
  function Min(a: real, b: real): (r: real)
    ensures r <= a && r <= b
    ensures r == a || r == b
  {
    if a <= b then a else b
  }

  /** `a.max(b)`. */
  function Max(a: real, b: real): (r: real)
    ensures a <= r && b <= r
    ensures r == a || r == b
  {
    if a >= b then a else b
  }

  function Abs(a: real): real {
    if a < 0.0 then -a else a
  }

  /** `s` is the non-negative square root of `x`. */
  predicate IsSqrt(x: real, s: real) {
    s >= 0.0 && s * s == x
  }

  /** A function that returns the square root of every non-negative argument;
      the model takes `sqrt` as such a parameter. */
  ghost predicate SqrtFunction(sqrt: real -> real) {
    forall x: real :: x >= 0.0 ==> IsSqrt(x, sqrt(x))
  }
}
