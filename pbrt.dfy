/** The scalar substrate of the renderer (src/core/pbrt.rs): the `Float` type,
    the extreme values the empty-bounds sentinel is built from, the scalar
    `min`/`max`/`abs` the geometry types call, and linear interpolation. */
module Pbrt {

  /** `Float` is an f64 in the renderer; the model idealises it as an exact
      real, so NaN, infinities, signed zero and rounding do not arise. */
  type Float = real

  /** A Rust `usize` on a 64-bit target; indices and corner numbers have this type. */
  type Usize = i: int | 0 <= i < 0x1_0000_0000_0000_0000

  /** `Float::MAX`, the largest finite f64, written out exactly. */
  const FLOAT_MAX: Float := 179769313486231570814527423731704356798070567525844996598917476803157260780028538760589558632766878171540458953514382464234321326889464182768467546703537516986049910576551282076245490090389328944075868508455133942304583236903222948165808559332123348274797826204144723168738177180919299881250404026184124858368.0

  /** `Float::MIN`, the most negative finite f64 (the negation of `Float::MAX`). */
  const FLOAT_MIN: Float := -FLOAT_MAX

  /** The sentinel extremes are ordered, with zero between them. */
  lemma SentinelOrder()
    ensures FLOAT_MIN < 0.0 < FLOAT_MAX
  {
  }

  /** `f64::min` on non-NaN operands. */
  function Min(a: Float, b: Float): (r: Float)
    ensures r <= a && r <= b
    ensures r == a || r == b
  {
    if a <= b then a else b
  }

  /** `f64::max` on non-NaN operands. */
  function Max(a: Float, b: Float): (r: Float)
    ensures r >= a && r >= b
    ensures r == a || r == b
  {
    if a >= b then a else b
  }

  /** `f64::abs`. */
  function Abs(a: Float): (r: Float)
    ensures r >= 0.0
    ensures r == a || r == -a
  {
    if a < 0.0 then -a else a
  }

  /** `lerp(t, v1, v2) = (1 - t) * v1 + t * v2`. */
  function Lerp(t: Float, v1: Float, v2: Float): Float
  {
    (1.0 - t) * v1 + t * v2
  }

  /** Lerp is the affine map that moves `v1` by `t` times the span `v2 - v1`;
      at `t == 0` it is `v1`, at `t == 1` it is `v2`, and a zero span is fixed. */
  lemma LerpAffine(t: Float, v1: Float, v2: Float)
    ensures Lerp(t, v1, v2) - v1 == t * (v2 - v1)
    ensures Lerp(0.0, v1, v2) == v1
    ensures Lerp(1.0, v1, v2) == v2
    ensures Lerp(t, v1, v1) == v1
  {
  }

  /** For `t` in [0, 1] the interpolant lies between the two end values. */
  lemma LerpBetween(t: Float, v1: Float, v2: Float)
    requires 0.0 <= t <= 1.0
    ensures Min(v1, v2) <= Lerp(t, v1, v2) <= Max(v1, v2)
  {
    var r := Lerp(t, v1, v2);
    LerpAffine(t, v1, v2);
    if v1 <= v2 {
      ScaledSpan(t, v2 - v1);
      assert v1 <= r <= v2;
    } else {
      ScaledSpan(t, v1 - v2);
      assert t * (v2 - v1) == -(t * (v1 - v2));
      assert v2 <= r <= v1;
    }
  }

  /** A fraction `t` in [0, 1] of a non-negative span stays within the span. */
  lemma ScaledSpan(t: Float, w: Float)
    requires 0.0 <= t <= 1.0 && 0.0 <= w
    ensures 0.0 <= t * w <= w
  {
    assert (1.0 - t) * w >= 0.0;
    assert w - t * w == (1.0 - t) * w;
  }
}
