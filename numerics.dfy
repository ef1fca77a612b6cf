/**
 Real-number helpers shared by the solar-time and radiation modules. Floating
 point is modelled by exact reals; the trigonometric functions of numpy are
 not modelled and are passed around as uninterpreted functions.
 */
module Numerics {

  /** numpy's np.pi. */
  const Pi: real := 3.141592653589793

  /** The numpy trigonometric functions the estimator calls, left uninterpreted. */
  datatype Trig = Trig(sin: real -> real, cos: real -> real, tan: real -> real, arccos: real -> real)

  /** Sine and cosine stay within [-1, 1], as the real functions do. */
  ghost predicate BoundedSinCos(trig: Trig) {
    (forall x :: -1.0 <= trig.sin(x) <= 1.0) && (forall x :: -1.0 <= trig.cos(x) <= 1.0)
  }

  function Abs(x: real): (r: real)
    ensures r >= 0.0 && (r == x || r == -x)
  {
    if x < 0.0 then -x else x
  }

  function Min(a: real, b: real): (r: real)
    ensures r <= a && r <= b && (r == a || r == b)
  {
    if a <= b then a else b
  }

  /** Python's float `x % 360.0`: x - 360 * floor(x / 360), which takes the sign of the divisor. */
  function FloatMod360(x: real): (r: real)
    ensures 0.0 <= r < 360.0
    ensures (x - r) / 360.0 == ((x - r) / 360.0).Floor as real
    ensures 0.0 <= x < 360.0 ==> r == x
  {
    var q := (x / 360.0).Floor;
    assert q as real <= x / 360.0 < q as real + 1.0;
    x - 360.0 * q as real
  }
}
