/**
 Angle arithmetic of the clock: JavaScript's remainder operator on numbers and
 the `normalizeAngle` helper built on it (app.js lines 2-3 and 28-32).

 JavaScript's `%` truncates the quotient toward zero, so the remainder takes
 the sign of the dividend; Dafny's `%` is Euclidean. `RemTurn` writes the
 JavaScript operator out explicitly for the one divisor the code uses. Angles are modelled as mathematical reals
 (floating-point rounding is not modelled).
 */
module Angle {

  const FullRotation: real := 360.0
  const HalfRotation: real := 180.0

  /** The integer part of `x`, rounding toward zero. */
  function Trunc(x: real): (k: int)
    ensures x >= 0.0 ==> k as real <= x < k as real + 1.0
    ensures x < 0.0 ==> k as real - 1.0 < x <= k as real
  {
    if x >= 0.0 then x.Floor else -((-x).Floor)
  }

  /** True iff `q` is an integer. */
  predicate IsWhole(q: real) {
    q.Floor as real == q
  }

  /**
   JavaScript's `a % FULL_ROTATION`: the remainder after removing the
   truncated number of whole turns, with the sign of `a`.
   */
  function RemTurn(a: real): (r: real)
    ensures a >= 0.0 ==> 0.0 <= r < FullRotation
    ensures a < 0.0 ==> -FullRotation < r <= 0.0
    ensures IsWhole((a - r) / FullRotation)
  {
    var k := Trunc(a / FullRotation);
    assert (FullRotation * k as real) / FullRotation == k as real;
    a - FullRotation * k as real
  }

  /** Two angles point the same way: they differ by a whole number of turns. */
  predicate SameDirection(a: real, b: real) {
    IsWhole((a - b) / FullRotation)
  }

  /**
   `normalizeAngle`: shift by a turn and a half, take the JavaScript remainder
   by a full turn, shift back. The result points the same way as the input.
   Because the bias is only one and a half turns, the result lies in
   [-180, 180) only for inputs from -540 upward; below that the dividend is
   negative and the result falls in (-540, -180].
   */
  function NormalizeAngle(angle: real): (r: real)
    ensures SameDirection(r, angle)
    ensures angle >= -540.0 ==> -HalfRotation <= r < HalfRotation
    ensures angle < -540.0 ==> -540.0 < r <= -HalfRotation
  {
    var a := angle + FullRotation + HalfRotation;
    var r := RemTurn(a) - HalfRotation;
    WholeShift((a - RemTurn(a)) / FullRotation);
    assert (r - angle) / FullRotation == 1.0 - (a - RemTurn(a)) / FullRotation;
    r
  }

  lemma WholeShift(w: real)
    requires IsWhole(w)
    ensures IsWhole(1.0 - w)
  {
    var k := w.Floor;
    assert w == k as real;
    assert 1.0 - w == (1 - k) as real;
    assert ((1 - k) as real).Floor == 1 - k;
  }

  lemma WholeDifference(p: real, q: real)
    requires IsWhole(p) && IsWhole(q)
    ensures IsWhole(p - q)
  {
    assert p - q == (p.Floor - q.Floor) as real;
  }

  lemma WholeNearZero(w: real)
    requires IsWhole(w) && -1.0 < w < 1.0
    ensures w == 0.0
  {
  }

  /**
   For inputs from -540 upward, `NormalizeAngle` returns THE representative
   of the input's direction in [-180, 180): any angle in that interval that
   points the same way is the result.
   */
  lemma {:induction false} NormalizeUnique(angle: real, y: real)
    requires angle >= -540.0
    requires -HalfRotation <= y < HalfRotation && SameDirection(y, angle)
    ensures NormalizeAngle(angle) == y
  {
    var r := NormalizeAngle(angle);
    WholeDifference((r - angle) / FullRotation, (y - angle) / FullRotation);
    assert (r - y) / FullRotation == (r - angle) / FullRotation - (y - angle) / FullRotation;
    WholeNearZero((r - y) / FullRotation);
  }

  /** The angles `NormalizeAngle` leaves alone are exactly those in [-180, 180). */
  lemma NormalizeFixedPoints(angle: real)
    ensures NormalizeAngle(angle) == angle <==> -HalfRotation <= angle < HalfRotation
  {
    if -HalfRotation <= angle < HalfRotation {
      assert SameDirection(angle, angle) by {
        assert (angle - angle) / FullRotation == 0.0;
      }
      NormalizeUnique(angle, angle);
    }
  }

  /** Normalizing twice is normalizing once, on the inputs where the range holds. */
  lemma NormalizeIdempotent(angle: real)
    requires angle >= -540.0
    ensures NormalizeAngle(NormalizeAngle(angle)) == NormalizeAngle(angle)
  {
    NormalizeFixedPoints(NormalizeAngle(angle));
  }

  /** One more full turn of input does not change the result: no seam at the wrap. */
  lemma NormalizePeriodic(angle: real)
    requires angle >= -540.0
    ensures NormalizeAngle(angle + FullRotation) == NormalizeAngle(angle)
  {
    var r := NormalizeAngle(angle);
    assert SameDirection(r, angle + FullRotation) by {
      WholeDifference((r - angle) / FullRotation, 1.0);
      assert (r - (angle + FullRotation)) / FullRotation == (r - angle) / FullRotation - 1.0;
    }
    NormalizeUnique(angle + FullRotation, r);
  }

  /** Sample values of `normalizeAngle`, including the half-turn that maps to -180. */
  lemma NormalizeExamples()
    ensures NormalizeAngle(0.0) == 0.0
    ensures NormalizeAngle(180.0) == -180.0
    ensures NormalizeAngle(181.0) == -179.0
    ensures NormalizeAngle(-181.0) == 179.0
    ensures NormalizeAngle(-540.0) == -180.0
    ensures NormalizeAngle(-600.0) == -240.0
  {
  }
}
