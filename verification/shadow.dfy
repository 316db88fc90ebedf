/**
 The simulated drop shadow of a hand (`getShadowFromLight`, app.js lines 6-12
 and 34-48): the hand's angle is compared with a fixed light direction, and
 the cosine of the difference sets how dark and how soft the shadow is.

 `Math.cos` and `Math.sin` are not modelled: the caller passes them in as
 functions of an angle in degrees (`cosDeg(d)` stands for
 `Math.cos(d * DEG_TO_RAD)`), and only the fact that a cosine lies in [-1, 1]
 is assumed of them.
 */
module Shadow {
  import opened Angle

  const LightAngle: real := 345.0
  const ShadowDistance: real := 15.0
  const MaxOpacity: real := 0.8
  const BaseBlur: real := 4.0
  const BlurRange: real := 4.0

  /** The four numbers the `drop-shadow` directive is formatted from. */
  datatype ShadowSpec = ShadowSpec(offsetX: real, offsetY: real, blur: real, opacity: real)

  /** A stand-in for a cosine: every value lies in [-1, 1]. */
  ghost predicate IsCosineLike(cosDeg: real -> real) {
    forall d :: -1.0 <= cosDeg(d) <= 1.0
  }

  /**
   The diff angle of a hand: its direction relative to the light, normalized.
   Every hand angle from -195 degrees upward (so every angle a clock hand
   takes) yields a diff in [-180, 180).
   */
  function DiffFromLight(handDeg: real): (d: real)
    ensures SameDirection(d, handDeg - LightAngle)
    ensures handDeg >= LightAngle - 540.0 ==> -HalfRotation <= d < HalfRotation
  {
    NormalizeAngle(handDeg - LightAngle)
  }

  /**
   How far the hand points away from the light: 0 when the cosine is 1
   (facing the light), 1 when it is -1 (pointing directly away).
   */
  function Intensity(c: real): (i: real)
    requires -1.0 <= c <= 1.0
    ensures 0.0 <= i <= 1.0
    ensures i == 0.0 <==> c == 1.0
    ensures i == 1.0 <==> c == -1.0
  {
    (1.0 - c) / 2.0
  }

  /**
   `getShadowFromLight` up to the string formatting: the offsets, blur and
   opacity of a hand's shadow. Opacity stays in [0, MaxOpacity] and blur in
   [BaseBlur, BaseBlur + BlurRange]; since both grow with the same intensity,
   the blur is fixed by the opacity. The shadow vanishes exactly when the
   cosine of the diff is 1, and is darkest exactly when it is -1.
   */
  function ShadowFromLight(handDeg: real, cosDeg: real -> real, sinDeg: real -> real): (sh: ShadowSpec)
    requires IsCosineLike(cosDeg)
    ensures 0.0 <= sh.opacity <= MaxOpacity
    ensures BaseBlur <= sh.blur <= BaseBlur + BlurRange
    ensures sh.blur == BaseBlur + (BlurRange / MaxOpacity) * sh.opacity
    ensures -ShadowDistance <= sh.offsetY <= ShadowDistance
    ensures sh.opacity == 0.0 <==> cosDeg(DiffFromLight(handDeg)) == 1.0
    ensures sh.opacity == MaxOpacity <==> cosDeg(DiffFromLight(handDeg)) == -1.0
  {
    var diff := DiffFromLight(handDeg);
    var c := cosDeg(diff);
    var s := sinDeg(diff);
    var intensity := Intensity(c);
    ShadowSpec(s * ShadowDistance, -c * ShadowDistance,
               BaseBlur + BlurRange * intensity, MaxOpacity * intensity)
  }

  /**
   A hand pointing at the light (345 degrees) casts the faintest, sharpest
   shadow, straight down the hand's axis.
   */
  lemma FacingLight(cosDeg: real -> real, sinDeg: real -> real)
    requires IsCosineLike(cosDeg) && cosDeg(0.0) == 1.0 && sinDeg(0.0) == 0.0
    ensures ShadowFromLight(LightAngle, cosDeg, sinDeg)
         == ShadowSpec(0.0, -ShadowDistance, BaseBlur, 0.0)
  {
    NormalizeExamples();
  }

  /**
   A hand pointing directly away from the light (165 degrees, diff -180)
   casts the darkest, softest shadow.
   */
  lemma AwayFromLight(cosDeg: real -> real, sinDeg: real -> real)
    requires IsCosineLike(cosDeg) && cosDeg(-180.0) == -1.0
    ensures ShadowFromLight(165.0, cosDeg, sinDeg).opacity == MaxOpacity
    ensures ShadowFromLight(165.0, cosDeg, sinDeg).blur == BaseBlur + BlurRange
    ensures ShadowFromLight(165.0, cosDeg, sinDeg).offsetY == ShadowDistance
  {
    NormalizeExamples();
  }

  /**
   For a hand angle in [0, 360) the diff is the hand's offset from 345
   degrees, wrapped into [-180, 180); it is zero exactly when the hand points
   at the light and -180 exactly when it points away.
   */
  lemma HandDiff(handDeg: real)
    requires 0.0 <= handDeg < FullRotation
    ensures DiffFromLight(handDeg)
         == if handDeg >= 165.0 then handDeg - LightAngle else handDeg + 15.0
    ensures DiffFromLight(handDeg) == 0.0 <==> handDeg == LightAngle
    ensures DiffFromLight(handDeg) == -HalfRotation <==> handDeg == 165.0
  {
    var y := if handDeg >= 165.0 then handDeg - LightAngle else handDeg + 15.0;
    assert SameDirection(y, handDeg - LightAngle) by {
      var q := (y - (handDeg - LightAngle)) / FullRotation;
      assert q == if handDeg >= 165.0 then 0.0 else 1.0;
    }
    NormalizeUnique(handDeg - LightAngle, y);
  }

  /**
   The shadow does not jump when a hand's angle gains a full turn: the
   normalization removes the seam at the 0/360 wrap, whatever the cosine.
   */
  lemma ShadowPeriodic(handDeg: real, cosDeg: real -> real, sinDeg: real -> real)
    requires IsCosineLike(cosDeg)
    requires handDeg >= LightAngle - 540.0
    ensures ShadowFromLight(handDeg + FullRotation, cosDeg, sinDeg)
         == ShadowFromLight(handDeg, cosDeg, sinDeg)
  {
    NormalizePeriodic(handDeg - LightAngle);
    assert handDeg + FullRotation - LightAngle == handDeg - LightAngle + FullRotation;
  }

  /**
   Two hands at the same angular distance either side of the light cast
   equally dark and equally soft shadows, given an even cosine.
   */
  lemma ShadowSymmetric(d: real, cosDeg: real -> real, sinDeg: real -> real)
    requires IsCosineLike(cosDeg)
    requires -HalfRotation < d < HalfRotation && cosDeg(d) == cosDeg(-d)
    ensures ShadowFromLight(LightAngle + d, cosDeg, sinDeg).opacity
         == ShadowFromLight(LightAngle - d, cosDeg, sinDeg).opacity
    ensures ShadowFromLight(LightAngle + d, cosDeg, sinDeg).blur
         == ShadowFromLight(LightAngle - d, cosDeg, sinDeg).blur
  {
    NormalizeFixedPoints(d);
    NormalizeFixedPoints(-d);
    assert LightAngle + d - LightAngle == d;
    assert LightAngle - d - LightAngle == -d;
  }

  /** The further the hand turns from the light (smaller cosine), the darker and softer its shadow. */
  lemma ShadowMonotone(h1: real, h2: real, cosDeg: real -> real, sinDeg: real -> real)
    requires IsCosineLike(cosDeg)
    requires cosDeg(DiffFromLight(h1)) >= cosDeg(DiffFromLight(h2))
    ensures ShadowFromLight(h1, cosDeg, sinDeg).opacity <= ShadowFromLight(h2, cosDeg, sinDeg).opacity
    ensures ShadowFromLight(h1, cosDeg, sinDeg).blur <= ShadowFromLight(h2, cosDeg, sinDeg).blur
  {
  }

  /** With a genuine sine/cosine pair the offset always has length ShadowDistance. */
  lemma OffsetLength(handDeg: real, cosDeg: real -> real, sinDeg: real -> real)
    requires IsCosineLike(cosDeg)
    requires var d := DiffFromLight(handDeg); sinDeg(d) * sinDeg(d) + cosDeg(d) * cosDeg(d) == 1.0
    ensures var sh := ShadowFromLight(handDeg, cosDeg, sinDeg);
            sh.offsetX * sh.offsetX + sh.offsetY * sh.offsetY == ShadowDistance * ShadowDistance
  {
    var d := DiffFromLight(handDeg);
    var s, c := sinDeg(d), cosDeg(d);
    assert (s * 15.0) * (s * 15.0) + (-c * 15.0) * (-c * 15.0) == 225.0 * (s * s + c * c);
  }
}
