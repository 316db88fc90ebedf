# Analog clock: angle, shadow, face-layout and tick model

A Dafny model of the computational core of an analog clock web page
(`app.js`). The page draws a dial with 12 numerals, 12 dots and 60 tick
marks, turns three hands once a second, gives each hand a drop shadow that
depends on where it points relative to a fixed light at 345 degrees, shows a
digital `HH:MM:SS` readout, and re-arms its timer so that each tick lands on
a second boundary.

The model keeps the pure parts and proves what they promise:

- `Angle` (`angle.dfy`): JavaScript's `%` written out for reals (the
  remainder takes the sign of the dividend, unlike Dafny's Euclidean `%`) and
  `normalizeAngle`, which maps an angle to its representative in [-180, 180)
  for every input from -540 upward.
- `Shadow` (`shadow.dfy`): `getShadowFromLight` up to its string
  formatting. The diff angle, intensity, opacity, blur and offsets are
  computed as in the source; `Math.cos` and `Math.sin` are parameters
  (functions of an angle in degrees), and the cosine is only assumed to stay
  in [-1, 1].
- `FaceLayout` (`face.dfy`): `renderClockNumbers` as three sequences of
  placement records (angle, ring radius, counter-rotations, numeral or tick
  kind) instead of HTML strings.
- `ClockTime` (`clocktime.dfy`): the hours, minutes and seconds a `Date`
  reports, and the reading one second later.
- `Hands` (`hands.dfy`): `updateHands` in integer tenths of a degree, which
  is exact for the real values of the code's formulas (not for their
  floating-point results), plus the rotation and shadow each hand receives.
- `Digital` (`digital.dfy`): `String(n).padStart(2, "0")` and the
  `HH:MM:SS` readout, with a parser that reads it back.
- `Ticker` (`ticker.dfy`): the `1000 - ms` delay of `tick`, the schedule of
  tick times it produces, and one whole tick as a frame.

Some behaviour of the code that a reader might not expect, modelled as
written:

- `normalizeAngle`'s range is [-180, 180): with JavaScript's `%`, 180 maps
  to -180 (`NormalizeExamples`).
- The `+ 360 + 180` bias in `normalizeAngle` covers only inputs from -540
  upward. Below that the result lies in (-540, -180]; for example -600 gives
  -240. Every hand angle is in [0, 360), so `getShadowFromLight` never sees
  such an input (`HandDiffsInRange`).
- A numeral gets `rotate(-deg)` twice: once at the end of its box's
  transform and once on the span holding its glyph. The box ends up upright,
  and the glyph's net turn is minus its angle (`NumeralNetRotation`).
  Whether the span's transform shows depends on the stylesheet, which is not
  part of this model.
- A ring radius is half the width minus the padding, with no guard: a
  padding larger than half the width gives a negative radius.
- The tick delay `1000 - ms` lies in [1, 1000]; it is never 0.

## Model

| member | source | states |
|---|---|---|
| `Angle.RemTurn` | app.js:30 | JavaScript's `x % 360`: the result is in [0, 360) for a non-negative dividend and in (-360, 0] for a negative one, and it differs from `x` by a whole number of turns |
| `Angle.NormalizeAngle` | app.js:28-32 | the result points the same way as the input; it lies in [-180, 180) for inputs from -540 upward and in (-540, -180] below that |
| `Angle.NormalizeUnique` | app.js:28-32 | for inputs from -540 upward, any angle in [-180, 180) that points the same way as the input is the result |
| `Angle.NormalizeFixedPoints` | app.js:28-32 | `normalizeAngle` leaves an angle unchanged exactly when it lies in [-180, 180) |
| `Angle.NormalizeIdempotent` | app.js:28-32 | normalizing twice equals normalizing once, for inputs from -540 upward |
| `Angle.NormalizePeriodic` | app.js:28-32 | adding a full turn to an input from -540 upward does not change the result |
| `Angle.NormalizeExamples` | app.js:28-32 | 0 ↦ 0, 180 ↦ -180, 181 ↦ -179, -181 ↦ 179, -540 ↦ -180, -600 ↦ -240 |
| `Shadow.DiffFromLight` | app.js:35 | the diff points the same way as hand minus light, and lies in [-180, 180) for every hand angle from -195 upward |
| `Shadow.Intensity` | app.js:45 | for a cosine in [-1, 1] the intensity is in [0, 1]; it is 0 exactly when the cosine is 1 and 1 exactly when it is -1 |
| `Shadow.ShadowFromLight` | app.js:34-48 | opacity is in [0, 0.8], blur in [4, 8], the vertical offset within ±15, and blur is 4 plus 5 times the opacity; opacity is 0 exactly when the cosine of the diff is 1 and 0.8 exactly when it is -1 |
| `Shadow.FacingLight` | app.js:7-12 | a hand at the light angle (345) gets offset (0, -15), blur 4 and opacity 0 when cos 0 = 1 and sin 0 = 0 |
| `Shadow.AwayFromLight` | app.js:7-12 | a hand at 165 degrees (diff -180) gets opacity 0.8, blur 8 and vertical offset 15 when cos(-180) = -1 |
| `Shadow.HandDiff` | app.js:35 | for a hand in [0, 360) the diff is hand - 345 from 165 upward and hand + 15 below; it is 0 exactly at 345 and -180 exactly at 165 |
| `Shadow.ShadowPeriodic` | app.js:34-48 | for every hand angle from -195 upward, the angle one turn larger casts the same shadow, for any cosine and sine (below -195 the diff leaves the normalized range and the two can differ) |
| `Shadow.ShadowSymmetric` | app.js:34-48 | hands at the same distance either side of the light cast shadows of equal opacity and blur, given an even cosine |
| `Shadow.ShadowMonotone` | app.js:45-48 | a smaller cosine of the diff gives a shadow at least as dark and at least as soft |
| `Shadow.OffsetLength` | app.js:42-43 | with sin² + cos² = 1 the offset vector has length 15 |
| `Hands.HandsAt` | app.js:115-121 | all three hand angles lie in [0, 3600) tenths of a degree |
| `Hands.HandsInDegrees` | app.js:115-121 | in degrees the angles equal `s * 6`, `m * 6 + s * 0.1` and `(h % 12) * 30 + m * 0.5` |
| `Hands.ReadDial` | app.js:115-121 | reading a consistent dial gives a valid time on the 12-hour face |
| `Hands.ReadDialOfHands` | app.js:115-121 | the hands of any reading are consistent, and reading them back gives (h mod 12, m, s) |
| `Hands.HandsOfReadDial` | app.js:115-121 | every consistent set of angles is the dial of the time read back from it |
| `Hands.HandsTwelveHourPeriodic` | app.js:117 | the hands depend on the hour only through h mod 12 |
| `Hands.HandsAdvance` | app.js:119-121 | one second later the second hand moves 60 tenths and the minute hand 1 tenth, each modulo a turn; the hour hand moves 5 tenths exactly when the minute changes |
| `Hands.HandsExample` | app.js:115-121 | 14:05:09 gives 540, 309 and 625 tenths, that is 54, 30.9 and 62.5 degrees |
| `Hands.UpdateHands` | app.js:114-130 | each hand is rotated by its source formula and gets the shadow of that same angle |
| `Hands.HandDiffsInRange` | app.js:127-129 | every hand's diff from the light lies in [-180, 180), where normalization is exact |
| `Digital.DecimalString` | app.js:133 | `String(n)`: at least one decimal digit, denoting n, with no leading zero unless n = 0, and a single digit exactly when n < 10 |
| `Digital.PadStart` | app.js:133 | `padStart`: a long-enough string is unchanged; otherwise the result has the target length, ends with the string, and fill characters come first |
| `Digital.FieldTwoDigits` | app.js:133-135 | a padded field below 100 is two digits that denote the number |
| `Digital.FieldWide` | app.js:133-135 | a number from 100 upward is not truncated: its field is its whole decimal string |
| `Digital.FieldOfValue` | app.js:133-135 | every two-digit string is the padded field of the number it denotes |
| `Digital.Readout` | app.js:132-137 | the readout is 8 characters with ':' at positions 2 and 5 and two-digit fields denoting h, m and s |
| `Digital.ParseReadout` | app.js:137 | a decoded readout is always a valid reading |
| `Digital.ParseReadoutOfReadout` | app.js:132-137 | decoding the readout of a reading gives that reading back |
| `Digital.ReadoutOfParseReadout` | app.js:132-137 | every string that decodes is the readout of what it decodes to |
| `Digital.ReadoutExamples` | app.js:132-137 | 0:0:0 gives "00:00:00" and 14:05:09 gives "14:05:09" |
| `FaceLayout.RenderClockNumbers` | app.js:59-107 | 12 numerals, 12 dots and 60 ticks, each on its ring of radius `clientWidth / 2` minus its padding, each with its own mark kind |
| `FaceLayout.NumeralsAndDots` | app.js:77-97 | numeral i is at 30i degrees, labelled 12 for i = 0 and i otherwise, with -30i on both its box and its glyph; dot i is at 30i with no counter-rotation |
| `FaceLayout.NumeralLabelsArePermutation` | app.js:77-78 | the labels are 1 to 12, each exactly once, label n at index n mod 12 |
| `FaceLayout.NumeralUnderHourHand` | app.js:79 | each numeral sits where the hour hand points at that hour sharp |
| `FaceLayout.NumeralNetRotation` | app.js:83-84 | the numeral's box nets to rotation 0; its glyph nets to minus its angle |
| `FaceLayout.TicksFollowSecondHand` | app.js:99-100 | tick i sits where the second hand points at second i |
| `FaceLayout.TickSpacing` | app.js:99-101 | tick i is at 6i degrees; angles are in [0, 360) and rise in steps of 6; tick i is major exactly when i mod 5 = 0 |
| `FaceLayout.MajorTicksOfPrefix` | app.js:99-101 | among the first n ticks, the major ones are ticks 0, 5, 10, … below n, in order |
| `FaceLayout.TicksOfKindSplit` | app.js:101-103 | every tick is either major or minor |
| `FaceLayout.MajorTicks` | app.js:99-107 | the major ticks are exactly ticks 0, 5, …, 55 in order, 12 of them, each at a dot's angle, leaving 48 minor ticks |
| `FaceLayout.FaceExample` | app.js:59-79 | width 200 with numeral padding 20 puts the numerals on radius 80; numeral 0 reads 12 at 0 degrees and numeral 6 reads 6 at 180 degrees |
| `Ticker.TickDelay` | app.js:146 | for ms in 0..999 the delay is in [1, 1000] and ms + delay is a multiple of 1000 |
| `Ticker.NextTickTime` | app.js:146-147 | the next tick is due within 1000 ms, strictly later, on a second boundary |
| `Ticker.NextTickIsNextBoundary` | app.js:146-147 | no second boundary lies strictly between a tick and the next one it schedules |
| `Ticker.ScheduledTicks` | app.js:140-148 | all scheduled tick times are second boundaries; each is strictly later than the one before exactly when that tick's clock reading was not early |
| `Ticker.NextAfterLateTick` | app.js:146-147 | a tick that reads the clock `late` ms after a boundary (negative when early) schedules the next one `late / 1000 + 1` seconds after that boundary, rounding down |
| `Ticker.EarlyTickRepeats` | app.js:146-147 | a reading up to 1000 ms before a boundary schedules that same boundary, so that second is drawn twice |
| `Ticker.ScheduleSteps` | app.js:140-148 | consecutive scheduled ticks are `lateness / 1000 + 1` seconds apart, rounding down, for any lateness including a negative one |
| `Ticker.NoDrift` | app.js:140-148 | when every timer fires late by less than a second and never early, the k-th scheduled tick is exactly k seconds after the first |
| `Ticker.Tick` | app.js:140-148 | one tick draws the hands and readout of the same reading and requests a delay in [1, 1000] that ends the second |
| `Ticker.DialAgreesWithReadout` | app.js:143-144 | the time read off the hands equals the time the readout decodes to, modulo 12 hours |

## Left out

- DOM access (`cacheDOM`, `innerHTML`, writes to `style.transform` and `style.filter`, `applyRotation`) is presentation. The model returns the values these would write.
- The absent-element guard in `initClockResizeObserver` is left out. It only decides whether an observer is installed.
- Reading the CSS padding variables through `getComputedStyle` and `parseFloat` is left out. The paddings are real parameters. The `NaN` of a missing variable is not modelled.
- `Math.cos` and `Math.sin` are left out: they are floating-point trigonometry. They are parameters, and only the cosine's range [-1, 1] is assumed. `DEG_TO_RAD` is folded into those parameters, which take degrees.
- The `drop-shadow(...)` and `transform` strings with their float interpolation are not built. Neither is the `translateY(--Npx)` produced by a negative ring radius.
- Floating-point rounding is not modelled. Angles and shadow values are exact reals, so `seconds * 0.1` is exactly a tenth here.
- `Date`, `setTimeout`, `ResizeObserver` and `DOMContentLoaded` are left out: they are time sources, timers and event wiring. The reading, the millisecond and each timer's lateness by `Date`'s clock are parameters; the lateness may be negative, for a timer that fires early by that clock or a clock stepped back. `NextTickTime` takes the local millisecond-of-second to be the time value modulo 1000, which holds for whole-second time-zone offsets.
- `Shadow.ShadowFromLight`: says nothing about the offsets' values beyond the vertical bound, because they depend on the uninterpreted sine and cosine. `Shadow.OffsetLength` covers their length under sin² + cos² = 1.
