/**
 The hand angles of `updateHands` (app.js lines 114-130), kept in integer
 tenths of a degree. Every value the code produces (`seconds * 6`,
 `minutes * 6 + seconds * 0.1`, `hours * 30 + minutes * 0.5`) is a whole
 number of tenths, so the model is exact up to floating-point rounding.
 */
module Hands {
  import opened ClockTime
  import opened Angle
  import opened Shadow

  /** A full turn in tenths of a degree. */
  const TurnTenths: int := 3600

  datatype HandAngles = HandAngles(second: int, minute: int, hour: int)

  /** A hand angle in tenths, as the degrees `applyRotation` receives. */
  function Degrees(tenths: int): real {
    tenths as real / 10.0
  }

  /** The three hand angles of a reading, each within one turn. */
  function HandsAt(t: TimeOfDay): (a: HandAngles)
    requires Valid(t)
    ensures 0 <= a.second < TurnTenths && 0 <= a.minute < TurnTenths && 0 <= a.hour < TurnTenths
  {
    var hours := t.hours % 12;
    HandAngles(60 * t.seconds, 60 * t.minutes + t.seconds, 300 * hours + 5 * t.minutes)
  }

  /**
   In degrees, the three angles are exactly the source's formulas:
   6 per second, 6 per minute plus 0.1 per second, 30 per hour of the
   12-hour face plus 0.5 per minute.
   */
  lemma HandsInDegrees(t: TimeOfDay)
    requires Valid(t)
    ensures var a := HandsAt(t);
      && Degrees(a.second) == t.seconds as real * 6.0
      && Degrees(a.minute) == t.minutes as real * 6.0 + t.seconds as real * 0.1
      && Degrees(a.hour) == (t.hours % 12) as real * 30.0 + t.minutes as real * 0.5
  {
  }

  /** Hand angles that some reading produces: the three hands agree with each other. */
  predicate Consistent(a: HandAngles) {
    && 0 <= a.second < TurnTenths && a.second % 60 == 0
    && 0 <= a.minute < TurnTenths && a.minute % 60 == a.second / 60
    && 0 <= a.hour < TurnTenths && a.hour % 300 == 5 * (a.minute / 60)
  }

  /** Reading the time back off the dial (hours on the 12-hour face). */
  function ReadDial(a: HandAngles): (t: TimeOfDay)
    requires Consistent(a)
    ensures Valid(t) && t.hours < 12
  {
    TimeOfDay(a.hour / 300, a.minute / 60, a.second / 60)
  }

  /** The dial shows the reading modulo 12 hours, and nothing is lost beyond that. */
  lemma ReadDialOfHands(t: TimeOfDay)
    requires Valid(t)
    ensures Consistent(HandsAt(t))
    ensures ReadDial(HandsAt(t)) == TimeOfDay(t.hours % 12, t.minutes, t.seconds)
  {
    var h, m, s := t.hours % 12, t.minutes, t.seconds;
    DivMod(60 * s, 60, s, 0);
    DivMod(60 * m + s, 60, m, s);
    DivMod(300 * h + 5 * m, 300, h, 5 * m);
  }

  /** Every consistent set of angles is the dial of the reading taken back off it. */
  lemma HandsOfReadDial(a: HandAngles)
    requires Consistent(a)
    ensures HandsAt(ReadDial(a)) == a
  {
    var h, m, sec := a.hour / 300, a.minute / 60, a.second / 60;
    assert a.second == 60 * sec;
    assert a.minute == 60 * m + sec;
    assert a.hour == 300 * h + 5 * m;
    assert 0 <= h < 12;
    assert h % 12 == h;
  }

  /** Readings twelve hours apart put the hands in the same place. */
  lemma HandsTwelveHourPeriodic(t: TimeOfDay, u: TimeOfDay)
    requires Valid(t) && Valid(u)
    requires t.hours % 12 == u.hours % 12 && t.minutes == u.minutes && t.seconds == u.seconds
    ensures HandsAt(t) == HandsAt(u)
  {
  }

  /**
   One second later the second hand moves 6 degrees and the minute hand one
   tenth of a degree, each modulo a turn; the hour hand moves half a degree,
   and only when the minute changes.
   */
  lemma HandsAdvance(t: TimeOfDay)
    requires Valid(t)
    ensures HandsAt(NextSecond(t)).second == (HandsAt(t).second + 60) % TurnTenths
    ensures HandsAt(NextSecond(t)).minute == (HandsAt(t).minute + 1) % TurnTenths
    ensures HandsAt(NextSecond(t)).hour
         == if t.seconds == 59 then (HandsAt(t).hour + 5) % TurnTenths else HandsAt(t).hour
  {
    if t.seconds < 59 {
      AdvanceWithinMinute(t);
    } else if t.minutes < 59 {
      AdvanceToNextMinute(t);
    } else {
      NextHourHand(t);
      var a := HandsAt(t);
      DivMod(a.second + 60, TurnTenths, 1, 0);
      DivMod(a.minute + 1, TurnTenths, 1, 0);
    }
  }

  lemma AdvanceWithinMinute(t: TimeOfDay)
    requires Valid(t) && t.seconds < 59
    ensures HandsAt(NextSecond(t)).second == (HandsAt(t).second + 60) % TurnTenths
    ensures HandsAt(NextSecond(t)).minute == (HandsAt(t).minute + 1) % TurnTenths
    ensures HandsAt(NextSecond(t)).hour == HandsAt(t).hour
  {
    var a, b := HandsAt(t), HandsAt(NextSecond(t));
    assert NextSecond(t) == TimeOfDay(t.hours, t.minutes, t.seconds + 1);
    assert b == HandAngles(a.second + 60, a.minute + 1, a.hour);
    TurnStep(a.second, 60, b.second);
    TurnStep(a.minute, 1, b.minute);
  }

  lemma AdvanceToNextMinute(t: TimeOfDay)
    requires Valid(t) && t.seconds == 59 && t.minutes < 59
    ensures HandsAt(NextSecond(t)).second == (HandsAt(t).second + 60) % TurnTenths
    ensures HandsAt(NextSecond(t)).minute == (HandsAt(t).minute + 1) % TurnTenths
    ensures HandsAt(NextSecond(t)).hour == (HandsAt(t).hour + 5) % TurnTenths
  {
    var a, b := HandsAt(t), HandsAt(NextSecond(t));
    assert NextSecond(t) == TimeOfDay(t.hours, t.minutes + 1, 0);
    assert a.second == 3540;
    assert b == HandAngles(0, a.minute + 1, a.hour + 5);
    TurnStep(a.second, 60, b.second);
    TurnStep(a.minute, 1, b.minute);
    TurnStep(a.hour, 5, b.hour);
  }

  /** An angle within one turn, moved forward by less than a turn and wrapped back into it. */
  lemma TurnStep(x: int, step: int, y: int)
    requires 0 <= x < TurnTenths && 0 <= step < TurnTenths && 0 <= y < TurnTenths
    requires y == x + step || y == x + step - TurnTenths
    ensures y == (x + step) % TurnTenths
  {
    if y == x + step {
      DivMod(x + step, TurnTenths, 0, y);
    } else {
      DivMod(x + step, TurnTenths, 1, y);
    }
  }

  /** At the top of the hour the hour hand reaches the next hour mark. */
  lemma NextHourHand(t: TimeOfDay)
    requires Valid(t) && t.minutes == 59 && t.seconds == 59
    ensures HandsAt(NextSecond(t)) == HandAngles(0, 0, (HandsAt(t).hour + 5) % TurnTenths)
  {
    var u := NextSecond(t);
    var h := t.hours % 12;
    FaceHourNext(t);
    HourMarkNext(h);
    var next := (h + 1) % 12;
    assert u.hours % 12 == next;
    assert HandsAt(t).hour + 5 == 300 * h + 300;
    assert (HandsAt(t).hour + 5) % TurnTenths == 300 * next;
    assert HandsAt(u) == HandAngles(0, 0, 300 * next);
  }

  /** One second after hh:59:59 the reading is on the hour, one hour further round the 12-hour face. */
  lemma FaceHourNext(t: TimeOfDay)
    requires Valid(t) && t.minutes == 59 && t.seconds == 59
    ensures NextSecond(t) == TimeOfDay(NextSecond(t).hours, 0, 0)
    ensures NextSecond(t).hours % 12 == (t.hours % 12 + 1) % 12
  {
    var hours := t.hours;
    var q := if hours < 12 then 0 else 1;
    DivMod(hours, 12, q, hours - 12 * q);
    if hours - 12 * q == 11 {
      DivMod(if hours < 23 then hours + 1 else 0, 12, 1 - q, 0);
      DivMod(12, 12, 1, 0);
    } else {
      DivMod(hours + 1, 12, q, hours - 12 * q + 1);
      DivMod(hours - 12 * q + 1, 12, 0, hours - 12 * q + 1);
    }
  }

  /** Half a degree past the 59th minute of hour `h` is the next hour mark, modulo a turn. */
  lemma HourMarkNext(h: int)
    requires 0 <= h < 12
    ensures (300 * h + 300) % TurnTenths == 300 * ((h + 1) % 12)
  {
    if h == 11 {
      DivMod(300 * h + 300, TurnTenths, 1, 0);
      DivMod(h + 1, 12, 1, 0);
    } else {
      DivMod(300 * h + 300, TurnTenths, 0, 300 * h + 300);
      DivMod(h + 1, 12, 0, h + 1);
    }
  }

  /** The sample reading 14:05:09: 54, 30.9 and 62.5 degrees. */
  lemma HandsExample()
    ensures HandsAt(TimeOfDay(14, 5, 9)) == HandAngles(540, 309, 625)
    ensures Degrees(540) == 54.0 && Degrees(309) == 30.9 && Degrees(625) == 62.5
  {
  }

  /** What `updateHands` applies to one hand: its rotation and its shadow. */
  datatype HandView = HandView(rotation: real, shadow: ShadowSpec)

  datatype HandViews = HandViews(second: HandView, minute: HandView, hour: HandView)

  function ViewOf(tenths: int, cosDeg: real -> real, sinDeg: real -> real): (v: HandView)
    requires IsCosineLike(cosDeg)
    ensures v.rotation == Degrees(tenths)
    ensures v.shadow == ShadowFromLight(Degrees(tenths), cosDeg, sinDeg)
  {
    HandView(Degrees(tenths), ShadowFromLight(Degrees(tenths), cosDeg, sinDeg))
  }

  /**
   `updateHands`: each hand is rotated to its angle and given the shadow of
   that same angle.
   */
  function UpdateHands(t: TimeOfDay, cosDeg: real -> real, sinDeg: real -> real): (v: HandViews)
    requires Valid(t) && IsCosineLike(cosDeg)
    ensures v.second.rotation == t.seconds as real * 6.0
    ensures v.minute.rotation == t.minutes as real * 6.0 + t.seconds as real * 0.1
    ensures v.hour.rotation == (t.hours % 12) as real * 30.0 + t.minutes as real * 0.5
    ensures v.second.shadow == ShadowFromLight(v.second.rotation, cosDeg, sinDeg)
    ensures v.minute.shadow == ShadowFromLight(v.minute.rotation, cosDeg, sinDeg)
    ensures v.hour.shadow == ShadowFromLight(v.hour.rotation, cosDeg, sinDeg)
  {
    var a := HandsAt(t);
    HandsInDegrees(t);
    HandViews(ViewOf(a.second, cosDeg, sinDeg), ViewOf(a.minute, cosDeg, sinDeg),
              ViewOf(a.hour, cosDeg, sinDeg))
  }

  /**
   Every hand angle stays in the range where `normalizeAngle` is exact: the
   diff from the light lies in [-180, 180), and is zero exactly at 345 degrees.
   */
  lemma HandDiffsInRange(t: TimeOfDay)
    requires Valid(t)
    ensures var a := HandsAt(t);
      && -HalfRotation <= DiffFromLight(Degrees(a.second)) < HalfRotation
      && -HalfRotation <= DiffFromLight(Degrees(a.minute)) < HalfRotation
      && -HalfRotation <= DiffFromLight(Degrees(a.hour)) < HalfRotation
  {
    var a := HandsAt(t);
    HandDiff(Degrees(a.second));
    HandDiff(Degrees(a.minute));
    HandDiff(Degrees(a.hour));
  }
}
