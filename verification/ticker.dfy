/**
 One run of `tick` (app.js lines 140-148) and the schedule it sets up: the
 next run is requested `1000 - ms` milliseconds later, where `ms` is the
 millisecond within the current second, so that it lands on the next
 second boundary. The timer and the clock are not modelled: times are
 milliseconds on a line, and how late each timer fires is a parameter.
 */
module Ticker {
  import opened ClockTime
  import opened Hands
  import opened Shadow
  import opened Digital

  const MillisPerSecond: int := 1000

  /** The delay `tick` requests, from the millisecond within the current second. */
  function TickDelay(ms: int): (delay: int)
    requires 0 <= ms < MillisPerSecond
    ensures 1 <= delay <= MillisPerSecond
    ensures (ms + delay) % MillisPerSecond == 0
  {
    MillisPerSecond - ms
  }

  /**
   When the next tick is due, for a tick that reads the clock at `now`
   (milliseconds): the first second boundary strictly after `now`.
   */
  function NextTickTime(now: int): (next: int)
    ensures now < next <= now + MillisPerSecond
    ensures next % MillisPerSecond == 0
  {
    var ms := now % MillisPerSecond;
    DivMod(now, MillisPerSecond, now / MillisPerSecond, ms);
    DivMod(now + TickDelay(ms), MillisPerSecond, now / MillisPerSecond + 1, 0);
    now + TickDelay(ms)
  }

  /** No second boundary lies strictly between `now` and the next tick. */
  lemma NextTickIsNextBoundary(now: int, b: int)
    requires b % MillisPerSecond == 0 && b > now
    ensures NextTickTime(now) <= b
  {
    var q := now / MillisPerSecond;
    DivMod(now, MillisPerSecond, q, now % MillisPerSecond);
    DivMod(b, MillisPerSecond, b / MillisPerSecond, 0);
    DivMod(NextTickTime(now), MillisPerSecond, q + 1, 0);
  }

  /**
   The times the ticks are scheduled for, when the first tick reads the
   clock at `now` and the k-th scheduled tick reads it `lateness[k]`
   milliseconds after its due time. A negative lateness is a reading that
   comes out early by the wall clock (a timer that fires early by `Date`'s
   clock, or a clock stepped back). Every time is a second boundary, and the
   next one is strictly later exactly when the reading was not early.
   */
  function ScheduledTicks(now: int, lateness: seq<int>): (times: seq<int>)
    ensures |times| == |lateness| + 1
    ensures times[0] == NextTickTime(now)
    ensures forall k :: 0 <= k < |times| ==> times[k] % MillisPerSecond == 0
    ensures forall k :: 0 <= k < |times| - 1 ==> (times[k] < times[k + 1] <==> lateness[k] >= 0)
    decreases |lateness|
  {
    var next := NextTickTime(now);
    if |lateness| == 0 then [next]
    else
      var rest := ScheduledTicks(next + lateness[0], lateness[1..]);
      assert lateness[0] < 0 ==> rest[0] <= next by {
        if lateness[0] < 0 {
          NextTickIsNextBoundary(next + lateness[0], next);
        }
      }
      [next] + rest
  }

  /**
   A tick that reads the clock `late` milliseconds after a second boundary
   `b` schedules the next one `late / 1000 + 1` whole seconds after `b`
   (`/` rounding down): a late timer skips seconds, an early reading repeats
   or moves back, and neither shifts the schedule off the boundaries.
   */
  lemma NextAfterLateTick(b: int, late: int)
    requires b % MillisPerSecond == 0
    ensures NextTickTime(b + late) == b + MillisPerSecond * (late / MillisPerSecond + 1)
  {
    var q := b / MillisPerSecond;
    DivMod(b, MillisPerSecond, q, 0);
    var w := late / MillisPerSecond;
    DivMod(late, MillisPerSecond, w, late % MillisPerSecond);
    DivMod(b + late, MillisPerSecond, q + w, late % MillisPerSecond);
  }

  /**
   A reading less than a second early schedules the boundary it was due at
   once more: that second is shown twice.
   */
  lemma EarlyTickRepeats(b: int, early: int)
    requires b % MillisPerSecond == 0 && 0 < early <= MillisPerSecond
    ensures NextTickTime(b - early) == b
  {
    NextAfterLateTick(b, -early);
    DivMod(-early, MillisPerSecond, -1, MillisPerSecond - early);
  }

  /** Consecutive scheduled ticks are as many seconds apart as the lateness forces. */
  lemma {:induction false} ScheduleSteps(now: int, lateness: seq<int>)
    ensures forall k :: 0 <= k < |lateness| ==>
      ScheduledTicks(now, lateness)[k + 1]
        == ScheduledTicks(now, lateness)[k] + MillisPerSecond * (lateness[k] / MillisPerSecond + 1)
    decreases |lateness|
  {
    if |lateness| > 0 {
      var next := NextTickTime(now);
      var rest := lateness[1..];
      ScheduleSteps(next + lateness[0], rest);
      NextAfterLateTick(next, lateness[0]);
      var times := ScheduledTicks(now, lateness);
      assert times == [next] + ScheduledTicks(next + lateness[0], rest);
      forall k | 1 <= k < |lateness|
        ensures times[k + 1] == times[k] + MillisPerSecond * (lateness[k] / MillisPerSecond + 1)
      {
        assert times[k] == ScheduledTicks(next + lateness[0], rest)[k - 1];
        assert lateness[k] == rest[k - 1];
      }
    }
  }

  /**
   No drift: as long as every timer fires late by less than a second, and
   never early, the k-th scheduled tick is exactly k seconds after the first
   boundary.
   */
  lemma {:induction false} NoDrift(now: int, lateness: seq<int>)
    requires forall k :: 0 <= k < |lateness| ==> 0 <= lateness[k] < MillisPerSecond
    ensures forall k :: 0 <= k < |lateness| + 1 ==>
      ScheduledTicks(now, lateness)[k] == NextTickTime(now) + MillisPerSecond * k
  {
    var times := ScheduledTicks(now, lateness);
    ScheduleSteps(now, lateness);
    var k := 0;
    while k < |lateness|
      invariant 0 <= k <= |lateness|
      invariant forall j :: 0 <= j <= k ==> times[j] == times[0] + MillisPerSecond * j
    {
      DivMod(lateness[k], MillisPerSecond, 0, lateness[k]);
      k := k + 1;
    }
  }

  /** What one run of `tick` produces: the three hands, the readout, and the delay it requests. */
  datatype Frame = Frame(hands: HandViews, readout: string, delay: int)

  /** `tick`: hands and readout from the same reading, then the delay to the next second. */
  function Tick(t: TimeOfDay, ms: int, cosDeg: real -> real, sinDeg: real -> real): (f: Frame)
    requires Valid(t) && 0 <= ms < MillisPerSecond && IsCosineLike(cosDeg)
    ensures 1 <= f.delay <= MillisPerSecond && ms + f.delay == MillisPerSecond
    ensures f.hands == UpdateHands(t, cosDeg, sinDeg) && f.readout == Readout(t)
  {
    Frame(UpdateHands(t, cosDeg, sinDeg), Readout(t), TickDelay(ms))
  }

  /**
   The dial and the readout of one tick agree: reading the time back off
   the hands gives the time the readout decodes to, on the 12-hour face.
   */
  lemma DialAgreesWithReadout(t: TimeOfDay)
    requires Valid(t)
    ensures ParseReadout(Readout(t)).Some? && Consistent(HandsAt(t))
    ensures var shown := ParseReadout(Readout(t)).value;
      ReadDial(HandsAt(t)) == TimeOfDay(shown.hours % 12, shown.minutes, shown.seconds)
  {
    ParseReadoutOfReadout(t);
    ReadDialOfHands(t);
    var shown := ParseReadout(Readout(t)).value;
    assert shown == t;
  }
}
