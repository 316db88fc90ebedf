/**
 The wall-clock reading the clock consumes each tick: the hours, minutes and
 seconds a `Date` reports (`getHours`, `getMinutes`, `getSeconds`). The time
 source itself is outside the model; only its range is assumed.
 */
module ClockTime {

  datatype TimeOfDay = TimeOfDay(hours: int, minutes: int, seconds: int)

  /** The range `Date` guarantees for local hours, minutes and seconds. */
  predicate Valid(t: TimeOfDay) {
    && 0 <= t.hours < 24
    && 0 <= t.minutes < 60
    && 0 <= t.seconds < 60
  }

  const SecondsPerDay: int := 86400

  function SecondOfDay(t: TimeOfDay): int {
    3600 * t.hours + 60 * t.minutes + t.seconds
  }

  /** The reading one second later, wrapping at midnight. */
  function NextSecond(t: TimeOfDay): (u: TimeOfDay)
    requires Valid(t)
    ensures Valid(u)
    ensures SecondOfDay(t) < SecondsPerDay - 1 ==> SecondOfDay(u) == SecondOfDay(t) + 1
    ensures SecondOfDay(t) == SecondsPerDay - 1 ==> SecondOfDay(u) == 0
  {
    if t.seconds < 59 then TimeOfDay(t.hours, t.minutes, t.seconds + 1)
    else if t.minutes < 59 then TimeOfDay(t.hours, t.minutes + 1, 0)
    else if t.hours < 23 then TimeOfDay(t.hours + 1, 0, 0)
    else TimeOfDay(0, 0, 0)
  }

  /** Counted in seconds since midnight, the next reading is one further, modulo a day. */
  lemma NextSecondOfDay(t: TimeOfDay)
    requires Valid(t)
    ensures SecondOfDay(NextSecond(t)) == (SecondOfDay(t) + 1) % SecondsPerDay
  {
    var n := SecondOfDay(t) + 1;
    if n < SecondsPerDay {
      DivMod(n, SecondsPerDay, 0, n);
    } else {
      DivMod(n, SecondsPerDay, 1, 0);
    }
  }

  /** Quotient and remainder are determined by any decomposition `x == d * q + r` with `0 <= r < d`. */
  lemma DivMod(x: int, d: int, q: int, r: int)
    requires d > 0 && x == d * q + r && 0 <= r < d
    ensures x / d == q && x % d == r
  {
    var q', r' := x / d, x % d;
    assert d * (q - q') == r' - r;
    MulBoundedIsZero(d, q - q');
  }

  lemma MulBoundedIsZero(d: int, k: int)
    requires d > 0 && -d < d * k < d
    ensures k == 0
  {
    if k >= 1 {
      MulAtLeast(d, k);
      assert false;
    } else if k <= -1 {
      MulAtLeast(d, -k);
      assert false;
    }
  }

  lemma MulAtLeast(d: int, k: int)
    requires d > 0 && k >= 1
    ensures d * k >= d && d * -k == -(d * k)
  {
  }
}
