/**
  `roundMinutes` of the chart code: the pointer's instant is snapped to the
  nearest whole hour so that it can be matched, by exact equality, against the
  hourly sample times.
 */
module Rounding {
  import opened JsRuntime

  /** An instant on a whole hour: no minutes, seconds or milliseconds. */
  predicate OnTheHour(t: int)
  {
    PastHour(t) == 0
  }

  /** Reference definition: the start of the hour holding `t`, or the start of
      the next hour once `t` is 30 minutes or more into its hour. */
  function NearestHour(t: int): int
  {
    t - PastHour(t) + (if MinuteOf(t) >= 30 then MsPerHour else 0)
  }

  /** `Math.round(minutes / 60)` adds an hour exactly when the minute of the
      hour is 30 or more. */
  lemma HoursToAdd(m: int)
    requires 0 <= m < 60
    ensures MathRound(m, 60) == if m >= 30 then 1 else 0
  {
    var k := MathRound(m, 60);
    assert 120 * k - 60 <= 2 * m < 120 * k + 60;
  }

  /** `roundMinutes(date)`: moves the hour on by `Math.round(minutes / 60)`,
      zeroes minutes, seconds and milliseconds, and hands back the very object
      it was given, now changed. */
  method RoundMinutes(date: Date) returns (r: Date)
    modifies date
    ensures r == date
    ensures date.time == NearestHour(old(date.time))
  {
    HoursToAdd(date.GetMinutes());
    date.SetHours(date.GetHours() + MathRound(date.GetMinutes(), 60));
    date.SetMinutes(0, 0, 0);
    r := date;
  }

  /** The minute of the hour, as a share of the hour already gone. */
  lemma MinuteOfPastHour(t: int)
    ensures MinuteOf(t) >= 30 <==> PastHour(t) >= 30 * MsPerMinute
  {
    Fields(t);
  }

  /** The snapped instant is on a whole hour: its minutes, seconds and
      milliseconds are all zero. */
  lemma NearestHourOnTheHour(t: int)
    ensures OnTheHour(NearestHour(t))
    ensures MinuteOf(NearestHour(t)) == 0 && SecondOf(NearestHour(t)) == 0 && MillisecondOf(NearestHour(t)) == 0
  {
    var r := NearestHour(t);
    var c := if MinuteOf(t) >= 30 then 1 else 0;
    assert t == (t / MsPerHour) * MsPerHour + PastHour(t);
    DivUnique(r, MsPerHour, t / MsPerHour + c, 0);
    Fields(r);
  }

  /** Below the half hour the hour is kept: same day, same hour. */
  lemma NearestHourBelowHalf(t: int)
    requires MinuteOf(t) < 30
    ensures DayOf(NearestHour(t)) == DayOf(t) && HourOf(NearestHour(t)) == HourOf(t)
  {
    Fields(t);
    FromFields(DayOf(t), HourOf(t), 0, 0, 0);
  }

  /** From the half hour on the hour advances by one; at 23 it becomes hour 0
      of the following day. */
  lemma NearestHourFromHalf(t: int)
    requires MinuteOf(t) >= 30
    ensures HourOf(NearestHour(t)) == (HourOf(t) + 1) % 24
    ensures DayOf(NearestHour(t)) == if HourOf(t) == 23 then DayOf(t) + 1 else DayOf(t)
  {
    Fields(t);
    if HourOf(t) == 23 {
      FromFields(DayOf(t) + 1, 0, 0, 0, 0);
    } else {
      FromFields(DayOf(t), HourOf(t) + 1, 0, 0, 0);
    }
  }

  /** Only the day, hour and minute take part: two instants that differ in
      their seconds and milliseconds alone snap to the same hour. */
  lemma NearestHourIgnoresSeconds(t: int, u: int)
    requires DayOf(t) == DayOf(u) && HourOf(t) == HourOf(u) && MinuteOf(t) == MinuteOf(u)
    ensures NearestHour(t) == NearestHour(u)
  {
    Fields(t);
    Fields(u);
  }

  /** Snapping an instant already on the hour leaves it alone, so snapping
      twice is snapping once. */
  lemma NearestHourIdempotent(t: int)
    ensures NearestHour(NearestHour(t)) == NearestHour(t)
  {
    NearestHourOnTheHour(t);
  }

  /** The snapped instant lies less than half an hour before `t`, or at most
      half an hour after it. */
  lemma NearestHourWithinHalfHour(t: int)
    ensures t - 30 * MsPerMinute < NearestHour(t) <= t + 30 * MsPerMinute
  {
    MinuteOfPastHour(t);
  }

  /** No whole hour is closer to `t` than the snapped instant. */
  lemma NearestHourIsNearest(t: int, k: int)
    requires OnTheHour(k)
    ensures Distance(NearestHour(t), t) <= Distance(k, t)
  {
    MinuteOfPastHour(t);
    var f := t - PastHour(t);
    assert f == (t / MsPerHour) * MsPerHour;
    assert k == (k / MsPerHour) * MsPerHour;
    if k / MsPerHour < t / MsPerHour {
      GapAtLeast(k / MsPerHour, t / MsPerHour, MsPerHour);
    } else if k / MsPerHour > t / MsPerHour {
      GapAtLeast(t / MsPerHour, k / MsPerHour, MsPerHour);
    }
  }

  function Distance(a: int, b: int): nat
  {
    if a <= b then b - a else a - b
  }
}
