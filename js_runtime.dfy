/**
  The small part of the JavaScript runtime that the chart code leans on:
  `undefined` as a value, reading an array at an arbitrary index, `Math.round`
  of a quotient, and a `Date` object whose fields are read and set in place.

  Time is counted in whole milliseconds since the epoch and read in UTC: the
  local time zone and daylight-saving shifts are not modelled.
 */
module JsRuntime {

  /** A value that may be JavaScript's `undefined` (None). */
  datatype Option<+T> = None | Some(value: T)

  /** `a[i]` on a JavaScript array: the element when `i` is a valid index,
      `undefined` otherwise (a negative `i` such as -1 included). */
  function Index<T>(a: seq<T>, i: int): Option<T>
  {
    if 0 <= i < |a| then Some(a[i]) else None
  }

  /** `Math.round(p / q)` for a positive divisor: the integer nearest to the
      quotient, a quotient exactly halfway rounding up (towards +infinity). */
  function MathRound(p: int, q: int): (r: int)
    requires q > 0
    ensures 2 * q * r - q <= 2 * p < 2 * q * r + q
  {
    var n, d := 2 * p + q, 2 * q;
    assert n == d * (n / d) + n % d && 0 <= n % d < d;
    n / d
  }

  const MsPerSecond := 1000
  const MsPerMinute := 60 * MsPerSecond
  const MsPerHour := 60 * MsPerMinute
  const MsPerDay := 24 * MsPerHour

  /** The calendar fields of an instant `t` (milliseconds since the epoch). */
  function DayOf(t: int): int { t / MsPerDay }
  function HourOf(t: int): (h: int) ensures 0 <= h < 24 { (t / MsPerHour) % 24 }
  function MinuteOf(t: int): (m: int) ensures 0 <= m < 60 { (t / MsPerMinute) % 60 }
  function SecondOf(t: int): (s: int) ensures 0 <= s < 60 { (t / MsPerSecond) % 60 }
  function MillisecondOf(t: int): (ms: int) ensures 0 <= ms < 1000 { t % MsPerSecond }

  /** The time elapsed since the start of the hour holding `t`. */
  function PastHour(t: int): (p: int)
    ensures 0 <= p < MsPerHour
  {
    t % MsPerHour
  }

  /** An instant is the sum of its calendar fields. */
  lemma Fields(t: int)
    ensures t == DayOf(t) * MsPerDay + HourOf(t) * MsPerHour + PastHour(t)
    ensures PastHour(t) == MinuteOf(t) * MsPerMinute + SecondOf(t) * MsPerSecond + MillisecondOf(t)
  {
    var hours, minutes, seconds := t / MsPerHour, t / MsPerMinute, t / MsPerSecond;
    assert t == hours * MsPerHour + PastHour(t);
    assert hours == (hours / 24) * 24 + hours % 24;
    DivUnique(t, MsPerDay, hours / 24, HourOf(t) * MsPerHour + PastHour(t));
    assert t == seconds * MsPerSecond + MillisecondOf(t);
    assert seconds == (seconds / 60) * 60 + seconds % 60;
    DivUnique(t, MsPerMinute, seconds / 60, SecondOf(t) * MsPerSecond + MillisecondOf(t));
    assert minutes == (minutes / 60) * 60 + minutes % 60;
    DivUnique(t, MsPerHour, minutes / 60, MinuteOf(t) * MsPerMinute + SecondOf(t) * MsPerSecond + MillisecondOf(t));
  }

  /** The instant assembled from in-range calendar fields has those fields. */
  lemma FromFields(day: int, hour: int, minute: int, second: int, ms: int)
    requires 0 <= hour < 24 && 0 <= minute < 60 && 0 <= second < 60 && 0 <= ms < 1000
    ensures var t := day * MsPerDay + hour * MsPerHour + minute * MsPerMinute + second * MsPerSecond + ms;
      DayOf(t) == day && HourOf(t) == hour && MinuteOf(t) == minute && SecondOf(t) == second &&
      MillisecondOf(t) == ms && PastHour(t) == minute * MsPerMinute + second * MsPerSecond + ms
  {
    var t := day * MsPerDay + hour * MsPerHour + minute * MsPerMinute + second * MsPerSecond + ms;
    var hours := day * 24 + hour;
    var minutes := hours * 60 + minute;
    var seconds := minutes * 60 + second;
    DivUnique(t, MsPerSecond, seconds, ms);
    DivUnique(seconds, 60, minutes, second);
    DivUnique(t, MsPerMinute, minutes, second * MsPerSecond + ms);
    DivUnique(minutes, 60, hours, minute);
    DivUnique(t, MsPerHour, hours, minute * MsPerMinute + second * MsPerSecond + ms);
    DivUnique(hours, 24, day, hour);
    DivUnique(t, MsPerDay, day, hour * MsPerHour + minute * MsPerMinute + second * MsPerSecond + ms);
  }

  /** Euclidean division is determined by its quotient and remainder. */
  lemma DivUnique(t: int, d: int, q: int, r: int)
    requires d > 0 && t == q * d + r && 0 <= r < d
    ensures t / d == q && t % d == r
  {
    var q', r' := t / d, t % d;
    assert t == q' * d + r';
    if q' != q {
      var lo, hi := if q' < q then q' else q, if q' < q then q else q';
      GapAtLeast(lo, hi, d);
    }
  }

  /** Distinct multiples of `d` lie at least `d` apart. */
  lemma GapAtLeast(lo: int, hi: int, d: int)
    requires lo < hi && d > 0
    ensures hi * d - lo * d >= d
  {
    MulAtLeast(hi - lo, d);
    assert hi * d - lo * d == (hi - lo) * d;
  }

  lemma MulAtLeast(a: int, d: int)
    requires a >= 1 && d > 0
    ensures a * d >= d
  {
  }

  /** Two instants that differ by whole hours lie at the same point of their hours. */
  lemma PastHourShift(t: int, k: int)
    ensures PastHour(t + k * MsPerHour) == PastHour(t)
  {
  }

  /** A JavaScript `Date`: a mutable box around one instant. */
  class Date {
    var time: int

    constructor (t: int)
      ensures time == t
    {
      time := t;
    }

    /** `getTime()`: the instant in milliseconds. */
    function GetTime(): int
      reads this
    {
      time
    }

    /** `getHours()`: the hour of the day, 0 to 23. */
    function GetHours(): (h: int)
      reads this
      ensures 0 <= h < 24
    {
      HourOf(time)
    }

    /** `getMinutes()`: the minute of the hour, 0 to 59. */
    function GetMinutes(): (m: int)
      reads this
      ensures 0 <= m < 60
    {
      MinuteOf(time)
    }

    /** `setHours(h)`: keeps the day, minutes, seconds and milliseconds and makes
        `h` the hour, an `h` outside 0..23 spilling into the following or previous
        days. The instant therefore moves by whole hours. */
    method SetHours(h: int)
      modifies this
      ensures time == old(time) + (h - old(GetHours())) * MsPerHour
      ensures PastHour(time) == PastHour(old(time))
    {
      Fields(time);
      var day, past := DayOf(time), PastHour(time);
      DivUnique(day * MsPerDay + h * MsPerHour + past, MsPerHour, day * 24 + h, past);
      time := day * MsPerDay + h * MsPerHour + past;
    }

    /** `setMinutes(m, s, ms)`: keeps the day and hour and replaces the minutes,
        seconds and milliseconds. */
    method SetMinutes(m: int, s: int, ms: int)
      modifies this
      ensures time == old(time) - old(PastHour(time)) + m * MsPerMinute + s * MsPerSecond + ms
      ensures 0 <= m < 60 && 0 <= s < 60 && 0 <= ms < 1000 ==>
                DayOf(time) == DayOf(old(time)) && HourOf(time) == HourOf(old(time)) &&
                MinuteOf(time) == m && SecondOf(time) == s && MillisecondOf(time) == ms
    {
      Fields(time);
      if 0 <= m < 60 && 0 <= s < 60 && 0 <= ms < 1000 {
        FromFields(DayOf(time), HourOf(time), m, s, ms);
      }
      time := time - PastHour(time) + m * MsPerMinute + s * MsPerSecond + ms;
    }
  }
}
