/**
  The hover readout of the chart: the chart keeps the sample timestamps and
  their raw extent, and on every pointer move checks the pointer's instant
  against that extent, snaps it to the hour, looks the hour up in the
  timestamps by exact equality and reads the time and temperature at the index
  found.

  The pointer's instant arrives already inverted from pixels to milliseconds
  (the time scale is not modelled); `d3.extent` and `Array.prototype.indexOf`
  are modelled as the functions `Extent` and `IndexOf`.
 */
module Hover {
  import opened JsRuntime
  import opened Rounding
  import opened Series

  /** `d3.extent(values)`: the least and greatest value; for an empty list it
      returns `[undefined, undefined]`, modelled as None. */
  function Extent(s: seq<int>): (r: Option<(int, int)>)
    ensures r.None? <==> s == []
    ensures r.Some? ==> r.value.0 in s && r.value.1 in s
    ensures r.Some? ==> forall v :: v in s ==> r.value.0 <= v <= r.value.1
  {
    if s == [] then None
    else
      assert forall v :: v in s ==> v == s[0] || v in s[1..];
      match Extent(s[1..])
      case None => Some((s[0], s[0]))
      case Some((lo, hi)) => Some((if s[0] < lo then s[0] else lo, if s[0] > hi then s[0] else hi))
  }

  /** `minMaxDates[0] <= x && x <= minMaxDates[1]`; both comparisons are false
      against the `undefined` bounds of an empty extent. */
  predicate InExtent(minMaxDates: Option<(int, int)>, x: int)
  {
    minMaxDates.Some? && minMaxDates.value.0 <= x <= minMaxDates.value.1
  }

  /** `s.indexOf(v)`: the first index holding `v`, or -1 when there is none. */
  function IndexOf(s: seq<int>, v: int): (i: int)
    ensures -1 <= i < |s|
    ensures i == -1 <==> v !in s
    ensures 0 <= i ==> s[i] == v && forall j :: 0 <= j < i ==> s[j] != v
  {
    if s == [] then -1
    else if s[0] == v then 0
    else
      var k := IndexOf(s[1..], v);
      assert v in s[1..] ==> v in s;
      assert v in s && v != s[0] ==> v in s[1..];
      if k == -1 then -1 else k + 1
  }

  /** `new Date(t).getTime()` on an array element that may be `undefined`;
      `new Date(undefined)` is an invalid date, here None. */
  function DateOf(t: Option<string>, parse: string -> int): Option<int>
  {
    match t
    case None => None
    case Some(s) => Some(parse(s))
  }

  /** What `test` keeps for the pointer handler: the timestamps `dates`, the
      records `d` and their raw time extent `minMaxDates`. */
  datatype Chart<T> = Chart(dates: seq<int>, d: seq<Sample<T>>, minMaxDates: Option<(int, int)>)

  /** The readout a pointer move produces: `curData` and `curTemp`. */
  datatype Reading<T> = Reading(curData: Option<int>, curTemp: Option<T>)

  /** The data preparation of `test`: timestamps, records, and the extent of
      the records' times. That extent is the extent of the very timestamps the
      pointer handler searches. */
  method PrepareChart<T>(hourly: Hourly<T>, parse: string -> int) returns (chart: Chart<T>)
    ensures chart.dates == TimeToMs(hourly.time, parse)
    ensures |chart.d| == |hourly.time|
    ensures forall i :: 0 <= i < |chart.d| ==>
              chart.d[i] == Sample(hourly.time[i], Index(hourly.temperature, i))
    ensures chart.minMaxDates == Extent(chart.dates)
  {
    var dates := TimeToMs(hourly.time, parse);
    var d := GetDataStructure(hourly);
    Aligned(hourly, d, parse);
    chart := Chart(dates, d, Extent(TimeToMs(Times(d), parse)));
  }

  /** Reference definition of one pointer move at instant `x`: nothing when `x`
      lies outside the extent; otherwise the time and temperature at the index
      `indexOf` gives for the snapped `x`, with no guard against -1. */
  function Lookup<T>(hourly: Hourly<T>, parse: string -> int, dates: seq<int>,
                     minMaxDates: Option<(int, int)>, x: int): Option<Reading<T>>
  {
    if InExtent(minMaxDates, x) then
      var i := IndexOf(dates, NearestHour(x));
      Some(Reading(DateOf(Index(hourly.time, i), parse), Index(hourly.temperature, i)))
    else
      None
  }

  /** `mousemove`: inside the extent, rounds the pointer's `Date` in place and
      reads the sample at the index found; outside it, does nothing. */
  method MouseMove<T>(chart: Chart<T>, hourly: Hourly<T>, parse: string -> int, x: Date)
    returns (reading: Option<Reading<T>>)
    modifies x
    ensures reading == Lookup(hourly, parse, chart.dates, chart.minMaxDates, old(x.time))
    ensures x.time == if InExtent(chart.minMaxDates, old(x.time)) then NearestHour(old(x.time)) else old(x.time)
  {
    if chart.minMaxDates.Some? && chart.minMaxDates.value.0 <= x.GetTime() && x.GetTime() <= chart.minMaxDates.value.1 {
      var rounded := RoundMinutes(x);
      var i := IndexOf(chart.dates, rounded.GetTime());
      var curData := DateOf(Index(hourly.time, i), parse);
      var curTemp := Index(hourly.temperature, i);
      reading := Some(Reading(curData, curTemp));
    } else {
      reading := None;
    }
  }

  /** A pointer outside the extent of the sample times, or over a chart with no
      samples, produces no readout. */
  lemma LookupOutsideExtent<T>(hourly: Hourly<T>, parse: string -> int, dates: seq<int>, x: int)
    requires dates == [] || x < Extent(dates).value.0 || Extent(dates).value.1 < x
    ensures Lookup(hourly, parse, dates, Extent(dates), x) == None
  {
  }

  /** Timestamps that are consecutive whole hours, as the hourly forecast
      delivers them. */
  predicate ConsecutiveHours(dates: seq<int>)
  {
    |dates| > 0 ==>
      OnTheHour(dates[0]) && forall k :: 0 <= k < |dates| ==> dates[k] == dates[0] + k * MsPerHour
  }

  /** The assumption the lookup rests on, proved: when the samples are
      consecutive whole hours and as many as the temperatures, every pointer
      inside the extent finds a sample (never -1). The sample found is the
      snapped pointer's hour, the readout shows its time and temperature, and
      no sample lies closer to the pointer. */
  lemma {:induction false} LookupFindsNearestSample<T>(hourly: Hourly<T>, parse: string -> int, dates: seq<int>, x: int)
    requires dates == TimeToMs(hourly.time, parse)
    requires |hourly.temperature| == |hourly.time|
    requires ConsecutiveHours(dates)
    requires InExtent(Extent(dates), x)
    ensures var i := IndexOf(dates, NearestHour(x));
      0 <= i < |dates| && dates[i] == NearestHour(x) &&
      Lookup(hourly, parse, dates, Extent(dates), x) == Some(Reading(Some(dates[i]), Some(hourly.temperature[i]))) &&
      forall j :: 0 <= j < |dates| ==> Distance(dates[i], x) <= Distance(dates[j], x)
  {
    var y := NearestHour(x);
    SnappedHourPresent(dates, x);
    var i := IndexOf(dates, y);
    assert 0 <= i < |dates| && dates[i] == y;
    assert dates[i] == parse(hourly.time[i]);
    assert Index(hourly.time, i) == Some(hourly.time[i]);
    assert Index(hourly.temperature, i) == Some(hourly.temperature[i]);
    NoSampleCloser(dates, x, i);
  }

  /** No sample of consecutive hours is closer to `x` than one at its snapped hour. */
  lemma NoSampleCloser(dates: seq<int>, x: int, i: int)
    requires ConsecutiveHours(dates)
    requires 0 <= i < |dates| && dates[i] == NearestHour(x)
    ensures forall j :: 0 <= j < |dates| ==> Distance(dates[i], x) <= Distance(dates[j], x)
  {
    forall j | 0 <= j < |dates|
      ensures Distance(dates[i], x) <= Distance(dates[j], x)
    {
      PastHourShift(dates[0], j);
      NearestHourIsNearest(x, dates[j]);
    }
  }

  /** The extent of consecutive hours runs from the first to the last. */
  lemma ExtentOfConsecutive(dates: seq<int>)
    requires ConsecutiveHours(dates) && dates != []
    ensures Extent(dates) == Some((dates[0], dates[|dates| - 1]))
  {
    var n := |dates|;
    var r := Extent(dates);
    var lo, hi := r.value.0, r.value.1;
    assert dates[0] in dates && dates[n - 1] in dates;
    assert lo <= dates[0] && dates[n - 1] <= hi;
    var jl :| 0 <= jl < n && dates[jl] == lo;
    var jh :| 0 <= jh < n && dates[jh] == hi;
    assert lo == dates[0] + jl * MsPerHour >= dates[0];
    assert hi == dates[0] + jh * MsPerHour <= dates[0] + (n - 1) * MsPerHour == dates[n - 1];
  }

  /** Within the extent of consecutive hours, the snapped pointer is one of the
      sample times. */
  lemma SnappedHourPresent(dates: seq<int>, x: int)
    requires ConsecutiveHours(dates)
    requires InExtent(Extent(dates), x)
    ensures NearestHour(x) in dates
  {
    var n := |dates|;
    ExtentOfConsecutive(dates);
    var y := NearestHour(x);
    NearestHourOnTheHour(x);
    NearestHourWithinHalfHour(x);
    assert dates[n - 1] == dates[0] + (n - 1) * MsPerHour;
    var k := HourIndex(dates[0], n, y);
    assert dates[k] == y;
  }

  /** A whole hour less than an hour from either end of a run of `count`
      consecutive hours starting at `first` is one of them. */
  lemma HourIndex(first: int, count: nat, y: int) returns (k: nat)
    requires OnTheHour(first) && OnTheHour(y)
    requires first - MsPerHour < y < first + count * MsPerHour
    ensures k < count && y == first + k * MsPerHour
  {
    var a, b := y / MsPerHour, first / MsPerHour;
    assert y == a * MsPerHour && first == b * MsPerHour;
    if a < b {
      GapAtLeast(a, b, MsPerHour);
    }
    if a >= b + count {
      GapAtLeast(b + count - 1, a, MsPerHour);
    }
    k := a - b;
  }

  /** The unguarded -1: inside the extent, an hour that has no sample gives a
      readout whose time is an invalid date and whose temperature is
      `undefined`, rather than no readout. */
  lemma LookupMissingHour<T>(hourly: Hourly<T>, parse: string -> int, dates: seq<int>, x: int)
    requires InExtent(Extent(dates), x)
    requires NearestHour(x) !in dates
    ensures Lookup(hourly, parse, dates, Extent(dates), x) == Some(Reading(None, None))
  {
  }

  /** Samples at midnight and 02:00 with the 01:00 sample missing: a pointer at
      01:00 lies inside the extent, finds no sample, and still yields a readout
      of an invalid date and an `undefined` temperature. */
  lemma MissingHourExample<T>(a: T, c: T)
    ensures
      var times := ["1970-01-01T00:00", "1970-01-01T02:00"];
      var parse := (s: string) => if s == times[0] then 0 else 2 * MsPerHour;
      var dates := TimeToMs(times, parse);
      Lookup(Hourly(times, [a, c]), parse, dates, Extent(dates), MsPerHour) == Some(Reading(None, None))
  {
    var times := ["1970-01-01T00:00", "1970-01-01T02:00"];
    var parse := (s: string) => if s == times[0] then 0 else 2 * MsPerHour;
    var dates := TimeToMs(times, parse);
    assert dates == [0, 2 * MsPerHour];
    assert NearestHour(MsPerHour) == MsPerHour;
    LookupMissingHour(Hourly(times, [a, c]), parse, dates, MsPerHour);
  }

  /** A forecast for midnight, 01:00 and 02:00 on 1 January 2024 (UTC) and a
      pointer at 01:20: the pointer snaps to 01:00 and shows the 01:00
      temperature. */
  lemma ThreeHourScenario<T>(a: T, b: T, c: T)
    ensures
      var t0 := 1704067200000;
      var times := ["2024-01-01T00:00", "2024-01-01T01:00", "2024-01-01T02:00"];
      var parse := (s: string) =>
        if s == times[0] then t0 else if s == times[1] then t0 + MsPerHour else t0 + 2 * MsPerHour;
      var dates := TimeToMs(times, parse);
      Lookup(Hourly(times, [a, b, c]), parse, dates, Extent(dates), t0 + MsPerHour + 20 * MsPerMinute)
        == Some(Reading(Some(t0 + MsPerHour), Some(b)))
  {
    var t0 := 1704067200000;
    var times := ["2024-01-01T00:00", "2024-01-01T01:00", "2024-01-01T02:00"];
    var parse := (s: string) =>
      if s == times[0] then t0 else if s == times[1] then t0 + MsPerHour else t0 + 2 * MsPerHour;
    var dates := TimeToMs(times, parse);
    var x := t0 + MsPerHour + 20 * MsPerMinute;
    assert dates == [t0, t0 + MsPerHour, t0 + 2 * MsPerHour];
    assert PastHour(t0) == 0 && PastHour(x) == 20 * MsPerMinute;
    assert ConsecutiveHours(dates);
    ExtentOfConsecutive(dates);
    MinuteOfPastHour(x);
    assert NearestHour(x) == t0 + MsPerHour;
    LookupFindsNearestSample(Hourly(times, [a, b, c]), parse, dates, x);
    assert IndexOf(dates, t0 + MsPerHour) == 1;
  }
}
