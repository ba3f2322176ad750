/**
  The series builder of the chart code: the forecast's parallel hourly arrays
  become a list of `{time, temp}` records and an index-aligned list of
  millisecond timestamps.

  Temperatures are only copied, never computed, so their type is a parameter
  `T`. Parsing an ISO 8601 time string (`new Date(t).getTime()`) is the given
  function `parse`.
 */
module Series {
  import opened JsRuntime

  /** `data.hourly`: the forecast's parallel arrays `time` and `temperature_2m`. */
  datatype Hourly<T> = Hourly(time: seq<string>, temperature: seq<T>)

  /** One record `{time, temp}` of the plotted data; `temp` is `undefined` when
      `temperature_2m` is shorter than `time`. */
  datatype Sample<T> = Sample(time: string, temp: Option<T>)

  /** `getDataStructure(data)`: one record per entry of `hourly.time`, in the
      input's order, pairing `time[i]` with `temperature_2m[i]`. The loop is
      bounded by `time` alone: surplus temperatures are ignored, missing ones
      read as `undefined`. */
  method GetDataStructure<T>(hourly: Hourly<T>) returns (newData: seq<Sample<T>>)
    ensures |newData| == |hourly.time|
    ensures forall i :: 0 <= i < |newData| ==>
              newData[i].time == hourly.time[i] && newData[i].temp == Index(hourly.temperature, i)
  {
    newData := [];
    var i := 0;
    while i < |hourly.time|
      invariant i <= |hourly.time|
      invariant |newData| == i
      invariant forall k :: 0 <= k < i ==>
                  newData[k].time == hourly.time[k] && newData[k].temp == Index(hourly.temperature, k)
    {
      newData := newData + [Sample(hourly.time[i], Index(hourly.temperature, i))];
      i := i + 1;
    }
  }

  /** With as many temperatures as times (the forecast's own contract), every
      record built by `GetDataStructure` carries a defined temperature. */
  lemma RecordsDefined<T>(hourly: Hourly<T>, newData: seq<Sample<T>>)
    requires |hourly.temperature| == |hourly.time| == |newData|
    requires forall i :: 0 <= i < |newData| ==> newData[i].temp == Index(hourly.temperature, i)
    ensures forall i :: 0 <= i < |newData| ==> newData[i].temp == Some(hourly.temperature[i])
  {
  }

  /** `timeToMs(data)`: the millisecond value of every time string, in order. */
  function TimeToMs(time: seq<string>, parse: string -> int): (dates: seq<int>)
    ensures |dates| == |time|
    ensures forall i :: 0 <= i < |time| ==> dates[i] == parse(time[i])
  {
    if time == [] then [] else [parse(time[0])] + TimeToMs(time[1..], parse)
  }

  /** The time strings of a list of records, in order. */
  function Times<T>(data: seq<Sample<T>>): (time: seq<string>)
    ensures |time| == |data|
    ensures forall i :: 0 <= i < |data| ==> time[i] == data[i].time
  {
    if data == [] then [] else [data[0].time] + Times(data[1..])
  }

  /** `timeToMs` and `getDataStructure` are aligned index for index: entry `i`
      of the timestamps is the time of record `i`. */
  lemma {:induction false} Aligned<T>(hourly: Hourly<T>, newData: seq<Sample<T>>, parse: string -> int)
    requires |newData| == |hourly.time|
    requires forall i :: 0 <= i < |newData| ==> newData[i].time == hourly.time[i]
    ensures TimeToMs(Times(newData), parse) == TimeToMs(hourly.time, parse)
  {
    assert Times(newData) == hourly.time;
  }
}
