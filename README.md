# WeatherReport chart core, modelled in Dafny

WeatherReport fetches an hourly temperature forecast and draws it as a chart. When the pointer moves over the chart, a readout shows the nearest hourly sample. This project models the data layer underneath that chart, from `src/index.js`:

- `getDataStructure` zips the forecast's parallel arrays `hourly.time` and `hourly.temperature_2m` into `{time, temp}` records.
- `timeToMs` turns every time string into epoch milliseconds. The result is aligned index for index with the records.
- `roundMinutes` snaps a `Date` to the nearest whole hour, in place.
- The `mousemove` handler checks the pointer's instant against the raw extent of the sample times (`minMaxDates`). It rounds that instant, finds its index with `indexOf`, and reads `time[i]` and `temperature_2m[i]`.

Files:

- `js_runtime.dfy` (module `JsRuntime`) holds the JavaScript built-ins this code relies on. `undefined` is `Option.None`. An array read outside the bounds yields `undefined`. `Math.round(p / q)` rounds halves up. A `Date` class holds one mutable instant in milliseconds, and its `getHours`/`getMinutes`/`setHours`/`setMinutes` are read in UTC.
- `rounding.dfy` (module `Rounding`) holds `RoundMinutes` as a method that changes its `Date` argument. It is proved against the reference function `NearestHour`. Lemmas give the rounding's bounds, idempotence, day rollover and nearness.
- `series.dfy` (module `Series`) holds `GetDataStructure`, a method whose loop fills the records, plus `TimeToMs` and the alignment of the two.
- `hover.dfy` (module `Hover`) holds `Extent` (`d3.extent`), `IndexOf` (`Array.prototype.indexOf`) and the chart preparation. It also holds `MouseMove`, proved against the reference function `Lookup`. The lemmas cover the lookup's found, outside and missing-hour cases.

Temperatures are only ever copied, so their type is a type parameter `T`. Parsing an ISO 8601 string (`new Date(t).getTime()`) is a given function `parse: string -> int`. The pointer's instant arrives already inverted from pixels, as integer milliseconds.

Facts about the code that the model keeps:

- The code does not guard against `indexOf` returning -1 (l.173-176). It goes on to read `time[-1]` and `temperature_2m[-1]`, which are `undefined`, so a pointer over an hour with no sample still yields a readout. `LookupMissingHour` and `MissingHourExample` show this.
- The bounds check in `mousemove` (l.172) uses the raw extent `minMaxDates` of the sample times (l.85), not the niced domain of the time scale.
- The records loop is bounded by `time` alone (l.21-22). A shorter `temperature_2m` yields records whose `temp` is `undefined`, and surplus temperatures are ignored. The model allows any lengths and states what happens in each case.
- The timestamps are only parsed (l.28), never truncated to the hour. Whole hours are a property of the hourly forecast, captured as the precondition `ConsecutiveHours`.

## Model

| member | source | states |
|---|---|---|
| `JsRuntime.MathRound` | src/index.js:13 | `Math.round(p/q)` returns the integer `r` with `r - 1/2 <= p/q < r + 1/2`, so an exact half rounds up |
| `JsRuntime.Date.GetHours` | src/index.js:13 | `getHours()` is the hour of the day, in 0..23 |
| `JsRuntime.Date.GetMinutes` | src/index.js:13 | `getMinutes()` is the minute of the hour, in 0..59 |
| `JsRuntime.Date.SetHours` | src/index.js:13 | `setHours(h)` moves the instant by `h - getHours()` whole hours; an `h` past 23 spills into the next day, and minutes, seconds and milliseconds are kept |
| `JsRuntime.Date.SetMinutes` | src/index.js:14 | `setMinutes(m, s, ms)` keeps the day and hour and replaces minutes, seconds and milliseconds; in-range arguments become the new fields exactly |
| `Rounding.HoursToAdd` | src/index.js:13 | `Math.round(getMinutes()/60)` is 1 exactly when the minute is 30 or more, and 0 otherwise |
| `Rounding.RoundMinutes` | src/index.js:11-17 | changes the given `Date` in place to `NearestHour` of its old instant, and returns that same object |
| `Rounding.NearestHourOnTheHour` | src/index.js:14 | the rounded instant has zero minutes, seconds and milliseconds |
| `Rounding.NearestHourBelowHalf` | src/index.js:13 | with minutes < 30, the day and hour are unchanged |
| `Rounding.NearestHourFromHalf` | src/index.js:13 | with minutes >= 30, the hour advances by one; hour 23 becomes hour 0 of the next day |
| `Rounding.NearestHourIgnoresSeconds` | src/index.js:13 | instants with the same day, hour and minute round to the same instant, so seconds and milliseconds do not affect the decision |
| `Rounding.NearestHourIdempotent` | src/index.js:13-14 | rounding twice gives the same instant as rounding once |
| `Rounding.NearestHourWithinHalfHour` | src/index.js:13-14 | the rounded instant is less than 30 minutes before the input, or at most 30 minutes after it |
| `Rounding.NearestHourIsNearest` | src/index.js:13-14 | no whole hour is closer to the input than the rounded instant |
| `Series.GetDataStructure` | src/index.js:19-25 | returns exactly one record per entry of `hourly.time`; record `i` has `time == time[i]` and `temp == temperature_2m[i]` (`undefined` past the end of `temperature_2m`) |
| `Series.RecordsDefined` | src/index.js:22 | when the two arrays have equal length, every record's `temp` is defined and equals `temperature_2m[i]` |
| `Series.TimeToMs` | src/index.js:27-29 | has the same length as `hourly.time`; element `i` is the millisecond value of `time[i]` |
| `Series.Times` | src/index.js:77 | the time strings of a list of records, one per record, in order |
| `Series.Aligned` | src/index.js:27-29 | the timestamps of the records built by `getDataStructure` are exactly `timeToMs`'s output, index for index |
| `Hover.Extent` | src/index.js:85 | `d3.extent` returns `[undefined, undefined]` for an empty list, modelled as `None`, and only then; otherwise both bounds are members of the list and every member lies between them |
| `Hover.IndexOf` | src/index.js:173 | `indexOf` returns -1 exactly when the value is absent; otherwise it returns an index holding the value with no earlier occurrence |
| `Hover.PrepareChart` | src/index.js:85 | builds the timestamps (l.33) and records (l.34); the records' time extent `minMaxDates` equals the extent of the timestamps that the pointer handler searches |
| `Hover.MouseMove` | src/index.js:168-185 | the readout is `Lookup` of the pointer's old instant; inside the extent, the pointer `Date` is rounded in place, and outside it nothing changes |
| `Hover.LookupOutsideExtent` | src/index.js:172 | a pointer outside `[minMaxDates[0], minMaxDates[1]]`, or any pointer over an empty series, gives no readout |
| `Hover.ExtentOfConsecutive` | src/index.js:85 | for consecutive whole-hour samples, the extent runs from the first sample to the last |
| `Hover.SnappedHourPresent` | src/index.js:172-173 | for consecutive whole-hour samples and a pointer inside the extent, the rounded pointer is one of the sample times |
| `Hover.NoSampleCloser` | src/index.js:173 | the sample at the rounded hour is at least as close to the pointer as every other sample |
| `Hover.LookupFindsNearestSample` | src/index.js:172-176 | for consecutive whole-hour samples with matching temperatures and a pointer inside the extent, `indexOf` never gives -1; the readout shows the rounded hour and its temperature, and no sample is closer to the pointer |
| `Hover.LookupMissingHour` | src/index.js:173-176 | inside the extent, a rounded hour with no sample still yields a readout, with an invalid date and an `undefined` temperature, because -1 is not guarded |
| `Hover.MissingHourExample` | src/index.js:173-176 | samples at 00:00 and 02:00 with a pointer at 01:00 reach that unguarded -1 |
| `Hover.ThreeHourScenario` | src/index.js:168-176 | samples at 00:00, 01:00 and 02:00 on 2024-01-01 with a pointer at 01:20 show the 01:00 time and temperature |

## Left out

- `src/api/api.js` (`swapiModule`, `OpenMeteoModule`) consists of network clients built on `fetch`, and the top-level fetch chain at `src/index.js:4-9` is asynchronous I/O. Neither is modelled.
- All D3/SVG rendering is left out: scales, `nice`, `invert`, axes, the `curveBasis` line, and the DOM writes in `mouseover`, `mousemove` and `mouseout`. This is library code over floating-point pixel coordinates. The pointer's instant is taken as an integer input.
- Parsing ISO 8601 strings with `new Date(t)` is the given function `parse`. A string that does not parse (a `NaN` time) is not modelled.
- Local time zones and daylight-saving shifts are not modelled. `getHours`, `setHours` and `setMinutes` are read in UTC on integer milliseconds. The `TimeClip` range limit of JavaScript dates and fractional milliseconds from `invert` are not modelled either.
- `console.log` calls and the undeclared globals `curData`/`curTemp` are left out. `src/index.js` is an ES module and so runs in strict mode, where the undeclared assignment at l.174 throws a `ReferenceError`. The `Reading` that `Hover.MouseMove` returns is therefore what the handler computes, not something the running page is shown to display.
- `Hover.Extent` models `d3.extent` over plain integers. `d3.extent` skips `null` and `NaN` values, which cannot arise here because `parse` is total.
