# Health Planet dashboard core, modelled in Dafny

This project models the data logic behind the Health Planet viewer dashboard:

- the raw-record normaliser of `HealthPlanetAPI`, with its `YYYYMMDD` date codec;
- the moving-average engine;
- the date-window calculator of the `useDateRange` hook;
- the CSV serialiser;
- the moving-average toggle.

The raw-record normaliser groups the Health Planet measurement records by day. Tag `6021` is the weight and tag `6022` the body-fat percentage. Later records overwrite earlier ones, and the entries come back sorted by date.

The moving-average engine attaches trailing 5-, 15- and 30-entry averages to the date-sorted series.

The date-window calculator turns the selected range kind and the current moment into the query window.

The CSV serialiser writes a header line and one line per record.

The moving-average toggle adds a window to the selected list or removes it.

JavaScript's own semantics are modelled where the code depends on them:

- `Date` is a local calendar day plus milliseconds into it. `new Date(y, m, d)`, `setDate`, `setMonth` and `setFullYear` all go through ECMAScript's MakeDay, so out-of-range months and days overflow into neighbouring months and years. Years 0..99 passed to the constructor mean 1900..1999.
- `parseInt` and `parseFloat` are modelled, with NaN as a value.
- `Math.round` rounds halves towards +infinity.
- `toFixed(1)` rounds halves away from zero.
- `padStart`, `substring`, `Array.prototype.join` and `String.prototype.split` are modelled.
- `Array.prototype.sort` with the `getTime()` difference comparator is a stable insertion sort. A NaN comparison counts as "equal".

Files and modules:

- `optional.dfy` (`Optional`): the option type.
- `text.dfy` (`Text`): digits, integer rendering, padding, substring, `parseInt`, join and split.
- `numbers.dfy` (`Numbers`): JavaScript numbers as NaN or a real value, with `parseFloat`, `Math.round` and `toFixed(1)`.
- `calendar.dfy` (`Calendar`): day numbers, MakeDay and the `Date` constructor and setters.
- `health_types.dfy` (`HealthTypes`): `HealthData`, `ParsedHealthData`, `DateRange` and `DateRangeFilter`.
- `date_sort.dfy` (`DateSort`): the sort by date.
- `health_planet_api.dfy` (`HealthPlanetApi`): `parseHealthData`, `parseDate` and `formatDateForAPI`.
- `moving_average.dfy` (`MovingAverage`): `calculateMovingAverage`, `calculateAllMovingAverages` and the window set.
- `use_date_range.dfy` (`DateRangeCalc`): the `useMemo` body of `useDateRange`, as a function of `(now, selectedRange)`.
- `export_utils.dfy` (`ExportUtils`): `convertToCSV`.
- `moving_average_selector.dfy` (`MovingAverageSelector`): `handleChange`.

`parseHealthData` fills a map in a loop, so it is a method whose map variable and key order follow the JavaScript `Map`. Its loop invariant ties the map to a functional specification (`Normalized`), and the properties are lemmas about that specification. `calculateAllMovingAverages` reassigns its result in a loop over the three windows, so it is a method too. Everything else is pure and is written as functions.

## Model

| member | source | states |
|---|---|---|
| `HealthPlanetApi.ParseHealthData` | src/lib/health-planet-api.ts:33-60 | The loop that fills the day map and its key order yields exactly the specification `Normalized`: the entries in first-appearance order of their day keys, then sorted. The result is sorted by date, and empty input gives empty output. |
| `HealthPlanetApi.CollectStep` | src/lib/health-planet-api.ts:36-55 | One record keeps the map in step with the records read so far. A new day key gets a date-only entry and is appended to the key order. The record's reading is stored under its tag. |
| `HealthPlanetApi.EntryStep` | src/lib/health-planet-api.ts:47-54 | One more record changes only the entry of its own day. Tag 6021 sets the weight and tag 6022 the body fat; any other tag changes nothing. |
| `HealthPlanetApi.DayPrefix` | src/lib/health-planet-api.ts:37 | The day key is the first eight characters of the record's date, or the whole date when it is shorter. |
| `HealthPlanetApi.DayKeysDistinct` | src/lib/health-planet-api.ts:40-42 | Every record's day key is listed, only record day keys are listed, and none is listed twice. |
| `HealthPlanetApi.NormalizedEntries` | src/lib/health-planet-api.ts:34-59 | The output has one entry per distinct day key and is a permutation of the per-day entries. Every record's day entry is in it, and every element is the entry of some record's day. |
| `HealthPlanetApi.EntryCount` | src/lib/health-planet-api.ts:34-44 | The output length equals the number of distinct eight-character day keys of the input. |
| `HealthPlanetApi.LastReadingIsLast` | src/lib/health-planet-api.ts:36-55 | Last write wins. A day's reading for a tag is absent exactly when no record has that day and tag. Otherwise it is the parsed `keydata` of the last such record in array order. |
| `HealthPlanetApi.UnknownTagIgnored` | src/lib/health-planet-api.ts:47-54 | A record with an unrecognised tag for a day already seen leaves the output unchanged. |
| `HealthPlanetApi.DateOnlyEntry` | src/lib/health-planet-api.ts:40-42 | A day whose records all carry unknown tags still gets an entry, holding only its parsed date. |
| `HealthPlanetApi.TimeOfDayIrrelevant` | src/lib/health-planet-api.ts:37 | Two inputs that agree on day keys, tags and `keydata` give the same output, so characters after position 8 never matter. |
| `HealthPlanetApi.NormalizedStrictlyAscending` | src/lib/health-planet-api.ts:57-59 | When every day key is a `ValidDayKey` (a real calendar day of the years 1000..9999), the output dates strictly ascend, so no day appears twice. |
| `HealthPlanetApi.EntriesOfValidKeys` | src/lib/health-planet-api.ts:38-42 | Valid day keys give valid, pairwise different entry dates. |
| `HealthPlanetApi.ParseDate` | src/lib/health-planet-api.ts:62-67 | `parseDate` gives either the Invalid Date or a valid date at local midnight. |
| `HealthPlanetApi.DateOfParts` | src/lib/health-planet-api.ts:66 | `new Date(year, month - 1, day)` gives the Invalid Date exactly when some part is NaN, and otherwise a valid date at midnight. |
| `HealthPlanetApi.ParseDateFields` | src/lib/health-planet-api.ts:62-67 | On digit fields, `parseDate` reads the year from characters 0-4, the one-based month from 4-6 (stored zero-based) and the day from 6-8. It then builds the date with `new Date`. |
| `HealthPlanetApi.ParseDateOfDayKey` | src/lib/health-planet-api.ts:62-67 | A valid day key parses to midnight of exactly the calendar day it names. |
| `HealthPlanetApi.FormatDateForApi` | src/lib/health-planet-api.ts:69-74 | Formatting the Invalid Date gives `NaNNaNNaN`, because every getter returns NaN. |
| `HealthPlanetApi.FormatFields` | src/lib/health-planet-api.ts:70-72 | For a valid day in the years 1000..9999, the year is written in four digits, and the month and day each in two zero-padded digits. Each field reads back as its number. |
| `HealthPlanetApi.FormatIsKey` | src/lib/health-planet-api.ts:69-74 | For the years 1000..9999 the formatted date is an eight-character valid day key naming the date's own calendar day. |
| `HealthPlanetApi.FormatThenParse` | src/lib/health-planet-api.ts:62-74 | For the years 1000..9999, `parseDate(formatDateForAPI(d))` is midnight of `d`'s calendar day. |
| `HealthPlanetApi.ParseThenFormat` | src/lib/health-planet-api.ts:62-74 | Formatting a parsed valid day key gives the key back. |
| `HealthPlanetApi.ParseDateInjective` | src/lib/health-planet-api.ts:62-67 | Different valid day keys parse to different dates. |
| `HealthPlanetApi.TwoDigitYearKeysCollide` | src/lib/health-planet-api.ts:62-67 | Outside the valid keys, `parseDate` is not injective: `00240301` and `19240301` both parse to 1 March 1924, because `new Date` reads the years 0..99 as 1900..1999. |
| `HealthPlanetApi.PadValue` | src/lib/health-planet-api.ts:71-72 | `toString().padStart(2, '0')` of a number up to 99 gives two digits with that value. |
| `DateSort.SortByDate` | src/lib/health-planet-api.ts:57-59 | The sort by `getTime()` returns a permutation of its input, in date order. |
| `DateSort.InsertSorted` | src/lib/moving-average.ts:24 | Inserting into a sorted sequence keeps it sorted. |
| `DateSort.SortSortedIdentity` | src/lib/moving-average.ts:24 | Sorting a sequence already in date order changes nothing, because the sort is stable. |
| `DateSort.SortKeepsDistinct` | src/lib/health-planet-api.ts:57-59 | Sorting never makes two elements share a date. |
| `DateSort.SortStable` | src/lib/health-planet-api.ts:57-59 | The sort is stable: the entries at any one time value come out in their input order. |
| `DateSort.StrictlyAscending` | src/lib/health-planet-api.ts:57-59 | A sorted sequence of valid, pairwise different dates is strictly ascending. |
| `MovingAverage.CalculateMovingAverage` | src/lib/moving-average.ts:14-22 | The output has the input's length, so empty input gives empty output. |
| `MovingAverage.CalculateShape` | src/lib/moving-average.ts:24-27 | The output entries are the input sorted by date: a permutation, in date order. Only the requested window's field may be set. |
| `MovingAverage.AverageAt` | src/lib/moving-average.ts:26-56 | Entry `i` of the output is entry `i` of the sorted input, carrying the average of the window ending at `i`. |
| `MovingAverage.NoAverageBeforeFullWindow` | src/lib/moving-average.ts:29-31 | Positions before index `days - 1` get no average. |
| `MovingAverage.AveragePresence` | src/lib/moving-average.ts:33-40 | From index `days - 1` on, the average is present exactly when some entry of the sorted window has the metric defined and not NaN. |
| `MovingAverage.AverageWithinReadings` | src/lib/moving-average.ts:42-54 | The average lies within any bounds that hold for every valid reading of its window, give or take the rounding to hundredths. |
| `MovingAverage.ValidValuesPresent` | src/lib/moving-average.ts:34-36 | The filtered readings are non-empty exactly when one window entry has a defined, non-NaN metric. |
| `MovingAverage.MeanBounds` | src/lib/moving-average.ts:42-46 | A rounded mean of readings between `lo` and `hi` lies between them, within 0.005. |
| `MovingAverage.Round2` | src/lib/moving-average.ts:46 | `Math.round(x * 100) / 100` is within half a hundredth of `x`, with halves rounded up, and is always a whole number of hundredths. |
| `MovingAverage.WindowAverage` | src/lib/moving-average.ts:29-54 | Before index `days - 1` there is no average. From there on, an average is present exactly when some entry of the window ending at the index has the metric defined and not NaN, and it is a whole number of hundredths. |
| `MovingAverage.MovingAverageData.WithAverage` | src/lib/moving-average.ts:44-54 | Writing one window's field sets that field and leaves the entry and the other two fields unchanged. |
| `MovingAverage.MergeWindow` | src/lib/moving-average.ts:76-81 | The index-wise merge takes window `w`'s field from the window's output and keeps every other field. |
| `MovingAverage.CalculateAllMovingAverages` | src/lib/moving-average.ts:60-85 | The output keeps the input order and each `data[i]`. Each window's field at `i` is that field of `calculateMovingAverage(data, window)[i]`. |
| `MovingAverage.SortedInputAligned` | src/lib/moving-average.ts:68-81 | With input already in date order, the averages merged at `i` belong to `data[i]` itself. |
| `MovingAverage.WeekAverages` | src/lib/__tests__/moving-average.test.ts:19-46 | For the test week, the five-day weight averages at positions 4 and 5 are 70.12 and 70.1, and the body-fat one is 15.04. |
| `MovingAverage.MissingReadingSkipped` | src/lib/__tests__/moving-average.test.ts:53-69 | `calculateMovingAverage` of five weight-only days whose third reading is missing gives `movingAverage5` 70.13 at index 4: 70.0, 70.2, 70.3 and 70.0 are averaged and the gap is skipped. |
| `DateRangeCalc.ComputeDateRangeFilter` | src/hooks/useDateRange.ts:7-34 | `type` is the selected range and `endDate` is `now`. The start is a valid date with `now`'s time of day, strictly before the end. |
| `DateRangeCalc.WeekStart` | src/hooks/useDateRange.ts:13-16 | The week start is exactly seven days before `now` by day number, across month and year boundaries. |
| `DateRangeCalc.MonthStart` | src/hooks/useDateRange.ts:17-20 | The month start is the same day of the previous month, with January going to December of the year before. A day the previous month lacks is not clamped: it runs on into the current month. |
| `DateRangeCalc.YearStart` | src/hooks/useDateRange.ts:21-24 | The year start is the same month and day one year earlier, except that 29 February becomes 1 March. |
| `DateRangeCalc.FallbackIsMonth` | src/hooks/useDateRange.ts:25-27 | Any range text other than `week`, `month` and `year` (the three named kinds) gives the month window, with its own text as `type`. |
| `DateRangeCalc.MonthDays` | src/hooks/useDateRange.ts:17-20 | A month back is at least 28 days back. |
| `DateRangeCalc.YearDays` | src/hooks/useDateRange.ts:21-24 | A year back is at least 364 days back. |
| `DateRangeCalc.MidMarchExamples` | src/__tests__/hooks/useDateRange.test.ts:28-59 | From 15 March 2024, the week start is 8 March, the month start 15 February and the year start 15 March 2023. An unrecognised kind gives 15 February. |
| `DateRangeCalc.MonthOverflowExample` | src/hooks/useDateRange.ts:17-20 | From 31 March 2024, a month back runs past 29 February to 2 March. |
| `DateRangeCalc.LeapDayExample` | src/hooks/useDateRange.ts:21-24 | From 29 February 2024, a year back is 1 March 2023. |
| `Calendar.NormalizeNumber` | src/hooks/useDateRange.ts:14-24 | The normalised day of `(y, m, d)` has day number MakeDay(y, m, d). |
| `Calendar.DayNumberOrder` | src/lib/health-planet-api.ts:57-59 | For valid days, calendar order and day-number order coincide, and equal day numbers mean equal days. |
| `Calendar.TimeValueOrder` | src/lib/moving-average.ts:24 | `getTime()` orders valid dates by day first, then by time of day, and is injective. |
| `Calendar.YearLength` | src/hooks/useDateRange.ts:21-24 | The closed form of DayFromYear advances by the year's length: 366 days in leap years and 365 otherwise. |
| `Calendar.NewDate` | src/lib/health-planet-api.ts:66 | `new Date(year, month, day)` on numbers always gives a valid date at local midnight. |
| `Calendar.SetDate` | src/hooks/useDateRange.ts:13-16 | `setDate` always gives a valid date and keeps the time of day. |
| `Calendar.SetMonth` | src/hooks/useDateRange.ts:17-20 | `setMonth` always gives a valid date and keeps the time of day. |
| `Calendar.SetFullYear` | src/hooks/useDateRange.ts:21-24 | `setFullYear` always gives a valid date and keeps the time of day. |
| `Calendar.NewDateNumber` | src/lib/health-planet-api.ts:66 | `new Date(year, month, day)` lands on day MakeDay of the year, with years 0..99 read as 1900..1999. |
| `Calendar.SetDateNumber` | src/hooks/useDateRange.ts:13-16 | `setDate(date)` lands on day MakeDay(year, month, date). |
| `Calendar.SetMonthNumber` | src/hooks/useDateRange.ts:17-20 | `setMonth(month)` lands on day MakeDay(year, month, day). |
| `Calendar.SetFullYearNumber` | src/hooks/useDateRange.ts:21-24 | `setFullYear(year)` lands on day MakeDay(year, month, day). |
| `ExportUtils.ConvertToCsv` | src/lib/export-utils.ts:3-22 | The export is empty exactly when there are no records. |
| `ExportUtils.CsvLines` | src/lib/export-utils.ts:9-21 | A non-empty export splits on newlines into the header line, then exactly one line per record in input order: n + 1 lines. |
| `ExportUtils.HeaderCells` | src/lib/export-utils.ts:6-7 | The header line splits on commas back into the five column names. |
| `ExportUtils.LocaleDateString` | src/lib/export-utils.ts:11 | The date cell holds no comma or newline, and is `Invalid Date` exactly for the Invalid Date. |
| `ExportUtils.FormatRow` | src/lib/export-utils.ts:10-18 | A record's line splits on commas back into the record's five cells and holds no newline. |
| `ExportUtils.Rows` | src/lib/export-utils.ts:9-19 | There is one line per record, in input order, and line `i` splits back into the cells of record `i` and holds no newline. |
| `ExportUtils.RowSplits` | src/lib/export-utils.ts:10-18 | A record line splits back into its five cells, the same number as the header. |
| `ExportUtils.RowCells` | src/lib/export-utils.ts:10-18 | A record has five cells and none contains a comma or a newline. |
| `ExportUtils.FixedOrEmpty` | src/lib/export-utils.ts:12-13 | A metric cell is empty exactly when the metric is absent. |
| `ExportUtils.MetricCells` | src/lib/export-utils.ts:12-13 | The weight and body-fat cells are empty exactly when the metric is absent. Otherwise they read back as the value rounded to one decimal. |
| `ExportUtils.EmptyRowExample` | src/__tests__/lib/export-utils.test.ts:73-86 | A record without readings on 1 March 2024 gives `2024/3/1,,,,`. |
| `ExportUtils.RoundingExample` | src/__tests__/lib/export-utils.test.ts:88-101 | 70.123456 and 15.987654 give `2024/3/1,70.1,16.0,,`. |
| `ExportUtils.CsvOfOne` | src/lib/export-utils.ts:21 | The export of one record is the header line, a newline and the record's line. |
| `ExportUtils.BodyFatOnlyRowExample` | src/lib/export-utils.ts:10-18 | The record of 1 March 2024 with only a body-fat reading of 15 gives the line `2024/3/1,,15.0,,`. |
| `ExportUtils.SingleRecordExample` | src/lib/export-utils.ts:3-22 | Exporting only the record of 1 March 2024 with a body-fat reading of 15 gives the header line, a newline and `2024/3/1,,15.0,,`. |
| `Numbers.ParseFloat` | src/lib/health-planet-api.ts:45 | `parseFloat` of a string that starts with a digit is a number. It is NaN for the empty string and for a string whose first character is not a digit, a sign or a point. |
| `Numbers.Round1` | src/lib/export-utils.ts:12-13 | The value to the nearest tenth, within half a tenth, with halves going away from zero. The result is always a whole number of tenths. |
| `Numbers.ToFixed1` | src/lib/export-utils.ts:12-13 | `toFixed(1)` of NaN is `NaN`. For a number it ends in a point and one digit, and starts with `-` exactly when the number is negative. |
| `Numbers.ToFixed1RoundTrip` | src/lib/export-utils.ts:12-13 | Parsing what `toFixed(1)` writes gives exactly the number rounded to one decimal, and NaN stays NaN. |
| `Numbers.ToFixed1Shape` | src/lib/export-utils.ts:12-13 | `toFixed(1)` of a non-negative value writes digits, a point and exactly one digit. |
| `Numbers.MathRound` | src/lib/moving-average.ts:46 | `Math.round` is the nearest integer, with halves going up. |
| `Text.SplitJoin` | src/lib/export-utils.ts:21 | Splitting a join on a separator no part contains gives the parts back. |
| `Text.NatToStringOfDigits` | src/lib/health-planet-api.ts:71-73 | A digit string without a leading zero is exactly the rendering of its value. |
| `Text.ParseInt` | src/lib/health-planet-api.ts:63-65 | `parseInt` of a non-empty digit string is its value, and of the empty string NaN. |
| `MovingAverageSelector.HandleChange` | src/components/charts/MovingAverageSelector.tsx:26-32 | The toggled window's membership flips, and every other window's membership is unchanged. |
| `MovingAverageSelector.ToggleAbsentAppends` | src/components/charts/MovingAverageSelector.tsx:27-29 | An unlisted window is appended at the end. |
| `MovingAverageSelector.RemoveAll` | src/components/charts/MovingAverageSelector.tsx:28 | `filter(d => d !== days)` leaves no `days` in the list, keeps exactly the other windows and never makes the list longer. |
| `MovingAverageSelector.TogglePresentRemoves` | src/components/charts/MovingAverageSelector.tsx:27-28 | A listed window is removed with every repetition, the rest keep their order, and the list gets shorter. |
| `MovingAverageSelector.ToggleKeepsDistinct` | src/components/charts/MovingAverageSelector.tsx:27-29 | A list without repetitions stays without repetitions. |
| `MovingAverageSelector.ToggleTwiceRestores` | src/components/charts/MovingAverageSelector.tsx:27-29 | Toggling an unlisted window on and then off gives the original list back. |
| `MovingAverageSelector.ToggleExamples` | src/__tests__/components/charts/MovingAverageSelector.test.tsx:58-92 | `[5]` toggled with 15 gives `[5, 15]`, and `[5, 15, 30]` toggled with 15 gives `[5, 30]`. |

## Left out

- `fetchHealthData` (src/lib/health-planet-api.ts:4-31): network I/O through `fetch`.
- `downloadCSV` and `exportHealthDataToCSV` (src/lib/export-utils.ts:24-48): DOM, Blob and URL side effects, and a timestamp read from the clock.
- React state, rendering and the SWR hook: `useState` in `useDateRange`, `useHealthData`, the API route and every component. Only the logic of `handleChange` is modelled.
- The labels and colours of `MOVING_AVERAGE_OPTIONS`: presentation only. The window set 5, 15 and 30 is the `Window` datatype.
- The clock. The current moment `new Date()` of `useDateRange` is the parameter `now`.
- IEEE-754 floating point. Readings, sums and averages are exact reals, so no binary rounding artefacts are reproduced. `Math.round` and `toFixed(1)` round the exact value.
- Time zones, daylight saving and the time-value range limit of ±8.64e15 ms. A `Date` is a local calendar day plus milliseconds into it, so every day is 86 400 000 ms long and any year is representable.
- `toLocaleDateString('ja-JP')` is modelled as `year/month/day` without padding. Locale data and eras are left out.
- Leading whitespace, the `0x` prefix and the radix guessing of `parseInt` are left out.
- Day keys of the years 0000..0099 parse to the same dates as those of 1900..1999, because `new Date` maps two-digit years. Two raw records with such keys, like `00240301` and `19240301`, therefore give two entries with the same date, and the output is not strictly ascending (`TwoDigitYearKeysCollide`). `NormalizedStrictlyAscending` claims strict ascent only for keys of the years 1000..9999.
- Strings are sequences of Unicode scalar values, while JavaScript's `substring` and `padStart` count UTF-16 code units. The two agree on the ASCII digit dates that the core cuts and pads.
- Leading whitespace, exponents and `Infinity` in `parseFloat` are left out.
- `toFixed` for values of 1e21 and above, which JavaScript writes in exponent form, is left out.
- ExportUtils.LocaleDateString: the rendering of years outside 1..9999 is not compared with a real locale.
- HealthPlanetApi.FormatThenParse: holds only for the years 1000..9999, where the year has four digits. Other years do not round-trip in the source either.
- DateSort.SortByDate: with Invalid Dates the order `Array.prototype.sort` produces depends on the engine. The model is one stable order that treats NaN comparisons as ties.
- MovingAverage.CalculateAllMovingAverages: merges by index as the source does. The averages belong to `data[i]` only when the input is already date-sorted (`SortedInputAligned`); for other input the pairing is as written and no further property is claimed.
- The `muscle` and `bmi` columns: `ParsedHealthData` has neither field, so the CSV writes them as empty cells.
- The `ExportData` type is not modelled. The row has five cells, as `convertToCSV` writes it.
- The export test at src/__tests__/lib/export-utils.test.ts assumes three columns throughout: the header at line 67 and the row lines at 68, 69, 70, 85 and 100 (for example `2024/3/3,,15.0`, `2024/3/1,,` and `2024/3/1,70.1,16.0`). The five-cell code disagrees. The model follows the code, so `EmptyRowExample` and `RoundingExample` state the five-cell lines `2024/3/1,,,,` and `2024/3/1,70.1,16.0,,` for those test inputs.
- The third range kind. The code subtracts one calendar year. The selector's button for this kind is labelled `3ヵ月` (three months) at src/components/common/DateRangeSelector.tsx:36-37. The model follows the code: one year back, and `setMonth` overflow with no clamping.
