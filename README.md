# Log analyzer: parsing, dataset assembly and chart summaries

A Dafny model of the data path of the log analysis dashboard: the
`useLogParser` hook that turns the text of a server log into a dataset of
"Robust - stats" samples and OverloadManager decisions, the two chart
utilities that thin a series (`sampleData`) and summarise one of its metrics
(`calculateMetricStats`), and the row projections of the OverloadManager panel
(`formatData`, `plotData`).

Modules, one concern each:

- `Wrappers` — `Option` and `Result`.
- `JsNumbers` — a JavaScript number: finite (an exact real), ±Infinity or NaN;
  truthiness, `||`, `Math.min` and `Math.max`.
- `Text` — `trim`, `split` on one character, `includes`, the leftmost-match
  scan of a regular expression, decimal digits, `padStart`, ASCII
  `toLowerCase`, `replace` of the first occurrence of a character.
- `NumberParsing` — `parseFloat` (whitespace, sign, `Infinity`, digits,
  fraction, exponent; the longest literal prefix).
- `CivilTime` — the proleptic Gregorian calendar of `Date` in UTC: day counts
  to civil dates and back (a proved round trip and successor law), time values
  in milliseconds, and the `toISOString` text (ISO 8601:2004 section 4.3.2,
  extended format).
- `Collections` — order-preserving `filter` and the filter-then-map shape of
  a `forEach` loop that pushes into an array.
- `LogParser` — `src/components/useLogParser.jsx`: configuration merge,
  `validateFile`, `formatTimestamp`, `parseLogLine`, `parseLogFile` (a loop)
  and the time range.
- `ChartUtils` — `src/components/LogChartComponents.jsx`: `sampleData` and
  `calculateMetricStats` (the value gathering loop, an in-place sort of an
  array, the summing loop).
- `OverloadTable` — `src/components/OverloadManager.jsx`: the no-data guard
  and the `formatData` / `plotData` projections.

Behaviour of the code worth knowing:

- An unrecognised line is dropped when `strictParsing` is on, which is the
  default; with it off, the line gives a record that has only `timestamp` and
  an empty `timestampFormatted`. That record has neither `http` nor
  `triggerPct` and so enters no collection, which makes the flag irrelevant
  to the dataset (`LogParser.StrictnessIrrelevant`). The comment at
  `src/components/useLogParser.jsx:101` says the opposite of the code on
  line 102; the model follows the code.
- An empty dataset has the time range `(Infinity, -Infinity)`. A timestamp
  of 0 is falsy and counts as missing.
- Nothing merges OverloadManager lines by timestamp. No line produces `runQ`,
  so `processMainLoops` is always empty, and `addCandidateTargets` equals
  `overloadManager`.
- A line with a timestamp that is not a valid `Date` (NaN, an infinity, or
  more than 8.64e15 ms from the epoch) makes `formatTimestamp` throw. That
  happens only on a recognised line. The exception is caught, and the line is
  skipped while the later lines are still parsed.

## Model

| member | source | states |
|---|---|---|
| `LogParser.MergeConfig` | src/components/useLogParser.jsx:11-26 | each key the caller gives replaces the default, and every other key keeps its default |
| `LogParser.ValidateFile` | src/components/useLogParser.jsx:29-46 | too large exactly when size > maxFileSize, checked first; otherwise rejected exactly when the lower-cased extension is not allowed |
| `LogParser.FileExtension` | src/components/useLogParser.jsx:38 | the extension starts with its one dot and holds no other dot |
| `LogParser.ExtensionAfterLastDot` | src/components/useLogParser.jsx:38 | the extension is `.` plus the lower-cased text after the last dot |
| `LogParser.ExtensionWithoutDot` | src/components/useLogParser.jsx:38 | a name without a dot is its own extension |
| `LogParser.DefaultValidation` | src/components/useLogParser.jsx:11-15 | with the defaults, `<stem>.<ext>` is accepted iff size ≤ 10485760 and the lower-cased ext is `log` or `txt` |
| `LogParser.DefaultValidationExamples` | src/components/useLogParser.jsx:29-46 | `server.LOG` is accepted and `server.log.gz` is rejected for its type |
| `LogParser.FormatTimestamp` | src/components/useLogParser.jsx:49-52 | fails exactly when the time value is not a valid `Date`; otherwise the text has 19 characters |
| `LogParser.FormatTimestampText` | src/components/useLogParser.jsx:49-52 | for years 0 to 9999 the text is the 19-character `YYYY-MM-DD HH:mm:ss` of the UTC date and time of the time value |
| `LogParser.DisplayTextReadsBack` | src/components/useLogParser.jsx:51 | the digits of the formatted text read back as the year, month, day, hour, minute and second |
| `LogParser.FormatTimestampThrows` | src/components/useLogParser.jsx:50-51 | formatting fails exactly for NaN, an infinity, or a time value beyond ±8.64e15 ms |
| `CivilTime.CivilFromDays` | src/components/useLogParser.jsx:50-51 | every day count maps to a valid calendar date |
| `CivilTime.CivilFromDaysCount` | src/components/useLogParser.jsx:50-51 | the date found for a day count has that day count |
| `CivilTime.CivilRoundTrip` | src/components/useLogParser.jsx:50-51 | every valid date is found again from its day count |
| `CivilTime.NextDayCount` | src/components/useLogParser.jsx:50-51 | the next calendar day has the next day count |
| `CivilTime.DateTimeOf` | src/components/useLogParser.jsx:50-51 | a time value splits into a valid date and time of day that add back up to it |
| `CivilTime.DateTimeRoundTrip` | src/components/useLogParser.jsx:50-51 | a valid date and time of day is found again from its time value |
| `LogParser.ParseLogLine` | src/components/useLogParser.jsx:55-107 | a record has the line's timestamp; the Robust marker wins over the OverloadManager one; a record without fields arises only with strict parsing off and has an empty formatted time; any other record carries the formatted form of its timestamp |
| `NumberParsing.ParseFloat` | src/components/useLogParser.jsx:58 | blank text reads as NaN, and a finite result needs a digit in the text |
| `LogParser.TimestampBeforeFirstBar` | src/components/useLogParser.jsx:58 | a record's timestamp is the `parseFloat` of the text before the first bar character, whatever follows |
| `NumberParsing.ParseFloatDecimal` | src/components/useLogParser.jsx:58 | the decimal text of n, followed by text that cannot continue a number, reads as n |
| `NumberParsing.ParseFloatSkipsWhiteSpace` | src/components/useLogParser.jsx:58 | leading whitespace does not change what `parseFloat` reads |
| `NumberParsing.ParseFloatNaN` | src/components/useLogParser.jsx:58 | text whose first visible character cannot start a number reads as NaN |
| `NumberParsing.ParseFloatFraction` | src/components/useLogParser.jsx:89-93 | a captured `digits.digits` reads as the decimal fraction it spells |
| `LogParser.RobustLine` | src/components/useLogParser.jsx:63-78 | a line with `Robust - stats`, even with the OverloadManager marker too, yields a record with `http` and without `triggerPct` iff its timestamp can be formatted |
| `LogParser.RobustCountersDefaultToZero` | src/components/useLogParser.jsx:67-74 | without `Accepts: http/https ` both http and https are 0; without `client: in-progress ` clientInProgress is 0 |
| `LogParser.AcceptsCounters` | src/components/useLogParser.jsx:72-73 | http and https are the two numbers after the first `Accepts: http/https `, when it is followed by n/m |
| `LogParser.ClientCounter` | src/components/useLogParser.jsx:74 | clientInProgress is the number after the leftmost `client: in-progress ` |
| `LogParser.OverloadLine` | src/components/useLogParser.jsx:81-98 | an OverloadManager line yields a record iff its timestamp formats; it has triggerPct iff `trigger_pct:<d+.d+>%` occurs, and denyPct iff `deny_pct:<d+.d+>%` occurs |
| `LogParser.PercentFound` | src/components/useLogParser.jsx:85-94 | a percentage is set exactly when its pattern matches somewhere in the line |
| `LogParser.PercentValue` | src/components/useLogParser.jsx:85-94 | for either tag, the percentage is the decimal value of the leftmost complete `<tag><d+.d+>%` |
| `LogParser.TriggerPercent` | src/components/useLogParser.jsx:85-89 | triggerPct is the decimal value of the leftmost complete `trigger_pct:<d+.d+>%` |
| `LogParser.DenyPercent` | src/components/useLogParser.jsx:86-94 | denyPct is the decimal value of the leftmost complete `deny_pct:<d+.d+>%` |
| `LogParser.UnrecognisedLine` | src/components/useLogParser.jsx:101-102 | a line with neither marker gives null under strict parsing, otherwise a record with only the timestamp and an empty formatted time |
| `LogParser.Lines` | src/components/useLogParser.jsx:124 | every line kept is non-blank and has no newline |
| `LogParser.LinesRoundTrip` | src/components/useLogParser.jsx:124 | splitting the newline-joined non-blank lines gives them back in order |
| `LogParser.BlankLineDropped` | src/components/useLogParser.jsx:124 | a whitespace-only line between others is dropped |
| `Text.BlankIff` | src/components/useLogParser.jsx:124 | a line is blank after `trim` iff all its characters are whitespace |
| `Text.SplitJoin` | src/components/useLogParser.jsx:124 | splitting undoes joining with the separator |
| `LogParser.ParseLogFile` | src/components/useLogParser.jsx:110-157 | a file that fails validation gives its rejection; otherwise the result is the dataset of the non-blank lines |
| `LogParser.CollectRecords` | src/components/useLogParser.jsx:126-139 | the loop's two arrays hold, in line order, the records with `http` and the records with `triggerPct` |
| `LogParser.DatasetOf` | src/components/useLogParser.jsx:142-157 | `addCandidateTargets` equals `overloadManager` and `processMainLoops` is empty |
| `LogParser.LinesIndependent` | src/components/useLogParser.jsx:129-139 | the collections of a concatenation of lines are the concatenations of the collections |
| `LogParser.UnparsedLineSkipped` | src/components/useLogParser.jsx:103-105 | a line that yields null adds nothing and the later lines are processed as if it were absent |
| `LogParser.RobustStatsExactly` | src/components/useLogParser.jsx:129-134 | `robustStats` holds the records of exactly the lines whose record has `http`, in file order |
| `LogParser.OverloadManagerExactly` | src/components/useLogParser.jsx:135-137 | `overloadManager` holds the records of exactly the lines whose record has `triggerPct`, in file order |
| `LogParser.NoRecordInBoth` | src/components/useLogParser.jsx:129-139 | no record is in both collections |
| `LogParser.CollectedRecordsFormatted` | src/components/useLogParser.jsx:64-82 | every collected record has a finite timestamp and carries its formatted time |
| `LogParser.StrictnessIrrelevant` | src/components/useLogParser.jsx:102-137 | the dataset is the same with strict parsing on or off |
| `JsNumbers.MathMin` | src/components/useLogParser.jsx:148-151 | NaN iff an argument is NaN; otherwise the smaller argument |
| `JsNumbers.MathMax` | src/components/useLogParser.jsx:152-155 | NaN iff an argument is NaN; otherwise the larger argument |
| `LogParser.TimeRangeOf` | src/components/useLogParser.jsx:147-156 | never NaN; the start is at most the first timestamp of each collection and the end at least the last one; no records give (Infinity, -Infinity) |
| `LogParser.TimeRangeBounds` | src/components/useLogParser.jsx:147-156 | no records give (Infinity, -Infinity); the range is never NaN; start ≤ each first truthy timestamp and end ≥ each last one |
| `LogParser.TimeRangeExamples` | src/components/useLogParser.jsx:147-156 | robust [10, 30, 20] and overload [5, 40] give (5, 40); the ends are taken by position, and a 0 timestamp counts as missing |
| `ChartUtils.SampleData` | src/components/LogChartComponents.jsx:15-20 | a missing series stays missing; a series of at most maxPoints points is returned unchanged; the result is never longer |
| `ChartUtils.KeepPrefix` | src/components/LogChartComponents.jsx:19 | the filter keeps at most as many points as it reads |
| `ChartUtils.SampleStride` | src/components/LogChartComponents.jsx:18-19 | a longer series keeps exactly the points at multiples of k = ceil(n / maxPoints) ≥ 2, in order, at most maxPoints of them |
| `ChartUtils.SampleKeepsFirst` | src/components/LogChartComponents.jsx:18-19 | for maxPoints ≥ 0 the first point is always kept |
| `ChartUtils.ChartSampleBound` | src/components/LogChartComponents.jsx:15-19 | with the default maxPoints the charts draw at most 300 points |
| `ChartUtils.SampleZeroMaxPoints` | src/components/LogChartComponents.jsx:18-19 | maxPoints 0 makes the interval Infinity, so only the first point is kept |
| `ChartUtils.SampleNegativeMaxPoints` | src/components/LogChartComponents.jsx:18-19 | a negative maxPoints larger in magnitude than the series makes the interval -0, so nothing is kept |
| `ChartUtils.SelectValue` | src/components/LogChartComponents.jsx:149-161 | the path-walking loop computes the value the selector specifies |
| `ChartUtils.WalkPath` | src/components/LogChartComponents.jsx:152-157 | the walk stops at a falsy value, and a step into something that is not an object gives a falsy value |
| `ChartUtils.Selected` | src/components/LogChartComponents.jsx:149-161 | a selected value is truthy or else exactly the number 0; no selector and a missing key give 0; a present truthy key gives its value |
| `ChartUtils.MissingKeySelectsZero` | src/components/LogChartComponents.jsx:151-158 | a missing key selects 0, as a key and as a one-step path |
| `ChartUtils.PathOfOneKey` | src/components/LogChartComponents.jsx:150-158 | a path without a dot selects what the key of that name selects |
| `ChartUtils.NestedPath` | src/components/LogChartComponents.jsx:153-158 | `outer.inner` reads the inner field of the outer object, and gives 0 when the outer key is missing |
| `ChartUtils.GatherValues` | src/components/LogChartComponents.jsx:149-161 | the fresh array holds one selected value per record, in record order |
| `ChartUtils.SortValues` | src/components/LogChartComponents.jsx:164 | the array is sorted ascending in place and is a permutation of its old contents |
| `ChartUtils.Sort` | src/components/LogChartComponents.jsx:164 | the result is ascending and a permutation of the input |
| `ChartUtils.SortedUnique` | src/components/LogChartComponents.jsx:164 | two sorted arrangements of the same values are equal |
| `ChartUtils.SumValues` | src/components/LogChartComponents.jsx:167 | the summing loop computes the sum of the values |
| `ChartUtils.SumPermutation` | src/components/LogChartComponents.jsx:167 | the sum does not depend on the order of the values |
| `ChartUtils.CalculateMetricStats` | src/components/LogChartComponents.jsx:145-174 | zeros for a missing or empty series; otherwise the min, max, mean and median of the selected values |
| `ChartUtils.Median` | src/components/LogChartComponents.jsx:169-171 | of a sorted list, lies between the lower and the upper middle value, and is one of the values when their number is odd |
| `ChartUtils.MetricStats` | src/components/LogChartComponents.jsx:164-173 | min and max are values and bound all of them; min ≤ median ≤ max and min ≤ avg ≤ max |
| `ChartUtils.StatsOf` | src/components/LogChartComponents.jsx:145-174 | zeros for a missing or empty series; otherwise min and max are selected values of some records and bound every record's value, and the median and mean lie between them |
| `ChartUtils.StatsFromSorted` | src/components/LogChartComponents.jsx:164-171 | the statistics read off any sorted arrangement of the values are the statistics of the values |
| `ChartUtils.StatsOrderIndependent` | src/components/LogChartComponents.jsx:164-171 | permuting a list of values does not change its statistics |
| `ChartUtils.StatsOfPermutation` | src/components/LogChartComponents.jsx:145-173 | permuting the records of a series does not change its statistics |
| `ChartUtils.ValuesPermutation` | src/components/LogChartComponents.jsx:149-161 | permuted records select a permutation of the values |
| `ChartUtils.MissingMetricCounts` | src/components/LogChartComponents.jsx:149-168 | a record without the metric counts as 0 and counts towards n |
| `ChartUtils.StatsExample` | src/components/LogChartComponents.jsx:145-174 | x = 4, 1, 3, 2 give min 1, max 4, avg 2.5, median 2.5 |
| `OverloadTable.Render` | src/components/OverloadManager.jsx:5-32 | no data exactly when `logData` or `overloadManager` is missing or empty; otherwise one row and one point per entry |
| `OverloadTable.TextOr` | src/components/OverloadManager.jsx:12-13 | `''` exactly when the field is absent or empty, the field otherwise |
| `OverloadTable.NumberOr` | src/components/OverloadManager.jsx:14-21 | 0 exactly when the field is absent, 0 or NaN, the field otherwise |
| `OverloadTable.MetricField` | src/components/OverloadManager.jsx:17-21 | every load figure is absent when `metrics` is absent |
| `OverloadTable.FormatRow` | src/components/OverloadManager.jsx:10-22 | the timestamp passes through, and every other field is the entry's value or its default |
| `OverloadTable.FormatData` | src/components/OverloadManager.jsx:10-22 | one row per entry, at the same position |
| `OverloadTable.FormatDataAppend` | src/components/OverloadManager.jsx:10-22 | the rows of a concatenation are the concatenated rows, so order is kept |
| `OverloadTable.PlotOf` | src/components/OverloadManager.jsx:25-32 | the point together with the row's rule name, trigger type, trigger value, arlid and ehnid gives the row back |
| `OverloadTable.PlotData` | src/components/OverloadManager.jsx:25-32 | one point per row, at the same position |
| `OverloadTable.PlotFromEntries` | src/components/OverloadManager.jsx:10-32 | each point is the timestamp, triggerPct, denyPct, cpu, mem and reqs of the entry at the same position, with the defaults |
| `OverloadTable.RowNumbers` | src/components/OverloadManager.jsx:14-21 | no row holds NaN, and an entry without `metrics` shows 0 for all five load figures |
| `OverloadTable.PlotIgnoresDescriptiveFields` | src/components/OverloadManager.jsx:25-32 | the point does not depend on rule name, trigger type, trigger value, arlid or ehnid |
| `OverloadTable.TableOfEntries` | src/components/OverloadManager.jsx:6-32 | a non-empty collection renders exactly its default-filled rows and their points |
| `OverloadTable.ParsedDatasetRows` | src/components/OverloadManager.jsx:6-22 | fed by the parser, the panel shows no data iff no line had a trigger percentage; otherwise each row has empty names, zero load figures and the parsed triggerPct |

## Left out

- Reading the file (`file.text`), gzip decompression, the React state
  (`loading`, `error`, `logData`), the error messages and `console.error`
  logging are not modelled. `LogParser.ParseLogFile` takes the file's text as
  a parameter and returns the rejection or the dataset.
- A failure of `file.text()` is not modelled. Such a failure is caught by
  `parseLogFile`, which then sets an error instead of a dataset.
- Floating-point arithmetic is not modelled: numbers are exact reals.
  - `timestamp * 1000`, the mean and the sum are computed exactly, without
    rounding.
  - `parseFloat` gives the exact decimal value, not the nearest double.
  - `parseInt` of a long run of digits gives the exact integer, not a rounded
    double.
  - The sign of zero is not kept.
- `LogParser.MergeConfig`: a key the caller passes explicitly as `undefined`
  is treated as absent, although the spread would override the default with
  `undefined`. Configuration values are typed (an integer size, a list of
  extensions, a boolean).
- `ChartUtils.CalculateMetricStats`: requires every selected value to be a
  number. The model does not cover two cases:
  - a truthy string, boolean or object as a value, which the source sorts by
    coercing it in `a - b`;
  - an infinite value.
- `LogParser.ValidateFile`: `toLowerCase` is modelled on the ASCII letters
  only, while JavaScript lowers every Unicode letter (`Ä` to `ä`, the Kelvin
  sign U+212A to `k`). With a caller-supplied `['.kml']`, the name
  `map.\u212AML` is accepted by the source and rejected by the model. The
  default `.log`/`.txt` list is unaffected.
- `ChartUtils.SelectValue`: property lookups on strings and numbers (such as
  `length`), on arrays, and of inherited object properties (such as
  `toString`) give `undefined` in the model.
- `ChartUtils.CalculateMetricStats`: a `null` or `undefined` selector is not
  modelled. On such a selector, the source throws a `TypeError` at
  `metricPath.path`. `NoPath` stands for an object without a truthy `path`.
- The panel's `entry.timestamp.toFixed(3)` is not modelled. The timestamp is
  passed through as it is. The JSX of the table and of the charts is not
  modelled either.
- The other components (Overview, MetricChart, StatCard, ReportGenerator,
  SystemLogAnalyzer), the report HTML template, and the tooltip and chart
  components of `LogChartComponents.jsx` are presentation and are not
  modelled.
- `src/utils/logParser.js` and `src/utils/chartUtils.js` are not part of this
  model, and neither is any timestamp-tolerance merging of OverloadManager
  lines that they may hold.
