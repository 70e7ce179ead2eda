# Weighted random populations and date helpers, in Dafny

This project models two stateless helper classes of the `Bytes\Helpers` PHP
library and proves what they promise.

- `Bytes\Helpers\Random\Random` (module `Random`, file `random.dfy`) builds a
  *weighted population*: the value at 0-based position `i` of the iterated
  range or list is appended `i + 2` times. `getRandomWeightedNumber` draws one
  element of it.
  - The population is specified by the function `Weighted`. It is the
    population of all but the last value, followed by `n + 1` copies of the
    last value, where `n` is the number of values.
  - The nested `foreach` loops are the method `AppendWeighted`, proved to
    compute `Weighted`.
  - PHP's `range` is modelled as `PhpRange`, including the descending order
    when its first bound is larger. With `weightedHigher = false`, the swapped
    bounds therefore iterate from `max` down to `min`, and `min` gets the most
    copies.
- `Bytes\Helpers\DateTime\Date` (module `Date`, file `date.dfy`) snaps a time
  to an allowed last minute digit, counts weekdays in a range, converts between
  time units, and reads date parts through `__callStatic`.
  - A wall-clock time is `LocalDateTime(minutes, second)`. `minutes` counts
    minutes since 1970-01-01 00:00 local time, and the second is carried
    unchanged.
  - Days are 1440 minutes, and day 0 is a Thursday.
  - `DaysFromCivil` turns a proleptic Gregorian date into a day number, which
    anchors the test suite's dates. 2020-03-30 is day 18351, a Monday.
  - Because 60 is a multiple of 10, the last digit of the minute of the hour is
    `minutes % 10`. Snapping across hour and day boundaries needs no special
    case.
  - `DatePeriod($start, '1 day', $end)` is modelled as `Period`: `start`, then
    each day after it, while strictly before `end`.
  - `convertTimeTypeToTimeType` is modelled over the integers, with exact
    rounding. The unit is the first character left after trimming,
    lower-cased. The result is `v * from / to` rounded half away from zero, as PHP's `round()` does.
  - The `switch` in `__callStatic` is `PartOf`, from the lower-cased part key to
    a `Part`. `GetFromDate` reads that part of a `CivilDateTime`.

`wrappers.dfy` holds `Option`, `Result` and the one exception the code throws,
`BadMethodCallException`.

Two behaviours of the code shape the model.
- After the `weightedHigher = false` swap, the code iterates `range($max, $min)`,
  which PHP walks in descending order.
- The snapping loops never end when no digit 0 to 9 is allowed. The code does
  not reject such a set, so the model requires one.

## Model

| member | source | states |
|---|---|---|
| Random.PhpRange | src/Random/Random.php:45 | `range($lo, $hi)` has `abs(hi - lo) + 1` elements. Element `i` is `lo + i` when ascending and `lo - i` when descending. |
| Random.Reverse | src/Random/Random.php:64 | `array_values(array_reverse($values))` has the same length, and element `i` is the input's element `n - 1 - i`. |
| Random.Repeat | src/Random/Random.php:47-49 | The inner loop's contribution: exactly `k` elements, each equal to the value. |
| Random.Weighted | src/Random/Random.php:44-50 | The population of `n` values has length `n(n+3)/2`. |
| Random.AppendWeighted | src/Random/Random.php:44-50 | The nested `foreach` loops append exactly `Weighted(values)`. The loop invariants carry the prefix built so far. |
| Random.GetRandomWeightedNumberRange | src/Random/Random.php:27-53 | `min == max` gives `[min]`. It fails with `BadMethodCallException` exactly when `max < min`, so equal bounds never throw. Otherwise it returns the weighted `range($min, $max)`, or the weighted `range($max, $min)` after the swap. |
| Random.GetWeightedArray | src/Random/Random.php:60-75 | It returns the weighted list, or the weighted reversed list when `weightedHigher` is false. |
| Random.GetRandomWeightedNumber | src/Random/Random.php:16-19 | It fails exactly when `max < min`. Otherwise it returns some element of the weighted range, which lies in `[min, max]`. It returns `min` when `min == max`. |
| Random.WeightedArray | src/Random/Random.php:60-75 | What `getWeightedArray` returns has `n(n+3)/2` elements in both directions. |
| Random.WeightedRange | src/Random/Random.php:27-53 | What `getRandomWeightedNumberRange` returns: `[min]` when `min == max`, and a `BadMethodCallException` exactly when `max < min`. For `min < max` it is a population of at least five elements. |
| Random.OffsetClosedForm | src/Random/Random.php:44-50 | The run of the value at index `i` starts at position `i(i+3)/2`. |
| Random.RepeatMultiset | src/Random/Random.php:47-49 | `k` copies of `x` are the multiset holding `x` with multiplicity `k`. |
| Random.WeightedRuns | src/Random/Random.php:44-50 | The value at index `i` occupies the `i + 2` consecutive positions from `Offset(i)`, in input order. |
| Random.WeightedMembers | src/Random/Random.php:44-50 | A value is in the population if and only if it is in the input. |
| Random.WeightedCountAbsent | src/Random/Random.php:44-50 | A value not in the input has no copy. |
| Random.WeightedCountAt | src/Random/Random.php:44-50 | With distinct inputs, the value at index `i` has exactly `i + 2` copies. |
| Random.WeightedNonDecreasing | src/Random/Random.php:44-50 | A non-decreasing input gives a non-decreasing population. |
| Random.WeightedNonIncreasing | src/Random/Random.php:44-50 | A non-increasing input gives a non-increasing population. |
| Random.WeightedArrayShape | src/Random/Random.php:60-75 | The length is `n(n+3)/2`. After the optional reversal, element `i` appears in order as a run of `i + 2` copies. Reversed, index `i` holds the original element `n - 1 - i`. |
| Random.WeightedArrayShortLists | src/Random/Random.php:60-75 | There is no special case for short lists: an empty list stays empty, and `[x]` gives `[x, x]`. |
| Random.PhpRangeReversed | src/Random/Random.php:37-45 | For `min <= max`, `range($max, $min)` is `range($min, $max)` reversed. |
| Random.RangeIsWeightedArray | src/Random/Random.php:37-50 | For `min < max`, the range builder equals the array builder applied to `range($min, $max)`, in both directions. |
| Random.PairAgrees | Tests/RandomTest.php:31-32 | On `[m, m + 1]`, `getRandomWeightedNumberRange` and `getWeightedArray` agree in both directions. |
| Random.WeightedRangeMembers | src/Random/Random.php:29-50 | For `min <= max`, the range builder succeeds, and its output contains exactly the integers of `[min, max]`. |
| Random.PhpRangeFacts | src/Random/Random.php:45 | `range` lists distinct integers: non-decreasing when ascending, non-increasing when descending. |
| Random.RangeMultiplicity | src/Random/Random.php:44-50 | In the weighted `range($lo, $hi)`, a value `x` between the bounds appears `abs(x - lo) + 2` times. Any other value appears 0 times. |
| Random.WeightedRangeLength | src/Random/Random.php:37-50 | For `min < max` and `n = max - min + 1`, the output has `n(n+3)/2` elements in both directions. |
| Random.WeightedHigherShape | src/Random/Random.php:44-50 | Weighted higher, the output is `min..max` in runs, where `min + i` appears exactly `i + 2` times. Values outside `[min, max]` never appear. The output is non-decreasing. |
| Random.WeightedLowerShape | src/Random/Random.php:37-50 | Weighted lower, the output is `max` down to `min` in runs, where `x` appears `max - x + 2` times, so `min` is the most repeated. Values outside `[min, max]` never appear. The output is non-increasing. |
| Random.WeightsHigherExample | Tests/RandomTest.php:40 | `(1, 2)` weighted higher gives `[1, 1, 2, 2, 2]` from both builders. |
| Random.WeightsLowerExample | Tests/RandomTest.php:41 | `(1, 2)` weighted lower gives `[2, 2, 1, 1, 1]` from both builders. |
| Date.MinuteOf | src/DateTime/Date.php:213 | Format `'i'` (through `getMinuteFromDate`) reads a minute of the hour, 0 to 59. |
| Date.HourOf | src/DateTime/Date.php:111 | Format `'G'` reads an hour of the day, 0 to 23. |
| Date.DayOfWeek | src/DateTime/Date.php:268 | Format `'w'` (through `getDayOfWeekFromDate`) reads a weekday, 0 (Sunday) to 6 (Saturday). |
| Date.CalendarAnchor | Tests/DateTest.php:32 | 1970-01-01 is day 0, and 2020-03-30 is day 18351, a Monday (weekday 1). |
| Date.MinuteDigit | src/DateTime/Date.php:213 | The minute of the hour modulo 10 is a digit, and equals the minute count modulo 10. |
| Date.DigitStepBack | src/DateTime/Date.php:222-225 | One step back moves the last digit down by one, wrapping from 0 to 9. |
| Date.DigitStepForward | src/DateTime/Date.php:248-251 | One step forward moves the last digit up by one, wrapping from 9 to 0. |
| Date.ReduceMinutesNoTensToValue | src/DateTime/Date.php:211-229 | The result is the input moved back by the least number of minutes (0 to 9) that reaches an allowed last digit. The second is unchanged. An already-allowed input is returned as is. |
| Date.IncreaseMinutesNoTensToValue | src/DateTime/Date.php:237-255 | The result is the input moved forward by the least number of minutes (0 to 9) that reaches an allowed last digit. The second is unchanged. An already-allowed input is returned as is. |
| Date.ReductionUnique | src/DateTime/Date.php:218-228 | This postcondition of reduce determines a single result. |
| Date.IncreaseUnique | src/DateTime/Date.php:244-254 | This postcondition of increase determines a single result. |
| Date.ReductionIdempotent | src/DateTime/Date.php:213-216 | Reducing a reduced time returns it unchanged. |
| Date.IncreaseIdempotent | src/DateTime/Date.php:239-242 | Increasing an increased time returns it unchanged. |
| Date.SnappingExamples | Tests/DateTest.php:139-142 | With allowed digit 5: 16:36 goes to 16:35 or 16:45, and 16:01 to 15:55 or 16:05. 00:01 goes to 23:55 of the previous day or 00:05. 23:59 goes to 23:55 or 00:05 of the next day. |
| Date.NextDay | src/DateTime/Date.php:264 | The `'1 day'` interval moves the instant forward by 86400 seconds and keeps the second. |
| Date.Period | src/DateTime/Date.php:265 | The `DatePeriod` is empty exactly when `end` is not after `start`. Otherwise it starts at `start`. |
| Date.WeekdayCount | src/DateTime/Date.php:267-269 | The filtered count never exceeds the number of days in the period. |
| Date.CountWeekdaysInRange | src/DateTime/Date.php:262-270 | The counting loop returns the number of days in the period whose weekday is not 0 or 6. An empty or inverted range gives 0. |
| Date.PeriodShape | src/DateTime/Date.php:264-265 | The `k`-th instant of the period is `start` plus `k` days. Every instant is before `end`, and the period reaches `end` after its last day. |
| Date.NextDayOfWeek | src/DateTime/Date.php:264 | One day later the day number goes up by one, and the weekday advances, wrapping from 6 to 0. |
| Date.CountStep | src/DateTime/Date.php:267-269 | The count of a non-empty period is the first day's contribution plus the count from the next day. |
| Date.FullWeek | src/DateTime/Date.php:267-269 | Any seven consecutive days add exactly five weekdays. |
| Date.WholeWeeks | src/DateTime/Date.php:267-269 | `w` whole weeks at the start of the range add `5w` weekdays. |
| Date.MonthBounds | Tests/DateTest.php:126 | 2020-03-30 and 2020-04-30 are the midnights of days 18351 and 18382. |
| Date.MonthTail | Tests/DateTest.php:126 | 2020-04-27 to 2020-04-30 holds three weekdays. |
| Date.MonthExample | Tests/DateTest.php:126 | 2020-03-30 to 2020-04-30 holds 23 weekdays. |
| Date.WeekendExamples | Tests/DateTest.php:127-131 | The ranges starting on 2020-03-28 and 2020-03-29 give 0, 0, 0, 1 and 0 weekdays; the last is the inverted range. |
| Date.UnitLetter | src/DateTime/Date.php:150 | `u($type)->trim()->lower()->slice(0, 1)`, the same at line 167, never yields a character that `trim()` removes. |
| Date.UnitLetterIsFirstNonBlank | src/DateTime/Date.php:150 | The unit letter is the lower-cased first character not removed by `trim()`. There is none exactly when every character is trimmed. |
| Date.UnitSeconds | src/DateTime/Date.php:150-165 | A unit is recognised exactly when its letter is `d`, `h`, `m` or `s`. Its size is one of 86400, 3600, 60 and 1 seconds. |
| Date.RoundHalfAwayFromZero | src/DateTime/Date.php:184 | The result is `n / d` rounded to the nearest integer, with halves going away from zero. |
| Date.RoundedQuotientUnique | src/DateTime/Date.php:184 | That rounding has exactly one result. |
| Date.Converted | src/DateTime/Date.php:148-185 | An unrecognised `fromType` or `toType` throws `BadMethodCallException`. Otherwise the result is `v * from / to`, rounded half away from zero. |
| Date.ConvertTimeTypeToTimeType | src/DateTime/Date.php:148-185 | The two switches, with `*=` and `/=`, compute `Converted`. |
| Date.ConvertExact | src/DateTime/Date.php:148-185 | Converting to a unit that divides the source unit multiplies by the ratio, with no rounding. |
| Date.ConvertToSameUnit | src/DateTime/Date.php:148-185 | Converting a unit to itself is the identity. |
| Date.ConvertRoundTrip | src/DateTime/Date.php:148-185 | Converting to a smaller unit and back gives the original value. |
| Date.DaysToHours | src/DateTime/Date.php:151-172 | Days to hours multiplies by 24. |
| Date.RoundingExamples | src/DateTime/Date.php:184 | 90 s is 2 min, -90 s is -2 min (including with a padded, capitalised name), and 89 s is 1 min. |
| Date.UnknownUnitExamples | src/DateTime/Date.php:162-181 | `weeks`, an empty name and a blank name all throw. |
| Date.PartOf | src/DateTime/Date.php:96-130 | A recognised key is its part's key, or that key's plural for the six numeric calendar parts. Every other key gives no part. |
| Date.PartKeysRoundTrip | src/DateTime/Date.php:96-130 | Every part is reached by its key, and by its plural where it has one. |
| Date.OffsetText | src/DateTime/Date.php:121-124 | The offset text (format `p`) is `Z` exactly when the UTC offset is zero. |
| Date.GetFromDate | src/DateTime/Date.php:92-140 | The accessor gives null exactly for unrecognised keys. The timezone gives text, and every other part gives an integer. |
| Date.AccessorFields | src/DateTime/Date.php:96-139 | Each key reads its own field, the plural the same as the singular. The timezone reads the offset text. |
| Date.AccessorsOfLocalTime | src/DateTime/Date.php:109-127 | On a date that shows the wall-clock time `t`, the hour, minute, second and weekday accessors return `HourOf(t)`, `MinuteOf(t)`, `t`'s second and `DayOfWeek(t)`, the values the snapping and counting code works on. |
| Date.TestDateDescribed | Tests/DateTest.php:26-33 | The test suite's date shows midnight of 2020-03-30, and its weekday 1 follows from the calendar. |
| Date.PartsExample | Tests/DateTest.php:26-35 | 2020-03-30 00:00:00 UTC gives 2020, 3, 30, 0, 0, 0, weekday 1 and `Z`. An unknown part gives null. |

## Left out

- Random.GetRandomWeightedNumber: `Arr::random` is an arbitrary choice of an index of the population. The model makes no claim about the distribution, only about membership.
- Random.GetWeightedArray: inputs are lists. With an associative or sparse array and `weightedHigher` true, PHP's `$index` is the key, not the position, and that case is not modelled.
- Date.ReduceMinutesNoTensToValue, Date.IncreaseMinutesNoTensToValue: when the argument is a mutable `DateTime`, the source's `sub` and `add` modify it in place and return that same object, and the unchanged case returns the argument itself. The model treats date-times as immutable values, so the in-place change and the aliasing are not captured.
- Date.ReduceMinutesNoTensToValue: requires that some digit 0 to 9 be allowed. Without one the source's do-while loop never ends.
- Date.IncreaseMinutesNoTensToValue: requires that some digit 0 to 9 be allowed, for the same reason.
- The allowed minutes are a set of integers. PHP's loose `in_array` comparison (for example the string `"5"`) is not modelled.
- Date.ConvertTimeTypeToTimeType: the arithmetic is exact over the integers. PHP's float division, `round()` on floats, and integer overflow for very large values are not modelled.
- Date.UnitLetter: lower-casing and the first character are ASCII and code-point based. Symfony String's Unicode case folding and grapheme-cluster `slice` are not modelled. For example, a `d` followed by a combining mark is one grapheme in PHP.
- Date.GetFromDate: starts from the lower-cased part key. The method-name parsing `u($name)->before('FromDate')->after('get')->lower()` is not modelled.
- Date.GetFromDate: the date's fields are given as a `CivilDateTime`. Only `Describes` ties one to a `LocalDateTime`, and the year, month and day are not computed from a day number. The `(int)` cast of each format character's output is taken as that field.
- Date.OffsetText: requires an offset below 100 hours, within which PHP's offsets lie.
- Date.OffsetText: the model decides `Z` by the offset being zero. PHP's format `p` decides it from the zone (its abbreviation), so a named zone at offset zero may print `+00:00`. The non-zero text is `+hh:mm` or `-hh:mm`, and only "`Z` exactly for a zero offset" is proved.
- Date.CountWeekdaysInRange: days are 1440 minutes, and daylight-saving transitions and time-zone offsets are not modelled. `DatePeriod` steps are modelled on local wall-clock minutes.
- The clock and time-zone helpers `getNowUTC`, `nowAdd`, `getTimeZoneUTC`, `toImmutable` and `toImmutableUTC` are not modelled. They wrap PHP's `DateTimeImmutable` and `time()`.
- The format and time-zone constants are not modelled.
- The PHPUnit test harness and `ClockMock` are not modelled. Individual test cases appear only as example lemmas.
