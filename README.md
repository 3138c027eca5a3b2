# Countdown widget: a verified model

This project models the logic of the countdown widget in `src/index.js`. The widget reads a
target date (`data-date="YYYY-MM-DD"`), a timezone name (`data-timezone`) and a language
(`data-lang`) from a host element. It turns them into one absolute target instant. Then, once a
second, it shows the days, hours, minutes and seconds left, with each unit's label switched
between its singular and plural form.

Modules, leaf first:

- `Common` (common.dfy): `Option`, `Result`, the fatal `ConfigError`s, and `JsValue`. A
  `JsValue` is what a display node can show: a number, NaN or `undefined`.
- `EcmaDate` (ecma_date.dfy): the time-value operations of section 21.4.1 of ECMA-262
  (DayFromYear, DaysInYear, MakeDay, MakeTime, MakeDate, TimeClip, Day, TimeWithinDay). It also
  holds the two `Date` setters the widget calls, `setUTCFullYear` and `setUTCHours`. MakeDay's
  normalisation of an out-of-range month or day is proved, as are its consistency with the
  calendar and the fact that a month follows the one before it.
- `DateParse` (date_parse.dfy): `parseTargetDate`. This is the unanchored regular expression
  `(\d{4})-(\d{2})-(\d{2})`, modelled as a leftmost scan of ten-character windows, followed by
  `parseInt` and the `reduce` over the match array. A formatter proves the round trip.
- `Timezone` (timezone.dfy): `parseTimezone`. It looks up the lower-cased name in an injected
  table, negates a truthy entry, and otherwise falls back to 0 with a warning flag.
- `TargetTime` (target_time.dfy): `parseTargetTime`, `setTargetDate` and `setTargetHours`.
  "Now" is a parameter.
- `Remaining` (remaining.dfy): `getTimeRemaining`, computed over integer milliseconds. JavaScript's
  truncating `%` is followed by `Math.floor`.
- `TokenRenderer` (token_renderer.dfy): one unit's display record and its label state machine.
- `Countdown` (countdown.dfy): the widget as a class holding an `array` of unit records. Its
  constructor builds the initial units, `Tick` is one firing of the interval (a loop over the
  units), and `InitCountdown` runs the initialisation sequence.

Where the code departs from what one would expect of it, the model follows the code:

- An absent `data-timezone` is not treated as UTC. `parseTimezone` calls `toLowerCase` on
  `undefined`, which throws, so initialisation fails with `MissingTimezone`.
- A table entry of 0 is falsy. It is handled like a missing name: offset 0, with a warning.
- The display units are created before the date is checked. A missing or malformed date
  therefore leaves units showing 0 with plural labels, and the countdown is never started.
- The source has no way to stop the countdown. The interval is never cleared.
- The doc comments of `setTargetDate` and `setTargetHours` (src/index.js:48 and :74) call the
  intermediate timestamp "UTC midnight". It is not: `setUTCFullYear` keeps the current time of
  day. The final target is still midnight plus the offset, because `setUTCHours` then replaces the
  whole time of day.
- A positive table entry is negated into a negative hour. `setUTCHours(-5, 0, 0, 0)` does not fail:
  it gives 19:00 of the day before.
- Hours, minutes and seconds stay within 0..23 and 0..59 only while the target is ahead. After
  it, they lie in -24..0 and -60..0, and days is rounded toward minus infinity.

## Model

| member | source | states |
|---|---|---|
| `EcmaDate.DayFromYear` | src/index.js:53 | no contract of its own; DaysInYear's contract states that consecutive years start DaysInYear days apart |
| `EcmaDate.DaysInYear` | src/index.js:53 | a year has 365 or 366 days, and year y + 1 starts exactly DaysInYear(y) days after year y, so the leap-year rule and DayFromYear's closed form agree |
| `EcmaDate.MakeDay` | src/index.js:53 | no contract of its own; its meaning is given by FirstOfMonthInYear, NextMonth, MonthCarry, KnownDays and NormalisationExamples |
| `EcmaDate.MakeTime` | src/index.js:80 | no contract of its own; the milliseconds of hour, minute, second and millisecond, which SetUTCHours's contract splits into days and time of day |
| `EcmaDate.MakeDate` | src/index.js:53 | no contract of its own; its meaning is given by DayOfMakeDate |
| `EcmaDate.DayOfMakeDate` | src/index.js:53 | Day and TimeWithinDay take MakeDate(day, time) apart again, with whole days in the time carried into the day, for any time |
| `EcmaDate.SetUTCFullYear` | src/index.js:51-53 | the result is valid exactly when the new instant is within range; a valid result lies on day MakeDay(year, month, date) and keeps the time of day of the original date (a NaN date counts as 0) |
| `EcmaDate.SetUTCHours` | src/index.js:79-80 | a NaN date stays NaN; otherwise the result is valid exactly when the new instant is within range, and it lies time / MsPerDay days from the original day at time-of-day time mod MsPerDay, so an hour outside 0..23 moves to a neighbouring day; an in-day time keeps the day |
| `EcmaDate.NegativeHourExample` | src/index.js:80 | setUTCHours(-5, 0, 0, 0) on a date gives 19:00 of the day before |
| `EcmaDate.MonthsFillYear` | src/index.js:53 | the month offsets and month lengths tile the year exactly, with December ending at DaysInYear |
| `EcmaDate.FirstOfMonthInYear` | src/index.js:53 | MakeDay(year, month, 1) is the first day of month `month mod 12` in year `year + floor(month/12)`, and that month ends within that year |
| `EcmaDate.NextMonth` | src/index.js:53 | the first day of month m + 1 comes one month length after the first day of month m, including the December-to-January carry |
| `EcmaDate.MonthCarry` | src/index.js:53 | month m + 12 of a year is month m of the next year |
| `EcmaDate.KnownDays` | src/index.js:53 | 1970-01-01 is day 0 and 2025-01-01 is day 20089 |
| `EcmaDate.NormalisationExamples` | src/index.js:53 | an out-of-range day or month rolls over: 30 Feb 2025 is 2 Mar 2025, month 12 is the next January, month -1 is the previous December |
| `DateParse.MatchesAt` | src/index.js:62 | no contract of its own; the pattern `(\d{4})-(\d{2})-(\d{2})` matches the ten characters at an index; FirstMatch and ParseFormatted state what it admits |
| `DateParse.FirstMatch` | src/index.js:62-63 | returns the leftmost index at or after `from` where `DDDD-DD-DD` matches; None means no index matches |
| `DateParse.ParseDigits` | src/index.js:66-67 | no contract of its own; its meaning is given by ParseDigitsBound and ParseDigitsOfDigits |
| `DateParse.ParseDigitsBound` | src/index.js:66-67 | `parseInt` of w decimal digits is below 10^w |
| `DateParse.MatchArray` | src/index.js:63 | the match array has four entries, and the three groups are all digits |
| `DateParse.ReduceGroups` | src/index.js:65-69 | no contract of its own; its meaning is given by ReduceMatchArray |
| `DateParse.ReduceMatchArray` | src/index.js:65-69 | the reduce over the match array yields exactly [year, month - 1, day]; the whole match at index 0 is dropped |
| `DateParse.ParseTargetDate` | src/index.js:61-70 | succeeds exactly when some substring matches, using the first match; the result is three integers, year in 0..9999, month index in -1..98, day in 0..99 |
| `DateParse.ParseDigitsOfDigits` | src/index.js:66-67 | `parseInt` of the zero-padded digits of a number that fits in w digits gives the number back |
| `DateParse.ParseFormatted` | src/index.js:61-70 | every `YYYY-MM-DD` string, with any suffix, parses to [YYYY, MM - 1, DD] |
| `DateParse.NoDigitsNoDate` | src/index.js:62-65 | a string with no digits never parses |
| `Timezone.ToLowerAscii` | src/index.js:90 | each character is lower-cased in place and the length is kept |
| `Timezone.LowerIdempotent` | src/index.js:90 | lower-casing twice is the same as lower-casing once |
| `Timezone.Truthy` | src/index.js:92 | no contract of its own; an entry is truthy when present and not 0; ParseTimezone and ZeroEntryWarns state its effect |
| `Timezone.ParseTimezone` | src/index.js:89-98 | an absent name is an error and a present name always resolves; the fallback flag is set exactly when the offset is 0; otherwise the offset is the negated table entry of the lower-cased name; a fallback means the entry was missing or 0 |
| `Timezone.CaseInsensitive` | src/index.js:90 | names that lower-case alike resolve alike |
| `Timezone.MissingKeyWarns` | src/index.js:90-96 | a name the table does not know gives offset 0 with the warning |
| `Timezone.ZeroEntryWarns` | src/index.js:92-96 | an entry stored as 0 gives offset 0 with the warning, like a missing one |
| `TargetTime.SetTargetDate` | src/index.js:50-54 | fails with MalformedDate exactly when the string has no `DDDD-DD-DD` match; otherwise the result is valid, lies on day MakeDay(year, month - 1, day) of the parsed date, and keeps the current time of day |
| `TargetTime.SetTargetHours` | src/index.js:77-81 | fails exactly when the timezone attribute is absent, and then with MissingTimezone; otherwise it keeps the fallback flag of the timezone lookup, keeps a NaN timestamp NaN, and gives the clipped UTC midnight of the timestamp's day plus `offset` hours |
| `TargetTime.ParseTargetTime` | src/index.js:35-81 | a missing or empty date fails with MissingDate, before anything is parsed; an unmatched date fails with MalformedDate; a parsed date with no timezone fails with MissingTimezone; it succeeds exactly when the date matches and a timezone attribute is present, known or not, and then the target is UTC midnight of MakeDay(year, month - 1, day) plus `offset` hours, with minutes, seconds and milliseconds 0 and the lookup's fallback flag |
| `TargetTime.ParsedDayInRange` | src/index.js:53 | any day built from a parsed date lies, whole, within the range of valid time values |
| `TargetTime.IndependentOfNow` | src/index.js:51-53 | the result of parseTargetTime does not depend on the current instant |
| `TargetTime.ParseNewYear2025` | src/index.js:61-70 | "2025-01-01" parses to [2025, 0, 1] |
| `TargetTime.NewYear2025` | src/index.js:35-43 | 2025-01-01 with an unknown timezone resolves to day 20089 at 00:00 UTC, with the warning |
| `Remaining.TruncRem` | src/index.js:129-131 | JavaScript `%`: the result has the sign of the dividend, its magnitude is below the divisor, and it differs from the dividend by a multiple of the divisor |
| `Remaining.Seconds` | src/index.js:129 | the seconds field is in 0..59 ahead of the target and in -60..0 after it |
| `Remaining.Minutes` | src/index.js:130 | the minutes field is in 0..59 ahead of the target and in -60..0 after it |
| `Remaining.Hours` | src/index.js:131 | the hours field is in 0..23 ahead of the target and in -24..0 after it |
| `Remaining.Days` | src/index.js:132 | the days field is the number of whole days, rounded toward minus infinity |
| `Remaining.GetTimeRemaining` | src/index.js:127-139 | an invalid target gives NaN in every field and a valid one never does; `total` is the distance in ms; ahead of the target days, hours, minutes and seconds spell out the whole seconds left, each in its clock range; after it days is the negative floor of the distance in whole days, hours lie in -24..0, and minutes and seconds in -60..0 |
| `Remaining.Get` | src/index.js:114 | each of the five property names yields its field, and any other key yields `undefined` |
| `Remaining.DecomposeAhead` | src/index.js:128-132 | for t >= 0: days*86400 + hours*3600 + minutes*60 + seconds equals floor(t/1000), with hours in 0..23, minutes and seconds in 0..59, and days >= 0 |
| `Remaining.DecomposeOverdue` | src/index.js:128-132 | for t < 0: days is the floor of t in days (negative); hours are in -24..0; minutes and seconds are in -60..0; seconds is 0 exactly when t is a whole number of minutes |
| `Remaining.SecondsZeroAhead` | src/index.js:129 | for t >= 0, seconds is 0 exactly when less than one second is left over after the last whole minute |
| `Remaining.Examples` | src/index.js:127-139 | 90,061,000 ms gives 1/1/1/1, 0 ms gives all zeros, and -1000 ms gives -1 in every field |
| `TokenRenderer.InitialUnit` | src/index.js:21-24 | no contract of its own; its meaning is given by InitialConsistent and Countdown.InitialUnits |
| `TokenRenderer.InitialConsistent` | src/index.js:16-24 | a new unit (value 0, plural label) satisfies the label invariant |
| `TokenRenderer.Render` | src/index.js:117-122 | no contract of its own; its meaning is given by RenderLabel, RenderConsistent and RenderIdempotent |
| `TokenRenderer.RenderLabel` | src/index.js:117-122 | from a label showing either form, the label after a render is singular when the value is 1 and plural otherwise, whatever the earlier state |
| `TokenRenderer.RenderConsistent` | src/index.js:117-122 | a render shows the new value, keeps the unit's two forms, and leaves the label invariant true |
| `TokenRenderer.RenderIdempotent` | src/index.js:117-122 | rendering the same value again changes nothing; a consistent unit already showing the value is left unchanged |
| `TokenRenderer.LabelsFollowValues` | src/index.js:118-122 | over any sequence of ticks, the label after each tick is determined by that tick's value alone |
| `TokenRenderer.LabelSequenceExample` | src/index.js:118-122 | the values 2, 1, 1, 2, 0 give the labels plural, singular, singular, plural, plural |
| `Countdown.InitialUnits` | src/index.js:16-30 | there is one unit per token, in token order, each showing 0 under its plural label, carrying both forms of its token and satisfying the label invariant |
| `Countdown.Widget.constructor` | src/index.js:13-33 | the new widget's units are the initial units of its tokens, and the label invariant holds |
| `Countdown.Widget.Start` | src/index.js:105-106 | the target is stored and the widget is running; the units are untouched |
| `Countdown.Widget.Tick` | src/index.js:109-124 | every unit is rendered with the remaining-time field named by its token; the value equals that field, and the label is singular whenever the value is 1; the label invariant is preserved |
| `Countdown.InitCountdown` | src/index.js:4-10 | no host gives NoCountdown; an unknown language fails before any unit exists; otherwise the units are built, the target is resolved, and the widget starts only when resolution succeeds |
| `Countdown.TwoDaysBeforeNewYear` | src/index.js:127-132 | two days before a 2025-01-01 target the display reads 2 days and zero hours, minutes and seconds, and a plural "days" label stays plural |

## Left out

- DOM element creation, `innerHTML`, `dataset` and sibling traversal are not modelled. Each unit is a record: token (the plural label and lookup key), singular label, value and current label. HTML escaping by `innerHTML` is not modelled, so a label holding `&` or `<` is assumed to compare equal to itself. `querySelectorAll('[data-token]')` is assumed to find only the widget's own number spans.
- `setInterval` and the tick schedule are not modelled. One call of `Tick` is one firing. The interval is never cleared, so there is no stop transition.
- The wall clock (`new Date()`) is a parameter `now`, in integer milliseconds.
- `console.log` and `console.warn` are not modelled. The warning appears as the `usedFallback` flag.
- The contents of `./timezones` and `./tokens` are not part of this model. They are injected as a `map<string, int>` and a `map<string, seq<Token>>`.
- Timezone offsets are integers. A fractional table entry, whose hour `setUTCHours` would truncate, is not modelled.
- `toLowerCase` is modelled on ASCII letters only. Unicode case mapping is not modelled.
- Property lookups on plain JavaScript objects (`timezones[...]`, `tokenStrings[...]`, `timeRemaining[...]`) see only the object's own keys. Inherited prototype properties such as `constructor` are not modelled.
- Floating-point `/` and `%` are replaced by exact arithmetic on integer milliseconds. The rounding of the floating-point divisions, which first departs from the exact result for differences near 1.7·10^16 ms at the extreme of the time-value range, is not modelled, and neither is the sign of a negative zero.
- MakeDay's NaN for a year beyond an engine's supported range is not modelled separately. Parsed dates stay within years -1..10007 and never reach that range; TimeClip would turn any such day into NaN anyway.
- Daylight-saving time is not modelled. The source leaves it as a TODO.
