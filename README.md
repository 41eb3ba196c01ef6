# NextDate: a verified model of the task scheduler's recurrence engine

The scheduler stores each task with a date in `YYYYMMDD` form and an optional
repeat rule. Its recurrence engine, `NextDate(now, date, repeat)`, works in four steps:

1. It reads the anchor `date` with the layout `20060102`.
2. It reads the rule: `d <n>` (every `n` days, 1 ≤ n ≤ 400) or `y` (every year).
3. It steps the anchor forward by the rule until the candidate is strictly after `now`.
4. It returns that candidate in `YYYYMMDD` form.

`NormalizeDate(t)` drops the time of day from a `time.Time`.

This project restates that engine in Dafny and proves what it computes. The
model also includes the parts of the Go runtime whose behaviour decides the
answer:

- `time.Parse` and `time.Format` with the layout `20060102`;
- `time.Date` normalisation behind `AddDate`, and `After`;
- `strings.Split` on a single character;
- `strconv.Atoi`.

Layout of the model:

| file | module | what it holds |
|---|---|---|
| `wrappers.dfy` | `Wrappers` | `Option` and `Result` |
| `arith.dfy` | `Arith` | uniqueness of Euclidean division, used by the calendar and digit proofs |
| `decimal.dfy` | `Decimal` | digit strings: the reading loop shared by `Atoi` and `time.Parse`, and Go's zero-padding writer `appendInt` |
| `calendar.dfy` | `Calendar` | the proleptic Gregorian calendar as day numbers (day 0 is 0000-01-01), with a proved round trip between dates and day numbers |
| `gotime.dfy` | `GoTime` | instants in UTC (day number plus nanoseconds of the day), `AddDate`, `After`, `NormalizeDate` |
| `strconv.dfy` | `Strconv` | `Atoi` (optional sign, at least one digit, 64-bit range) and `Itoa` |
| `strings.dfy` | `Strings` | `Split` on a single character, and `Join` as its inverse |
| `layout.dfy` | `DateLayout` | `ParseDate` and `FormatDate` for the layout `20060102` |
| `nextdate.dfy` | `NextDate` | the rule parser, the closed-form specification `NextDateSpec`, the two advance loops as methods with invariants, and the method `NextDate`, which follows the source statement by statement and is proved to return `NextDateSpec` |
| `properties.dfy` | `NextDateProperties` | what callers can rely on: error order, the readings of a rule, least-step results, the yearly calendar behaviour, the result being later than `now` and never the anchor |
| `scenarios.dfy` | `NextDateScenarios` | worked calls on concrete dates |

How the answer is characterised:

- **Daily rule.** The answer is candidate `k` for the least `k ≥ 1` whose day
  lies after `now`'s day. `DailySteps` computes that `k` by division.
- **Yearly rule.** The answer is the `k`-th one-year step of the anchor, for the
  least such `k`.
- **The advance loops.** `AdvanceDaily` and `AdvanceYearly` keep as loop
  invariants that the current candidate is candidate `k` and that all earlier
  candidates were missed. The uniqueness lemmas identify the loop's `k` with the
  specification's `k`.
- **Leap days.** A yearly step of Feb 29 lands on Mar 1. From then on the date
  stays on Mar 1, because each later step starts from the already normalised
  date (`YearlyCandidateAnniversary`).

Two behaviours of the code are worth knowing, and the model reproduces both:

- **Dates past year 9999.** Go writes the year with at least four digits, so a
  result past year 9999 has five year digits. Then `time.Parse` cannot read it
  back. For example, "d 1" from 9999-12-31 gives `100000101` (`PastYear9999`).
- **The longest interval.** "d 400" from 2024-01-01 gives `20250204`: 2024 has
  366 days, so 400 days on is 2025-02-04 (`DailyLongestInterval`).

## Model

| member | source | states |
|---|---|---|
| NextDate.NextDate | nextdate/nextdate.go:14-55 | NextDate, run statement by statement (parse, empty check, split, dispatch, loops), returns exactly NextDateSpec: the error of the first failing check, or the formatted first candidate after now |
| NextDate.AdvanceDaily | nextdate/nextdate.go:38-42 | the daily loop stops at candidate anchor + k*n with k >= 1, that candidate is After(now), and every earlier candidate was not after now's day |
| NextDate.AdvanceYearly | nextdate/nextdate.go:46-50 | the yearly loop stops at the k-th one-year step of the anchor, k >= 1, which is After(now), and every earlier step was not after now's day |
| NextDate.ParseRule | nextdate/nextdate.go:22-53 | a daily rule that is accepted always has an interval in 1..400 |
| NextDate.DailySteps | nextdate/nextdate.go:38-42 | the least k >= 1 whose daily candidate is after a day, found by division: that candidate is after it and all earlier ones are not |
| NextDate.YearlySteps | nextdate/nextdate.go:46-50 | the least k >= 1 whose yearly candidate is after a day: that candidate is after it and all earlier ones are not |
| NextDate.DailyStepsUnique | nextdate/nextdate.go:38-42 | any k >= 1 whose candidate is after the day while all earlier ones are not equals DailySteps, so the loop's k is the specification's |
| NextDate.YearlyStepsUnique | nextdate/nextdate.go:46-50 | any k >= 1 whose yearly candidate is after the day while all earlier ones are not equals YearlySteps |
| NextDate.YearlyCandidate | nextdate/nextdate.go:46 | k one-year steps from a valid date give a valid date exactly k years on |
| NextDate.YearlyCandidateAdvances | nextdate/nextdate.go:46 | each one-year step moves the candidate at least 365 days, so the yearly loop terminates |
| NextDate.YearlyMissedExtend | nextdate/nextdate.go:47 | a candidate not after now extends the run of missed candidates by one (the yearly loop invariant step) |
| NextDate.Occurrence | nextdate/nextdate.go:38-50 | the day the engine returns for an anchor and a rule is strictly after now's day, and strictly after the anchor because both loops take at least one step |
| NextDate.NextDateSpec | nextdate/nextdate.go:14-55 | the call fails exactly when the anchor does not parse or the rule is refused, and a result is a string of at least eight digits |
| NextDateProperties.NextDateErrors | nextdate/nextdate.go:16-24 | the anchor is checked first: InvalidDate exactly when the date does not parse, whatever the rule; with a good anchor the call fails exactly when the rule does, with the rule's error |
| NextDateProperties.ParseRuleVerdicts | nextdate/nextdate.go:22-53 | each verdict of the rule parser with the rule shape that gives it, in both directions: empty, "y" first piece, other first piece, "d" with other than two pieces, "d" with an integer in 1..400 |
| NextDateProperties.SplitDailyText | nextdate/nextdate.go:26 | "d " followed by a space-free piece splits into exactly "d" and that piece |
| NextDateProperties.DailyRuleText | nextdate/nextdate.go:26-36 | "d " followed by the decimal writing of any n in 1..400 is the daily rule with interval n |
| NextDateProperties.DailyRuleBadValue | nextdate/nextdate.go:33-36 | "d " followed by a piece that is not an integer, or is an integer below 1 or above 400, is refused with BadDailyValue |
| NextDateProperties.DailyRuleBadFormat | nextdate/nextdate.go:26-32 | a bare "d", and "d" followed by more than one piece, are refused with BadDailyFormat |
| NextDateProperties.YearlyRuleText | nextdate/nextdate.go:44 | "y", and "y" followed by a space and anything, are the yearly rule: extra pieces are ignored |
| NextDateProperties.OtherRuleUnsupported | nextdate/nextdate.go:52-53 | any first piece other than "d" and "y" (w, m, or the empty piece before a leading space) is refused as unsupported |
| NextDateProperties.DailyResult | nextdate/nextdate.go:38-42 | for "d n" the result is the formatted day anchor + k*n for the least k >= 1 after now's day |
| NextDateProperties.DailyOccurrence | nextdate/nextdate.go:38-42 | the daily occurrence is candidate k for any k that is the least candidate after the day |
| NextDateProperties.YearlyCandidateAnniversary | nextdate/nextdate.go:46 | k one-year steps land on the same month and day k years on, except that a Feb 29 anchor lands on Mar 1 for every k >= 1 |
| NextDateProperties.YearlyResult | nextdate/nextdate.go:44-50 | for "y" the result is the formatted anniversary for the least k >= 1 after now's day |
| NextDate.YearlyCandidateAfterAnchor | nextdate/nextdate.go:46 | every yearly candidate with k >= 1 is a later day than the anchor |
| NextDateProperties.DaysFromCivilNonNegative | nextdate/nextdate.go:16 | a parsed anchor (year 0000 or later) has a non-negative day number |
| NextDateProperties.ResultIsLater | nextdate/nextdate.go:38-50 | a result parses as a date exactly when it has eight characters, and then it names a day after now's; otherwise it is longer (a year past 9999) |
| NextDateProperties.AnchorNeverReturned | nextdate/nextdate.go:38-50 | the result is never the anchor string, even when the anchor is already after now |
| NextDateProperties.DailyFromToday | nextdate/nextdate.go:38-42 | an anchor on now's date with "d n" gives the date n days on ("d 1" gives tomorrow) |
| NextDateProperties.NowTimeOfDayIrrelevant | nextdate/nextdate.go:57-60 | only now's UTC date matters: another time of day on the same UTC date, or NormalizeDate(now) in the one-location model, gives the same result |
| NextDateScenarios.DailyEveryFiveDays | nextdate/nextdate.go:38-42 | anchor 20240110, "d 5", now on 2024-01-15 gives 20240120 |
| NextDateScenarios.DailyLongestInterval | nextdate/nextdate.go:33-42 | anchor 20240101, "d 400", now on that day gives 20250204 |
| NextDateScenarios.YearlySkipsToday | nextdate/nextdate.go:44-50 | anchor 20230310, "y", now on 2024-03-10 gives 20250310 |
| NextDateScenarios.YearlyLeapDay | nextdate/nextdate.go:44-50 | anchor 20240229, "y", now on 2024-03-01 gives 20250301 |
| NextDateScenarios.PastYear9999 | nextdate/nextdate.go:38-40 | anchor 99991231, "d 1", now on that day gives 100000101, which does not parse as a date |
| NextDateScenarios.RefuseLongInterval | nextdate/nextdate.go:34-35 | "d 401" with a good anchor is refused with BadDailyValue |
| NextDateScenarios.RuleZeroDays | nextdate/nextdate.go:34-35 | "d 0" is refused with BadDailyValue |
| NextDateScenarios.RuleNotANumber | nextdate/nextdate.go:33-35 | "d x" is refused with BadDailyValue |
| NextDateScenarios.RuleDoubleSpace | nextdate/nextdate.go:26-31 | "d  5" (two spaces) is refused with BadDailyFormat |
| NextDateScenarios.RefuseWeekly | nextdate/nextdate.go:52-53 | "w 1" with a good anchor is refused as unsupported |
| NextDateScenarios.RefuseMonthly | nextdate/nextdate.go:52-53 | "m 1" with a good anchor is refused as unsupported |
| NextDateScenarios.RefuseEmptyRule | nextdate/nextdate.go:22-23 | the empty rule with a good anchor is refused with EmptyRule |
| NextDateScenarios.RefuseFebruary30 | nextdate/nextdate.go:16-18 | anchor 20240230 is refused with InvalidDate |
| GoTime.AddDays | nextdate/nextdate.go:38 | AddDate(0, 0, n) moves an instant exactly n days and keeps its time of day |
| GoTime.AddYear | nextdate/nextdate.go:46 | AddDate(1, 0, 0) on a valid date gives the same time of day on NextYearDate of that date, itself valid |
| GoTime.NextYearDateAdvances | nextdate/nextdate.go:46 | one year on is at least 365 days later |
| GoTime.AddDate | nextdate/nextdate.go:38-46 | AddDate keeps the time of day; adding only days moves exactly that many days across month and year ends; adding one year gives the same month and day a year on, with Feb 29 becoming Mar 1 when the next year has none |
| GoTime.After | nextdate/nextdate.go:39-47 | the field-by-field comparison (day, then time of day) holds exactly when t is a strictly later instant than u |
| GoTime.NormalizeDate | nextdate/nextdate.go:57-60 | time.Date of t's own year, month and day at zero time is t's day at midnight, never later than t |
| GoTime.DateDayOfValid | nextdate/nextdate.go:59 | time.Date of a valid date denotes exactly that date |
| GoTime.NormalizeDateComparisons | nextdate/nextdate.go:57-60 | NormalizeDate keeps every midnight comparison against t, is never later than t, and is idempotent |
| DateLayout.ParseDate | nextdate/nextdate.go:16 | a string that parses is a valid date of years 0000..9999 |
| DateLayout.ParseFormat | nextdate/nextdate.go:16-40 | a valid date of years 0000..9999 is written as eight characters that parse back to it |
| DateLayout.FormatParse | nextdate/nextdate.go:16-40 | a string that parses is written back exactly, leading zeros included |
| DateLayout.FormatDate | nextdate/nextdate.go:40-48 | a valid date of year 0 or later is written as digits only, at least eight of them, and exactly eight when the year is at most 9999 |
| DateLayout.FormatDay | nextdate/nextdate.go:40-48 | a day number of year 0 or later is written as digits only, at least eight of them, and exactly eight when its year is at most 9999 |
| DateLayout.FormatLongYear | nextdate/nextdate.go:40 | a date past year 9999 is written with more than eight characters and does not parse |
| DateLayout.FormatDayOfCivil | nextdate/nextdate.go:40 | the day number of a valid date is written as that date |
| Calendar.CivilFromDays | nextdate/nextdate.go:38 | every day number has a valid date whose day number it is |
| Calendar.CivilRoundTrip | nextdate/nextdate.go:38 | date to day number to date is the identity on valid dates |
| Calendar.DaysFromCivilInjective | nextdate/nextdate.go:38 | distinct valid dates have distinct day numbers |
| Calendar.DaysFromCivilOrder | nextdate/nextdate.go:39 | day-number order is calendar order (year, then month, then day), in both directions |
| Calendar.YearStep | nextdate/nextdate.go:46 | consecutive years differ by that year's length, 366 in leap years and 365 otherwise |
| Strconv.Atoi | nextdate/nextdate.go:33 | every accepted value lies in the 64-bit range |
| Strconv.AtoiItoa | nextdate/nextdate.go:33 | Atoi reads back every 64-bit integer written in decimal |
| Strconv.AtoiDigits | nextdate/nextdate.go:33 | unsigned, "+" and "-" digit strings read as their value, leading zeros allowed |
| Strconv.AtoiRejects | nextdate/nextdate.go:33 | a string with a non-digit after the optional sign, or a lone sign, is rejected |
| Strings.Split | nextdate/nextdate.go:26 | splitting gives at least one piece and no piece holds the separator |
| Strings.JoinSplit | nextdate/nextdate.go:26 | joining the pieces with the separator gives back the string |
| Strings.SplitJoin | nextdate/nextdate.go:26 | splitting a join of separator-free pieces gives back the pieces |
| Strings.SplitCount | nextdate/nextdate.go:26-30 | a string with k separators splits into k + 1 pieces, so "d  5" has three |
| Decimal.DigitsValueFixed | nextdate/nextdate.go:16 | reading digits and writing them back at the same width gives the same string |
| Decimal.PaddedIntValue | nextdate/nextdate.go:40 | the zero-padded writing of a number is all digits, reads back as the number, and has the padded or natural width |

## Left out

- Time zones and `Location`: the model has one location, UTC. Its `now.day` is the day of the instant in UTC, and its `NormalizeDate` cuts to UTC midnight. In Go, `NormalizeDate` keeps `t`'s location and so cuts to local midnight, while the candidates are UTC midnights, because `time.Parse` without a zone gives UTC and `AddDate` keeps it; `After` compares instants. The program's result therefore depends on the server's zone: east of UTC, a candidate on now's local date is after a local-midnight `now` and is returned. At UTC+3, an anchor of yesterday with "d 1" gives today. The model agrees only when it is given that same instant, whose UTC day is yesterday; given now's local date as its day, the model gives tomorrow.
- Go's `time.Time` holds its seconds in 64 bits, so its range of years is finite; the model's day numbers are unbounded.
- Error texts: the model returns one `Error` value per check and leaves out the formatted messages and the `strconv` error kinds, which `NextDate` collapses into one message.
- `time.Parse` reads bytes and reports an error for non-ASCII input; the model reads characters, and treats every non-digit the same way.
- The `w` and `m` rules are not implemented in the code; only their refusal is modelled.
- `time.Now()`, the HTTP handlers, the SQLite store and the server setup are not part of this model; `now` is a parameter.
- The loop counters `k` of `NextDate.AdvanceDaily` and `NextDate.AdvanceYearly` are ghost: they exist only in the proof and not in the code.
