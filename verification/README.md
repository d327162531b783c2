# zerynth-datetime: durations and the CET zone, in Dafny

This project models the part of `main.py` that has logic of its own. That
part has three pieces:

- the second-resolution `timedelta` subclass, with its arithmetic,
  comparisons, `tuple` decomposition and `isoformat` rendering;
- the `timezone` wrapper's `utcoffset` and `isoformat`;
- the `cet` zone, whose daylight-saving rule is a closed-form formula for the
  last Sundays of March and October.

Every operation of the duration class passes the host library's result
through `_ctor`. `_ctor` rebuilds a duration of the subclass holding the same
time, and the subclass's `total_seconds()` rounds that time to whole seconds
when it is read. Durations built from whole seconds stay whole under every
integer operation modelled here. A duration is therefore one integer of
seconds (`Durations.Duration`). The one exception is `floordiv` by an integer
as the host computes it: its result can hold half a second, which is rounded
when it is read.
Python's floor `//`, `%` and `divmod` are modelled explicitly in `IntMath`,
because Dafny's own operators are Euclidean. Exceptions become a `Result`:
dividing by a zero duration or by the integer 0 gives `Failure(ZeroDivision)`.
Where the source accepts `None` as a timestamp, the model takes an
`Option<Timestamp>`.

Modules:

- `Wrappers`: `Option` and `Result`.
- `IntMath`: floor division and its uniqueness.
- `Decimal`: `%d` and `%02d` rendering, and a reader for it.
- `Durations`: the duration type and its operations.
- `DurationText`: `tuple` and `isoformat`, with a parser that proves the
  rendering loses nothing.
- `Timezones`: `utcoffset` and offset rendering, as written and as intended.
- `Calendar`: an independent Gregorian day count, used to check the CET
  formula.
- `Cet`: the daylight-saving rule and everything the zone derives from it.

## Model

| member | source | states |
|---|---|---|
| Durations.FromParts | main.py:224-225 | the keyword constructor weighs its units: a week is seven days, a day 24 hours, an hour 60 minutes and a minute 60 seconds; `DurationText.FromPartsTuple` inverts it |
| Durations.TotalSecondsOfOperations | main.py:56-57 | `total_seconds()` of a result is the integer arithmetic of the operands' totals: the sum for `add`, the difference for `sub`, the negation for `neg`, the product for `mul` by an integer, the weighted sum of the units for the keyword constructor; `eq` holds exactly when the totals agree |
| Durations.Eq | main.py:41 | `eq` holds exactly when the two durations are equal |
| Durations.Lt | main.py:39 | `lt` holds exactly when the first total is smaller, and never between equal durations |
| Durations.Le | main.py:40 | `le` is `lt` or `eq` |
| Durations.Ge | main.py:42 | `ge` is the negation of `lt` |
| Durations.Gt | main.py:43 | `gt` is `lt` with the operands swapped, and never holds between equal durations |
| Durations.MulScalar | main.py:32 | `mul` by 0 gives zero, by 1 the duration, by -1 its negation, and `floordiv` by the same non-zero factor gives the duration back |
| Durations.Bool | main.py:44 | a duration is truthy exactly when it is not zero, i.e. when it is either below or above zero |
| Durations.Add | main.py:30 | the sum is later than the first operand exactly when the second is positive, and equal to it exactly when the second is zero |
| Durations.Sub | main.py:31 | the difference is negative, zero or positive exactly when the first operand is below, equal to or above the second |
| Durations.Neg | main.py:34 | the negation is the additive inverse, and it is negative exactly when the operand is positive |
| Durations.Abs | main.py:33 | the magnitude is never negative, is the operand or its negation, leaves non-negative durations alone, and is zero only for zero |
| Durations.FloorDiv | main.py:38 | dividing by a zero duration fails; otherwise the integer quotient is the floor quotient (remainder between zero and the divisor, on the divisor's side) |
| Durations.Mod | main.py:35 | dividing by a zero duration fails; otherwise the remainder is the one left by the floor quotient |
| Durations.DivMod | main.py:75-76 | dividing by a zero duration fails; otherwise `q * b + r == a` with `r` the floor remainder; `_ctor` rebuilds only the second element |
| Durations.FloorDivScalar | main.py:38 | dividing by the integer 0 fails; otherwise the result is `n` times smaller, rounded down to a whole second (the corrected `floordiv(int)`) |
| Durations.RoundHalfEven | main.py:56-57 | `round()` of a ratio: within half a unit of it, and an exact tie goes to the even neighbour |
| Durations.FloorDivScalarAsWritten | main.py:71-74 | `floordiv(int)` as the code computes it and reads back: dividing by 0 fails; otherwise the result lies within half a second of the floored microsecond count, and an exact half second goes to the even second |
| Durations.FloorDivScalarAsWrittenGives26 | main.py:251-252 | 51 s floor-divided by 2 gives 26 s as written, but 25 s when floored, which is what the source's own test expects |
| Durations.FloorDivScalarAgreesOnExactDivision | main.py:286-289 | whenever `n` divides the second count, the written and the corrected `floordiv(int)` give the same exact quotient |
| Durations.AddSubRoundTrip | main.py:30-31 | `a.add(b).sub(b) == a` and `a.sub(b).add(b) == a`; `add` is commutative and associative, with zero as its unit |
| Durations.NegProperties | main.py:31-34 | `neg` is an involution, `sub` is `add` of the negation, and `abs` ignores the sign |
| Durations.MulThenFloorDivScalar | main.py:32-38 | `a.mul(n).floordiv(n) == a` for every duration and every non-zero integer `n` |
| Durations.DivModIsFloorDivAndMod | main.py:35-38 | `divmod(a, b)` is `(floordiv(a, b), mod(a, b))`, and it is the only pair `(q, r)` with `q * b + r == a` and `r` on the divisor's side |
| Durations.ComparisonsAreTotalOrder | main.py:39-43 | `eq` is equality, `le` is a total order, and `lt`, `ge`, `gt` are derived from it as the integer order of second counts |
| Durations.ComparisonsShiftInvariant | main.py:39-43 | `lt` and `eq` are unchanged when the same duration is added to both sides |
| Durations.AddSubExamples | main.py:224-237 | the constructor gives 795843 s; 60 s + 7 s = 67 s, + 60 s = 127 s; 67 s - 33 s = 34 s, - 1 s = 33 s |
| Durations.SignAndOrderExamples | main.py:261-269 | `neg` of 41 s is -41 s; `abs` gives 41 s; 102 s against 41 s compares as not `eq`/`le`/`lt` and `ge`/`gt`; 102 s is truthy |
| Durations.DivisionExamples | main.py:243-259 | 51 s times 2 is 102 s; 102 s // 51 s is 2; 102 s mod 41 s is 20 s; divmod gives (2, 20 s) |
| Durations.YearExamples | main.py:273-289 | 365 days equal 40 weeks, 84 days, 23 h, 50 min and 600 s, which is 31536000 s; ten years minus one, floor-divided by 3, is 1095 days |
| DurationText.FromPartsTuple | main.py:224-225 | the keyword constructor and `tuple` are inverse: weeks become seven days each, and in-range hours, minutes and seconds come back as given |
| DurationText.TupleClockPart | main.py:59-69 | the tuple's hours, minutes and seconds make up the floor remainder of the second count modulo one day |
| DurationText.Tuple | main.py:59-69 | hours, minutes and seconds are in range; the day count is never negative; the sign is `-` exactly when the total is negative; the fields recompose to the total, with the sign applying to the days only |
| DurationText.TupleOfCompose | main.py:59-69 | `tuple` is the unique decomposition of its kind: any valid fields are what `tuple` returns for the total they stand for |
| DurationText.TupleWithinDay | main.py:51-52 | below one day the tuple has no days and the plain hours, minutes and seconds |
| DurationText.Isoformat | main.py:49-54 | the text is the eight-character `HH:MM:SS` clock exactly when 0 <= total < 86400; otherwise it is `{head}d {clock}`, where the head, `%d` digits with no leading zero, reads back as the floor number of whole days and the in-range clock as the non-negative remainder after them |
| DurationText.DayHeadReads | main.py:54 | the `%s%d` head, the sign field then the day count, is never empty and reads back as the signed day count |
| DurationText.LongFormReads | main.py:54 | the `%s%dd %02d:%02d:%02d` text of in-range fields splits back into them: the head reads as the signed day count, the clock as hours, minutes and seconds |
| DurationText.IsoformatRoundTrip | main.py:49-54 | reading the text back gives the second count, in both forms and for negative durations |
| DurationText.IsoformatInjective | main.py:49-54 | two different durations never render alike |
| DurationText.IsoformatOfNineDays | main.py:224-225 | one week, two days, 5 h 4 min 3 s renders as `9d 05:04:03` |
| DurationText.IsoformatOfTwentyFiveHours | main.py:54 | 25 hours render as `1d 01:00:00` |
| DurationText.IsoformatOfTenYears | main.py:284-285 | 3650 days render as `3650d 00:00:00` |
| DurationText.IsoformatWithinDay | main.py:252 | 25 s renders as `00:00:25` and zero as `00:00:00` |
| DurationText.IsoformatOfWholeHours | main.py:300-304 | one and two hours render as `01:00:00` and `02:00:00` |
| DurationText.IsoformatOfNegative | main.py:63-66 | -41 s has the tuple (`-`, 1, 23, 59, 19) and renders as `-1d 23:59:19` |
| Timezones.UtcOffset | main.py:89-90 | for a zone whose `dst` returns a duration (as `cet`'s does): the effective offset minus the daylight-saving part is the base offset, and exceeds the base exactly when that part is positive |
| Timezones.OffsetIsoformatAsWritten | main.py:98-102 | as written: the text is `UTC` exactly when the offset is less than a minute past a whole number of days (floor), because only the tuple's hours and minutes are compared with zero; any other text reads back as the whole minutes of that floor remainder, with the offset's sign |
| Timezones.OffsetIsoformat | main.py:98-102 | as intended: the text is `UTC` exactly when the offset is less than a minute either way |
| Timezones.OffsetIsoformatRoundTrip | main.py:98-102 | for whole-minute offsets strictly within a day either way, the intended text reads back as the offset |
| Timezones.AsWrittenAgreesOnNonNegative | main.py:98-102 | for offsets from zero up to a day, the written and the intended rendering coincide |
| Timezones.AsWrittenNegativeOffset | main.py:98-102 | one hour west renders as `UTC-23:00` as written, which reads back as -23 h; the intended text is `UTC-01:00` |
| Timezones.OffsetIsoformatOfWholeHours | main.py:310-312 | one and two hours east render as `UTC+01:00` and `UTC+02:00` |
| Timezones.OffsetIsoformatExamples | main.py:295-296 | the intended rendering of one hour west is `UTC-01:00` and of 4 h 30 min east is `UTC+04:30`, the texts the library's `timezone` prints |
| Cet.MarchSwitchDay | main.py:178 | the March switch day always lies in 25..31 |
| Cet.OctoberSwitchDay | main.py:183 | the October switch day always lies in 25..31 |
| Cet.IsDst | main.py:171-187 | without a timestamp (`None`) it is standard time; April to September are summer time; January, February, November and December are not; in March summer time starts after the switch day or on it from 03:00; in October it lasts until the switch day, and on it until 03:00 |
| Cet.IsDstIffInSummerWindow | main.py:171-187 | summer time is exactly the half-open window from (March, switch day, 03) to (October, switch day, 03) in lexicographic (month, day, hour) order |
| Cet.Dst | main.py:165-166 | the adjustment is one hour exactly in summer time and zero otherwise; it is truthy exactly in summer time |
| Cet.BaseOffset | main.py:162-163 | the zone's base offset is one hour |
| Cet.UtcOffset | main.py:89-90 | the effective offset is 7200 s exactly in summer time and 3600 s exactly otherwise |
| Cet.Tzname | main.py:168-169 | the name is `CEST` exactly in summer time and `CET` exactly otherwise |
| Cet.Str | main.py:86-87 | the zone prints as `CET` |
| Cet.Isoformat | main.py:98-102 | the zone renders as `UTC+02:00` exactly in summer time and `UTC+01:00` exactly otherwise |
| Cet.IsoformatAsWrittenAgrees | main.py:98-102 | for this zone the written offset rendering equals the intended one |
| Cet.TznameMatchesOffset | main.py:165-169 | the name is `CEST` exactly when the offset is two hours, and `CET` exactly when it is one |
| Cet.SwitchDaysAreLastSundays | main.py:178-183 | from 1900 to 2099 both switch days are the last Sunday of their month, checked against an independent Gregorian day count |
| Cet.SwitchDayDriftsIn2100 | main.py:178 | in 2100 the March formula names Saturday the 27th, one day before the last Sunday |
| Cet.UtcOffsetText | main.py:300-304 | the offset prints as `02:00:00` in summer time and `01:00:00` otherwise |
| Cet.Switches2010 | main.py:300-304 | at noon in 2010, 27 March and 31 October are standard time, and 28 March and 30 October are summer time |
| Cet.Example2011 | main.py:310-313 | 1 January 2011 renders as `UTC+01:00` named `CET`, and 1 August 2011 as `UTC+02:00` named `CEST` |
| Calendar.OrdinalExamples | main.py:326 | 10 August 1975 is day 721210 of the Gregorian count, as the library reports |

## Left out

- `mul` and `truediv` with a float operand (main.py:32, 37, 239-242, 248-249): floating-point arithmetic. Only `mul` by an integer is modelled (`Durations.MulScalar`), and it is exact.
- `truediv` by an integer (main.py:37, 247): the host divides the microsecond count and rounds half-to-even, so 51 s / 2 holds 25.5 s, which reads as 26 s. Only `floordiv` by an integer is modelled.
- `truediv` by a duration (main.py:37, 246): the host returns the float ratio of the two durations (`2.0` in the test); floating point is not modelled.
- `round()` in `total_seconds` for durations built from fractional seconds (main.py:56-57): every modelled duration holds whole seconds, except the result of the written `floordiv(int)`, whose rounding is modelled.
- Durations.FloorDivScalarAsWritten: keeps only the rounded second count. The host object still holds the half second that it rounds away (25.5 s), and a later operation would start from that value.
- `mod` and `divmod` with an integer operand. The host's `__mod__` and `__divmod__` return `NotImplemented` for a non-duration. For `mod`, `_ctor` passes that object back unchanged, so `td.mod(2)` returns `NotImplemented` and raises nothing (main.py:35, 78). For `divmod`, `_ctor` indexes it with `result[0]`, which raises `TypeError` (main.py:36, 75-76). The signatures here admit only durations, so neither call can be written.
- A plain wrapper `timezone(...)` cannot compute an offset, and the model does not represent that failure. Its `dst` (main.py:92-93) is the host's, which returns `None`. `utcoffset` then calls `add(None)` (main.py:90), and `_ctor` calls `__add__()` with no operand (main.py:72), which raises `TypeError`. So `utcoffset` and `isoformat` raise for every plain zone. `Timezones.UtcOffset` and the offset renderings model only a subclass that overrides `dst` with a duration, as `cet` does.
- The wrapper's `tzname` (main.py:95-96) delegates to the host library's `timezone`. From main.py:190 on, the name `timezone` means the host class, so the wrapper is reached only through `cet`.
- `timezone.utc` (main.py:104): a host object.
- `timedelta.min`, `max` and `resolution`, and overflow at those bounds: the host's 999999999-day range is not modelled, and integers are unbounded.
- The `datetime` subclass and its calendar helpers (main.py:109-146): thin wrappers over the host library. `Calendar` is only a reference for checking the CET formula; it is not a model of them.
- The dual-environment import shim, the Zerynth `streams` setup, the test driver with its counters, and `print` output (main.py:6-27, 148-156, 193-217): environment plumbing and I/O.
- `examples/timedelta.py`: a print-only script with no logic of its own.
- The comments at main.py:310 and 312 show `+01:00` and `+02:00`. The code renders `UTC+01:00` and `UTC+02:00`, and the model follows the code.

## Findings

| source | as written | input that shows it | evidently intended | confidence | as-written member | corrected member |
|---|---|---|---|---|---|---|
| main.py:38 | `floordiv(int)` floors the host's microsecond count; `_ctor` keeps the half second, and `total_seconds()` (main.py:57) rounds it half-to-even whenever the result is read | 51 s floor-divided by 2 gives 25.5 s, which prints as 26 s (`00:00:26`); the test at main.py:252 expects `00:00:25` | the floor of the second count divided by `n` | high, not executed | Durations.FloorDivScalarAsWritten | Durations.FloorDivScalar |
| main.py:98-102 | `isoformat` takes hours and minutes from the floor `tuple`, which counts a negative offset forward from the previous midnight | a subclass that overrides `dst`, as `cet` does, whose `utcoffset` is -1 h: it renders as `UTC-23:00` | `UTC-01:00`: the sign, then the hours and minutes of the magnitude | high, not executed | Timezones.OffsetIsoformatAsWritten | Timezones.OffsetIsoformat |

Both computations are proved to agree wherever the source exercises them:

- `Durations.FloorDivScalarAgreesOnExactDivision` covers exact division, such as nine years divided by 3.
- `Timezones.AsWrittenAgreesOnNonNegative` and `Cet.IsoformatAsWrittenAgrees` cover non-negative offsets below a day, such as CET's.

The model of `cet` uses the intended rendering.
