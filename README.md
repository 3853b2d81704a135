# go-iso8601duration in Dafny

A model of the Go package `iso8601duration`. The package handles ISO 8601
durations in the designator format `PnYnMnWnDTnHnMnS`.

- A `Duration` has a sign, four unsigned 64-bit date fields (years,
  months, weeks, days) and three time fields (hours, minutes, seconds).
- `ParseString` and `UnmarshalText` read the text form.
- `String` and `MarshalText` write it.
- `Normalize` carries seconds into minutes, minutes into hours, hours into
  days and months into years, and refuses when a field would pass
  MaxInt64.
- `Add` adds a duration to a civil date-time with Go's `AddDate`, then
  adds the time part as a flat offset.
- `AddJapan` computes when a period expires under Articles 139, 140, 141
  and 143 of the Japanese Civil Code.

Modules:

- `Grammar`: the pattern, stated generatively by `Render` of a `Match`.
  Its recogniser `Recognise` accepts exactly the texts `Render` produces.
- `Decimals`: digit strings and exact decimals (`Dec`, in lowest terms).
  It also holds the printing and reading of numerals.
- `Durations`: the record, its predicates, `Int64` wrap-around and errors.
- `Parser`: `ParseString` is a loop over the capture groups, proved
  against the function `Parse`. `UnmarshalText` is also here.
- `Formatter`: `String` is a builder proved against the function `Format`,
  plus the `Parse(Format(d))` round trip. `MarshalText` is also here.
- `Normalization`: `Normalize` as two imperative stages, proved against
  `Carry`. It also holds the source's uint64 arithmetic (`CarryAsWritten`).
- `Civil`: the part of Go's `time` package the core uses. `time.Date`
  normalisation is modelled by `Date`, `AddDate` and `Add` by `AddNanos`.
  The reference count `Instant` is in nanoseconds since 0000-01-01.
- `Calendar`: `Add` and `AddJapan`.

The code and the written description of the format disagree in one place.
The pattern makes every component optional, so `P`, `PT` and `-P` are
accepted and parse to the zero duration. The model follows the code.

## Model

| member | source | states |
|---|---|---|
| Grammar.Recognise | iso8601duration.go:17-27 | a match is well formed and is made of exactly the matched text |
| Grammar.Completeness | iso8601duration.go:17-27 | every text the pattern generates is matched, with the captures it was built from |
| Grammar.RecogniseExactly | iso8601duration.go:17-27 | a text is matched iff the pattern generates it, and its captures are unique |
| Grammar.RecogniseReplace | iso8601duration.go:17 | writing ',' as '.' in a text changes only its captures, the same way |
| Decimals.NatText | iso8601duration.go:203 | FormatUint: the digits denote n, with no leading zero unless n is 0 |
| Decimals.Text | iso8601duration.go:221 | FormatFloat of an exact decimal is a numeral of the pattern, without ',' |
| Decimals.ReadText | iso8601duration.go:221 | reading back what is printed gives the same decimal |
| Decimals.ReadReplace | iso8601duration.go:279-281 | ',' and '.' read as the same separator |
| Durations.Int64 | iso8601duration.go:80 | int(x) of a uint64: in int64 range, congruent to x mod 2^64, x itself when it fits |
| Durations.IsZero | iso8601duration.go:56-58 | every field is zero, whatever the sign; ZeroIffNoParts relates it to the two part predicates |
| Durations.IsValid | iso8601duration.go:61-63 | every date field is at most MaxInt64; on such durations the uint64 checks of Normalize agree with the exact ones (AsWrittenAgrees) |
| Durations.HasTimePart | iso8601duration.go:71-73 | some time field is positive; it decides where AddJapan starts counting (CountStart) |
| Durations.HasDatePart | iso8601duration.go:66-68 | as written, the predicate holds of every duration |
| Durations.HasNonZeroDatePart | iso8601duration.go:66-68 | true iff the date fields alone do not make a zero duration |
| Durations.ZeroIffNoParts | iso8601duration.go:56-73 | IsZero iff there is no non-zero date part and no time part |
| Parser.ParseUint | iso8601duration.go:307 | ParseUint succeeds iff the value is below 2^64; otherwise ErrRange |
| Parser.ParseFloat | iso8601duration.go:279-281 | ',' is read as '.', then the exact decimal, or ErrRange at float64's overflow bound; ReadText and ReadReplace state what is read |
| Parser.DateFields | iso8601duration.go:303-313 | the four ParseUint calls in group order, the first range error stopping them; ReadGroups states the loop does the same |
| Parser.Parse | iso8601duration.go:284-328 | ErrBadFormat when the pattern does not match, else what the match denotes; ParseErrors, ParseOfRender and ParseSeparators state its properties |
| Parser.FromMatch | iso8601duration.go:293-327 | a match yields a duration of its sign, or a range error |
| Parser.ParseString | iso8601duration.go:284-328 | the imperative parser returns exactly Parse(s) |
| Parser.ReadGroups | iso8601duration.go:293-325 | the loop over SubexpNames stops at the first failing group and otherwise fills every field |
| Parser.RunFromMatch | iso8601duration.go:293-325 | the loop over a match's groups computes what the match denotes |
| Parser.ParseOfRender | iso8601duration.go:284-328 | a generated text parses to what its captures denote |
| Parser.ParseErrors | iso8601duration.go:285-288 | ErrBadFormat iff the pattern does not generate the text; every other failure is ErrRange |
| Parser.ParseSeparators | iso8601duration.go:279-281 | a text parses the same with ',' or '.' as fraction separator |
| Parser.UnmarshalText | iso8601duration.go:237-244 | on success the receiver becomes the parsed duration; on error it keeps its value |
| Formatter.DateNumeral | iso8601duration.go:202-217 | a date field is written iff it is non-zero, as a numeral of the pattern |
| Formatter.TimeNumeral | iso8601duration.go:220-231 | a time field is written iff it is positive, as a numeral of the pattern |
| Formatter.Format | iso8601duration.go:192-235 | "PT0S" for a zero duration, otherwise the layout rendered; FormatShape states its shape and ParseFormat its inverse |
| Formatter.Layout | iso8601duration.go:192-235 | what String writes is a well-formed match |
| Formatter.FormatShape | iso8601duration.go:197-234 | sign, 'P', date components, then 'T' and time components iff there is a time part |
| Formatter.String | iso8601duration.go:192-235 | the imperative builder returns exactly Format(d) |
| Formatter.WriteDate | iso8601duration.go:202-217 | the date steps append the date components in order |
| Formatter.WriteTime | iso8601duration.go:219-231 | the time steps append the time components in order |
| Formatter.MarshalText | iso8601duration.go:246-248 | the bytes of String, never an error |
| Formatter.ParseFormat | iso8601duration.go:192-235 | ParseString reads back what String writes; a zero duration comes back as unsigned zero |
| Normalization.Sub64 | iso8601duration.go:164 | uint64 subtraction wraps by 2^64 when b > a |
| Normalization.TimeCarry | iso8601duration.go:143-160 | the seconds and minutes carries, refused past float64(MaxInt64); TimeCarryFacts states that nothing is lost and the rests are below 60 |
| Normalization.DateCarry | iso8601duration.go:162-189 | the hours and months carries, checked exactly against MaxInt64 |
| Normalization.DateCarryAsWritten | iso8601duration.go:162-189 | the hours and months carries with the source's wrapping uint64 arithmetic |
| Normalization.Carry | iso8601duration.go:142-190 | both stages at the finest scale of the time fields; NormalizeRanges, NormalizeTotals, NormalizeIdempotent and CarryRefuses state its properties |
| Normalization.CarryAsWritten | iso8601duration.go:142-190 | Carry with the wrapping checks; equal to Carry on valid durations (AsWrittenAgrees), not above MaxInt64 (AsWrittenWrapsYears) |
| Normalization.Normalize | iso8601duration.go:142-190 | the result is Carry(d), or the input unchanged with false |
| Normalization.CarryTime | iso8601duration.go:143-160 | the seconds and minutes steps, refusing past float64(MaxInt64) |
| Normalization.CarryDate | iso8601duration.go:162-189 | the hours and months steps and the record built from them |
| Normalization.TimeCarryFacts | iso8601duration.go:143-160 | the first two carries lose nothing and leave minutes and seconds below 60 |
| Normalization.NormalizeRanges | iso8601duration.go:142-190 | months < 12, hours < 24, minutes and seconds < 60, weeks kept, sign dropped, years grow iff months >= 12 |
| Normalization.NormalizeTotals | iso8601duration.go:142-190 | the total of months and the total of days and time are unchanged |
| Normalization.NormalizeIdempotent | iso8601duration.go:142-190 | normalizing a normalized duration gives it back |
| Normalization.NormalizeSucceeds | iso8601duration.go:146-177 | fields below 2^62 never overflow |
| Normalization.NormalizeWhole | iso8601duration.go:142-190 | on whole fields the result is the quotient and remainder carries |
| Normalization.NormalizeWholeRefuses | iso8601duration.go:146-177 | on whole fields every overflow check that fails refuses |
| Normalization.NormalizeLimits | iso8601duration.go:146-177 | MaxInt64 years with 12 months and MaxInt64 days with 24 hours are refused, with 11 months and 23 hours accepted; hours at float64(MaxInt64) with 60 minutes are refused |
| Normalization.NormalizeClockLimits | iso8601duration.go:146-160 | hours at float64(MaxInt64) take 59 more minutes; minutes at float64(MaxInt64) take 59 more seconds but not 60 |
| Normalization.CarryRefuses | iso8601duration.go:146-177 | refused iff a time carry is refused, or the whole days in the carried hours pass MaxInt64 - days, or the whole years in the months pass MaxInt64 - years |
| Normalization.CarryRefusesYears | iso8601duration.go:172-177 | refused whenever the years carry would pass MaxInt64 |
| Normalization.CarryRefusesDays | iso8601duration.go:162-167 | refused whenever the whole days in the hours left by the time carries pass MaxInt64 - days, for any fractions |
| Normalization.AsWrittenAgrees | iso8601duration.go:164-179 | for durations that satisfy IsValid, the uint64 arithmetic agrees with the exact checks |
| Normalization.AsWrittenWrapsYears | iso8601duration.go:174-179 | above MaxInt64 years the written check passes and the sum wraps where the exact one refuses |
| Normalization.AsWrittenWrapsDays | iso8601duration.go:164-169 | the same for days |
| Civil.AddMonths | iso8601duration.go:123 | AddDate by months lands on the same day of month k, or rolls the missing days into month k+1 |
| Civil.Date | iso8601duration.go:117 | time.Date's normalisation: DateOfClock states the reading it returns, DateInstant its instant |
| Civil.AddDate | iso8601duration.go:123 | AddDate through Date; AddMonths and AddDaysInstant state where it lands |
| Civil.AddNanos | iso8601duration.go:137 | Add of nanoseconds through Date; AddNanosInstant states the instant moves by exactly n |
| Civil.AddNanosInstant | iso8601duration.go:137 | Add of n nanoseconds moves the instant by exactly n |
| Civil.AddDaysInstant | iso8601duration.go:133 | AddDate by n days moves the instant by exactly n days |
| Civil.InstantInjective | iso8601duration.go:104 | distinct valid date-times are distinct instants |
| Calendar.ClockOffsetRounds | iso8601duration.go:77 | the offset is the exact time part in nanoseconds, rounded to the nearest |
| Calendar.ClockOffsetWhole | iso8601duration.go:77 | whole hours, minutes and seconds convert exactly |
| Calendar.ClockOffsetZero | iso8601duration.go:136 | no time part means no offset |
| Calendar.ClockOffset | iso8601duration.go:77 | math.Round of the time part in nanoseconds; ClockOffsetRounds states it is within half a nanosecond of the exact value |
| Calendar.Add | iso8601duration.go:76-86 | AddDate then Add, both negated for a negative duration; AddSigned, AddShifts, AddUndo and AddExample state its properties |
| Calendar.DayCountExact | iso8601duration.go:83 | int(Weeks*7+Days) is exact when the sum fits int64 |
| Calendar.AddSigned | iso8601duration.go:76-86 | within int64, Add is AddDate and Add by the signed fields |
| Calendar.AddShifts | iso8601duration.go:76-86 | without years and months, Add moves the instant by the signed days and offset |
| Calendar.AddUndo | iso8601duration.go:76-86 | without years and months, adding the negated duration undoes Add |
| Calendar.AddMonthsOnly | iso8601duration.go:83 | years and months only: the same day and clock k months on, or rolled over |
| Calendar.AddExample | iso8601duration_test.go:188-195 | P1Y2M3W4DT5H6M7.8S from 2025-10-10 is 2027-01-04T05:06:07.8 |
| Calendar.CountStart | iso8601duration.go:110-119 | counting starts at `from` with a time part or at midnight, otherwise at the next midnight |
| Calendar.MonthStep | iso8601duration.go:121-129 | AddDate by years and months, then day 1 of that month when the day changed; MonthStepLands states where it lands |
| Calendar.DaysStep | iso8601duration.go:131-134 | AddDate by the weeks and days when there are any; DaysStepShifts states it moves the instant by that many days |
| Calendar.DaysAndClock | iso8601duration.go:131-137 | the days step, then the time part as an offset |
| Calendar.DaysAndClockShifts | iso8601duration.go:131-137 | the last two steps move the instant by 7 * weeks + days days plus the offset |
| Calendar.AddJapanAsWritten | iso8601duration.go:104-139 | AddJapan with the month step compared against the day of `from`; it agrees with PeriodEnd when counting starts at `from` |
| Calendar.PeriodEnd | iso8601duration.go:104-139 | AddJapan with the month step compared against the day counting starts from; AddJapan returns exactly it |
| Calendar.AddJapan | iso8601duration.go:104-139 | negative durations are refused with ErrUnsupportedNegative; otherwise the period end |
| Calendar.MonthStepLands | iso8601duration.go:121-129 | the month step lands on the corresponding day, or on the 1st after a month without it |
| Calendar.PeriodEndMonths | iso8601duration.go:104-139 | years and months end at midnight on the corresponding day, or the 1st of the month after |
| Calendar.PeriodEndDays | iso8601duration.go:110-134 | weeks and days end at the midnight closing the last day, counted from the first day counted |
| Calendar.PeriodEndClock | iso8601duration.go:110-137 | a time part alone counts from the instant itself |
| Calendar.PeriodEndNotBefore | iso8601duration.go:104-139 | the period never ends before it starts |
| Calendar.PeriodEndMixed | iso8601duration.go:104-139 | for any mix of fields, the end is the month step's instant plus the weeks and days as whole days plus the offset |
| Calendar.AsWrittenAgreesFromStart | iso8601duration.go:111-129 | when counting starts at `from`, the written and the corrected comparison agree |
| Calendar.AsWrittenEndsBeforeStart | iso8601duration.go:124 | the written comparison ends P1D from 2020-06-15T10:00 on 06-02, before it starts |
| Calendar.AsWrittenSnapsMonth | iso8601duration.go:124 | the written comparison ends P1M from 2024-03-15T10:00 on 04-01, not 04-16 |
| Calendar.LeapMonthRow | iso8601duration_test.go:216 | P1M from 2024-01-29 ends 2024-02-29 |
| Calendar.ShortMonthRow | iso8601duration_test.go:218 | P1M from 2024-01-31 ends 2024-03-01 |
| Calendar.TwoMonthRow | iso8601duration_test.go:253 | P2M from 2024-01-31 ends 2024-03-31 |
| Calendar.PeriodEndLateRow | iso8601duration_test.go:258 | P1M from 2024-05-30T01:00 ends 2024-07-01, the same under both versions |
| Calendar.MonthAndDayRow | iso8601duration_test.go:226 | P1M1D from 2021-01-31 ends 2021-03-02 |
| Calendar.MonthAndHourRow | iso8601duration_test.go:259 | P1MT1H from 2024-05-30T01:00 ends 2024-06-30T02:00 |
| Calendar.LeapYearRow | iso8601duration_test.go:262 | P1Y from 2020-02-28T01:00 ends 2021-03-01, the same under both versions |

## Left out

- The time fields are float64 in the source. Here they are exact
  non-negative decimals.
- Parser.ParseFloat returns the exact decimal, not the nearest float64.
  Float rounding of long numerals is not modelled. Overflow to infinity is
  modelled as ErrRange.
- Normalization.Normalize computes the float steps (math.Trunc, the
  subtractions) exactly. Precision lost above 2^53 is not modelled.
- Calendar.ClockOffset is unbounded. The int64 overflow of time.Duration
  for offsets above about 292 years is not modelled.
- Calendar.Add and Calendar.AddJapan do not model Go's int overflow inside
  time.Date for years beyond int range.
- NaN and infinities: a `Dec` cannot be one. So the finiteness conjuncts of
  IsValid hold trivially, and String's isFinite guards are always true.
- Time zones, Location and the monotonic clock reading are left out. A
  date-time is a zone-free civil reading.
- The debug `fmt.Printf` in AddJapan (line 122) is output only and is left
  out.
- JSON marshalling (MarshalJSON, UnmarshalJSON) is left out. It wraps the
  text forms in a JSON string with encoding/json.
- The regexp engine is left out. `Grammar.Recognise` is a hand-written
  recogniser, proved to accept exactly the texts the pattern generates.
- Formatter.ParseFormat requires each time field to be below the float64
  overflow bound. Every float64 value is.

## Findings

| source | as written | input that shows it | evidently intended | confidence | as-written member | corrected member |
|---|---|---|---|---|---|---|
| iso8601duration.go:67 | `d.Years >= 0` on a uint64 is always true, so HasDatePart holds for every duration | the zero duration | `d.Years > 0`: some date field is non-zero | high, not executed | Durations.HasDatePart | Durations.HasNonZeroDatePart |
| iso8601duration.go:124 | after the Article 140 shift to the next day, the day is compared with `from.Day()` | P1D from 2020-06-15T10:00 gives 2020-06-02, before `from` | compare with the day counting starts from; the end is 2020-06-17 | high, not executed | Calendar.AsWrittenEndsBeforeStart | Calendar.AddJapan |
| iso8601duration.go:164-179 | `math.MaxInt64 - d.Years` and `- d.Days` are uint64 and wrap when the field exceeds MaxInt64 | Years 2^64-1, Months 12 gives Years 0 and true | refuse: the sum passes MaxInt64 | medium, not executed | Normalization.AsWrittenWrapsYears | Normalization.Normalize |
