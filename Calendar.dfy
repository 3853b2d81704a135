/**
 * The two calendar operators: Add, the naive civil-calendar addition, and
 * AddJapan, the period end under Articles 139, 140, 141 and 143 of the
 * Japanese Civil Code. Both work on the civil date-time model of `Civil`.
 */
module Calendar {
  import opened Decimals
  import opened Durations
  import opened Normalization
  import opened Civil

  /**
   * math.Round((Hours*60*60 + Minutes*60 + Seconds) * 1e9): the time part in
   * nanoseconds, rounded to the nearest whole nanosecond, halves upwards.
   * The time part is exact here: it is `total` units of 10^-e seconds.
   */
  function ClockOffset(d: Duration): nat {
    var e := Scale(d);
    Nearest(ClockTotal(ClockAt(d, e)) * NanosPerSecond, Pow10(e))
  }

  /** math.Round(y / p) for y >= 0: the nearest whole number, halves upwards. */
  function Nearest(y: nat, p: nat): nat
    requires p > 0
  {
    DivMod(2 * y + p, 2 * p);
    (2 * y + p) / (2 * p)
  }

  /** Nearest is within half a unit: y / p lies in [n - 1/2, n + 1/2). */
  lemma NearestBounds(y: nat, p: nat)
    requires p > 0
    ensures var n := Nearest(y, p);
            (2 * n - 1) * p <= 2 * y < (2 * n + 1) * p
  {
    var u := 2 * p;
    var x := 2 * y + p;
    DivMod(x, u);
    var n := x / u;
    assert n * u + x % u == x;
    assert n * u == 2 * n * p;
    assert (2 * n - 1) * p == 2 * n * p - p;
    assert (2 * n + 1) * p == 2 * n * p + p;
  }

  lemma NearestWhole(y: nat)
    ensures Nearest(y, 1) == y
  {
    DivModUnique(2 * y + 1, 2, y, 1);
  }

  /** ClockOffset is the exact time part rounded to the nearest nanosecond. */
  lemma ClockOffsetRounds(d: Duration)
    ensures var e := Scale(d);
            var n := ClockOffset(d);
            var total := ClockTotal(ClockAt(d, e));
            (2 * n - 1) * Pow10(e) <= 2 * total * NanosPerSecond < (2 * n + 1) * Pow10(e)
  {
    var e := Scale(d);
    NearestBounds(ClockTotal(ClockAt(d, e)) * NanosPerSecond, Pow10(e));
  }

  /** A time part of whole seconds at most is converted exactly. */
  lemma ClockOffsetWhole(d: Duration)
    requires d.hours.scale == 0 && d.minutes.scale == 0 && d.seconds.scale == 0
    ensures ClockOffset(d) == (3600 * d.hours.mantissa + 60 * d.minutes.mantissa + d.seconds.mantissa) * NanosPerSecond
  {
    ClockAtWhole(d);
    NearestWhole(ClockTotal(ClockAt(d, 0)) * NanosPerSecond);
  }

  /** Without a time part there is nothing to add to the clock. */
  lemma ClockOffsetZero(d: Duration)
    requires !HasTimePart(d)
    ensures ClockOffset(d) == 0
  {
    assert d.hours == ZeroDec && d.minutes == ZeroDec && d.seconds == ZeroDec;
    ClockAtWhole(d);
    assert ClockAt(d, 0) == Clock(0, 0, 0);
    NearestWhole(0);
  }

  /** `int(d.Weeks*7 + d.Days)`: the uint64 sum converted to a signed 64-bit int. */
  function DayCount(d: Duration): int {
    Int64(Add64(Mul64(d.weeks, 7), d.days))
  }

  lemma DayCountExact(d: Duration)
    requires 7 * d.weeks + d.days <= MaxInt64
    ensures DayCount(d) == 7 * d.weeks + d.days
  {
  }

  /** `-1 * int(x)`: the negation of a signed 64-bit int, which wraps for its minimum. */
  function Neg64(x: int): int {
    Int64(-x)
  }

  // ---------------------------------------------------------------------
  // Add: AddDate of the date part, then the time part as a flat offset.
  // ---------------------------------------------------------------------

  /** What Add returns: both steps go backwards for a negative duration. */
  function Add(d: Duration, from: Time): Time {
    var offset: int := ClockOffset(d);
    if d.negative then
      AddNanos(AddDate(from, Neg64(Int64(d.years)), Neg64(Int64(d.months)), Neg64(DayCount(d))), -offset)
    else
      AddNanos(AddDate(from, Int64(d.years), Int64(d.months), DayCount(d)), offset)
  }

  /** +1 or -1 as the duration's sign. */
  function Sign(d: Duration): int {
    if d.negative then -1 else 1
  }

  /** On fields within int64, Add is AddDate and Add by the signed fields. */
  lemma AddSigned(d: Duration, from: Time)
    requires d.years <= MaxInt64 && d.months <= MaxInt64 && 7 * d.weeks + d.days <= MaxInt64
    ensures Add(d, from) == AddNanos(AddDate(from, Sign(d) * d.years, Sign(d) * d.months,
                                             Sign(d) * (7 * d.weeks + d.days)), Sign(d) * ClockOffset(d))
  {
    DayCountExact(d);
    var y: int, m: int, n: int := d.years, d.months, 7 * d.weeks + d.days;
    var offset: int := ClockOffset(d);
    assert Int64(y) == y && Int64(m) == m;
    if d.negative {
      assert Neg64(y) == -y && Neg64(m) == -m && Neg64(n) == -n;
      assert Add(d, from) == AddNanos(AddDate(from, -y, -m, -n), -offset);
      assert Sign(d) * y == -y && Sign(d) * m == -m && Sign(d) * n == -n && Sign(d) * offset == -offset;
    } else {
      assert Add(d, from) == AddNanos(AddDate(from, y, m, n), offset);
      assert Sign(d) * y == y && Sign(d) * m == m && Sign(d) * n == n && Sign(d) * offset == offset;
    }
  }

  /**
   * Without years and months, Add moves the point in time by exactly the
   * weeks, the days and the time part, forwards or backwards.
   */
  lemma AddShifts(d: Duration, from: Time)
    requires d.years == 0 && d.months == 0 && 7 * d.weeks + d.days <= MaxInt64
    ensures Instant(Add(d, from))
            == Instant(from) + Sign(d) * ((7 * d.weeks + d.days) * NanosPerDay + ClockOffset(d))
  {
    AddSigned(d, from);
    var n: int := Sign(d) * (7 * d.weeks + d.days);
    var t := AddDate(from, 0, 0, n);
    assert Add(d, from) == AddNanos(t, Sign(d) * ClockOffset(d));
    AddDaysInstant(from, n);
    AddNanosInstant(t, Sign(d) * ClockOffset(d));
    SignDistrib(Sign(d), 7 * d.weeks + d.days, ClockOffset(d));
  }

  lemma SignDistrib(s: int, n: int, c: int)
    requires s == 1 || s == -1
    ensures s * n * NanosPerDay + s * c == s * (n * NanosPerDay + c)
  {
  }

  /** Without years and months, adding the negated duration undoes Add. */
  lemma AddUndo(d: Duration, from: Time)
    requires d.years == 0 && d.months == 0 && 7 * d.weeks + d.days <= MaxInt64
    ensures Add(d.(negative := !d.negative), Add(d, from)) == from
  {
    var e := d.(negative := !d.negative);
    AddShifts(d, from);
    AddShifts(e, Add(d, from));
    assert ClockOffset(e) == ClockOffset(d) by {
      assert Scale(e) == Scale(d) && ClockAt(e, Scale(e)) == ClockAt(d, Scale(d));
    }
    InstantInjective(Add(e, Add(d, from)), from);
  }

  /**
   * A duration of years and months only lands in the month that many months
   * after (or before) the month of `from`, on the same day and clock when
   * that month has the day, and otherwise rolls the missing days over into
   * the following month.
   */
  lemma AddMonthsOnly(d: Duration, from: Time)
    requires d.weeks == 0 && d.days == 0 && !HasTimePart(d)
    requires d.years <= MaxInt64 && d.months <= MaxInt64
    ensures var k := MonthIndex(from) + Sign(d) * (12 * d.years + d.months);
            var n := DaysInMonth(YearOf(k), MonthOf(k));
            var r := Add(d, from);
            && r.hour == from.hour && r.minute == from.minute && r.second == from.second && r.nanosecond == from.nanosecond
            && (from.day <= n ==> r.year == YearOf(k) && r.month == MonthOf(k) && r.day == from.day)
            && (from.day > n ==> r.year == YearOf(k + 1) && r.month == MonthOf(k + 1) && r.day == from.day - n)
  {
    AddSigned(d, from);
    ClockOffsetZero(d);
    var y, m := Sign(d) * d.years, Sign(d) * d.months;
    var t := AddDate(from, y, m, 0);
    assert Add(d, from) == AddNanos(t, 0);
    DateOfTime(t);
    assert 12 * y + m == Sign(d) * (12 * d.years + d.months);
    AddMonths(from, y, m);
  }

  // ---------------------------------------------------------------------
  // AddJapan
  // ---------------------------------------------------------------------

  /**
   * Articles 139 and 140: a period with a time part counts from the instant;
   * otherwise the initial day is left out unless the period starts at
   * midnight, so counting starts at the next midnight.
   */
  function CountStart(d: Duration, from: Time): (s: Time)
    ensures HasTimePart(d) || from.IsMidnight() ==> s == from
    ensures !HasTimePart(d) && !from.IsMidnight() ==>
              s.IsMidnight() && DayNumber(s.year, s.month, s.day) == DayNumber(from.year, from.month, from.day) + 1
  {
    if !HasTimePart(d) && !from.IsMidnight() then
      NextMidnight(from);
      Date(from.year, from.month, from.day + 1, 0, 0, 0, 0)
    else from
  }

  /**
   * The month step: AddDate by years and months, then day 1 of the month
   * reached when the day of the month is no longer `day`.
   */
  function MonthStep(t: Time, years: int, months: int, day: int): Time {
    var r := AddDate(t, years, months, 0);
    if r.day != day then Date(r.year, r.month, 1, r.hour, r.minute, r.second, r.nanosecond) else r
  }

  /** The weeks and days, when there are any. */
  function DaysStep(d: Duration, t: Time): Time {
    if d.days > 0 || d.weeks > 0 then AddDate(t, 0, 0, DayCount(d)) else t
  }

  /** The weeks and days, then the time part. */
  function DaysAndClock(d: Duration, t: Time): Time {
    AddNanos(DaysStep(d, t), ClockOffset(d))
  }

  /**
   * AddJapan as the source writes it: after the month step the day is
   * compared with the day of `from`, not with the day counting starts from.
   */
  function AddJapanAsWritten(d: Duration, from: Time): Result<Time> {
    if d.negative then Err(UnsupportedNegative)
    else
      var start := CountStart(d, from);
      Ok(DaysAndClock(d, MonthStep(start, Int64(d.years), Int64(d.months), from.day)))
  }

  /** The end of the period: the month step compares with the day counting starts from. */
  function PeriodEnd(d: Duration, from: Time): Result<Time> {
    if d.negative then Err(UnsupportedNegative)
    else
      var start := CountStart(d, from);
      Ok(DaysAndClock(d, MonthStep(start, Int64(d.years), Int64(d.months), start.day)))
  }

  /**
   * AddJapan: the point in time at which a period of length d that starts
   * at `from` expires. A negative duration is refused.
   */
  method AddJapan(d: Duration, from: Time) returns (r: Result<Time>)
    ensures r.Err? <==> d.negative
    ensures r.Err? ==> r.error == UnsupportedNegative
    ensures r == PeriodEnd(d, from)
  {
    if d.negative {
      return Err(UnsupportedNegative);
    }

    var target := from;
    if !HasTimePart(d) {
      var isStartOfDay := from.hour == 0 && from.minute == 0 && from.second == 0 && from.nanosecond == 0;
      if !isStartOfDay {
        target := Date(from.year, from.month, from.day + 1, 0, 0, 0, 0);
      }
    }
    var start := target;
    assert start == CountStart(d, from);

    target := AddDate(target, Int64(d.years), Int64(d.months), 0);
    if target.day != start.day {
      target := Date(target.year, target.month, 1, target.hour, target.minute, target.second, target.nanosecond);
    }
    assert target == MonthStep(start, Int64(d.years), Int64(d.months), start.day);
    ghost var stepped := target;

    if d.days > 0 || d.weeks > 0 {
      target := AddDate(target, 0, 0, Int64(Add64(Mul64(d.weeks, 7), d.days)));
    }
    assert target == DaysStep(d, stepped);

    target := AddNanos(target, ClockOffset(d));
    assert target == DaysAndClock(d, stepped);
    return Ok(target);
  }

  // ---------------------------------------------------------------------
  // What the period end satisfies
  // ---------------------------------------------------------------------

  /**
   * Article 143: the month step lands on the corresponding day of month
   * k = MonthIndex(t) + 12 * years + months; when that month has no such
   * day, it lands on the first of the month after, which is the end of the
   * last day of month k.
   */
  lemma MonthStepLands(t: Time, years: int, months: int)
    ensures var k := MonthIndex(t) + 12 * years + months;
            var n := DaysInMonth(YearOf(k), MonthOf(k));
            var r := MonthStep(t, years, months, t.day);
            && r.hour == t.hour && r.minute == t.minute && r.second == t.second && r.nanosecond == t.nanosecond
            && (t.day <= n ==> r.year == YearOf(k) && r.month == MonthOf(k) && r.day == t.day)
            && (t.day > n ==> r.year == YearOf(k + 1) && r.month == MonthOf(k + 1) && r.day == 1)
  {
    AddMonths(t, years, months);
    var r := AddDate(t, years, months, 0);
    if r.day != t.day {
      DateOnDay(r, 1);
    }
  }

  /**
   * A period of years and months only expires at midnight: on the day
   * corresponding to the day counting starts from, k months later, or, when
   * month k has no such day, on the first of the month after.
   */
  lemma PeriodEndMonths(d: Duration, from: Time)
    requires !d.negative && d.weeks == 0 && d.days == 0 && !HasTimePart(d)
    requires d.years <= MaxInt64 && d.months <= MaxInt64
    ensures var s := CountStart(d, from);
            var k := MonthIndex(s) + 12 * d.years + d.months;
            var n := DaysInMonth(YearOf(k), MonthOf(k));
            var r := PeriodEnd(d, from);
            && r.Ok? && r.value.IsMidnight()
            && (s.day <= n ==> r.value.year == YearOf(k) && r.value.month == MonthOf(k) && r.value.day == s.day)
            && (s.day > n ==> r.value.year == YearOf(k + 1) && r.value.month == MonthOf(k + 1) && r.value.day == 1)
  {
    var s := CountStart(d, from);
    MonthStepLands(s, d.years, d.months);
    var t := MonthStep(s, d.years, d.months, s.day);
    ClockOffsetZero(d);
    DateOfTime(t);
    assert DaysAndClock(d, t) == t;
  }

  /** The month step by nothing changes nothing. */
  lemma MonthStepZero(t: Time)
    ensures MonthStep(t, 0, 0, t.day) == t
  {
    MonthStepLands(t, 0, 0);
    MonthOfIndex(t);
  }

  /** The last two steps move the point in time by the weeks, the days and the time part. */
  lemma DaysAndClockShifts(d: Duration, t: Time)
    requires 7 * d.weeks + d.days <= MaxInt64
    ensures Instant(DaysAndClock(d, t)) == Instant(t) + (7 * d.weeks + d.days) * NanosPerDay + ClockOffset(d)
  {
    DaysStepShifts(d, t);
    AddNanosInstant(DaysStep(d, t), ClockOffset(d));
  }

  lemma DaysStepShifts(d: Duration, t: Time)
    requires 7 * d.weeks + d.days <= MaxInt64
    ensures Instant(DaysStep(d, t)) == Instant(t) + (7 * d.weeks + d.days) * NanosPerDay
  {
    DayCountExact(d);
    if d.days > 0 || d.weeks > 0 {
      AddDaysInstant(t, 7 * d.weeks + d.days);
    }
  }

  /**
   * Articles 140 and 141 for a period of weeks and days: it expires at the
   * midnight that ends its last day, counting from the day of `from`
   * when it starts at midnight and from the next day otherwise.
   */
  lemma PeriodEndDays(d: Duration, from: Time)
    requires !d.negative && d.years == 0 && d.months == 0 && !HasTimePart(d)
    requires 7 * d.weeks + d.days <= MaxInt64
    ensures var r := PeriodEnd(d, from);
            var first := DayNumber(from.year, from.month, from.day) + (if from.IsMidnight() then 0 else 1);
            r.Ok? && Instant(r.value) == (first + 7 * d.weeks + d.days) * NanosPerDay
  {
    var s := CountStart(d, from);
    assert Int64(0) == 0;
    MonthStepZero(s);
    ClockOffsetZero(d);
    DaysAndClockShifts(d, s);
    assert PeriodEnd(d, from) == Ok(DaysAndClock(d, s));
    assert Instant(s) == DayNumber(s.year, s.month, s.day) * NanosPerDay;
    Distrib(DayNumber(s.year, s.month, s.day), 7 * d.weeks + d.days, NanosPerDay);
  }

  /** Article 139: a period of hours, minutes and seconds counts from the instant itself. */
  lemma PeriodEndClock(d: Duration, from: Time)
    requires !d.negative && d.years == 0 && d.months == 0 && d.weeks == 0 && d.days == 0 && HasTimePart(d)
    ensures PeriodEnd(d, from).Ok?
    ensures Instant(PeriodEnd(d, from).value) == Instant(from) + ClockOffset(d)
  {
    assert Int64(0) == 0;
    MonthStepZero(from);
    DaysAndClockShifts(d, from);
  }

  /** The midnight after a reading that is not itself midnight. */
  lemma NextDayInstant(from: Time, s: Time)
    requires !from.IsMidnight() && s.IsMidnight()
    requires DayNumber(s.year, s.month, s.day) == DayNumber(from.year, from.month, from.day) + 1
    ensures Instant(from) < Instant(s)
  {
  }

  /** A month step forwards never moves the point in time backwards. */
  lemma MonthStepNotBefore(t: Time, years: int, months: int)
    requires years >= 0 && months >= 0
    ensures Instant(t) <= Instant(MonthStep(t, years, months, t.day))
  {
    var k := MonthIndex(t) + 12 * years + months;
    MonthStepLands(t, years, months);
    var r := MonthStep(t, years, months, t.day);
    if k == MonthIndex(t) {
      MonthOfIndex(t);
      assert r == t;
    } else {
      MonthSplit(k);
      MonthSplit(k + 1);
      assert 12 * t.year + t.month < 12 * r.year + r.month;
      DayNumberOrder(t.year, t.month, t.day, r.year, r.month, r.day);
      InstantOrder(t, r);
    }
  }

  lemma NonNegativeDays(n: int)
    requires n >= 0
    ensures n * NanosPerDay >= 0
  {
  }

  /**
   * The period never ends before it starts: for a non-negative duration
   * whose fields fit int64, the end is no earlier than `from`.
   */
  lemma PeriodEndNotBefore(d: Duration, from: Time)
    requires !d.negative && d.years <= MaxInt64 && d.months <= MaxInt64 && 7 * d.weeks + d.days <= MaxInt64
    ensures PeriodEnd(d, from).Ok? && Instant(from) <= Instant(PeriodEnd(d, from).value)
  {
    var s := CountStart(d, from);
    if !HasTimePart(d) && !from.IsMidnight() {
      NextDayInstant(from, s);
    }
    assert Instant(from) <= Instant(s);
    assert Int64(d.years) == d.years && Int64(d.months) == d.months;
    var t := MonthStep(s, d.years, d.months, s.day);
    assert PeriodEnd(d, from) == Ok(DaysAndClock(d, t));
    MonthStepNotBefore(s, d.years, d.months);
    DaysAndClockShifts(d, t);
    NonNegativeDays(7 * d.weeks + d.days);
  }

  /**
   * A period of every kind of field: the month step from the day counting
   * starts on, then the weeks and days as whole days and the time part as
   * rounded nanoseconds, added to the point in time the month step reached.
   */
  lemma PeriodEndMixed(d: Duration, from: Time)
    requires !d.negative && d.years <= MaxInt64 && d.months <= MaxInt64 && 7 * d.weeks + d.days <= MaxInt64
    ensures var s := CountStart(d, from);
            var r := PeriodEnd(d, from);
            && r.Ok?
            && Instant(r.value) == Instant(MonthStep(s, d.years, d.months, s.day)) + (7 * d.weeks + d.days) * NanosPerDay + ClockOffset(d)
  {
    var s := CountStart(d, from);
    assert Int64(d.years) == d.years && Int64(d.months) == d.months;
    DaysAndClockShifts(d, MonthStep(s, d.years, d.months, s.day));
  }

  /**
   * Where counting starts at `from` itself (a time part, or a start at
   * midnight), the source's comparison with the day of `from` is the right
   * one, and the written and the corrected AddJapan agree.
   */
  lemma AsWrittenAgreesFromStart(d: Duration, from: Time)
    requires HasTimePart(d) || from.IsMidnight()
    ensures AddJapanAsWritten(d, from) == PeriodEnd(d, from)
  {
  }

  /** r is a successful answer naming the reading t. */
  predicate EndsAt(r: Result<Time>, t: DateTime) {
    r.Ok? && r.value == t
  }

  /**
   * The anchor-day discrepancy: one day from 10:00 on 15 June 2020. Counting
   * starts at midnight on the 16th; the written code compares that day with
   * the 15th, snaps to 1 June and answers 2 June, before the period began.
   * The corrected end is midnight at the close of the 16th.
   */
  lemma AsWrittenEndsBeforeStart()
    ensures var from: Time := DateTime(2020, 6, 15, 10, 0, 0, 0);
            var d := Zero.(days := 1);
            && EndsAt(AddJapanAsWritten(d, from), DateTime(2020, 6, 2, 0, 0, 0, 0))
            && Instant(AddJapanAsWritten(d, from).value) < Instant(from)
            && EndsAt(PeriodEnd(d, from), DateTime(2020, 6, 17, 0, 0, 0, 0))
  {
    var from: Time := DateTime(2020, 6, 15, 10, 0, 0, 0);
    var d := Zero.(days := 1);
    var s: Time := DateTime(2020, 6, 16, 0, 0, 0, 0);
    var first: Time := DateTime(2020, 6, 1, 0, 0, 0, 0);
    var written: Time := DateTime(2020, 6, 2, 0, 0, 0, 0);
    var corrected: Time := DateTime(2020, 6, 17, 0, 0, 0, 0);
    DateOfTime(s);
    assert CountStart(d, from) == s;
    assert Int64(0) == 0;
    DateOfTime(first);
    assert MonthStep(s, 0, 0, 15) == first;
    MonthStepZero(s);
    ClockOffsetZero(d);
    DayCountExact(d);
    DaysOnly(d, first, written);
    DaysOnly(d, s, corrected);
    InstantOrder(written, from);
  }

  /** The days step of a duration of days only, landing on midnight t. */
  lemma DaysOnly(d: Duration, from: Time, t: Time)
    requires d.days > 0 && d.days <= MaxInt64 && d.weeks == 0 && !HasTimePart(d)
    requires from.IsMidnight() && t == DateTime(from.year, from.month, from.day + d.days, 0, 0, 0, 0)
    ensures DaysAndClock(d, from) == t
  {
    DayCountExact(d);
    ClockOffsetZero(d);
    DateOfTime(t);
    assert DaysStep(d, from) == t;
  }

  /** The same with one month from 10:00 on 15 March 2024: 1 April instead of 16 April. */
  lemma AsWrittenSnapsMonth()
    ensures var from: Time := DateTime(2024, 3, 15, 10, 0, 0, 0);
            var d := Zero.(months := 1);
            && EndsAt(AddJapanAsWritten(d, from), DateTime(2024, 4, 1, 0, 0, 0, 0))
            && EndsAt(PeriodEnd(d, from), DateTime(2024, 4, 16, 0, 0, 0, 0))
  {
    var from: Time := DateTime(2024, 3, 15, 10, 0, 0, 0);
    var d := Zero.(months := 1);
    var s: Time := DateTime(2024, 3, 16, 0, 0, 0, 0);
    var snapped: Time := DateTime(2024, 4, 1, 0, 0, 0, 0);
    var corrected: Time := DateTime(2024, 4, 16, 0, 0, 0, 0);
    DateOfTime(s);
    assert CountStart(d, from) == s;
    assert Int64(0) == 0 && Int64(1) == 1;
    DateOfTime(corrected);
    assert AddDate(s, 0, 1, 0) == corrected;
    DateOfTime(snapped);
    assert MonthStep(s, 0, 1, 15) == snapped;
    assert MonthStep(s, 0, 1, 16) == corrected;
    ClockOffsetZero(d);
    assert DaysStep(d, snapped) == snapped && DaysStep(d, corrected) == corrected;
    assert DaysAndClock(d, snapped) == snapped && DaysAndClock(d, corrected) == corrected;
  }

  /** A row of the source's table for Article 143: one month from 29 January 2024 ends on 29 February. */
  lemma LeapMonthRow()
    ensures EndsAt(PeriodEnd(Zero.(months := 1), DateTime(2024, 1, 29, 0, 0, 0, 0)), DateTime(2024, 2, 29, 0, 0, 0, 0))
  {
    var from: Time := DateTime(2024, 1, 29, 0, 0, 0, 0);
    var d := Zero.(months := 1);
    var feb: Time := DateTime(2024, 2, 29, 0, 0, 0, 0);
    assert CountStart(d, from) == from;
    assert Int64(0) == 0 && Int64(1) == 1;
    DateOfTime(feb);
    assert AddDate(from, 0, 1, 0) == feb;
    assert MonthStep(from, 0, 1, 29) == feb;
    ClockOffsetZero(d);
    assert DaysAndClock(d, feb) == feb;
  }

  /** One month from 31 January 2024: February has no 31st, so the period ends on 1 March. */
  lemma ShortMonthRow()
    ensures EndsAt(PeriodEnd(Zero.(months := 1), DateTime(2024, 1, 31, 0, 0, 0, 0)), DateTime(2024, 3, 1, 0, 0, 0, 0))
  {
    var from: Time := DateTime(2024, 1, 31, 0, 0, 0, 0);
    var d := Zero.(months := 1);
    var march: Time := DateTime(2024, 3, 1, 0, 0, 0, 0);
    assert CountStart(d, from) == from;
    assert Int64(0) == 0 && Int64(1) == 1;
    ShortMonthStep(from);
    DateOfTime(march);
    assert MonthStep(from, 0, 1, 31) == march;
    ClockOffsetZero(d);
    assert DaysAndClock(d, march) == march;
  }

  /** AddDate rolls 31 February 2024 over to 2 March. */
  lemma ShortMonthStep(from: Time)
    requires from == DateTime(2024, 1, 31, 0, 0, 0, 0)
    ensures AddDate(from, 0, 1, 0) == DateTime(2024, 3, 2, 0, 0, 0, 0)
  {
    DateOfClock(2024, 2, 31, 0, 0, 0, 0);
    MonthAt(12 * 2024 + 1, 2024, 2);
    NormDayOnce(2024, 2, 31);
  }

  /** Two months from 31 January 2024 end on 31 March. */
  lemma TwoMonthRow()
    ensures EndsAt(PeriodEnd(Zero.(months := 2), DateTime(2024, 1, 31, 0, 0, 0, 0)), DateTime(2024, 3, 31, 0, 0, 0, 0))
  {
    var from: Time := DateTime(2024, 1, 31, 0, 0, 0, 0);
    var d := Zero.(months := 2);
    var march: Time := DateTime(2024, 3, 31, 0, 0, 0, 0);
    assert CountStart(d, from) == from;
    assert Int64(0) == 0 && Int64(2) == 2;
    DateOfTime(march);
    assert AddDate(from, 0, 2, 0) == march;
    assert MonthStep(from, 0, 2, 31) == march;
    ClockOffsetZero(d);
    assert DaysAndClock(d, march) == march;
  }

  /**
   * The source's row from 01:00 on 30 May 2024 plus one month: counting
   * starts on the 31st, June has no 31st, and both versions end on 1 July.
   */
  lemma PeriodEndLateRow()
    ensures var from: Time := DateTime(2024, 5, 30, 1, 0, 0, 0);
            var d := Zero.(months := 1);
            && EndsAt(PeriodEnd(d, from), DateTime(2024, 7, 1, 0, 0, 0, 0))
            && AddJapanAsWritten(d, from) == PeriodEnd(d, from)
  {
    var from: Time := DateTime(2024, 5, 30, 1, 0, 0, 0);
    var d := Zero.(months := 1);
    var s: Time := DateTime(2024, 5, 31, 0, 0, 0, 0);
    var july: Time := DateTime(2024, 7, 1, 0, 0, 0, 0);
    DateOfTime(s);
    assert CountStart(d, from) == s;
    assert Int64(1) == 1;
    AddMonths(s, 0, 1);
    MonthAt(12 * 2024 + 5, 2024, 6);
    MonthAt(12 * 2024 + 6, 2024, 7);
    assert AddDate(s, 0, 1, 0) == july;
    DateOfTime(july);
    assert MonthStep(s, 0, 1, 30) == july && MonthStep(s, 0, 1, 31) == july;
    ClockOffsetZero(d);
    assert DaysAndClock(d, july) == july;
  }

  /**
   * The source's row for one month and one day from 31 January 2021:
   * February has no 31st, so the month ends on 1 March and the day on 2 March.
   */
  lemma MonthAndDayRow()
    ensures EndsAt(PeriodEnd(Zero.(months := 1, days := 1), DateTime(2021, 1, 31, 0, 0, 0, 0)), DateTime(2021, 3, 2, 0, 0, 0, 0))
  {
    var from: Time := DateTime(2021, 1, 31, 0, 0, 0, 0);
    var d := Zero.(months := 1, days := 1);
    var first: Time := DateTime(2021, 3, 1, 0, 0, 0, 0);
    var second: Time := DateTime(2021, 3, 2, 0, 0, 0, 0);
    assert CountStart(d, from) == from;
    assert Int64(0) == 0 && Int64(1) == 1;
    MonthAndDayStep(from);
    DateOfTime(first);
    assert MonthStep(from, 0, 1, 31) == first;
    DaysOnly(d, first, second);
  }

  /** AddDate rolls 31 February 2021 over to 3 March. */
  lemma MonthAndDayStep(from: Time)
    requires from == DateTime(2021, 1, 31, 0, 0, 0, 0)
    ensures AddDate(from, 0, 1, 0) == DateTime(2021, 3, 3, 0, 0, 0, 0)
  {
    DateOfClock(2021, 2, 31, 0, 0, 0, 0);
    MonthAt(12 * 2021 + 1, 2021, 2);
    NormDayOnce(2021, 2, 31);
  }

  /**
   * The source's row for one month and one hour from 01:00 on 30 May 2024:
   * with a time part counting starts at once, so the period ends at 02:00
   * on 30 June.
   */
  lemma MonthAndHourRow()
    ensures EndsAt(PeriodEnd(Zero.(months := 1, hours := Decimal(1, 0)), DateTime(2024, 5, 30, 1, 0, 0, 0)),
                   DateTime(2024, 6, 30, 2, 0, 0, 0))
  {
    var from: Time := DateTime(2024, 5, 30, 1, 0, 0, 0);
    var d := Zero.(months := 1, hours := Decimal(1, 0));
    var stepped: Time := DateTime(2024, 6, 30, 1, 0, 0, 0);
    var want: Time := DateTime(2024, 6, 30, 2, 0, 0, 0);
    assert CountStart(d, from) == from;
    assert Int64(0) == 0 && Int64(1) == 1;
    DateOfTime(stepped);
    assert AddDate(from, 0, 1, 0) == stepped;
    assert MonthStep(from, 0, 1, 30) == stepped;
    HourOffset(d);
    assert DaysAndClock(d, stepped) == AddNanos(stepped, 3600 * NanosPerSecond);
    HourLater(stepped, want);
  }

  lemma HourOffset(d: Duration)
    requires d == Zero.(months := 1, hours := Decimal(1, 0))
    ensures ClockOffset(d) == 3600 * NanosPerSecond
  {
    ClockOffsetWhole(d);
  }

  /** One hour after 01:00 on 30 June 2024 is 02:00. */
  lemma HourLater(stepped: Time, want: Time)
    requires stepped == DateTime(2024, 6, 30, 1, 0, 0, 0) && want == DateTime(2024, 6, 30, 2, 0, 0, 0)
    ensures AddNanos(stepped, 3600 * NanosPerSecond) == want
  {
    AddNanosInstant(stepped, 3600 * NanosPerSecond);
    InstantInjective(AddNanos(stepped, 3600 * NanosPerSecond), want);
  }

  /**
   * The source's row for one year from 01:00 on 28 February 2020: counting
   * starts on the 29th, 2021 has no 29 February, and both versions end on
   * 1 March 2021.
   */
  lemma LeapYearRow()
    ensures var from: Time := DateTime(2020, 2, 28, 1, 0, 0, 0);
            var d := Zero.(years := 1);
            && EndsAt(PeriodEnd(d, from), DateTime(2021, 3, 1, 0, 0, 0, 0))
            && AddJapanAsWritten(d, from) == PeriodEnd(d, from)
  {
    var from: Time := DateTime(2020, 2, 28, 1, 0, 0, 0);
    var d := Zero.(years := 1);
    var s: Time := DateTime(2020, 2, 29, 0, 0, 0, 0);
    var march: Time := DateTime(2021, 3, 1, 0, 0, 0, 0);
    DateOfTime(s);
    assert CountStart(d, from) == s;
    assert Int64(0) == 0 && Int64(1) == 1;
    LeapYearStep(s);
    DateOfTime(march);
    assert MonthStep(s, 1, 0, 28) == march && MonthStep(s, 1, 0, 29) == march;
    ClockOffsetZero(d);
    assert DaysAndClock(d, march) == march;
  }

  /** AddDate rolls 29 February 2021 over to 1 March. */
  lemma LeapYearStep(s: Time)
    requires s == DateTime(2020, 2, 29, 0, 0, 0, 0)
    ensures AddDate(s, 1, 0, 0) == DateTime(2021, 3, 1, 0, 0, 0, 0)
  {
    DateOfClock(2021, 2, 29, 0, 0, 0, 0);
    MonthAt(12 * 2021 + 1, 2021, 2);
    NormDayOnce(2021, 2, 29);
  }

  /** The source's example for Add: P1Y2M3W4DT5H6M7.8S from 10 October 2025 is 4 January 2027 at 05:06:07.8. */
  lemma AddExample()
    ensures Add(Duration(false, 1, 2, 3, 4, Decimal(5, 0), Decimal(6, 0), Decimal(78, 1)),
                DateTime(2025, 10, 10, 0, 0, 0, 0))
            == DateTime(2027, 1, 4, 5, 6, 7, 800_000_000)
  {
    var d := Duration(false, 1, 2, 3, 4, Decimal(5, 0), Decimal(6, 0), Decimal(78, 1));
    var from: Time := DateTime(2025, 10, 10, 0, 0, 0, 0);
    var want: Time := DateTime(2027, 1, 4, 5, 6, 7, 800_000_000);
    var offset := 18_367_800_000_000;
    ExampleOffset(d);
    AddSigned(d, from);
    var t := AddDate(from, 1, 2, 25);
    assert Add(d, from) == AddNanos(t, offset);
    assert t == Date(2026, 12, 35, 0, 0, 0, 0);
    ExampleStep();
    AddNanosInstant(t, offset);
    ExampleWant(want);
    InstantInjective(AddNanos(t, offset), want);
  }

  /** 5 hours, 6 minutes and 7.8 seconds are 18 367 800 000 000 nanoseconds. */
  lemma ExampleOffset(d: Duration)
    requires d.hours == Decimal(5, 0) && d.minutes == Decimal(6, 0) && d.seconds == Decimal(78, 1)
    ensures ClockOffset(d) == 18_367_800_000_000
  {
    assert Scale(d) == 1 && Pow10(1) == 10;
    assert ClockAt(d, 1) == Clock(50, 60, 78);
    DivModUnique(2 * (183_678 * NanosPerSecond) + 10, 20, 18_367_800_000_000, 10);
  }

  /** Date rolls 35 December 2026 over to the 34th day after 1 December. */
  lemma ExampleStep()
    ensures Instant(Date(2026, 12, 35, 0, 0, 0, 0)) == (DayNumber(2026, 12, 1) + 34) * NanosPerDay
  {
    DateInstant(2026, 12, 35, 0, 0, 0, 0);
    MonthAt(12 * 2026 + 11, 2026, 12);
  }

  /** 4 January 2027 at 05:06:07.8 is 34 days and the offset above after 1 December 2026. */
  lemma ExampleWant(want: Time)
    requires want == DateTime(2027, 1, 4, 5, 6, 7, 800_000_000)
    ensures Instant(want) == (DayNumber(2026, 12, 1) + 34) * NanosPerDay + 18_367_800_000_000
  {
    YearLength(2026);
    assert DayNumber(2027, 1, 4) == DayNumber(2026, 12, 1) + 34;
    assert want.ClockNanos() == 18_367 * NanosPerSecond + 800_000_000;
  }
}
