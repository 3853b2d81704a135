/**
 * A proleptic-Gregorian civil date-time, standing in for the parts of Go's
 * `time` package that the duration operators call: `time.Date` (which
 * normalises out-of-range months, days and clock fields), `Time.AddDate`
 * and `Time.Add`. Everything happens in one fixed zone, so a day is always
 * 86400 seconds long.
 */
module Civil {

  const NanosPerSecond: int := 1_000_000_000
  const NanosPerDay: int := 86_400 * NanosPerSecond

  predicate IsLeap(y: int) {
    y % 4 == 0 && (y % 100 != 0 || y % 400 == 0)
  }

  function DaysInMonth(y: int, m: int): (n: int)
    requires 1 <= m <= 12
    ensures 28 <= n <= 31
    ensures n == 29 <==> m == 2 && IsLeap(y)
  {
    if m == 2 then (if IsLeap(y) then 29 else 28)
    else if m == 4 || m == 6 || m == 9 || m == 11 then 30
    else 31
  }

  /** A wall-clock reading; `Time` below is the subset whose fields are in range. */
  datatype DateTime = DateTime(year: int, month: int, day: int,
                               hour: int, minute: int, second: int, nanosecond: int)
  {
    predicate Valid() {
      && 1 <= month <= 12
      && 1 <= day <= DaysInMonth(year, month)
      && 0 <= hour < 24 && 0 <= minute < 60 && 0 <= second < 60
      && 0 <= nanosecond < NanosPerSecond
    }

    /** Nanoseconds since the start of the day. */
    function ClockNanos(): int {
      ((hour * 60 + minute) * 60 + second) * NanosPerSecond + nanosecond
    }

    predicate IsMidnight() {
      hour == 0 && minute == 0 && second == 0 && nanosecond == 0
    }
  }

  type Time = t: DateTime | t.Valid() witness DateTime(1, 1, 1, 0, 0, 0, 0)

  /** The month after (y, m). */
  function NextMonth(y: int, m: int): (int, int)
    requires 1 <= m <= 12
  {
    if m == 12 then (y + 1, 1) else (y, m + 1)
  }

  /** The month before (y, m). */
  function PrevMonth(y: int, m: int): (int, int)
    requires 1 <= m <= 12
  {
    if m == 1 then (y - 1, 12) else (y, m - 1)
  }

  /**
   * Day `d` of month (y, m), for any integer `d`: day 0 is the last day of
   * the previous month, day 32 of January is 1 February, and so on.
   */
  function NormDay(y: int, m: int, d: int): (r: (int, int, int))
    requires 1 <= m <= 12
    ensures 1 <= r.1 <= 12 && 1 <= r.2 <= DaysInMonth(r.0, r.1)
    decreases if d < 1 then 1 - d else 0, d
  {
    if d < 1 then
      var (py, pm) := PrevMonth(y, m);
      NormDay(py, pm, d + DaysInMonth(py, pm))
    else if d > DaysInMonth(y, m) then
      var (ny, nm) := NextMonth(y, m);
      NormDay(ny, nm, d - DaysInMonth(y, m))
    else
      (y, m, d)
  }

  /**
   * Go's `time.Date(year, month, day, hour, minute, second, nanosecond, loc)`:
   * a month outside 1..12 carries into the year, clock fields out of range
   * carry into the day (floor division), and the day rolls through the
   * month lengths.
   */
  function Date(year: int, month: int, day: int, hour: int, minute: int, second: int, nanosecond: int): (t: Time)
  {
    var k := 12 * year + (month - 1);
    var clock := ((hour * 60 + minute) * 60 + second) * NanosPerSecond + nanosecond;
    var c := clock % NanosPerDay;
    var secs := c / NanosPerSecond;
    var mins := secs / 60;
    var r := NormDay(k / 12, k % 12 + 1, day + clock / NanosPerDay);
    DateTime(r.0, r.1, r.2, mins / 60, mins % 60, secs % 60, c % NanosPerSecond)
  }

  /** Go's `t.AddDate(years, months, days)`. */
  function AddDate(t: Time, years: int, months: int, days: int): Time {
    Date(t.year + years, t.month + months, t.day + days, t.hour, t.minute, t.second, t.nanosecond)
  }

  /** Go's `t.Add(n)` for a duration of `n` nanoseconds. */
  function AddNanos(t: Time, n: int): Time {
    Date(t.year, t.month, t.day, t.hour, t.minute, t.second, t.nanosecond + n)
  }

  // ---------------------------------------------------------------------
  // Day numbers: a reference count of days, used to state what Date does.
  // ---------------------------------------------------------------------

  /** Days from 1 January of year 0 to 1 January of year y (negative for y < 0). */
  function DaysBeforeYear(y: int): int {
    365 * y + (y + 3) / 4 - (y + 99) / 100 + (y + 399) / 400
  }

  /** Days from 1 January to the first of month m in year y. */
  function DaysBeforeMonth(y: int, m: int): int
    requires 1 <= m <= 12
  {
    var before := [0, 31, 59, 90, 120, 151, 181, 212, 243, 273, 304, 334][m - 1];
    if m > 2 && IsLeap(y) then before + 1 else before
  }

  function DayNumber(y: int, m: int, d: int): int
    requires 1 <= m <= 12
  {
    DaysBeforeYear(y) + DaysBeforeMonth(y, m) + d - 1
  }

  /** Nanoseconds since 0000-01-01T00:00:00: the point in time `t` names. */
  function Instant(t: Time): int {
    DayNumber(t.year, t.month, t.day) * NanosPerDay + t.ClockNanos()
  }

  /** Quotient and remainder are unique. */
  lemma DivModUnique(x: int, n: int, q: int, r: int)
    requires n > 0 && x == q * n + r && 0 <= r < n
    ensures x / n == q && x % n == r
  {
    var q', r' := x / n, x % n;
    assert (q - q') * n == r' - r;
    if q' < q {
      MulAtLeast(q - q', n);
    } else if q' > q {
      MulAtLeast(q' - q, n);
    }
  }

  lemma MulAtLeast(a: int, n: int)
    requires a >= 1 && n > 0
    ensures a * n >= n
  {
  }

  lemma Distrib(a: int, b: int, n: int)
    ensures (a + b) * n == a * n + b * n
  {
  }

  /** The k-th month since January of year 0 is month MonthOf(k) of year YearOf(k). */
  lemma MonthSplit(k: int)
    ensures k == 12 * YearOf(k) + MonthOf(k) - 1
  {
  }

  lemma YearLength(y: int)
    ensures DaysBeforeYear(y + 1) == DaysBeforeYear(y) + 365 + (if IsLeap(y) then 1 else 0)
  {
    assert (y + 4) / 4 == (y + 3) / 4 + (if y % 4 == 0 then 1 else 0);
    assert (y + 100) / 100 == (y + 99) / 100 + (if y % 100 == 0 then 1 else 0);
    assert (y + 400) / 400 == (y + 399) / 400 + (if y % 400 == 0 then 1 else 0);
  }

  /** The first of the next month comes DaysInMonth days after the first of this one. */
  lemma MonthLength(y: int, m: int)
    requires 1 <= m <= 12
    ensures var (ny, nm) := NextMonth(y, m);
            DayNumber(ny, nm, 1) == DayNumber(y, m, 1) + DaysInMonth(y, m)
  {
    if m == 12 {
      YearLength(y);
    }
  }

  lemma {:induction false} NormDayNumber(y: int, m: int, d: int)
    requires 1 <= m <= 12
    ensures var r := NormDay(y, m, d);
            DayNumber(r.0, r.1, r.2) == DayNumber(y, m, 1) + d - 1
    decreases if d < 1 then 1 - d else 0, d
  {
    if d < 1 {
      var (py, pm) := PrevMonth(y, m);
      NormDayNumber(py, pm, d + DaysInMonth(py, pm));
      MonthLength(py, pm);
    } else if d > DaysInMonth(y, m) {
      var (ny, nm) := NextMonth(y, m);
      NormDayNumber(ny, nm, d - DaysInMonth(y, m));
      MonthLength(y, m);
    }
  }

  /** The clock fields Date produces give back the clock offset it reduced. */
  lemma DateClock(year: int, month: int, day: int, hour: int, minute: int, second: int, nanosecond: int)
    ensures var clock := ((hour * 60 + minute) * 60 + second) * NanosPerSecond + nanosecond;
            Date(year, month, day, hour, minute, second, nanosecond).ClockNanos() == clock % NanosPerDay
  {
    var clock := ((hour * 60 + minute) * 60 + second) * NanosPerSecond + nanosecond;
    var c := clock % NanosPerDay;
    var secs := c / NanosPerSecond;
    var mins := secs / 60;
    assert c == secs * NanosPerSecond + c % NanosPerSecond;
    assert secs == mins * 60 + secs % 60;
    assert mins == (mins / 60) * 60 + mins % 60;
  }

  /** Where Date lands: the first of the (normalised) month, plus day - 1 days, plus the clock offset. */
  lemma DateInstant(year: int, month: int, day: int, hour: int, minute: int, second: int, nanosecond: int)
    ensures var k := 12 * year + (month - 1);
            var clock := ((hour * 60 + minute) * 60 + second) * NanosPerSecond + nanosecond;
            Instant(Date(year, month, day, hour, minute, second, nanosecond))
              == (FirstDay(k) + day - 1) * NanosPerDay + clock
  {
    var k := 12 * year + (month - 1);
    var clock := ((hour * 60 + minute) * 60 + second) * NanosPerSecond + nanosecond;
    var q, c := clock / NanosPerDay, clock % NanosPerDay;
    var t := Date(year, month, day, hour, minute, second, nanosecond);
    DateClock(year, month, day, hour, minute, second, nanosecond);
    assert (t.year, t.month, t.day) == NormDay(YearOf(k), MonthOf(k), day + q);
    NormDayNumber(YearOf(k), MonthOf(k), day + q);
    assert clock == q * NanosPerDay + c;
    Distrib(FirstDay(k) + day - 1, q, NanosPerDay);
  }

  /** Date with its clock fields in range normalises only the year, the month and the day. */
  lemma DateOfClock(year: int, month: int, day: int, hour: int, minute: int, second: int, nanosecond: int)
    requires 0 <= hour < 24 && 0 <= minute < 60 && 0 <= second < 60 && 0 <= nanosecond < NanosPerSecond
    ensures var k := 12 * year + (month - 1);
            var r := NormDay(YearOf(k), MonthOf(k), day);
            Date(year, month, day, hour, minute, second, nanosecond) == DateTime(r.0, r.1, r.2, hour, minute, second, nanosecond)
  {
    var secs := (hour * 60 + minute) * 60 + second;
    var clock := secs * NanosPerSecond + nanosecond;
    assert 0 <= clock < NanosPerDay;
    DivModUnique(clock, NanosPerDay, 0, clock);
    DivModUnique(clock, NanosPerSecond, secs, nanosecond);
    DivModUnique(secs, 60, hour * 60 + minute, second);
    DivModUnique(hour * 60 + minute, 60, hour, minute);
  }

  /** Date leaves a reading that is already in range as it is. */
  lemma DateOfTime(t: Time)
    ensures Date(t.year, t.month, t.day, t.hour, t.minute, t.second, t.nanosecond) == t
  {
    DateOfClock(t.year, t.month, t.day, t.hour, t.minute, t.second, t.nanosecond);
    MonthOfIndex(t);
  }

  /** `t.Add(n)` moves the point in time by exactly n nanoseconds. */
  lemma AddNanosInstant(t: Time, n: int)
    ensures Instant(AddNanos(t, n)) == Instant(t) + n
  {
    DateInstant(t.year, t.month, t.day, t.hour, t.minute, t.second, t.nanosecond + n);
    MonthOfIndex(t);
  }

  /** `t.AddDate(0, 0, n)` moves the point in time by exactly n days. */
  lemma AddDaysInstant(t: Time, n: int)
    ensures Instant(AddDate(t, 0, 0, n)) == Instant(t) + n * NanosPerDay
  {
    DateInstant(t.year, t.month, t.day + n, t.hour, t.minute, t.second, t.nanosecond);
    MonthOfIndex(t);
    Distrib(FirstDay(MonthIndex(t)) + t.day - 1, n, NanosPerDay);
  }

  /** The day number of the first of the k-th month since January of year 0. */
  function FirstDay(k: int): int {
    DayNumber(YearOf(k), MonthOf(k), 1)
  }

  /** Later months start later: at least 28 days per month in between. */
  lemma {:induction false} MonthStartOrder(y1: int, m1: int, y2: int, m2: int)
    requires 1 <= m1 <= 12 && 1 <= m2 <= 12 && 12 * y1 + m1 <= 12 * y2 + m2
    ensures DayNumber(y1, m1, 1) + 28 * ((12 * y2 + m2) - (12 * y1 + m1)) <= DayNumber(y2, m2, 1)
    decreases (12 * y2 + m2) - (12 * y1 + m1)
  {
    if 12 * y1 + m1 < 12 * y2 + m2 {
      var (ny, nm) := NextMonth(y1, m1);
      assert 12 * ny + nm == 12 * y1 + m1 + 1;
      MonthLength(y1, m1);
      MonthStartOrder(ny, nm, y2, m2);
    }
  }

  /** Valid dates in an earlier month have smaller day numbers. */
  lemma DayNumberOrder(y1: int, m1: int, d1: int, y2: int, m2: int, d2: int)
    requires 1 <= m1 <= 12 && 1 <= d1 <= DaysInMonth(y1, m1)
    requires 1 <= m2 <= 12 && 1 <= d2 <= DaysInMonth(y2, m2)
    ensures 12 * y1 + m1 < 12 * y2 + m2 ==> DayNumber(y1, m1, d1) < DayNumber(y2, m2, d2)
  {
    if 12 * y1 + m1 < 12 * y2 + m2 {
      var (ny, nm) := NextMonth(y1, m1);
      assert 12 * ny + nm == 12 * y1 + m1 + 1;
      MonthLength(y1, m1);
      MonthStartOrder(ny, nm, y2, m2);
    }
  }

  /** Distinct valid dates have distinct day numbers. */
  lemma DayNumberInjective(y1: int, m1: int, d1: int, y2: int, m2: int, d2: int)
    requires 1 <= m1 <= 12 && 1 <= d1 <= DaysInMonth(y1, m1)
    requires 1 <= m2 <= 12 && 1 <= d2 <= DaysInMonth(y2, m2)
    requires DayNumber(y1, m1, d1) == DayNumber(y2, m2, d2)
    ensures y1 == y2 && m1 == m2 && d1 == d2
  {
    DayNumberOrder(y1, m1, d1, y2, m2, d2);
    DayNumberOrder(y2, m2, d2, y1, m1, d1);
    assert 12 * y1 + m1 == 12 * y2 + m2;
  }

  /** A reading's clock offset is less than one day. */
  lemma ClockBound(t: Time)
    ensures 0 <= t.ClockNanos() < NanosPerDay
  {
    var secs := (t.hour * 60 + t.minute) * 60 + t.second;
    assert 0 <= secs <= 86_399;
    MulAtMost(secs, 86_399, NanosPerSecond);
  }

  lemma MulAtMost(a: int, b: int, n: int)
    requires 0 <= a <= b && n >= 0
    ensures 0 <= a * n <= b * n
  {
  }

  /** Instant orders readings by day first: an earlier day is an earlier point in time. */
  lemma InstantOrder(a: Time, b: Time)
    requires DayNumber(a.year, a.month, a.day) < DayNumber(b.year, b.month, b.day)
    ensures Instant(a) < Instant(b)
  {
    var da, db := DayNumber(a.year, a.month, a.day), DayNumber(b.year, b.month, b.day);
    ClockBound(a);
    ClockBound(b);
    MulAtLeast(db - da, NanosPerDay);
    Distrib(da, db - da, NanosPerDay);
  }

  /** Instant is a faithful encoding: two readings naming the same point in time are equal. */
  lemma InstantInjective(a: Time, b: Time)
    requires Instant(a) == Instant(b)
    ensures a == b
  {
    var da, db := DayNumber(a.year, a.month, a.day), DayNumber(b.year, b.month, b.day);
    var i := Instant(a);
    DivModUnique(i, NanosPerDay, da, a.ClockNanos());
    DivModUnique(i, NanosPerDay, db, b.ClockNanos());
    DayNumberInjective(a.year, a.month, a.day, b.year, b.month, b.day);
    ClockFieldsUnique(a, b);
  }

  lemma ClockFieldsUnique(a: Time, b: Time)
    requires a.ClockNanos() == b.ClockNanos()
    ensures a.hour == b.hour && a.minute == b.minute && a.second == b.second && a.nanosecond == b.nanosecond
  {
    var sa := (a.hour * 60 + a.minute) * 60 + a.second;
    var sb := (b.hour * 60 + b.minute) * 60 + b.second;
    DivModUnique(a.ClockNanos(), NanosPerSecond, sa, a.nanosecond);
    DivModUnique(a.ClockNanos(), NanosPerSecond, sb, b.nanosecond);
    DivModUnique(sa, 60, a.hour * 60 + a.minute, a.second);
    DivModUnique(sa, 60, b.hour * 60 + b.minute, b.second);
    DivModUnique(a.hour * 60 + a.minute, 60, a.hour, a.minute);
    DivModUnique(a.hour * 60 + a.minute, 60, b.hour, b.minute);
  }

  // ---------------------------------------------------------------------
  // Month arithmetic: what AddDate does with a number of months.
  // ---------------------------------------------------------------------

  /** Months since January of year 0. */
  function MonthIndex(t: DateTime): int {
    12 * t.year + t.month - 1
  }

  /** The year and the month of the k-th month since January of year 0. */
  function YearOf(k: int): int {
    k / 12
  }

  function MonthOf(k: int): (m: int)
    ensures 1 <= m <= 12
  {
    k % 12 + 1
  }

  lemma MonthOfIndex(t: Time)
    ensures YearOf(MonthIndex(t)) == t.year && MonthOf(MonthIndex(t)) == t.month
  {
    DivModUnique(MonthIndex(t), 12, t.year, t.month - 1);
  }

  lemma MonthAt(k: int, y: int, m: int)
    requires 1 <= m <= 12 && k == 12 * y + m - 1
    ensures YearOf(k) == y && MonthOf(k) == m
  {
    DivModUnique(k, 12, y, m - 1);
  }

  lemma NextMonthOf(k: int)
    ensures NextMonth(YearOf(k), MonthOf(k)) == (YearOf(k + 1), MonthOf(k + 1))
  {
    MonthSplit(k);
    if MonthOf(k) == 12 {
      DivModUnique(k + 1, 12, YearOf(k) + 1, 0);
    } else {
      DivModUnique(k + 1, 12, YearOf(k), MonthOf(k));
    }
  }

  /**
   * `t.AddDate(years, months, 0)` lands in month k = MonthIndex(t) + 12 * years
   * + months on the same day and at the same clock when that month has the
   * day; otherwise the missing days roll over into month k + 1.
   */
  lemma AddMonths(t: Time, years: int, months: int)
    ensures var k := MonthIndex(t) + 12 * years + months;
            var r := AddDate(t, years, months, 0);
            var n := DaysInMonth(YearOf(k), MonthOf(k));
            && r.hour == t.hour && r.minute == t.minute && r.second == t.second && r.nanosecond == t.nanosecond
            && (t.day <= n ==> r.year == YearOf(k) && r.month == MonthOf(k) && r.day == t.day)
            && (t.day > n ==> r.year == YearOf(k + 1) && r.month == MonthOf(k + 1) && r.day == t.day - n)
  {
    var k := MonthIndex(t) + 12 * years + months;
    assert 12 * (t.year + years) + (t.month + months - 1) == k;
    DateOfClock(t.year + years, t.month + months, t.day, t.hour, t.minute, t.second, t.nanosecond);
    NormDayOnce(YearOf(k), MonthOf(k), t.day);
    NextMonthOf(k);
  }

  /** A day of the month up to 31 rolls over at most once. */
  lemma NormDayOnce(y: int, m: int, d: int)
    requires 1 <= m <= 12 && 1 <= d <= 31
    ensures var n := DaysInMonth(y, m);
            && (d <= n ==> NormDay(y, m, d) == (y, m, d))
            && (d > n ==> NormDay(y, m, d) == (NextMonth(y, m).0, NextMonth(y, m).1, d - n))
  {
    var n := DaysInMonth(y, m);
    if d > n {
      var (ny, nm) := NextMonth(y, m);
      assert NormDay(ny, nm, d - n) == (ny, nm, d - n);
    }
  }

  /** The same reading on another day of its month. */
  lemma DateOnDay(t: Time, day: int)
    requires 1 <= day <= DaysInMonth(t.year, t.month)
    ensures Date(t.year, t.month, day, t.hour, t.minute, t.second, t.nanosecond) == t.(day := day)
  {
    DateOfClock(t.year, t.month, day, t.hour, t.minute, t.second, t.nanosecond);
    MonthOfIndex(t);
  }

  /** Midnight of the day after t. */
  lemma NextMidnight(t: Time)
    ensures var s := Date(t.year, t.month, t.day + 1, 0, 0, 0, 0);
            s.IsMidnight() && DayNumber(s.year, s.month, s.day) == DayNumber(t.year, t.month, t.day) + 1
  {
    DateOfClock(t.year, t.month, t.day + 1, 0, 0, 0, 0);
    MonthOfIndex(t);
    NormDayNumber(t.year, t.month, t.day + 1);
  }
}
