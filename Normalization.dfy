/**
 * Normalize: carry seconds into minutes, minutes into hours, hours into
 * days and months into years, refusing (with the input unchanged) as soon
 * as a carry would take a field past MaxInt64.
 *
 * The time fields are exact decimals, so the carries are computed on whole
 * numbers of units of 10^-e, where e is the largest scale among the three
 * time fields. The source's float checks compare with float64(MaxInt64),
 * which is 2^63; its two unsigned checks subtract in uint64.
 */
module Normalization {
  import opened Grammar
  import opened Decimals
  import opened Durations

  /** math.MaxInt64 converted to float64: the nearest float is 2^63. */
  const FloatMaxInt64: nat := 0x8000_0000_0000_0000

  /** uint64 subtraction and addition: wrap-around modulo 2^64. */
  function Sub64(a: u64, b: u64): (r: u64)
    ensures a >= b ==> r == a - b
    ensures a < b ==> r == a - b + TwoTo64
  {
    (a - b) % TwoTo64
  }

  function Mul64(a: nat, b: nat): (r: u64)
    ensures a * b < TwoTo64 ==> r == a * b
    ensures r <= a * b
  {
    (a * b) % TwoTo64
  }

  function Add64(a: nat, b: nat): (r: u64)
    ensures a + b < TwoTo64 ==> r == a + b
    ensures r == (a + b) % TwoTo64
  {
    (a + b) % TwoTo64
  }

  /** The finest scale among the time fields. */
  function Scale(d: Duration): (e: nat)
    ensures d.hours.scale <= e && d.minutes.scale <= e && d.seconds.scale <= e
    ensures e == d.hours.scale || e == d.minutes.scale || e == d.seconds.scale
  {
    var a := if d.hours.scale < d.minutes.scale then d.minutes.scale else d.hours.scale;
    if a < d.seconds.scale then d.seconds.scale else a
  }

  /** Truncating division of magnitudes: the number of whole n's in x. */
  function Whole(x: nat, n: nat): (q: nat)
    requires n > 0
    ensures q * n <= x < q * n + n
  {
    DivMod(x, n);
    x / n
  }

  /**
   * One division step of Normalize, on x counted in units u: the number q of
   * whole groups of n (math.Floor(x / n)), the same q counted in units, and
   * what is left (x - q * n).
   */
  function Take(x: nat, n: nat, u: nat): (p: Split)
    requires n > 0 && u > 0
    ensures p.carried * n + p.rest == x && p.rest < n * u && p.carried == Units(p.groups, u)
  {
    var q := Whole(x, n * u);
    Regroup(q, u, n);
    Split(q, Units(q, u), x - q * (n * u))
  }

  /** The outcome of one division step. */
  datatype Split = Split(groups: nat, carried: nat, rest: nat)

  /** q groups counted in units u. */
  function Units(q: nat, u: nat): nat {
    q * u
  }

  lemma MulMono(a: nat, b: nat, u: nat)
    requires a <= b
    ensures a * u <= b * u
  {
  }

  /** Regrouping a product of three factors. */
  lemma Regroup(q: nat, u: nat, n: nat)
    ensures q * u * n == q * (n * u) && q * n * u == q * (n * u)
  {
  }

  predicate Fine(d: Duration, e: nat) {
    d.hours.scale <= e && d.minutes.scale <= e && d.seconds.scale <= e
  }

  /** The time fields after the first two carries, counted in units of 10^-e seconds. */
  datatype Clock = Clock(hours: nat, minutes: nat, seconds: nat)

  /**
   * The seconds and minutes steps of Normalize at scale e: whole minutes out
   * of the seconds, then whole hours out of the minutes, each refused when
   * the receiving field would pass float64(MaxInt64). The hours are not yet
   * carried into days. Nothing is lost, and what is left is below 60.
   */
  function TimeCarry(c: Clock, u: nat): Option<Clock>
    requires u > 0
  {
    var sec := Take(c.seconds, 60, u);
    if FloatMaxInt64 * u - c.minutes < sec.carried then None
    else
      var min := Take(sec.carried + c.minutes, 60, u);
      if FloatMaxInt64 * u - c.hours < min.carried then None
      else Some(Clock(min.carried + c.hours, min.rest, sec.rest))
  }

  /** The time fields of d counted in units of 10^-e seconds. */
  function ClockAt(d: Duration, e: nat): Clock
    requires Fine(d, e)
  {
    Clock(Scaled(d.hours, e), Scaled(d.minutes, e), Scaled(d.seconds, e))
  }

  /**
   * The hours and months steps of Normalize, with the overflow checks
   * evaluated exactly: whole days out of the hours, whole years out of the
   * months, each refused when the receiving field would pass MaxInt64.
   */
  function DateCarry(d: Duration, e: nat, c: Clock): Option<Duration> {
    var hr := Take(c.hours, 24, Pow10(e));
    if MaxInt64 - d.days < hr.groups then None
    else
      var yc := d.months / 12;
      if MaxInt64 - d.years < yc then None
      else
        Some(Duration(false, yc + d.years, d.months - yc * 12, d.weeks, hr.groups + d.days,
                      Canon(hr.rest, e), Canon(c.minutes, e), Canon(c.seconds, e)))
  }

  /** What Normalize computes at scale e: None when it reports overflow. */
  function CarryAt(d: Duration, e: nat): Option<Duration>
    requires Fine(d, e)
  {
    match TimeCarry(ClockAt(d, e), Pow10(e))
    case None => None
    case Some(c) => DateCarry(d, e, c)
  }

  function Carry(d: Duration): Option<Duration> {
    CarryAt(d, Scale(d))
  }

  /**
   * The hours and months steps as the source writes them:
   * `math.MaxInt64 - d.Days`, `math.MaxInt64 - d.Years`, `days * 24` and the
   * two sums are uint64 arithmetic and wrap modulo 2^64.
   */
  function DateCarryAsWritten(d: Duration, e: nat, c: Clock): Option<Duration> {
    var u := Pow10(e);
    var hr := Take(c.hours, 24, u);
    if Sub64(MaxInt64, d.days) < hr.groups then None
    else
      var yc := d.months / 12;
      if Sub64(MaxInt64, d.years) < yc then None
      else
        Some(Duration(false, Add64(yc, d.years), d.months - yc * 12, d.weeks, Add64(hr.groups, d.days),
                      Canon(HoursLeft(c.hours, hr.groups, u), e), Canon(c.minutes, e), Canon(c.seconds, e)))
  }

  /**
   * `hours -= float64(days * 24)` on x hours counted in units u, q of them
   * whole days: the product wraps modulo 2^64 before it is subtracted.
   */
  function HoursLeft(x: nat, q: nat, u: nat): (r: nat)
    requires Units(q, u) * 24 <= x
    ensures q * 24 < TwoTo64 ==> r == x - Units(q, u) * 24
  {
    var whole := Mul64(q, 24);
    MulMono(whole, q * 24, u);
    GroupUnits(q, u, 24);
    x - whole * u
  }

  function CarryAsWrittenAt(d: Duration, e: nat): Option<Duration>
    requires Fine(d, e)
  {
    match TimeCarry(ClockAt(d, e), Pow10(e))
    case None => None
    case Some(c) => DateCarryAsWritten(d, e, c)
  }

  function CarryAsWritten(d: Duration): Option<Duration> {
    CarryAsWrittenAt(d, Scale(d))
  }

  // ---------------------------------------------------------------------
  // The imperative procedure
  // ---------------------------------------------------------------------

  /**
   * Normalize, with the overflow checks evaluated exactly. On overflow the
   * input comes back unchanged with ok false.
   */
  method Normalize(d: Duration) returns (r: Duration, ok: bool)
    ensures (r, ok) == match Carry(d) { case Some(n) => (n, true) case None => (d, false) }
  {
    var e := Scale(d);
    var c;
    c, ok := CarryTime(ClockAt(d, e), Pow10(e));
    if !ok {
      return d, false;
    }
    r, ok := CarryDate(d, e, c);
  }

  /** The seconds and minutes steps of Normalize, on the time fields t counted in units u. */
  method CarryTime(t: Clock, u: nat) returns (c: Clock, ok: bool)
    requires u > 0
    ensures ok == TimeCarry(t, u).Some? && (ok ==> c == TimeCarry(t, u).value)
  {
    var sec := Take(t.seconds, 60, u);
    var minutes := sec.carried;
    if FloatMaxInt64 * u - t.minutes < minutes {
      return Clock(0, 0, 0), false;
    }
    var seconds := sec.rest;
    minutes := minutes + t.minutes;

    var min := Take(minutes, 60, u);
    var hours := min.carried;
    if FloatMaxInt64 * u - t.hours < hours {
      return Clock(0, 0, 0), false;
    }
    minutes := min.rest;
    hours := hours + t.hours;
    return Clock(hours, minutes, seconds), true;
  }

  /** The hours and months steps of Normalize, and the result it builds. */
  method CarryDate(d: Duration, e: nat, c: Clock) returns (r: Duration, ok: bool)
    ensures (r, ok) == match DateCarry(d, e, c) { case Some(n) => (n, true) case None => (d, false) }
  {
    var hr := Take(c.hours, 24, Pow10(e));
    var days := hr.groups;
    if MaxInt64 - d.days < days {
      return d, false;
    }
    var hours := hr.rest;
    days := days + d.days;

    var months := d.months;
    var years := months / 12;
    if MaxInt64 - d.years < years {
      return d, false;
    }
    months := months - years * 12;
    years := years + d.years;

    r := Duration(false, years, months, d.weeks, days, Canon(hours, e), Canon(c.minutes, e), Canon(c.seconds, e));
    ok := true;
  }

  // ---------------------------------------------------------------------
  // What a successful Normalize promises
  // ---------------------------------------------------------------------

  /** The first two carries lose nothing and leave minutes and seconds below 60. */
  lemma TimeCarryFacts(t: Clock, u: nat)
    requires u > 0 && TimeCarry(t, u).Some?
    ensures var c := TimeCarry(t, u).value;
      && c.minutes < 60 * u && c.seconds < 60 * u
      && 3600 * c.hours + 60 * c.minutes + c.seconds == 3600 * t.hours + 60 * t.minutes + t.seconds
      && c.hours <= FloatMaxInt64 * u
  {
    var sec := Take(t.seconds, 60, u);
    var min := Take(sec.carried + t.minutes, 60, u);
    assert TimeCarry(t, u).value == Clock(min.carried + t.hours, min.rest, sec.rest);
  }

  /** Every field is in its canonical range; weeks are untouched and the sign is dropped. */
  lemma NormalizeRanges(d: Duration)
    requires Carry(d).Some?
    ensures var r := Carry(d).value;
      && !r.negative && r.weeks == d.weeks
      && r.months < 12 && LessThan(r.hours, 24) && LessThan(r.minutes, 60) && LessThan(r.seconds, 60)
      && r.years <= MaxInt64 && r.days <= MaxInt64
      && (r.years > d.years <==> d.months >= 12)
  {
    var e := Scale(d);
    var c := TimeCarry(ClockAt(d, e), Pow10(e)).value;
    TimeCarryFacts(ClockAt(d, e), Pow10(e));
    var hr := Take(c.hours, 24, Pow10(e));
    CanonBelow(hr.rest, e, 24);
    CanonBelow(c.minutes, e, 60);
    CanonBelow(c.seconds, e, 60);
  }

  /** A value below n units of 10^-e is, in lowest terms, below n. */
  lemma CanonBelow(m: nat, e: nat, n: nat)
    requires m < n * Pow10(e)
    ensures LessThan(Canon(m, e), n)
  {
    var r := Canon(m, e);
    Pow10Add(r.scale, e - r.scale);
    Shrink(r.mantissa, n, Pow10(r.scale), Pow10(e - r.scale), Pow10(e));
  }

  /** a * p < n * (s * p) gives a < n * s. */
  lemma Shrink(a: nat, n: nat, s: nat, p: nat, t: nat)
    requires p > 0 && t == s * p && a * p < n * t
    ensures a < n * s
  {
    assert n * t == (n * s) * p;
    if a >= n * s {
      MulMono(n * s, a, p);
    }
  }

  /** a < n * s gives a * p < n * (s * p). */
  lemma Grow(a: nat, n: nat, s: nat, p: nat, t: nat)
    requires p > 0 && t == s * p && a < n * s
    ensures a * p < n * t
  {
    assert n * t == (n * s) * p;
    MulStrict(a, n * s, p);
  }

  lemma MulStrict(a: nat, b: nat, p: nat)
    requires a < b && p > 0
    ensures a * p < b * p
  {
  }

  /** The total of the time fields and the days, in units of 10^-e seconds. */
  function TotalAt(d: Duration, e: nat): int
    requires Fine(d, e)
  {
    86400 * Pow10(e) * d.days + ClockTotal(ClockAt(d, e))
  }

  function ClockTotal(c: Clock): int {
    3600 * c.hours + 60 * c.minutes + c.seconds
  }

  /** Nothing is lost: 12 * years + months, and the days and time fields together, keep their totals. */
  lemma NormalizeTotals(d: Duration)
    requires Carry(d).Some?
    ensures var r := Carry(d).value;
      && 12 * r.years + r.months == 12 * d.years + d.months
      && Fine(r, Scale(d)) && TotalAt(r, Scale(d)) == TotalAt(d, Scale(d))
  {
    var e := Scale(d);
    var t := ClockAt(d, e);
    var c := TimeCarry(t, Pow10(e)).value;
    TimeCarryFacts(t, Pow10(e));
    var hr := Take(c.hours, 24, Pow10(e));
    CarryShape(d, e, c, hr);
    TotalsOf(d, e, c, hr, Carry(d).value);
  }

  /** The totals of the duration built from the carries c and hr. */
  lemma TotalsOf(d: Duration, e: nat, c: Clock, hr: Split, r: Duration)
    requires Fine(d, e) && ClockTotal(c) == ClockTotal(ClockAt(d, e))
    requires hr == Take(c.hours, 24, Pow10(e))
    requires r.years == d.months / 12 + d.years && r.months == d.months - d.months / 12 * 12
    requires r.days == hr.groups + d.days
    requires r.hours == Canon(hr.rest, e) && r.minutes == Canon(c.minutes, e) && r.seconds == Canon(c.seconds, e)
    ensures 12 * r.years + r.months == 12 * d.years + d.months
    ensures Fine(r, e) && TotalAt(r, e) == TotalAt(d, e)
  {
    var u := Pow10(e);
    CanonScaledBack(hr.rest, e);
    CanonScaledBack(c.minutes, e);
    CanonScaledBack(c.seconds, e);
    var rc := Clock(hr.rest, c.minutes, c.seconds);
    assert ClockAt(r, e) == rc;
    DaysMove(hr.groups, u, d.days, r.days, c, rc);
  }

  /** Moving q whole days of 24 hours out of the clock into the days keeps the total. */
  lemma DaysMove(q: nat, u: nat, days: nat, n: nat, c: Clock, rc: Clock)
    requires n == q + days
    requires c.hours == Units(q, u) * 24 + rc.hours && rc.minutes == c.minutes && rc.seconds == c.seconds
    ensures 86400 * u * n + ClockTotal(rc) == 86400 * u * days + ClockTotal(c)
  {
    DayHours(q, u, days);
  }

  /** The duration a successful Carry returns, given its time carries c and its days step hr. */
  lemma CarryShape(d: Duration, e: nat, c: Clock, hr: Split)
    requires e == Scale(d) && TimeCarry(ClockAt(d, e), Pow10(e)) == Some(c) && Carry(d).Some?
    requires hr == Take(c.hours, 24, Pow10(e))
    ensures Carry(d).value == Duration(false, d.months / 12 + d.years, d.months - d.months / 12 * 12, d.weeks,
                                       hr.groups + d.days, Canon(hr.rest, e), Canon(c.minutes, e), Canon(c.seconds, e))
  {
  }

  /** Read back at its own scale, a value in lowest terms is the whole number it came from. */
  lemma CanonScaledBack(m: nat, e: nat)
    ensures Canon(m, e).scale <= e && Scaled(Canon(m, e), e) == m
  {
  }

  /** q whole days of 24 hours, counted in units u. */
  lemma DayHours(q: nat, u: nat, days: nat)
    ensures 86400 * u * (q + days) == 86400 * u * days + 3600 * (Units(q, u) * 24)
  {
  }

  /** Normalizing a normalized duration changes nothing. */
  lemma NormalizeIdempotent(d: Duration)
    requires Carry(d).Some?
    ensures Carry(Carry(d).value) == Carry(d)
  {
    var r := Carry(d).value;
    NormalizeRanges(d);
    var e := Scale(r);
    ScaledBelow(r.seconds, e, 60);
    ScaledBelow(r.minutes, e, 60);
    ScaledBelow(r.hours, e, 24);
    var c := Clock(Scaled(r.hours, e), Scaled(r.minutes, e), Scaled(r.seconds, e));
    TimeCarrySmall(c, Pow10(e));
    assert ClockAt(r, e) == c;
    DateCarrySmall(r, e, c);
    CanonScaled(r.seconds, e);
    CanonScaled(r.minutes, e);
    CanonScaled(r.hours, e);
  }

  /** Time fields already below their limits carry nothing. */
  lemma TimeCarrySmall(t: Clock, u: nat)
    requires u > 0 && t.seconds < 60 * u && t.minutes < 60 * u && t.hours < 24 * u
    ensures TimeCarry(t, u) == Some(t)
  {
    TakeSmall(t.seconds, 60, u);
    TakeSmall(t.minutes, 60, u);
    MulMono(60, FloatMaxInt64, u);
  }

  /** Hours below a day and months below a year carry nothing. */
  lemma DateCarrySmall(d: Duration, e: nat, c: Clock)
    requires c.hours < 24 * Pow10(e) && d.months < 12 && d.days <= MaxInt64 && d.years <= MaxInt64
    ensures DateCarry(d, e, c) == Some(Duration(false, d.years, d.months, d.weeks, d.days,
                                               Canon(c.hours, e), Canon(c.minutes, e), Canon(c.seconds, e)))
  {
    TakeSmall(c.hours, 24, Pow10(e));
    var r := DateCarry(d, e, c).value;
    assert r.years == d.years && r.months == d.months && r.days == d.days;
  }

  /** A decimal below n, counted in units of 10^-e, is below n * 10^e. */
  lemma ScaledBelow(x: Dec, e: nat, n: nat)
    requires LessThan(x, n) && x.scale <= e
    ensures Scaled(x, e) < n * Pow10(e)
  {
    Pow10Add(x.scale, e - x.scale);
    Grow(x.mantissa, n, Pow10(x.scale), Pow10(e - x.scale), Pow10(e));
  }

  /** Division is unique: a quotient and remainder that fit are the ones Take finds. */
  lemma TakeExact(x: nat, n: nat, u: nat, q: nat, r: nat)
    requires n > 0 && u > 0 && x == q * (n * u) + r && r < n * u
    ensures Take(x, n, u) == Split(q, Units(q, u), r)
  {
    var p := Whole(x, n * u);
    if p < q {
      MulMono(p + 1, q, n * u);
    } else if p > q {
      MulMono(q + 1, p, n * u);
    }
  }

  /** Less than one group: nothing is carried. */
  lemma TakeSmall(x: nat, n: nat, u: nat)
    requires n > 0 && u > 0 && x < n * u
    ensures Take(x, n, u) == Split(0, 0, x)
  {
    var q := Take(x, n, u).groups;
    if q > 0 {
      MulMono(1, q, n * u);
    }
  }

  // ---------------------------------------------------------------------
  // When Normalize succeeds
  // ---------------------------------------------------------------------

  /** Fields below 2^62 never overflow. */
  lemma NormalizeSucceeds(d: Duration)
    requires d.years < Bound && d.months < Bound && d.days < Bound
    requires LessThan(d.hours, Bound) && LessThan(d.minutes, Bound) && LessThan(d.seconds, Bound)
    ensures Carry(d).Some?
  {
    var e := Scale(d);
    var u := Pow10(e);
    var t := ClockAt(d, e);
    ScaledBelow(d.hours, e, Bound);
    ScaledBelow(d.minutes, e, Bound);
    ScaledBelow(d.seconds, e, Bound);
    TimeCarrySucceeds(t, u);
    TimeCarryFacts(t, u);
    DateCarrySucceeds(d, e, TimeCarry(t, u).value);
    CarryStages(d, e, t);
  }

  lemma TimeCarrySucceeds(t: Clock, u: nat)
    requires u > 0 && t.hours < Bound * u && t.minutes < Bound * u && t.seconds < Bound * u
    ensures TimeCarry(t, u).Some?
  {
    var sec := Take(t.seconds, 60, u);
    var min := Take(sec.carried + t.minutes, 60, u);
    assert FloatMaxInt64 * u == 2 * (Bound * u);
    assert sec.carried <= t.seconds;
    assert min.carried <= sec.carried + t.minutes;
  }

  lemma DateCarrySucceeds(d: Duration, e: nat, c: Clock)
    requires d.years < Bound && d.days < Bound && c.hours <= FloatMaxInt64 * Pow10(e)
    ensures DateCarry(d, e, c).Some?
  {
    var hr := Take(c.hours, 24, Pow10(e));
    DaysFit(hr.groups, Pow10(e), c.hours);
  }

  const Bound: nat := 0x4000_0000_0000_0000

  /** Whole days out of at most 2^63 hours: never more than 2^63 / 24 of them. */
  lemma DaysFit(q: nat, u: nat, x: nat)
    requires u > 0 && Units(q, u) * 24 <= x <= FloatMaxInt64 * u
    ensures q * 24 <= FloatMaxInt64
  {
    if q * 24 > FloatMaxInt64 {
      MulMono(FloatMaxInt64 + 1, q * 24, u);
    }
  }

  /** A duration whose time fields are whole numbers. */
  function WholeTime(negative: bool, years: u64, months: u64, weeks: u64, days: u64, h: nat, m: nat, s: nat): Duration {
    Duration(negative, years, months, weeks, days, Decimal(h, 0), Decimal(m, 0), Decimal(s, 0))
  }

  /**
   * The four checks of Normalize on whole numbers, written with / and %:
   * the seconds carry s / 60 minutes, the minutes m1 / 60 hours, the hours
   * h1 / 24 days and the months mo / 12 years, and no receiving field may
   * pass its bound.
   */
  predicate WholeFits(y: nat, mo: nat, dd: nat, h: nat, mi: nat, s: nat) {
    s / 60 <= FloatMaxInt64 - mi && (mi + s / 60) / 60 <= FloatMaxInt64 - h
    && WholeClock(h, mi, s).hours / 24 <= MaxInt64 - dd && mo / 12 <= MaxInt64 - y
  }

  /** The seconds and minutes carries written with / and %. */
  function WholeClock(h: nat, mi: nat, s: nat): Clock {
    var m1 := mi + s / 60;
    Clock(h + m1 / 60, m1 % 60, s % 60)
  }

  /** The reference: the carries written with / and %, for inputs that fit. */
  function WholeNormal(y: u64, mo: u64, w: u64, dd: u64, h: nat, mi: nat, s: nat): Duration
    requires WholeFits(y, mo, dd, h, mi, s)
  {
    var c := WholeClock(h, mi, s);
    WholeTime(false, y + mo / 12, mo % 12, w, dd + c.hours / 24, c.hours % 24, c.minutes, c.seconds)
  }

  /**
   * Normalize on whole numbers agrees with the reference. The examples of
   * the source's tests are instances of this lemma.
   */
  lemma NormalizeWhole(negative: bool, y: u64, mo: u64, w: u64, dd: u64, h: nat, mi: nat, s: nat)
    requires WholeFits(y, mo, dd, h, mi, s)
    ensures Carry(WholeTime(negative, y, mo, w, dd, h, mi, s)) == Some(WholeNormal(y, mo, w, dd, h, mi, s))
  {
    WholeCarry(WholeTime(negative, y, mo, w, dd, h, mi, s), WholeClock(h, mi, s));
  }

  /** Carry on whole numbers, given the outcome c of the seconds and minutes carries. */
  lemma WholeCarry(d: Duration, c: Clock)
    requires d.hours.scale == 0 && d.minutes.scale == 0 && d.seconds.scale == 0
    requires var t := Clock(d.hours.mantissa, d.minutes.mantissa, d.seconds.mantissa);
             && t.seconds / 60 <= FloatMaxInt64 - t.minutes
             && (t.minutes + t.seconds / 60) / 60 <= FloatMaxInt64 - t.hours
             && c == WholeClock(t.hours, t.minutes, t.seconds)
    requires c.hours / 24 <= MaxInt64 - d.days && d.months / 12 <= MaxInt64 - d.years
    ensures Carry(d) == Some(WholeTime(false, d.years + d.months / 12, d.months % 12, d.weeks,
                                       d.days + c.hours / 24, c.hours % 24, c.minutes, c.seconds))
  {
    var t := Clock(d.hours.mantissa, d.minutes.mantissa, d.seconds.mantissa);
    TimeCarryWhole(t);
    assert TimeCarry(t, 1) == Some(c);
    WholeStages(d, t, c);
    WholeDate(d, c);
  }

  /** The hours and months steps on whole numbers, in lowest terms. */
  lemma WholeDate(d: Duration, c: Clock)
    requires c.hours / 24 <= MaxInt64 - d.days && d.months / 12 <= MaxInt64 - d.years
    ensures DateCarry(d, 0, c) == Some(WholeTime(false, d.years + d.months / 12, d.months % 12, d.weeks,
                                                 d.days + c.hours / 24, c.hours % 24, c.minutes, c.seconds))
  {
    DateCarryWhole(d, c);
    CanonWhole(c.minutes);
    CanonWhole(c.seconds);
  }

  /** Carry and CarryAsWritten on whole numbers, once the time carries gave c. */
  lemma WholeStages(d: Duration, t: Clock, c: Clock)
    requires d.hours.scale == 0 && d.minutes.scale == 0 && d.seconds.scale == 0
    requires t == Clock(d.hours.mantissa, d.minutes.mantissa, d.seconds.mantissa)
    requires TimeCarry(t, 1) == Some(c)
    ensures Carry(d) == DateCarry(d, 0, c)
    ensures CarryAsWritten(d) == DateCarryAsWritten(d, 0, c)
  {
    ClockAtWhole(d);
    CarryStages(d, 0, t);
  }

  lemma CanonWhole(n: nat)
    ensures Canon(n, 0) == Decimal(n, 0)
  {
  }

  /** Normalize on whole numbers reports overflow exactly when one of the four checks fails. */
  lemma NormalizeWholeRefuses(negative: bool, y: u64, mo: u64, w: u64, dd: u64, h: nat, mi: nat, s: nat)
    requires !WholeFits(y, mo, dd, h, mi, s)
    ensures Carry(WholeTime(negative, y, mo, w, dd, h, mi, s)) == None
  {
    var d := WholeTime(negative, y, mo, w, dd, h, mi, s);
    var t := Clock(h, mi, s);
    ClockAtWhole(d);
    CarryStages(d, 0, t);
    var m1 := mi + s / 60;
    if s / 60 <= FloatMaxInt64 - mi && m1 / 60 <= FloatMaxInt64 - h {
      TimeCarryWhole(t);
      DateCarryWholeFails(d, Clock(h + m1 / 60, m1 % 60, s % 60));
    } else {
      TimeCarryWholeFails(t);
    }
  }

  /** Whole-number time fields are counted in units of one. */
  lemma ClockAtWhole(d: Duration)
    requires d.hours.scale == 0 && d.minutes.scale == 0 && d.seconds.scale == 0
    ensures Scale(d) == 0 && Pow10(0) == 1
    ensures ClockAt(d, 0) == Clock(d.hours.mantissa, d.minutes.mantissa, d.seconds.mantissa)
  {
    assert Pow10(0) == 1;
    assert Scaled(d.hours, 0) == d.hours.mantissa;
    assert Scaled(d.minutes, 0) == d.minutes.mantissa;
    assert Scaled(d.seconds, 0) == d.seconds.mantissa;
  }

  /** Carry, one stage at a time. */
  lemma CarryStages(d: Duration, e: nat, t: Clock)
    requires Scale(d) == e && ClockAt(d, e) == t
    ensures Carry(d) == match TimeCarry(t, Pow10(e)) { case None => None case Some(c) => DateCarry(d, e, c) }
    ensures CarryAsWritten(d) == match TimeCarry(t, Pow10(e)) { case None => None case Some(c) => DateCarryAsWritten(d, e, c) }
  {
  }

  /** Take in units of one: quotient and remainder. */
  lemma TakeOne(x: nat, n: nat)
    requires n > 0
    ensures Take(x, n, 1) == Split(x / n, x / n, x % n)
  {
    DivMod(x, n);
    TakeExact(x, n, 1, x / n, x % n);
  }

  lemma TimeCarryWhole(t: Clock)
    requires t.seconds / 60 <= FloatMaxInt64 - t.minutes
    requires (t.minutes + t.seconds / 60) / 60 <= FloatMaxInt64 - t.hours
    ensures var m1 := t.minutes + t.seconds / 60;
            TimeCarry(t, 1) == Some(Clock(t.hours + m1 / 60, m1 % 60, t.seconds % 60))
  {
    var qs, rs := t.seconds / 60, t.seconds % 60;
    var m1 := t.minutes + qs;
    var qm, rm := m1 / 60, m1 % 60;
    TakeOne(t.seconds, 60);
    TakeOne(m1, 60);
    TimeCarryOf(t, 1, Split(qs, qs, rs), Split(qm, qm, rm));
  }

  /** TimeCarry, given the outcomes of its two division steps. */
  lemma TimeCarryOf(t: Clock, u: nat, sec: Split, min: Split)
    requires u > 0 && sec == Take(t.seconds, 60, u) && min == Take(sec.carried + t.minutes, 60, u)
    requires sec.carried <= FloatMaxInt64 * u - t.minutes && min.carried <= FloatMaxInt64 * u - t.hours
    ensures TimeCarry(t, u) == Some(Clock(min.carried + t.hours, min.rest, sec.rest))
  {
  }

  lemma TimeCarryWholeFails(t: Clock)
    requires !(t.seconds / 60 <= FloatMaxInt64 - t.minutes
               && (t.minutes + t.seconds / 60) / 60 <= FloatMaxInt64 - t.hours)
    ensures TimeCarry(t, 1) == None
  {
    var m1 := t.minutes + t.seconds / 60;
    TakeOne(t.seconds, 60);
    TakeOne(m1, 60);
    var sec := Take(t.seconds, 60, 1);
    assert sec.carried == t.seconds / 60;
    if !(FloatMaxInt64 * 1 - t.minutes < sec.carried) {
      var min := Take(sec.carried + t.minutes, 60, 1);
      assert min.carried == m1 / 60;
    }
  }

  lemma DateCarryWhole(d: Duration, c: Clock)
    requires c.hours / 24 <= MaxInt64 - d.days && d.months / 12 <= MaxInt64 - d.years
    ensures DateCarry(d, 0, c) == Some(Duration(false, d.years + d.months / 12, d.months % 12, d.weeks, d.days + c.hours / 24,
                                                Decimal(c.hours % 24, 0), Canon(c.minutes, 0), Canon(c.seconds, 0)))
  {
    assert Pow10(0) == 1;
    TakeOne(c.hours, 24);
    assert Canon(c.hours % 24, 0) == Decimal(c.hours % 24, 0);
  }

  lemma DateCarryWholeFails(d: Duration, c: Clock)
    requires !(c.hours / 24 <= MaxInt64 - d.days && d.months / 12 <= MaxInt64 - d.years)
    ensures DateCarry(d, 0, c) == None
  {
    assert Pow10(0) == 1;
    TakeOne(c.hours, 24);
  }

  /** The overflow limits of the source's tests: one unit more than a field can take is refused. */
  lemma NormalizeLimits()
    ensures Carry(Zero.(years := MaxInt64, months := 12)) == None
    ensures Carry(Zero.(years := MaxInt64, months := 11)).Some?
    ensures Carry(Zero.(days := MaxInt64, hours := Decimal(24, 0))) == None
    ensures Carry(Zero.(days := MaxInt64, hours := Decimal(23, 0))).Some?
    ensures Carry(Zero.(hours := Decimal(FloatMaxInt64, 0), minutes := Decimal(60, 0))) == None
  {
    assert WholeClock(0, 0, 0) == Clock(0, 0, 0);
    assert WholeClock(24, 0, 0) == Clock(24, 0, 0);
    assert WholeClock(23, 0, 0) == Clock(23, 0, 0);
    NormalizeWholeRefuses(false, MaxInt64, 12, 0, 0, 0, 0, 0);
    assert Zero.(years := MaxInt64, months := 12) == WholeTime(false, MaxInt64, 12, 0, 0, 0, 0, 0);
    NormalizeWhole(false, MaxInt64, 11, 0, 0, 0, 0, 0);
    assert Zero.(years := MaxInt64, months := 11) == WholeTime(false, MaxInt64, 11, 0, 0, 0, 0, 0);
    NormalizeWholeRefuses(false, 0, 0, 0, MaxInt64, 24, 0, 0);
    assert Zero.(days := MaxInt64, hours := Decimal(24, 0)) == WholeTime(false, 0, 0, 0, MaxInt64, 24, 0, 0);
    NormalizeWhole(false, 0, 0, 0, MaxInt64, 23, 0, 0);
    assert Zero.(days := MaxInt64, hours := Decimal(23, 0)) == WholeTime(false, 0, 0, 0, MaxInt64, 23, 0, 0);
    NormalizeWholeRefuses(false, 0, 0, 0, 0, FloatMaxInt64, 60, 0);
    assert Zero.(hours := Decimal(FloatMaxInt64, 0), minutes := Decimal(60, 0)) == WholeTime(false, 0, 0, 0, 0, FloatMaxInt64, 60, 0);
  }

  /**
   * The limits of the two time carries: the hours take every minute below
   * a whole hour at float64(MaxInt64), and the minutes every second below a
   * whole minute, but one whole minute more is refused.
   */
  lemma NormalizeClockLimits()
    ensures Carry(Zero.(hours := Decimal(FloatMaxInt64, 0), minutes := Decimal(59, 0))).Some?
    ensures Carry(Zero.(minutes := Decimal(FloatMaxInt64, 0), seconds := Decimal(60, 0))) == None
    ensures Carry(Zero.(minutes := Decimal(FloatMaxInt64, 0), seconds := Decimal(59, 0))).Some?
  {
    assert Carry(Zero.(hours := Decimal(FloatMaxInt64, 0), minutes := Decimal(59, 0))).Some? by {
      assert WholeClock(FloatMaxInt64, 59, 0) == Clock(FloatMaxInt64, 59, 0);
      NormalizeWhole(false, 0, 0, 0, 0, FloatMaxInt64, 59, 0);
      assert Zero.(hours := Decimal(FloatMaxInt64, 0), minutes := Decimal(59, 0)) == WholeTime(false, 0, 0, 0, 0, FloatMaxInt64, 59, 0);
    }
    assert Carry(Zero.(minutes := Decimal(FloatMaxInt64, 0), seconds := Decimal(60, 0))) == None by {
      NormalizeWholeRefuses(false, 0, 0, 0, 0, 0, FloatMaxInt64, 60);
      assert Zero.(minutes := Decimal(FloatMaxInt64, 0), seconds := Decimal(60, 0)) == WholeTime(false, 0, 0, 0, 0, 0, FloatMaxInt64, 60);
    }
    assert WholeClock(0, FloatMaxInt64, 59) == Clock(FloatMaxInt64 / 60, FloatMaxInt64 % 60, 59);
    NormalizeWhole(false, 0, 0, 0, 0, 0, FloatMaxInt64, 59);
    assert Zero.(minutes := Decimal(FloatMaxInt64, 0), seconds := Decimal(59, 0)) == WholeTime(false, 0, 0, 0, 0, 0, FloatMaxInt64, 59);
  }

  // ---------------------------------------------------------------------
  // The uint64 arithmetic of the source
  // ---------------------------------------------------------------------

  /** On valid durations the source's wrap-around arithmetic agrees with the exact checks. */
  lemma AsWrittenAgrees(d: Duration)
    requires IsValid(d)
    ensures CarryAsWritten(d) == Carry(d)
  {
    var e := Scale(d);
    var t := ClockAt(d, e);
    if TimeCarry(t, Pow10(e)).Some? {
      TimeCarryFacts(t, Pow10(e));
      DateAgrees(d, e, TimeCarry(t, Pow10(e)).value);
    }
  }

  lemma DateAgrees(d: Duration, e: nat, c: Clock)
    requires d.days <= MaxInt64 && d.years <= MaxInt64 && c.hours <= FloatMaxInt64 * Pow10(e)
    ensures DateCarryAsWritten(d, e, c) == DateCarry(d, e, c)
  {
    var u := Pow10(e);
    var hr := Take(c.hours, 24, u);
    DaysFit(hr.groups, u, c.hours);
    HoursLeftExact(c.hours, hr.groups, u, hr.rest);
    DateCarryOf(d, e, c, hr, HoursLeft(c.hours, hr.groups, u));
  }

  /** With q * 24 in range, the wrapped product is the exact one. */
  lemma HoursLeftExact(x: nat, q: nat, u: nat, rest: nat)
    requires Units(q, u) * 24 <= x && q * 24 <= FloatMaxInt64 && rest == x - Units(q, u) * 24
    ensures HoursLeft(x, q, u) == rest
  {
  }

  /** Both versions of the hours and months steps, given the days step's outcome; they agree when nothing wraps. */
  lemma DateCarryOf(d: Duration, e: nat, c: Clock, hr: Split, left: nat)
    requires d.days <= MaxInt64 && d.years <= MaxInt64 && hr.groups <= FloatMaxInt64
    requires hr == Take(c.hours, 24, Pow10(e)) && left == hr.rest
    requires left == HoursLeft(c.hours, hr.groups, Pow10(e))
    ensures DateCarryAsWritten(d, e, c) == DateCarry(d, e, c)
  {
    assert Sub64(MaxInt64, d.days) == MaxInt64 - d.days;
    assert Sub64(MaxInt64, d.years) == MaxInt64 - d.years;
    var yc := d.months / 12;
    if hr.groups <= MaxInt64 - d.days && yc <= MaxInt64 - d.years {
      assert Add64(hr.groups, d.days) == hr.groups + d.days;
      assert Add64(yc, d.years) == yc + d.years;
    }
  }

  lemma GroupUnits(q: nat, u: nat, n: nat)
    ensures q * n * u == Units(q, u) * n
  {
  }

  /**
   * Past MaxInt64 the unsigned years check wraps: with more than MaxInt64
   * years, the subtraction comes out near 2^64, the comparison passes and the
   * sum wraps modulo 2^64, where the exact check refuses.
   */
  lemma AsWrittenWrapsYears(negative: bool, y: u64, mo: u64, w: u64)
    requires y > MaxInt64
    ensures Carry(WholeTime(negative, y, mo, w, 0, 0, 0, 0)) == None
    ensures CarryAsWritten(WholeTime(negative, y, mo, w, 0, 0, 0, 0))
            == Some(WholeTime(false, (y + mo / 12) % TwoTo64, mo % 12, w, 0, 0, 0, 0))
  {
    var d := WholeTime(negative, y, mo, w, 0, 0, 0, 0);
    CarryRefusesYears(d);
    assert Sub64(MaxInt64, 0) == MaxInt64;
    assert Sub64(MaxInt64, y) > MaxInt64;
    assert 0 % 60 == 0 && 0 / 24 == 0 && 0 % 24 == 0 && Add64(0, 0) == 0;
    AsWrittenWhole(d, Clock(0, 0, 0), 0, 0);
  }

  /** The same for the days check: more than MaxInt64 days and whole hours wrap. */
  lemma AsWrittenWrapsDays(negative: bool, dd: u64, h: nat)
    requires dd > MaxInt64 && h <= FloatMaxInt64
    ensures Carry(WholeTime(negative, 0, 0, 0, dd, h, 0, 0)) == None
    ensures CarryAsWritten(WholeTime(negative, 0, 0, 0, dd, h, 0, 0))
            == Some(WholeTime(false, 0, 0, 0, (dd + h / 24) % TwoTo64, h % 24, 0, 0))
  {
    var d := WholeTime(negative, 0, 0, 0, dd, h, 0, 0);
    CarryRefusesWholeDays(d);
    assert Sub64(MaxInt64, 0) == MaxInt64;
    assert Sub64(MaxInt64, dd) > MaxInt64;
    assert 0 % 60 == 0 && 0 / 12 == 0 && 0 % 12 == 0 && Add64(0, 0) == 0;
    AsWrittenWhole(d, Clock(h, 0, 0), 0, h);
  }

  /** Refused whenever the years carry passes MaxInt64, whatever the other fields. */
  lemma CarryRefusesYears(d: Duration)
    requires MaxInt64 - d.years < d.months / 12
    ensures Carry(d) == None
  {
  }

  /**
   * Refused whenever the whole days in the carried hours pass MaxInt64 - days,
   * whatever the fractions in the time fields.
   */
  lemma CarryRefusesDays(d: Duration)
    requires var e := Scale(d);
             var t := TimeCarry(ClockAt(d, e), Pow10(e));
             t.Some? && MaxInt64 - d.days < t.value.hours / (24 * Pow10(e))
    ensures Carry(d) == None
  {
    CarryRefuses(d);
  }

  /** The same for hours that are all whole hours. */
  lemma CarryRefusesWholeDays(d: Duration)
    requires d.hours.scale == 0 && d.minutes == ZeroDec && d.seconds == ZeroDec
    requires MaxInt64 - d.days < d.hours.mantissa / 24
    ensures Carry(d) == None
  {
    var t := Clock(d.hours.mantissa, 0, 0);
    ClockAtWhole(d);
    CarryStages(d, 0, t);
    if t.hours <= FloatMaxInt64 {
      TimeCarryWhole(t);
      DateCarryWholeFails(d, t);
    } else {
      TimeCarryWholeFails(t);
    }
  }

  /**
   * Normalize reports overflow exactly when one of its four checks fails:
   * the seconds or the minutes carry, the whole days in the carried hours
   * against MaxInt64 - days, or the whole years in the months against
   * MaxInt64 - years.
   */
  lemma CarryRefuses(d: Duration)
    ensures var e := Scale(d);
            var u := Pow10(e);
            var t := TimeCarry(ClockAt(d, e), u);
            Carry(d) == None <==> t == None || MaxInt64 - d.days < t.value.hours / (24 * u) || MaxInt64 - d.years < d.months / 12
  {
    var e := Scale(d);
    CarryStages(d, e, ClockAt(d, e));
  }

  /** CarryAsWritten on whole numbers whose time carries are m1 minutes and h1 hours. */
  lemma AsWrittenWhole(d: Duration, t: Clock, m1: nat, h1: nat)
    requires d.hours.scale == 0 && d.minutes.scale == 0 && d.seconds.scale == 0
    requires t == Clock(d.hours.mantissa, d.minutes.mantissa, d.seconds.mantissa)
    requires m1 == t.minutes + t.seconds / 60 && h1 == t.hours + m1 / 60
    requires t.seconds / 60 <= FloatMaxInt64 - t.minutes && m1 / 60 <= FloatMaxInt64 - t.hours
    requires h1 / 24 <= Sub64(MaxInt64, d.days) && d.months / 12 <= Sub64(MaxInt64, d.years)
    ensures CarryAsWritten(d)
            == Some(WholeTime(false, Add64(d.months / 12, d.years), d.months % 12, d.weeks, Add64(h1 / 24, d.days),
                              h1 % 24, m1 % 60, t.seconds % 60))
  {
    TimeCarryWhole(t);
    var c := Clock(h1, m1 % 60, t.seconds % 60);
    WholeStages(d, t, c);
    DateAsWrittenWhole(d, c);
    CanonWhole(m1 % 60);
    CanonWhole(t.seconds % 60);
  }

  lemma DateAsWrittenWhole(d: Duration, c: Clock)
    requires c.hours <= FloatMaxInt64
    requires c.hours / 24 <= Sub64(MaxInt64, d.days) && d.months / 12 <= Sub64(MaxInt64, d.years)
    ensures DateCarryAsWritten(d, 0, c)
            == Some(Duration(false, Add64(d.months / 12, d.years), d.months % 12, d.weeks, Add64(c.hours / 24, d.days),
                             Decimal(c.hours % 24, 0), Canon(c.minutes, 0), Canon(c.seconds, 0)))
  {
    assert Pow10(0) == 1;
    TakeOne(c.hours, 24);
    var hr := Take(c.hours, 24, 1);
    assert hr == Split(c.hours / 24, c.hours / 24, c.hours % 24);
    DivMod(c.hours, 24);
    assert hr.groups * 24 < TwoTo64;
    assert HoursLeft(c.hours, hr.groups, 1) == c.hours % 24;
    assert Canon(c.hours % 24, 0) == Decimal(c.hours % 24, 0);
  }
}
