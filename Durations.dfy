/**
 * The Duration value of the ISO 8601 designator format PnYnMnWnDTnHnMnS
 * (section 4.4.3.2 of ISO 8601:2004), its error values and its predicates.
 */
module Durations {
  import opened Decimals

  const MaxInt64: int := 0x7FFF_FFFF_FFFF_FFFF
  const TwoTo64: int := 0x1_0000_0000_0000_0000

  /** Go's uint64. */
  type u64 = x: int | 0 <= x < TwoTo64

  /** Go's conversion `int(x)` of an integer (wrap-around to a signed 64-bit value). */
  function Int64(x: int): (r: int)
    ensures -MaxInt64 - 1 <= r <= MaxInt64
    ensures (r - x) % TwoTo64 == 0
    ensures -MaxInt64 - 1 <= x <= MaxInt64 ==> r == x
  {
    (x + MaxInt64 + 1) % TwoTo64 - (MaxInt64 + 1)
  }

  /**
   * The date fields are Go's uint64. The time fields are float64 in the
   * source; here they hold exact non-negative decimal values.
   */
  datatype Duration = Duration(negative: bool, years: u64, months: u64, weeks: u64, days: u64,
                               hours: Dec, minutes: Dec, seconds: Dec)

  const Zero: Duration := Duration(false, 0, 0, 0, 0, ZeroDec, ZeroDec, ZeroDec)

  datatype Error =
    | BadFormat            // the text does not have the designator format
    | RangeError           // a numeral does not fit the field (strconv's ErrRange)
    | UnsupportedNegative  // AddJapan was given a negative duration

  datatype Result<T> = Ok(value: T) | Err(error: Error) {
    predicate IsFailure() { Err? }
    function PropagateFailure<U>(): Result<U> requires Err? { Err(error) }
    function Extract(): T requires Ok? { value }
  }

  /** Every magnitude is zero; the sign is ignored. */
  predicate IsZero(d: Duration) {
    d.years == 0 && d.months == 0 && d.weeks == 0 && d.days == 0
    && d.hours == ZeroDec && d.minutes == ZeroDec && d.seconds == ZeroDec
  }

  /**
   * No date field exceeds MaxInt64. The source's remaining conjuncts (time
   * fields finite and non-negative) hold of every `Dec`.
   */
  predicate IsValid(d: Duration) {
    d.years <= MaxInt64 && d.months <= MaxInt64 && d.weeks <= MaxInt64 && d.days <= MaxInt64
  }

  /**
   * As the source writes it: the first disjunct compares an unsigned value
   * with `>= 0`, so the predicate holds of every duration.
   */
  function HasDatePart(d: Duration): (r: bool)
    ensures r
  {
    d.years >= 0 || d.months > 0 || d.weeks > 0 || d.days > 0
  }

  /** What HasDatePart evidently means: some date component is non-zero. */
  function HasNonZeroDatePart(d: Duration): (r: bool)
    ensures r <==> !IsZero(d.(hours := ZeroDec, minutes := ZeroDec, seconds := ZeroDec))
  {
    d.years > 0 || d.months > 0 || d.weeks > 0 || d.days > 0
  }

  predicate HasTimePart(d: Duration) {
    d.hours.mantissa > 0 || d.minutes.mantissa > 0 || d.seconds.mantissa > 0
  }

  /** The zero duration, whatever its sign, is the one with neither a date part nor a time part. */
  lemma ZeroIffNoParts(d: Duration)
    ensures IsZero(d) <==> !HasNonZeroDatePart(d) && !HasTimePart(d)
    ensures HasDatePart(Zero) && !HasNonZeroDatePart(Zero)
  {
  }
}
