/**
 * ParseString and the text unmarshaller: match the whole text against the
 * duration grammar, then read each capture group in order, stopping at
 * the first numeral that does not fit its field.
 */
module Parser {
  import opened Grammar
  import opened Decimals
  import opened Durations

  /**
   * 2^1024 - 2^970, halfway between the largest float64 and 2^1024: the
   * smallest value strconv.ParseFloat rounds to +Inf, reporting ErrRange.
   */
  const FloatOverflow: nat := 0xFFFFFFFFFFFFFC00_0000000000000000_0000000000000000_0000000000000000_0000000000000000_0000000000000000_0000000000000000_0000000000000000_0000000000000000_0000000000000000_0000000000000000_0000000000000000_0000000000000000_0000000000000000_0000000000000000_0000000000000000

  /** strconv.ParseUint(part, 10, 64) of a digit string. */
  function ParseUint(part: string): (r: Result<u64>)
    requires IsInteger(part)
    ensures r.Ok? <==> DigitsValue(part) < TwoTo64
    ensures r.Ok? ==> r.value == DigitsValue(part)
    ensures r.Err? ==> r.error == RangeError
  {
    var v := DigitsValue(part);
    if v < TwoTo64 then Ok(v) else Err(RangeError)
  }

  /** parseFloat: ',' becomes '.', then strconv.ParseFloat(_, 64) of the numeral. */
  function ParseFloat(part: string): (r: Result<Dec>)
    requires IsFractional(part)
  {
    var t := ReplaceCommas(part);
    assert IsFractional(t) by { ReadReplace(part); }
    var x := Read(t);
    if LessThan(x, FloatOverflow) then Ok(x) else Err(RangeError)
  }

  /** A date capture: absent means zero. */
  function DateValue(part: string): Result<u64>
    requires OptNumeral(part, false)
  {
    if part == "" then Ok(0) else ParseUint(part)
  }

  /** A time capture: absent means zero. */
  function TimeValue(part: string): Result<Dec>
    requires OptNumeral(part, true)
  {
    if part == "" then Ok(ZeroDec) else ParseFloat(part)
  }

  /** The sign and the date groups of a match, or the error of the first that does not fit. */
  function DateFields(m: Match): Result<Duration>
    requires WellFormed(m)
  {
    var years :- DateValue(m.year);
    var months :- DateValue(m.month);
    var weeks :- DateValue(m.week);
    var days :- DateValue(m.day);
    Ok(Zero.(negative := m.negative, years := years, months := months, weeks := weeks, days := days))
  }

  /** The duration a match denotes, or the error of its first numeral that does not fit. */
  function FromMatch(m: Match): (r: Result<Duration>)
    requires WellFormed(m)
    ensures r.Err? ==> r.error == RangeError
    ensures r.Ok? ==> r.value.negative == m.negative
  {
    var d :- DateFields(m);
    var hours :- TimeValue(m.hour);
    var minutes :- TimeValue(m.minute);
    var seconds :- TimeValue(m.second);
    Ok(d.(hours := hours, minutes := minutes, seconds := seconds))
  }

  /** What ParseString computes. */
  function Parse(s: string): Result<Duration> {
    match Recognise(s)
    case None => Err(BadFormat)
    case Some(m) => FromMatch(m)
  }

  // ---------------------------------------------------------------------
  // The imperative parser
  // ---------------------------------------------------------------------

  /** The pattern's SubexpNames: the whole match, then the named groups in order. */
  const SubexpNames: seq<string> := ["", "negative", "year", "month", "week", "day", "hour", "minute", "second"]

  /** FindStringSubmatch: the whole text, then each group's capture ("" when it did not take part). */
  function Groups(s: string, m: Match): (g: seq<string>)
    ensures |g| == |SubexpNames|
  {
    [s, if m.negative then "-" else "", m.year, m.month, m.week, m.day, m.hour, m.minute, m.second]
  }

  predicate IsDateName(name: string) {
    name == "year" || name == "month" || name == "week" || name == "day"
  }

  predicate IsTimeName(name: string) {
    name == "hour" || name == "minute" || name == "second"
  }

  /** Every capture that took part is a numeral of the kind its group reads. */
  predicate GroupsFit(groups: seq<string>) {
    && |groups| == |SubexpNames|
    && forall i :: 0 <= i < |groups| && groups[i] != "" ==>
         (IsDateName(SubexpNames[i]) ==> IsInteger(groups[i])) && (IsTimeName(SubexpNames[i]) ==> IsFractional(groups[i]))
  }

  /** One case of ParseString's switch: the field the group names takes the capture's value. */
  function Assign(name: string, part: string, d: Duration): Result<Duration>
    requires IsDateName(name) ==> IsInteger(part)
    requires IsTimeName(name) ==> IsFractional(part)
  {
    match name
    case "negative" => Ok(d.(negative := part == "-"))
    case "year" => var v :- ParseUint(part); Ok(d.(years := v))
    case "month" => var v :- ParseUint(part); Ok(d.(months := v))
    case "week" => var v :- ParseUint(part); Ok(d.(weeks := v))
    case "day" => var v :- ParseUint(part); Ok(d.(days := v))
    case "hour" => var v :- ParseFloat(part); Ok(d.(hours := v))
    case "minute" => var v :- ParseFloat(part); Ok(d.(minutes := v))
    case "second" => var v :- ParseFloat(part); Ok(d.(seconds := v))
    case _ => Ok(d)
  }

  /** The outcome of running the loop from group i with the duration built so far. */
  function RunFrom(groups: seq<string>, i: nat, d: Duration): Result<Duration>
    requires GroupsFit(groups) && i <= |groups|
    decreases |groups| - i
  {
    if i == |groups| then Ok(d)
    else if i == 0 || SubexpNames[i] == "" || groups[i] == "" then RunFrom(groups, i + 1, d)
    else
      var d' :- Assign(SubexpNames[i], groups[i], d);
      RunFrom(groups, i + 1, d')
  }

  lemma GroupsOfMatch(s: string, m: Match)
    requires WellFormed(m)
    ensures GroupsFit(Groups(s, m))
  {
    var g := Groups(s, m);
    forall i | 0 <= i < |g| && g[i] != ""
      ensures IsDateName(SubexpNames[i]) ==> IsInteger(g[i])
      ensures IsTimeName(SubexpNames[i]) ==> IsFractional(g[i])
    {
      if i == 0 {
      } else if i == 1 {
      } else if i == 2 {
      } else if i == 3 {
      } else if i == 4 {
      } else if i == 5 {
      } else if i == 6 {
      } else if i == 7 {
      } else {
        assert i == 8;
      }
    }
  }

  /** The loop over the time groups, from the duration built from the date groups. */
  lemma RunTimeGroups(s: string, m: Match, d: Duration)
    requires WellFormed(m) && GroupsFit(Groups(s, m))
    requires d.hours == ZeroDec && d.minutes == ZeroDec && d.seconds == ZeroDec
    ensures RunFrom(Groups(s, m), 6, d)
            == (var hours :- TimeValue(m.hour);
                var minutes :- TimeValue(m.minute);
                var seconds :- TimeValue(m.second);
                Ok(d.(hours := hours, minutes := minutes, seconds := seconds)))
  {
    var g := Groups(s, m);
    assert g[6] == m.hour && g[7] == m.minute && g[8] == m.second;
    HourStep(g, d);
    match TimeValue(m.hour)
    case Err(e) =>
    case Ok(hours) =>
      var d6 := d.(hours := hours);
      MinuteStep(g, d6);
      match TimeValue(m.minute)
      case Err(e) =>
      case Ok(minutes) =>
        SecondStep(g, d6.(minutes := minutes));
  }

  lemma HourStep(g: seq<string>, d: Duration)
    requires GroupsFit(g) && d.hours == ZeroDec
    ensures OptNumeral(g[6], true)
    ensures RunFrom(g, 6, d) == (var x :- TimeValue(g[6]); RunFrom(g, 7, d.(hours := x)))
  {
    assert SubexpNames[6] == "hour";
  }

  lemma MinuteStep(g: seq<string>, d: Duration)
    requires GroupsFit(g) && d.minutes == ZeroDec
    ensures OptNumeral(g[7], true)
    ensures RunFrom(g, 7, d) == (var x :- TimeValue(g[7]); RunFrom(g, 8, d.(minutes := x)))
  {
    assert SubexpNames[7] == "minute";
  }

  lemma SecondStep(g: seq<string>, d: Duration)
    requires GroupsFit(g) && d.seconds == ZeroDec
    ensures OptNumeral(g[8], true)
    ensures RunFrom(g, 8, d) == (var x :- TimeValue(g[8]); Ok(d.(seconds := x)))
  {
    assert SubexpNames[8] == "second";
  }

  /** The loop over the date groups, from the duration with only its sign set. */
  lemma RunDateGroups(s: string, m: Match, d: Duration)
    requires WellFormed(m) && GroupsFit(Groups(s, m))
    requires d.years == 0 && d.months == 0 && d.weeks == 0 && d.days == 0
    ensures RunFrom(Groups(s, m), 2, d)
            == (var years :- DateValue(m.year);
                var months :- DateValue(m.month);
                var weeks :- DateValue(m.week);
                var days :- DateValue(m.day);
                RunFrom(Groups(s, m), 6, d.(years := years, months := months, weeks := weeks, days := days)))
  {
    var g := Groups(s, m);
    assert g[2] == m.year && g[3] == m.month && g[4] == m.week && g[5] == m.day;
    YearStep(g, d);
    match DateValue(m.year)
    case Err(e) =>
    case Ok(years) =>
      var d2 := d.(years := years);
      MonthStep(g, d2);
      match DateValue(m.month)
      case Err(e) =>
      case Ok(months) =>
        var d3 := d2.(months := months);
        WeekStep(g, d3);
        match DateValue(m.week)
        case Err(e) =>
        case Ok(weeks) =>
          DayStep(g, d3.(weeks := weeks));
  }

  lemma YearStep(g: seq<string>, d: Duration)
    requires GroupsFit(g) && d.years == 0
    ensures OptNumeral(g[2], false)
    ensures RunFrom(g, 2, d) == (var x :- DateValue(g[2]); RunFrom(g, 3, d.(years := x)))
  {
    assert SubexpNames[2] == "year";
  }

  lemma MonthStep(g: seq<string>, d: Duration)
    requires GroupsFit(g) && d.months == 0
    ensures OptNumeral(g[3], false)
    ensures RunFrom(g, 3, d) == (var x :- DateValue(g[3]); RunFrom(g, 4, d.(months := x)))
  {
    assert SubexpNames[3] == "month";
  }

  lemma WeekStep(g: seq<string>, d: Duration)
    requires GroupsFit(g) && d.weeks == 0
    ensures OptNumeral(g[4], false)
    ensures RunFrom(g, 4, d) == (var x :- DateValue(g[4]); RunFrom(g, 5, d.(weeks := x)))
  {
    assert SubexpNames[4] == "week";
  }

  lemma DayStep(g: seq<string>, d: Duration)
    requires GroupsFit(g) && d.days == 0
    ensures OptNumeral(g[5], false)
    ensures RunFrom(g, 5, d) == (var x :- DateValue(g[5]); RunFrom(g, 6, d.(days := x)))
  {
    assert SubexpNames[5] == "day";
  }

  /** Running the loop over a match's groups reads the fields in order: it computes FromMatch. */
  lemma RunFromMatch(s: string, m: Match)
    requires WellFormed(m)
    ensures GroupsFit(Groups(s, m))
    ensures RunFrom(Groups(s, m), 0, Zero) == FromMatch(m)
  {
    GroupsOfMatch(s, m);
    var g := Groups(s, m);
    var d1 := Zero.(negative := m.negative);
    assert RunFrom(g, 0, Zero) == RunFrom(g, 2, d1);
    RunDateGroups(s, m, d1);
    match DateFields(m)
    case Err(e) =>
    case Ok(d5) =>
      RunTimeGroups(s, m, d5);
  }

  /**
   * ParseString: the anchored match, then the loop over SubexpNames that
   * reads each capture that took part into its field.
   */
  method ParseString(s: string) returns (r: Result<Duration>)
    ensures r == Parse(s)
  {
    var found := Recognise(s);
    if found.None? {
      return Err(BadFormat);
    }
    RunFromMatch(s, found.value);
    r := ReadGroups(Groups(s, found.value));
  }

  /** The loop of ParseString over the groups of a match. */
  method ReadGroups(groups: seq<string>) returns (r: Result<Duration>)
    requires GroupsFit(groups)
    ensures r == RunFrom(groups, 0, Zero)
  {
    var d := Zero;
    var i := 0;
    while i < |SubexpNames|
      invariant 0 <= i <= |SubexpNames|
      invariant RunFrom(groups, i, d) == RunFrom(groups, 0, Zero)
    {
      var name := SubexpNames[i];
      if i == 0 || name == "" {
        i := i + 1;
        continue;
      }
      var part := groups[i];
      if part == "" {
        i := i + 1;
        continue;
      }
      var next := Assign(name, part, d);
      if next.Err? {
        return Err(next.error);
      }
      d := next.value;
      i := i + 1;
    }
    return Ok(d);
  }

  /**
   * UnmarshalText: on success the receiver becomes the parsed duration; on
   * error it keeps its value. The receiver is passed in and returned.
   */
  method UnmarshalText(d: Duration, data: string) returns (r: Duration, err: Option<Error>)
    ensures Parse(data).Ok? ==> r == Parse(data).value && err == None
    ensures Parse(data).Err? ==> r == d && err == Some(Parse(data).error)
  {
    var t := ParseString(data);
    if t.Err? {
      return d, Some(t.error);
    }
    return t.value, None;
  }

  // ---------------------------------------------------------------------
  // Properties
  // ---------------------------------------------------------------------

  /** A text the grammar generates parses to what its captures denote. */
  lemma ParseOfRender(m: Match)
    requires WellFormed(m)
    ensures Parse(Render(m)) == FromMatch(m)
  {
    Completeness(m);
  }

  /**
   * The format error is reported exactly for the texts the grammar does not
   * generate; every other failure is a numeral out of range.
   */
  lemma ParseErrors(s: string)
    ensures Parse(s) == Err(BadFormat) <==> !exists m :: WellFormed(m) && Render(m) == s
    ensures Parse(s).Err? && Parse(s).error != BadFormat ==> Parse(s).error == RangeError
  {
    RecogniseExactly(s);
  }

  lemma ReplaceTwice(s: string)
    ensures ReplaceCommas(ReplaceCommas(s)) == ReplaceCommas(s)
  {
  }

  lemma TimeValueReplace(p: string)
    requires OptNumeral(p, true)
    ensures OptNumeral(ReplaceCommas(p), true)
    ensures TimeValue(ReplaceCommas(p)) == TimeValue(p)
  {
    if p != "" {
      ReadReplace(p);
      ReplaceTwice(p);
    }
  }

  lemma DateValueReplace(p: string)
    requires OptNumeral(p, false)
    ensures ReplaceCommas(p) == p
  {
    if p != "" { DigitsUnchanged(p); }
  }

  lemma DateFieldsOfDate(a: Match, b: Match)
    requires WellFormed(a) && WellFormed(b)
    requires a.negative == b.negative && a.year == b.year && a.month == b.month && a.week == b.week && a.day == b.day
    ensures DateFields(a) == DateFields(b)
  {
  }

  /** ',' and '.' are interchangeable as the fraction separator. */
  lemma ParseSeparators(s: string)
    ensures Parse(ReplaceCommas(s)) == Parse(s)
  {
    RecogniseReplace(s);
    match Recognise(s)
    case None =>
    case Some(m) =>
      var m' := ReplaceCommasIn(m);
      assert Recognise(ReplaceCommas(s)) == Some(m');
      DateValueReplace(m.year);
      DateValueReplace(m.month);
      DateValueReplace(m.week);
      DateValueReplace(m.day);
      assert m'.negative == m.negative && m'.year == m.year && m'.month == m.month
        && m'.week == m.week && m'.day == m.day;
      DateFieldsOfDate(m', m);
      TimeValueReplace(m.hour);
      TimeValueReplace(m.minute);
      TimeValueReplace(m.second);
      assert FromMatch(m') == FromMatch(m);
  }
}
