/**
 * String and the text marshaller: a duration is written as its sign, 'P',
 * its non-zero date components, and, when it has a time part, 'T' and its
 * non-zero time components; the zero duration is written "PT0S".
 */
module Formatter {
  import opened Grammar
  import opened Decimals
  import opened Durations
  import opened Parser

  /** strconv.FormatUint of a non-zero date component; a zero component is left out. */
  function DateNumeral(n: nat): (r: string)
    ensures OptNumeral(r, false)
    ensures r == "" <==> n == 0
  {
    if n == 0 then "" else NatText(n)
  }

  /** strconv.FormatFloat of a positive time component; a zero component is left out. */
  function TimeNumeral(x: Dec): (r: string)
    ensures OptNumeral(r, true)
    ensures r == "" <==> x == ZeroDec
  {
    if x.mantissa == 0 then "" else Text(x)
  }

  /** The captures of the text String writes for a non-zero duration. */
  function Layout(d: Duration): (m: Match)
    ensures WellFormed(m)
  {
    Match(d.negative, DateNumeral(d.years), DateNumeral(d.months), DateNumeral(d.weeks), DateNumeral(d.days),
          HasTimePart(d), TimeNumeral(d.hours), TimeNumeral(d.minutes), TimeNumeral(d.seconds))
  }

  /** What String returns. */
  function Format(d: Duration): string {
    if IsZero(d) then "PT0S" else Render(Layout(d))
  }

  /** The date components String writes after 'P'. */
  function DateBody(d: Duration): string {
    Opt(DateNumeral(d.years), 'Y') + Opt(DateNumeral(d.months), 'M')
    + Opt(DateNumeral(d.weeks), 'W') + Opt(DateNumeral(d.days), 'D')
  }

  /** The time components String writes after 'T'. */
  function TimeBody(d: Duration): string {
    Opt(TimeNumeral(d.hours), 'H') + Opt(TimeNumeral(d.minutes), 'M') + Opt(TimeNumeral(d.seconds), 'S')
  }

  /** The text of a non-zero duration, in the order String writes it. */
  lemma FormatShape(d: Duration)
    requires !IsZero(d)
    ensures Format(d) == (if d.negative then "-P" else "P") + DateBody(d)
                         + (if HasTimePart(d) then "T" + TimeBody(d) else "")
  {
    var m := Layout(d);
    var t := if HasTimePart(d) then "T" + TimeBody(d) else "";
    if HasTimePart(d) {
      Assoc(Opt(m.hour, 'H'), Opt(m.minute, 'M'), Opt(m.second, 'S'));
    }
    assert t == TimeText(m);
    Assoc4(Opt(m.year, 'Y'), Opt(m.month, 'M'), Opt(m.week, 'W'), Opt(m.day, 'D'), t);
    assert Body(m) == DateBody(d) + t;
    HeadAssoc(d.negative, DateBody(d), t);
  }

  lemma Assoc(a: string, b: string, c: string)
    ensures a + b + c == a + (b + c)
  {
  }

  lemma Assoc4(a: string, b: string, c: string, e: string, f: string)
    ensures a + b + c + e + f == a + (b + (c + (e + f)))
  {
  }

  lemma HeadAssoc(negative: bool, x: string, y: string)
    ensures (if negative then "-P" else "P") + x + y == (if negative then "-" else "") + ("P" + (x + y))
  {
    if negative {
      assert "-P" == "-" + "P";
    } else {
      assert "" + "P" == "P";
    }
  }

  /** The capture of "PT0S". */
  const ZeroMatch: Match := Match(false, "", "", "", "", true, "", "", "0")

  // ---------------------------------------------------------------------
  // The imperative writer
  // ---------------------------------------------------------------------

  method String(d: Duration) returns (s: string)
    ensures s == Format(d)
  {
    if IsZero(d) {
      return "PT0S";
    }
    var b := if d.negative then "-P" else "P";
    b := WriteDate(b, d);
    ghost var tail := b;
    if HasTimePart(d) {
      b := b + "T";
      b := WriteTime(b, d);
      Assoc(tail, "T", TimeBody(d));
    }
    FormatShape(d);
    return b;
  }

  /** The date components of String, appended to the builder b. */
  method WriteDate(b: string, d: Duration) returns (b': string)
    ensures b' == b + DateBody(d)
  {
    b' := b;
    if d.years != 0 {
      b' := b' + NatText(d.years);
      b' := b' + "Y";
    }
    Append(b, b, "", DateNumeral(d.years), 'Y', b');
    ghost var date := Opt(DateNumeral(d.years), 'Y');
    ghost var b0 := b';
    if d.months != 0 {
      b' := b' + NatText(d.months);
      b' := b' + "M";
    }
    Append(b0, b, date, DateNumeral(d.months), 'M', b');
    date := date + Opt(DateNumeral(d.months), 'M');
    b0 := b';
    if d.weeks != 0 {
      b' := b' + NatText(d.weeks);
      b' := b' + "W";
    }
    Append(b0, b, date, DateNumeral(d.weeks), 'W', b');
    date := date + Opt(DateNumeral(d.weeks), 'W');
    b0 := b';
    if d.days != 0 {
      b' := b' + NatText(d.days);
      b' := b' + "D";
    }
    Append(b0, b, date, DateNumeral(d.days), 'D', b');
  }

  /** The time components of String, appended to the builder b after its 'T'. */
  method WriteTime(b: string, d: Duration) returns (b': string)
    ensures b' == b + TimeBody(d)
  {
    b' := b;
    if d.hours.mantissa > 0 {
      b' := b' + Text(d.hours);
      b' := b' + "H";
    }
    Append(b, b, "", TimeNumeral(d.hours), 'H', b');
    ghost var time := Opt(TimeNumeral(d.hours), 'H');
    ghost var b0 := b';
    if d.minutes.mantissa > 0 {
      b' := b' + Text(d.minutes);
      b' := b' + "M";
    }
    Append(b0, b, time, TimeNumeral(d.minutes), 'M', b');
    time := time + Opt(TimeNumeral(d.minutes), 'M');
    b0 := b';
    if d.seconds.mantissa > 0 {
      b' := b' + Text(d.seconds);
      b' := b' + "S";
    }
    Append(b0, b, time, TimeNumeral(d.seconds), 'S', b');
  }

  /** Writing one component, or nothing when it is absent, after the text so far. */
  lemma Append(b0: string, head: string, done: string, numeral: string, unit: char, b: string)
    requires b0 == head + done
    requires b == if numeral == "" then b0 else b0 + numeral + [unit]
    ensures b == head + (done + Opt(numeral, unit))
  {
    if numeral != "" {
      assert b0 + numeral + [unit] == b0 + (numeral + [unit]);
    } else {
      assert done + "" == done;
    }
  }

  /** MarshalText: the bytes of String; it never fails. */
  method MarshalText(d: Duration) returns (text: string, err: Option<Error>)
    ensures text == Format(d) && err == None
  {
    text := String(d);
    err := None;
  }

  // ---------------------------------------------------------------------
  // Round trip
  // ---------------------------------------------------------------------

  /**
   * ParseString reads back what String writes: the duration itself, except
   * that a zero duration loses its sign ("PT0S"). The time fields must be
   * below the float64 overflow bound, which every float64 value is.
   */
  lemma ParseFormat(d: Duration)
    requires LessThan(d.hours, FloatOverflow) && LessThan(d.minutes, FloatOverflow)
             && LessThan(d.seconds, FloatOverflow)
    ensures !IsZero(d) ==> Parse(Format(d)) == Ok(d)
    ensures IsZero(d) ==> Parse(Format(d)) == Ok(Zero)
  {
    if IsZero(d) {
      assert Render(ZeroMatch) == "PT0S";
      ParseOfRender(ZeroMatch);
      assert Text(ZeroDec) == "0";
      ParseFloatText(ZeroDec);
    } else {
      var m := Layout(d);
      ParseOfRender(m);
      DateValueOf(d.years);
      DateValueOf(d.months);
      DateValueOf(d.weeks);
      DateValueOf(d.days);
      TimeValueOf(d.hours);
      TimeValueOf(d.minutes);
      TimeValueOf(d.seconds);
    }
  }

  /** A date component reads back as written. */
  lemma DateValueOf(n: u64)
    ensures DateValue(DateNumeral(n)) == Ok(n)
  {
  }

  /** A time component reads back as written. */
  lemma TimeValueOf(x: Dec)
    requires LessThan(x, FloatOverflow)
    ensures TimeValue(TimeNumeral(x)) == Ok(x)
  {
    if x.mantissa != 0 {
      ParseFloatText(x);
    }
  }

  /** parseFloat of a printed decimal gives the decimal back. */
  lemma ParseFloatText(x: Dec)
    requires LessThan(x, FloatOverflow)
    ensures ParseFloat(Text(x)) == Ok(x)
  {
    var t := Text(x);
    assert ReplaceCommas(t) == t;
    ReadText(x);
  }
}
