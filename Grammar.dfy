/**
 * The textual grammar of a duration: optional '-', then 'P', then the
 * optional date components nY nM nW nD (unsigned integers), then an
 * optional 'T' followed by the optional time components nH nM nS, whose
 * numerals may carry a fraction after '.' or ','. The whole text must be
 * consumed. `Render` states the grammar generatively; `Recognise` is the
 * hand-written recogniser that stands in for the anchored regular
 * expression, returning its capture groups.
 */
module Grammar {

  datatype Option<T> = None | Some(value: T)

  predicate IsDigit(c: char) { '0' <= c <= '9' }

  predicate IsSep(c: char) { c == '.' || c == ',' }

  /** A character that can end a component: neither part of a numeral nor a separator. */
  predicate IsDesignator(c: char) { !IsDigit(c) && !IsSep(c) }

  /** `\d+` */
  predicate IsInteger(s: string) {
    |s| > 0 && forall i :: 0 <= i < |s| ==> IsDigit(s[i])
  }

  /** `\d+(?:[.,]\d+)?` */
  predicate IsFractional(s: string) {
    IsInteger(s) || exists i :: 0 < i < |s| && IsSep(s[i]) && IsInteger(s[..i]) && IsInteger(s[i + 1..])
  }

  predicate IsNumeral(s: string, fraction: bool) {
    if fraction then IsFractional(s) else IsInteger(s)
  }

  /** An optional capture: absent (empty) or a numeral. */
  predicate OptNumeral(s: string, fraction: bool) {
    s == "" || IsNumeral(s, fraction)
  }

  /**
   * The capture groups of a match: the sign, the seven numerals (empty when
   * the component is absent), and whether a 'T' was present.
   */
  datatype Match = Match(negative: bool, year: string, month: string, week: string, day: string,
                         timePart: bool, hour: string, minute: string, second: string)

  predicate WellFormed(m: Match) {
    && OptNumeral(m.year, false) && OptNumeral(m.month, false)
    && OptNumeral(m.week, false) && OptNumeral(m.day, false)
    && OptNumeral(m.hour, true) && OptNumeral(m.minute, true) && OptNumeral(m.second, true)
    && (!m.timePart ==> m.hour == "" && m.minute == "" && m.second == "")
  }

  /** A component `(numeral unit)?` as text. */
  function Opt(numeral: string, unit: char): string {
    if numeral == "" then "" else numeral + [unit]
  }

  function TimeText(m: Match): string {
    if m.timePart then "T" + (Opt(m.hour, 'H') + (Opt(m.minute, 'M') + Opt(m.second, 'S'))) else ""
  }

  /** The text after 'P': the date components, then the time part. */
  function Body(m: Match): string {
    Opt(m.year, 'Y') + (Opt(m.month, 'M') + (Opt(m.week, 'W') + (Opt(m.day, 'D') + TimeText(m))))
  }

  /** The text a match is made of: the grammar, stated generatively. */
  function Render(m: Match): string {
    (if m.negative then "-" else "") + ("P" + Body(m))
  }

  // ---------------------------------------------------------------------
  // The recogniser
  // ---------------------------------------------------------------------

  /** Length of the longest run of digits that starts s. */
  function DigitRun(s: string): (n: nat)
    ensures n <= |s|
    ensures forall i :: 0 <= i < n ==> IsDigit(s[i])
    ensures n < |s| ==> !IsDigit(s[n])
  {
    if |s| == 0 || !IsDigit(s[0]) then 0 else 1 + DigitRun(s[1..])
  }

  /** Length of the longest numeral that starts s, 0 when there is none. */
  function NumeralLength(s: string, fraction: bool): (n: nat)
    ensures n <= |s|
    ensures n > 0 ==> IsNumeral(s[..n], fraction)
  {
    var k := DigitRun(s);
    if k == 0 then 0
    else if fraction && k + 1 < |s| && IsSep(s[k]) && IsDigit(s[k + 1]) then
      var n := k + 1 + DigitRun(s[k + 1..]);
      assert s[..n][..k] == s[..k] && s[..n][k + 1..] == s[k + 1..n];
      n
    else
      assert IsInteger(s[..k]);
      k
  }

  /**
   * The optional component `(numeral unit)?` at the start of s: its capture
   * and the rest of s, or an empty capture and s itself when s does not
   * start with a numeral followed by `unit`.
   */
  function Component(s: string, unit: char, fraction: bool): (r: (string, string))
    ensures OptNumeral(r.0, fraction) && s == Opt(r.0, unit) + r.1
  {
    var n := NumeralLength(s, fraction);
    if n > 0 && n < |s| && s[n] == unit then
      assert s == s[..n] + [unit] + s[n + 1..];
      (s[..n], s[n + 1..])
    else
      ("", s)
  }

  /** `(\d+Y)?(\d+M)?(\d+W)?(\d+D)?` at the start of s, and what follows. */
  function DateComponents(s: string): (r: (string, string, string, string, string))
    ensures OptNumeral(r.0, false) && OptNumeral(r.1, false) && OptNumeral(r.2, false) && OptNumeral(r.3, false)
    ensures s == Opt(r.0, 'Y') + (Opt(r.1, 'M') + (Opt(r.2, 'W') + (Opt(r.3, 'D') + r.4)))
  {
    var (year, s1) := Component(s, 'Y', false);
    var (month, s2) := Component(s1, 'M', false);
    var (week, s3) := Component(s2, 'W', false);
    var (day, s4) := Component(s3, 'D', false);
    (year, month, week, day, s4)
  }

  /** `(fH)?(fM)?(fS)?` at the start of s, and what follows. */
  function TimeComponents(s: string): (r: (string, string, string, string))
    ensures OptNumeral(r.0, true) && OptNumeral(r.1, true) && OptNumeral(r.2, true)
    ensures s == Opt(r.0, 'H') + (Opt(r.1, 'M') + (Opt(r.2, 'S') + r.3))
  {
    var (hour, s1) := Component(s, 'H', true);
    var (minute, s2) := Component(s1, 'M', true);
    var (second, s3) := Component(s2, 'S', true);
    (hour, minute, second, s3)
  }

  /** The anchored match of the whole text, with its capture groups. */
  function Recognise(s: string): (r: Option<Match>)
    ensures r.Some? ==> WellFormed(r.value) && Render(r.value) == s
  {
    var negative := |s| > 0 && s[0] == '-';
    var s1 := if negative then s[1..] else s;
    if |s1| == 0 || s1[0] != 'P' then None
    else match RecogniseBody(negative, s1[1..])
      case None => None
      case Some(m) =>
        RenderShape(m, s, s1);
        Some(m)
  }

  /** The match of the text after 'P': the date components, then an optional time part. */
  function RecogniseBody(negative: bool, p: string): (r: Option<Match>)
    ensures r.Some? ==> WellFormed(r.value) && r.value.negative == negative && Body(r.value) == p
  {
    var date := DateComponents(p);
    var rest := date.4;
    if rest == "" then
      var m := Match(negative, date.0, date.1, date.2, date.3, false, "", "", "");
      BodyOf(m, p, rest);
      Some(m)
    else if rest[0] != 'T' then None
    else match RecogniseTime(rest[1..])
      case None => None
      case Some((hour, minute, second)) =>
        var m := Match(negative, date.0, date.1, date.2, date.3, true, hour, minute, second);
        TimeTextOf(m, rest);
        BodyOf(m, p, rest);
        Some(m)
  }

  lemma BodyOf(m: Match, p: string, rest: string)
    requires p == Opt(m.year, 'Y') + (Opt(m.month, 'M') + (Opt(m.week, 'W') + (Opt(m.day, 'D') + rest)))
    requires TimeText(m) == rest
    ensures Body(m) == p
  {
  }

  lemma TimeTextOf(m: Match, rest: string)
    requires m.timePart && |rest| > 0 && rest[0] == 'T'
    requires rest[1..] == Opt(m.hour, 'H') + (Opt(m.minute, 'M') + Opt(m.second, 'S'))
    ensures TimeText(m) == rest
  {
    assert rest == "T" + rest[1..];
  }

  /** The match of the text after 'T', which must be consumed entirely. */
  function RecogniseTime(q: string): (r: Option<(string, string, string)>)
    ensures r.Some? ==> var (hour, minute, second) := r.value;
      && OptNumeral(hour, true) && OptNumeral(minute, true) && OptNumeral(second, true)
      && q == Opt(hour, 'H') + (Opt(minute, 'M') + Opt(second, 'S'))
  {
    var time := TimeComponents(q);
    if time.3 != "" then None
    else
      assert Opt(time.2, 'S') + time.3 == Opt(time.2, 'S');
      Some((time.0, time.1, time.2))
  }

  /** Reassembles a text from the pieces the recogniser split it into. */
  lemma RenderShape(m: Match, s: string, s1: string)
    requires m.negative == (|s| > 0 && s[0] == '-')
    requires s1 == if m.negative then s[1..] else s
    requires |s1| > 0 && s1[0] == 'P'
    requires s1[1..] == Body(m)
    ensures Render(m) == s
  {
    assert s1 == "P" + s1[1..];
    if m.negative {
      assert s == "-" + s1;
    } else {
      assert s == "" + s1;
    }
  }

  // ---------------------------------------------------------------------
  // Completeness: every text the grammar generates is recognised, with
  // exactly the captures it was generated from.
  // ---------------------------------------------------------------------

  lemma {:induction false} DigitRunOf(a: string, b: string)
    requires forall i :: 0 <= i < |a| ==> IsDigit(a[i])
    requires |b| == 0 || !IsDigit(b[0])
    ensures DigitRun(a + b) == |a|
  {
    if |a| > 0 {
      assert (a + b)[1..] == a[1..] + b;
      DigitRunOf(a[1..], b);
    } else {
      assert a + b == b;
    }
  }

  lemma NumeralLengthOf(c: string, unit: char, t: string, fraction: bool)
    requires IsNumeral(c, fraction) && IsDesignator(unit)
    ensures NumeralLength(c + [unit] + t, fraction) == |c|
  {
    var s := c + [unit] + t;
    if IsInteger(c) {
      assert s == c + ([unit] + t);
      DigitRunOf(c, [unit] + t);
    } else {
      var i :| 0 < i < |c| && IsSep(c[i]) && IsInteger(c[..i]) && IsInteger(c[i + 1..]);
      FractionLength(c, i, unit, t);
    }
  }

  lemma FractionLength(c: string, i: nat, unit: char, t: string)
    requires 0 < i < |c| && IsSep(c[i]) && IsInteger(c[..i]) && IsInteger(c[i + 1..])
    requires IsDesignator(unit)
    ensures NumeralLength(c + [unit] + t, true) == |c|
  {
    var s := c + [unit] + t;
    var a, b := c[..i], c[i + 1..];
    assert s == a + ([c[i]] + b + [unit] + t);
    DigitRunOf(a, [c[i]] + b + [unit] + t);
    assert DigitRun(s) == i;
    assert s[i] == c[i] && s[i + 1] == b[0];
    assert s[i + 1..] == b + ([unit] + t);
    DigitRunOf(b, [unit] + t);
    assert DigitRun(s[i + 1..]) == |b|;
  }

  /** s does not start with a `unit` component. */
  predicate Skips(s: string, unit: char, fraction: bool) {
    Component(s, unit, fraction) == ("", s)
  }

  lemma SkipsNonNumeral(s: string, unit: char, fraction: bool)
    requires |s| == 0 || !IsDigit(s[0])
    ensures Skips(s, unit, fraction)
  {
  }

  lemma OptSkips(c: string, unit: char, t: string, other: char, fraction: bool)
    requires OptNumeral(c, fraction) && IsDesignator(unit) && unit != other
    requires c == "" ==> Skips(t, other, fraction)
    ensures Skips(Opt(c, unit) + t, other, fraction)
  {
    if c != "" {
      NumeralLengthOf(c, unit, t, fraction);
    } else {
      assert Opt(c, unit) + t == t;
    }
  }

  lemma OptTakes(c: string, unit: char, t: string, fraction: bool)
    requires OptNumeral(c, fraction) && IsDesignator(unit)
    requires c == "" ==> Skips(t, unit, fraction)
    ensures Component(Opt(c, unit) + t, unit, fraction) == (c, t)
  {
    if c != "" {
      var s := c + [unit] + t;
      NumeralLengthOf(c, unit, t, fraction);
      assert s[..|c|] == c && s[|c| + 1..] == t;
    } else {
      assert Opt(c, unit) + t == t;
    }
  }

  lemma DateComponentsOf(year: string, month: string, week: string, day: string, rest: string)
    requires OptNumeral(year, false) && OptNumeral(month, false)
    requires OptNumeral(week, false) && OptNumeral(day, false)
    requires |rest| == 0 || !IsDigit(rest[0])
    ensures DateComponents(Opt(year, 'Y') + (Opt(month, 'M') + (Opt(week, 'W') + (Opt(day, 'D') + rest))))
            == (year, month, week, day, rest)
  {
    var dd := Opt(day, 'D') + rest;
    var ww := Opt(week, 'W') + dd;
    var mm := Opt(month, 'M') + ww;
    SkipsNonNumeral(rest, 'D', false);
    SkipsNonNumeral(rest, 'W', false);
    SkipsNonNumeral(rest, 'M', false);
    SkipsNonNumeral(rest, 'Y', false);
    OptSkips(day, 'D', rest, 'W', false);
    OptSkips(day, 'D', rest, 'M', false);
    OptSkips(day, 'D', rest, 'Y', false);
    OptSkips(week, 'W', dd, 'M', false);
    OptSkips(week, 'W', dd, 'Y', false);
    OptSkips(month, 'M', ww, 'Y', false);
    OptTakes(year, 'Y', mm, false);
    OptTakes(month, 'M', ww, false);
    OptTakes(week, 'W', dd, false);
    OptTakes(day, 'D', rest, false);
  }

  lemma TimeComponentsOf(hour: string, minute: string, second: string)
    requires OptNumeral(hour, true) && OptNumeral(minute, true) && OptNumeral(second, true)
    ensures TimeComponents(Opt(hour, 'H') + (Opt(minute, 'M') + (Opt(second, 'S') + ""))) == (hour, minute, second, "")
  {
    var se := Opt(second, 'S') + "";
    var mi := Opt(minute, 'M') + se;
    SkipsNonNumeral("", 'S', true);
    SkipsNonNumeral("", 'M', true);
    SkipsNonNumeral("", 'H', true);
    OptSkips(second, 'S', "", 'M', true);
    OptSkips(second, 'S', "", 'H', true);
    OptSkips(minute, 'M', se, 'H', true);
    OptTakes(hour, 'H', mi, true);
    OptTakes(minute, 'M', se, true);
    OptTakes(second, 'S', "", true);
  }

  lemma BodyCompleteness(m: Match)
    requires WellFormed(m)
    ensures RecogniseBody(m.negative, Body(m)) == Some(m)
  {
    var tt := TimeText(m);
    DateComponentsOf(m.year, m.month, m.week, m.day, tt);
    if m.timePart {
      var time := Opt(m.hour, 'H') + (Opt(m.minute, 'M') + Opt(m.second, 'S'));
      assert tt[1..] == time;
      TimeCompleteness(m.hour, m.minute, m.second);
    } else {
      assert tt == "";
    }
  }

  lemma TimeCompleteness(hour: string, minute: string, second: string)
    requires OptNumeral(hour, true) && OptNumeral(minute, true) && OptNumeral(second, true)
    ensures RecogniseTime(Opt(hour, 'H') + (Opt(minute, 'M') + Opt(second, 'S'))) == Some((hour, minute, second))
  {
    assert Opt(second, 'S') + "" == Opt(second, 'S');
    TimeComponentsOf(hour, minute, second);
  }

  lemma Completeness(m: Match)
    requires WellFormed(m)
    ensures Recognise(Render(m)) == Some(m)
  {
    var s1 := "P" + Body(m);
    var s := Render(m);
    assert s == (if m.negative then "-" else "") + s1;
    var negative := |s| > 0 && s[0] == '-';
    assert negative == m.negative;
    assert s1 == if negative then s[1..] else s;
    assert s1[1..] == Body(m);
    BodyCompleteness(m);
  }

  /**
   * The recogniser accepts exactly the texts the grammar generates, and
   * each of them in exactly one way.
   */
  lemma RecogniseExactly(s: string)
    ensures Recognise(s).Some? <==> exists m :: WellFormed(m) && Render(m) == s
    ensures forall m :: WellFormed(m) && Render(m) == s ==> Recognise(s) == Some(m)
  {
    forall m | WellFormed(m) && Render(m) == s
      ensures Recognise(s) == Some(m)
    {
      Completeness(m);
    }
  }

  // ---------------------------------------------------------------------
  // ',' and '.' are interchangeable fraction separators.
  // ---------------------------------------------------------------------

  /** `strings.ReplaceAll(s, ",", ".")` */
  function ReplaceCommas(s: string): string {
    seq(|s|, i requires 0 <= i < |s| => if s[i] == ',' then '.' else s[i])
  }

  function ReplaceCommasIn(m: Match): Match {
    m.(year := ReplaceCommas(m.year), month := ReplaceCommas(m.month),
       week := ReplaceCommas(m.week), day := ReplaceCommas(m.day),
       hour := ReplaceCommas(m.hour), minute := ReplaceCommas(m.minute),
       second := ReplaceCommas(m.second))
  }

  lemma ReplaceSlices(s: string, i: nat)
    requires i <= |s|
    ensures ReplaceCommas(s)[i..] == ReplaceCommas(s[i..])
    ensures ReplaceCommas(s)[..i] == ReplaceCommas(s[..i])
  {
    var r := ReplaceCommas(s);
    var a, b := ReplaceCommas(s[i..]), ReplaceCommas(s[..i]);
    forall j | 0 <= j < |a| ensures r[i..][j] == a[j] {
      assert s[i..][j] == s[i + j];
    }
    forall j | 0 <= j < |b| ensures r[..i][j] == b[j] {
      assert s[..i][j] == s[j];
    }
  }

  lemma {:induction false} DigitRunReplace(s: string)
    ensures DigitRun(ReplaceCommas(s)) == DigitRun(s)
  {
    if |s| > 0 && IsDigit(s[0]) {
      ReplaceSlices(s, 1);
      DigitRunReplace(s[1..]);
    }
  }

  lemma NumeralLengthReplace(s: string, fraction: bool)
    ensures NumeralLength(ReplaceCommas(s), fraction) == NumeralLength(s, fraction)
  {
    DigitRunReplace(s);
    var k := DigitRun(s);
    if k + 1 < |s| {
      ReplaceSlices(s, k + 1);
      DigitRunReplace(s[k + 1..]);
    }
  }

  lemma ComponentReplace(s: string, unit: char, fraction: bool)
    requires IsDesignator(unit)
    ensures var (c, t) := Component(s, unit, fraction);
            Component(ReplaceCommas(s), unit, fraction) == (ReplaceCommas(c), ReplaceCommas(t))
  {
    var r := ReplaceCommas(s);
    NumeralLengthReplace(s, fraction);
    var n := NumeralLength(s, fraction);
    assert NumeralLength(r, fraction) == n;
    ReplaceSlices(s, n);
    if n > 0 && n < |s| {
      assert r[n] == unit <==> s[n] == unit;
      ReplaceSlices(s, n + 1);
      if s[n] == unit {
        assert Component(r, unit, fraction) == (r[..n], r[n + 1..]);
      } else {
        assert Component(r, unit, fraction) == ("", r);
      }
    } else {
      assert Component(r, unit, fraction) == ("", r);
    }
    assert ReplaceCommas("") == "";
  }

  lemma DateComponentsReplace(p: string)
    ensures var (y, m, w, d, rest) := DateComponents(p);
            DateComponents(ReplaceCommas(p)) == (ReplaceCommas(y), ReplaceCommas(m),
              ReplaceCommas(w), ReplaceCommas(d), ReplaceCommas(rest))
  {
    var (year, p1) := Component(p, 'Y', false);
    var (month, p2) := Component(p1, 'M', false);
    var (week, p3) := Component(p2, 'W', false);
    ComponentReplace(p, 'Y', false);
    ComponentReplace(p1, 'M', false);
    ComponentReplace(p2, 'W', false);
    ComponentReplace(p3, 'D', false);
  }

  lemma TimeComponentsReplace(q: string)
    ensures var (h, m, sec, rest) := TimeComponents(q);
            TimeComponents(ReplaceCommas(q)) == (ReplaceCommas(h), ReplaceCommas(m),
              ReplaceCommas(sec), ReplaceCommas(rest))
  {
    var (hour, q1) := Component(q, 'H', true);
    var (minute, q2) := Component(q1, 'M', true);
    ComponentReplace(q, 'H', true);
    ComponentReplace(q1, 'M', true);
    ComponentReplace(q2, 'S', true);
  }

  lemma BodyReplace(negative: bool, p: string)
    ensures RecogniseBody(negative, ReplaceCommas(p))
            == match RecogniseBody(negative, p) case None => None case Some(m) => Some(ReplaceCommasIn(m))
  {
    var date := DateComponents(p);
    DateComponentsReplace(p);
    var rest := date.4;
    var rrest := ReplaceCommas(rest);
    assert DateComponents(ReplaceCommas(p)).4 == rrest;
    assert ReplaceCommas("") == "";
    assert rrest == "" <==> rest == "";
    if rest != "" {
      assert rrest[0] == 'T' <==> rest[0] == 'T';
      if rest[0] == 'T' {
        ReplaceSlices(rest, 1);
        TimeReplace(rest[1..]);
      }
    }
  }

  lemma TimeReplace(q: string)
    ensures RecogniseTime(ReplaceCommas(q))
            == match RecogniseTime(q)
               case None => None
               case Some((h, m, sec)) => Some((ReplaceCommas(h), ReplaceCommas(m), ReplaceCommas(sec)))
  {
    TimeComponentsReplace(q);
    var time := TimeComponents(q);
    assert ReplaceCommas("") == "";
    assert ReplaceCommas(time.3) == "" <==> time.3 == "";
  }

  /** Replacing ',' by '.' before matching changes only the captures, in the same way. */
  lemma RecogniseReplace(s: string)
    ensures Recognise(ReplaceCommas(s))
            == match Recognise(s) case None => None case Some(m) => Some(ReplaceCommasIn(m))
  {
    var r := ReplaceCommas(s);
    var negative := |s| > 0 && s[0] == '-';
    assert negative == (|r| > 0 && r[0] == '-');
    var s1 := if negative then s[1..] else s;
    var r1 := if negative then r[1..] else r;
    ReplaceSlices(s, if negative then 1 else 0);
    assert r1 == ReplaceCommas(s1);
    if |s1| > 0 && s1[0] == 'P' {
      assert r1[0] == 'P';
      ReplaceSlices(s1, 1);
      BodyReplace(negative, s1[1..]);
    } else {
      assert !(|r1| > 0 && r1[0] == 'P');
    }
  }
}
