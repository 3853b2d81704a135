/**
 * Decimal numerals and the exact values they denote. The date components
 * are read and printed as unsigned integers (strconv's ParseUint and
 * FormatUint in base 10); the time components are float64 values, which
 * this model keeps as exact non-negative decimal fractions: a `Dec` is
 * mantissa / 10^scale with no trailing zero in its fraction digits, so
 * equal values have equal representations.
 */
module Decimals {
  import opened Grammar

  function Pow10(n: nat): (r: nat)
    ensures r >= 1
  {
    if n == 0 then 1 else 10 * Pow10(n - 1)
  }

  lemma {:induction false} Pow10Add(a: nat, b: nat)
    ensures Pow10(a + b) == Pow10(a) * Pow10(b)
  {
    if b > 0 {
      Pow10Add(a, b - 1);
      calc {
        Pow10(a + b);
        10 * Pow10(a + b - 1);
        10 * (Pow10(a) * Pow10(b - 1));
        Pow10(a) * (10 * Pow10(b - 1));
      }
    }
  }

  predicate AllDigits(s: string) {
    forall i :: 0 <= i < |s| ==> IsDigit(s[i])
  }

  function DigitValue(c: char): nat
    requires IsDigit(c)
  {
    c as int - '0' as int
  }

  function DigitChar(n: nat): (c: char)
    requires n < 10
    ensures IsDigit(c) && DigitValue(c) == n
  {
    ('0' as int + n) as char
  }

  /** The value of a base-10 digit string, most significant digit first. */
  function DigitsValue(s: string): nat
    requires AllDigits(s)
  {
    if s == [] then 0 else 10 * DigitsValue(s[..|s| - 1]) + DigitValue(s[|s| - 1])
  }

  lemma AllDigitsAppend(a: string, b: string)
    requires AllDigits(a) && AllDigits(b)
    ensures AllDigits(a + b)
  {
    forall i | 0 <= i < |a + b| ensures IsDigit((a + b)[i]) {
      if i >= |a| { assert (a + b)[i] == b[i - |a|]; }
    }
  }

  lemma {:induction false} DigitsValueAppend(a: string, b: string)
    requires AllDigits(a) && AllDigits(b)
    ensures AllDigits(a + b)
    ensures DigitsValue(a + b) == DigitsValue(a) * Pow10(|b|) + DigitsValue(b)
  {
    AllDigitsAppend(a, b);
    if b == [] {
      assert a + b == a;
    } else {
      var b' := b[..|b| - 1];
      var c := b[|b| - 1];
      assert a + b == (a + b') + [c];
      AllDigitsAppend(a, b');
      DigitsValueAppend(a, b');
      DigitsValueLast(a + b', c);
      DigitsValueLast(b', c);
      assert b == b' + [c];
      var va, vb', p := DigitsValue(a), DigitsValue(b'), Pow10(|b'|);
      assert Pow10(|b|) == 10 * p;
      MulComm10(va, p);
    }
  }

  lemma MulComm10(a: int, b: int)
    ensures a * (10 * b) == 10 * (a * b)
  {
  }

  lemma DigitsValueLast(s: string, c: char)
    requires AllDigits(s) && IsDigit(c)
    ensures AllDigits(s + [c])
    ensures DigitsValue(s + [c]) == 10 * DigitsValue(s) + DigitValue(c)
  {
    AllDigitsAppend(s, [c]);
    assert (s + [c])[..|s|] == s;
  }

  lemma {:induction false} DigitsValueBound(s: string)
    requires AllDigits(s)
    ensures DigitsValue(s) < Pow10(|s|)
  {
    if s != [] {
      DigitsValueBound(s[..|s| - 1]);
    }
  }

  /**
   * strconv.FormatUint(n, 10): the shortest digit string denoting n, so it
   * starts with '0' only when it is "0".
   */
  function NatText(n: nat): (r: string)
    ensures IsInteger(r) && AllDigits(r)
    ensures DigitsValue(r) == n
    ensures r[0] == '0' <==> n == 0
    ensures n == 0 ==> r == "0"
  {
    if n < 10 then [DigitChar(n)]
    else
      var p := NatText(n / 10);
      var r := p + [DigitChar(n % 10)];
      assert r[..|r| - 1] == p;
      assert r[0] == p[0];
      r
  }

  /** n written with exactly `width` digits, leading zeros included. */
  function PadText(n: nat, width: nat): (r: string)
    requires n < Pow10(width)
    ensures |r| == width && AllDigits(r)
    ensures DigitsValue(r) == n
    ensures width > 0 ==> (r[width - 1] == '0' <==> n % 10 == 0)
  {
    if width == 0 then ""
    else
      var p := PadText(n / 10, width - 1);
      var r := p + [DigitChar(n % 10)];
      assert r[..|r| - 1] == p;
      r
  }

  // ---------------------------------------------------------------------
  // Exact decimal values
  // ---------------------------------------------------------------------

  datatype Decimal = Decimal(mantissa: nat, scale: nat)

  /** A decimal in lowest terms: no trailing zero after the decimal point. */
  type Dec = x: Decimal | x.scale == 0 || x.mantissa % 10 != 0 witness Decimal(0, 0)

  const ZeroDec: Dec := Decimal(0, 0)

  /** The value m / 10^s in lowest terms. */
  function Canon(m: nat, s: nat): (r: Dec)
    ensures r.scale <= s && r.mantissa * Pow10(s - r.scale) == m
    ensures m == 0 ==> r == ZeroDec
  {
    if s > 0 && m % 10 == 0 then
      var r := Canon(m / 10, s - 1);
      assert r.mantissa * Pow10(s - r.scale) == 10 * (r.mantissa * Pow10(s - 1 - r.scale));
      r
    else
      Decimal(m, s)
  }

  /** x as a whole number of units of 10^-e. */
  function Scaled(x: Dec, e: nat): nat
    requires x.scale <= e
  {
    x.mantissa * Pow10(e - x.scale)
  }

  /** Lowest terms are unique: reducing a multiple of x at any finer scale gives x back. */
  lemma {:induction false} CanonScaled(x: Dec, e: nat)
    requires x.scale <= e
    ensures Canon(Scaled(x, e), e) == x
    decreases e
  {
    if e > x.scale {
      var k := Scaled(x, e - 1);
      assert Pow10(e - x.scale) == 10 * Pow10(e - 1 - x.scale);
      MulComm10(x.mantissa, Pow10(e - 1 - x.scale));
      assert Scaled(x, e) == 10 * k;
      Times10(k);
      CanonScaled(x, e - 1);
    }
  }

  lemma Times10(k: nat)
    ensures (10 * k) % 10 == 0 && (10 * k) / 10 == k
  {
  }

  lemma ScaledZero(x: Dec, e: nat)
    requires x.scale <= e
    ensures Scaled(x, e) == 0 <==> x == ZeroDec
  {
  }

  /** Value comparison with a whole number: x < n. */
  predicate LessThan(x: Dec, n: nat) {
    x.mantissa < n * Pow10(x.scale)
  }

  // ---------------------------------------------------------------------
  // Decimal text
  // ---------------------------------------------------------------------

  /** The index of the first fraction separator, or |s| when there is none. */
  function SepIndex(s: string): (i: nat)
    ensures i <= |s|
    ensures forall j :: 0 <= j < i ==> !IsSep(s[j])
    ensures i < |s| ==> IsSep(s[i])
  {
    if s == [] || IsSep(s[0]) then 0 else 1 + SepIndex(s[1..])
  }

  /**
   * strconv.FormatFloat(x, 'f', -1, 64) for a value it prints exactly: the
   * integer digits, then '.' and the fraction digits when there is a fraction.
   */
  function Text(x: Dec): (r: string)
    ensures IsFractional(r)
    ensures forall i :: 0 <= i < |r| ==> r[i] != ','
  {
    var u := Pow10(x.scale);
    DivMod(x.mantissa, u);
    var ip := NatText(x.mantissa / u);
    if x.scale == 0 then ip
    else
      var fp := PadText(x.mantissa % u, x.scale);
      Join(ip, fp);
      ip + "." + fp
  }

  /** An integer part, '.', and a fraction part make a numeral without ','. */
  lemma Join(ip: string, fp: string)
    requires IsInteger(ip) && IsInteger(fp)
    ensures var r := ip + "." + fp;
      && r[..|ip|] == ip && r[|ip|] == '.' && r[|ip| + 1..] == fp
      && IsFractional(r)
      && forall i :: 0 <= i < |r| ==> r[i] != ','
  {
    var r := ip + "." + fp;
    assert r[..|ip|] == ip && r[|ip| + 1..] == fp;
    forall i | 0 <= i < |r| ensures r[i] != ',' {
      if i < |ip| {
        assert r[i] == ip[i];
      } else if i > |ip| {
        assert r[i] == fp[i - |ip| - 1];
      }
    }
  }

  /** The exact value of a numeral `\d+([.,]\d+)?`, in lowest terms. */
  function Read(s: string): (r: Dec)
    requires IsFractional(s)
  {
    var i := SepIndex(s);
    if i == |s| then Canon(DigitsValue(s), 0)
    else
      assert AllDigits(s[..i]) && AllDigits(s[i + 1..]) by { SepOfFractional(s); }
      ReadParts(s[..i], s[i + 1..])
  }

  /** The value of the digits ip, a separator, then the digits fp. */
  function ReadParts(ip: string, fp: string): Dec
    requires AllDigits(ip) && AllDigits(fp)
  {
    Canon(DigitsValue(ip) * Pow10(|fp|) + DigitsValue(fp), |fp|)
  }

  /** SepIndex is the one index before which no separator occurs and at which one does. */
  lemma {:induction false} SepIndexIs(s: string, k: nat)
    requires k <= |s|
    requires forall j :: 0 <= j < k ==> !IsSep(s[j])
    requires k < |s| ==> IsSep(s[k])
    ensures SepIndex(s) == k
  {
    if k > 0 {
      assert !IsSep(s[0]);
      assert forall j :: 0 <= j < k - 1 ==> s[1..][j] == s[j + 1];
      SepIndexIs(s[1..], k - 1);
    }
  }

  lemma SepOfInteger(s: string)
    requires AllDigits(s)
    ensures SepIndex(s) == |s|
  {
    SepIndexIs(s, |s|);
  }

  lemma SepOfSplit(s: string, k: nat)
    requires 0 < k < |s| && IsSep(s[k]) && IsInteger(s[..k])
    ensures SepIndex(s) == k
  {
    forall j | 0 <= j < k ensures !IsSep(s[j]) {
      assert s[..k][j] == s[j];
    }
    SepIndexIs(s, k);
  }

  lemma SepOfFractional(s: string)
    requires IsFractional(s)
    ensures SepIndex(s) == |s| ==> IsInteger(s)
    ensures SepIndex(s) < |s| ==> IsInteger(s[..SepIndex(s)]) && IsInteger(s[SepIndex(s) + 1..])
  {
    if IsInteger(s) {
      SepOfInteger(s);
    } else {
      var k :| 0 < k < |s| && IsSep(s[k]) && IsInteger(s[..k]) && IsInteger(s[k + 1..]);
      SepOfSplit(s, k);
    }
  }

  /** Printing then reading gives the value back. */
  lemma ReadText(x: Dec)
    ensures Read(Text(x)) == x
  {
    var u := Pow10(x.scale);
    var q, rem := x.mantissa / u, x.mantissa % u;
    DivMod(x.mantissa, u);
    var ip := NatText(q);
    var r := Text(x);
    if x.scale == 0 {
      SepOfInteger(r);
      assert Read(r) == Canon(x.mantissa, 0);
    } else {
      var fp := PadText(rem, x.scale);
      assert r == ip + "." + fp;
      assert r[..|ip|] == ip && r[|ip| + 1..] == fp;
      SepOfSplit(r, |ip|);
      assert |r| - |ip| - 1 == x.scale;
      assert DigitsValue(ip) * u + DigitsValue(fp) == x.mantissa;
      assert Scaled(x, x.scale) == x.mantissa;
      CanonScaled(x, x.scale);
    }
  }

  lemma DivMod(m: nat, u: nat)
    requires u > 0
    ensures 0 <= m / u && 0 <= m % u < u && (m / u) * u + m % u == m
  {
  }

  lemma DigitsUnchanged(s: string)
    requires AllDigits(s)
    ensures ReplaceCommas(s) == s
  {
  }

  /** Reading ignores which separator the numeral uses. */
  lemma ReadReplace(s: string)
    requires IsFractional(s)
    ensures IsFractional(ReplaceCommas(s))
    ensures Read(ReplaceCommas(s)) == Read(s)
  {
    var t := ReplaceCommas(s);
    var i := SepIndex(s);
    SepOfFractional(s);
    if i < |s| {
      ReplaceSlices(s, i);
      ReplaceSlices(s, i + 1);
      DigitsUnchanged(s[..i]);
      DigitsUnchanged(s[i + 1..]);
      assert t[..i] == s[..i] && t[i + 1..] == s[i + 1..];
      assert IsSep(t[i]);
      SepOfSplit(t, i);
      assert IsInteger(t[i + 1..]);
    } else {
      DigitsUnchanged(s);
    }
  }
}
