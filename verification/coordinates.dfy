/**
 Conversion of a decimal-degree coordinate into degrees, minutes and seconds
 (DMS), as `convert` does it: every step truncates toward zero, so for a
 negative input every non-zero component is negative (a zero component, and
 the degree of an input between -1 and 0, print as `0` with no sign), and
 the seconds are rounded to one decimal digit without carrying into the
 minutes.

 Arithmetic is exact (`real`); float64 representation is not modelled.
 */
module Coordinates {
  import opened Numerals

  /** Truncation toward zero (`math.Trunc`), defined from `Floor`. */
  function Trunc(x: real): (t: int)
    ensures 0.0 <= x ==> t as real <= x < t as real + 1.0
    ensures x < 0.0 ==> t as real - 1.0 < x <= t as real
  {
    if x >= 0.0 then x.Floor else -((-x).Floor)
  }

  /** Truncation commutes with negation (unlike `Floor`). */
  lemma TruncNegate(x: real)
    ensures Trunc(-x) == -Trunc(x)
  {
  }

  /** The three unrounded components `convert` computes. */
  datatype Dms = Dms(degree: int, minute: int, second: real)

  function Negate(d: Dms): Dms {
    Dms(-d.degree, -d.minute, -d.second)
  }

  /**
   The decomposition of `convert`: degree truncated, the fraction scaled by
   60 and truncated to the minute, the rest scaled by 60 to the second.
   Under exact arithmetic it reconstructs the input.
   */
  function Decompose(n: real): (d: Dms)
    ensures d.degree as real + d.minute as real / 60.0 + d.second / 3600.0 == n
  {
    var degree := Trunc(n);
    var leftover := (n - degree as real) * 60.0;
    var minute := Trunc(leftover);
    Dms(degree, minute, (leftover - minute as real) * 60.0)
  }

  /** A DMS value whose components are all non-negative and in range. */
  predicate InRange(d: Dms) {
    0 <= d.degree && 0 <= d.minute < 60 && 0.0 <= d.second < 60.0
  }

  /** For a non-negative input every component is non-negative, and minute and second are below 60. */
  lemma DecomposeNonNegative(n: real)
    requires 0.0 <= n
    ensures InRange(Decompose(n))
  {
    var d := Decompose(n);
    var leftover := (n - d.degree as real) * 60.0;
    assert 0.0 <= leftover < 60.0;
  }

  /** For a negative input no floor is applied: every component is at most zero and above -60. */
  lemma DecomposeNegative(n: real)
    requires n < 0.0
    ensures InRange(Negate(Decompose(n)))
  {
    var d := Decompose(n);
    var leftover := (n - d.degree as real) * 60.0;
    assert -60.0 < leftover <= 0.0;
  }

  /** Negating the input negates every component. */
  lemma {:induction false} DecomposeNegate(n: real)
    ensures Decompose(-n) == Negate(Decompose(n))
  {
    TruncNegate(n);
    var leftover := (n - Trunc(n) as real) * 60.0;
    TruncNegate(leftover);
    assert (-n - Trunc(-n) as real) * 60.0 == -leftover;
  }

  /**
   `Decompose` is THE sign-magnitude DMS decomposition: any components in
   range (all non-negative, or all non-positive) that reconstruct `n` are the
   ones it returns.
   */
  lemma DecomposeUnique(n: real, d: Dms)
    requires d.degree as real + d.minute as real / 60.0 + d.second / 3600.0 == n
    requires InRange(d) || InRange(Negate(d))
    ensures Decompose(n) == d
  {
    if InRange(d) {
      UniqueNonNegative(n, d);
    } else {
      UniqueNonNegative(-n, Negate(d));
      DecomposeNegate(-n);
      assert Negate(Negate(d)) == d;
    }
  }

  lemma UniqueNonNegative(n: real, d: Dms)
    requires d.degree as real + d.minute as real / 60.0 + d.second / 3600.0 == n
    requires InRange(d)
    ensures Decompose(n) == d
  {
    var rest := d.minute as real / 60.0 + d.second / 3600.0;
    assert 0.0 <= rest < 1.0;
    assert Trunc(n) == d.degree;
    var leftover := (n - d.degree as real) * 60.0;
    assert leftover == d.minute as real + d.second / 60.0;
    assert Trunc(leftover) == d.minute;
  }

  /**
   Rounding to the nearest integer, ties to even: how Go's `%.1f` rounds the
   exact value of its operand (scaled by ten) to one decimal digit.
   */
  function RoundHalfEven(x: real): (r: int)
    ensures x - 0.5 <= r as real <= x + 0.5
    ensures (r as real - x == 0.5 || x - r as real == 0.5) ==> r % 2 == 0
  {
    var f := x.Floor;
    var frac := x - f as real;
    if frac < 0.5 then f
    else if frac > 0.5 then f + 1
    else if f % 2 == 0 then f
    else f + 1
  }

  function Abs(x: real): real {
    if x < 0.0 then -x else x
  }

  /**
   What `convert` prints: the integer degree and minute, and the seconds as
   a sign and a magnitude counted in tenths.
   */
  datatype Rendered = Rendered(degree: int, minute: int, negative: bool, tenths: nat)

  function Render(n: real): (r: Rendered)
    ensures r.degree == Decompose(n).degree && r.minute == Decompose(n).minute
    ensures r.negative <==> Decompose(n).second < 0.0
    ensures Abs(r.tenths as real - 10.0 * Abs(Decompose(n).second)) <= 0.5
  {
    var d := Decompose(n);
    var t := RoundHalfEven(10.0 * Abs(d.second));
    Rendered(d.degree, d.minute, d.second < 0.0, t)
  }

  /**
   The printed seconds of a non-negative input lie in [0.0, 60.0]: the upper
   end is reached (no carry into the minute), nothing above it.
   */
  lemma RenderSecondsBound(n: real)
    requires 0.0 <= n
    ensures !Render(n).negative && Render(n).tenths <= 600
  {
    DecomposeNonNegative(n);
  }

  /** Text that holds neither of the output record's separators (comma, line break). */
  predicate NoSeparator(s: string) {
    forall i | 0 <= i < |s| :: s[i] != ',' && s[i] != '\n'
  }

  lemma NoSeparatorConcat(a: string, b: string)
    requires NoSeparator(a) && NoSeparator(b)
    ensures NoSeparator(a + b)
  {
    assert forall i | |a| <= i < |a + b| :: (a + b)[i] == b[i - |a|];
  }

  lemma IntTextNoSeparator(i: int, unit: string)
    requires NoSeparator(unit)
    ensures NoSeparator(IntText(i) + unit)
  {
    var t := IntText(i);
    assert NoSeparator(t) by {
      forall k | 0 <= k < |t| ensures t[k] != ',' && t[k] != '\n' {
        assert IsDigit(t[k]) || t[k] == '-';
      }
    }
    NoSeparatorConcat(t, unit);
  }

  /** `%3.1f` of a seconds value: sign, whole seconds, a point, one digit. */
  function SecondsText(negative: bool, tenths: nat): (s: string)
    ensures NoSeparator(s)
  {
    var whole := NatText(tenths / 10) + "." + [DigitChar(tenths % 10)];
    assert NoSeparator(whole);
    if negative then
      NoSeparatorConcat("-", whole);
      "-" + whole
    else whole
  }

  /** The DMS text: degree, `°`, minute, `'`, seconds, `"`. */
  function Text(r: Rendered): (s: string)
    ensures NoSeparator(s)
  {
    var degree := IntText(r.degree) + "°";
    var minute := IntText(r.minute) + "'";
    var second := SecondsText(r.negative, r.tenths) + "\"";
    IntTextNoSeparator(r.degree, "°");
    IntTextNoSeparator(r.minute, "'");
    NoSeparatorConcat(SecondsText(r.negative, r.tenths), "\"");
    NoSeparatorConcat(degree, minute);
    NoSeparatorConcat(degree + minute, second);
    degree + minute + second
  }

  /** `convert`: the DMS text of a decimal-degree value. It never holds a comma or a line break. */
  function Convert(n: real): (s: string)
    ensures NoSeparator(s)
  {
    Text(Render(n))
  }

  /** Index of the first `c` in `s`, or -1 when it has none. */
  function IndexOf(s: string, c: char): (i: int)
    ensures -1 <= i < |s|
    ensures i >= 0 ==> s[i] == c
    ensures forall j | 0 <= j < |s| && (i < 0 || j < i) :: s[j] != c
  {
    if |s| == 0 then -1
    else if s[0] == c then 0
    else
      var k := IndexOf(s[1..], c);
      assert forall j | 1 <= j < |s| :: s[j] == s[1..][j - 1];
      if k < 0 then -1 else k + 1
  }

  lemma IndexOfAfter(x: string, c: char, y: string)
    requires forall k | 0 <= k < |x| :: x[k] != c
    ensures IndexOf(x + [c] + y, c) == |x|
  {
    assert (x + [c] + y)[|x|] == c;
  }

  /**
   Reads the seconds of a DMS text back: an optional minus sign, at least
   one digit of whole seconds, a point and exactly one digit of tenths.
   */
  function ParseSeconds(s: string): Option<(bool, nat)> {
    if |s| < 3 || s[|s| - 2] != '.' || !IsDigit(s[|s| - 1]) then None
    else
      var whole := s[..|s| - 2];
      var negative := whole[0] == '-';
      var digits := if negative then whole[1..] else whole;
      if |digits| == 0 || !AllDigits(digits) then None
      else Some((negative, DigitsValue(digits) * 10 + (s[|s| - 1] as int - '0' as int)))
  }

  /** Reads the part of a DMS text after `°`: the signed minute up to the first `'`, the seconds and a closing `"`. */
  function ParseMinuteSeconds(s: string): Option<(int, bool, nat)> {
    var j := IndexOf(s, '\'');
    if j < 0 || j == |s| - 1 || s[|s| - 1] != '"' then None
    else
      var minute := ParseInt(s[..j]);
      var seconds := ParseSeconds(s[j + 1..|s| - 1]);
      if minute.None? || seconds.None? then None
      else Some((minute.value, seconds.value.0, seconds.value.1))
  }

  /** Reads a DMS text back: the signed degree up to the first `°`, then the minute and seconds. */
  function ParseDms(s: string): Option<Rendered> {
    var i := IndexOf(s, '°');
    if i < 0 then None
    else
      var degree := ParseInt(s[..i]);
      var rest := ParseMinuteSeconds(s[i + 1..]);
      if degree.None? || rest.None? then None
      else Some(Rendered(degree.value, rest.value.0, rest.value.1, rest.value.2))
  }

  /** The seconds text is a sign, whole seconds, a point and one digit, and reads back to what was printed. */
  lemma SecondsTextReadsBack(negative: bool, tenths: nat)
    ensures ParseSeconds(SecondsText(negative, tenths)) == Some((negative, tenths))
  {
    var w := NatText(tenths / 10);
    var whole := w + "." + [DigitChar(tenths % 10)];
    var s := SecondsText(negative, tenths);
    assert s == (if negative then "-" + w else w) + "." + [DigitChar(tenths % 10)];
    assert s[..|s| - 2] == (if negative then "-" + w else w);
    if negative {
      assert ("-" + w)[1..] == w;
    } else {
      assert IsDigit(w[0]);
    }
  }

  lemma IntTextWithout(i: int, c: char)
    requires c != '-' && !IsDigit(c)
    ensures forall k | 0 <= k < |IntText(i)| :: IntText(i)[k] != c
  {
  }

  lemma ParseMinuteSecondsParts(mt: string, st: string)
    requires forall k | 0 <= k < |mt| :: mt[k] != '\''
    requires ParseInt(mt).Some? && ParseSeconds(st).Some?
    ensures ParseMinuteSeconds(mt + "'" + st + "\"")
      == Some((ParseInt(mt).value, ParseSeconds(st).value.0, ParseSeconds(st).value.1))
  {
    var s := mt + "'" + st + "\"";
    assert s == mt + ['\''] + (st + "\"");
    IndexOfAfter(mt, '\'', st + "\"");
    assert s[..|mt|] == mt;
    assert s[|mt| + 1..|s| - 1] == st;
  }

  lemma ParseDmsParts(dt: string, rest: string)
    requires forall k | 0 <= k < |dt| :: dt[k] != '°'
    requires ParseInt(dt).Some? && ParseMinuteSeconds(rest).Some?
    ensures ParseDms(dt + "°" + rest)
      == Some(Rendered(ParseInt(dt).value, ParseMinuteSeconds(rest).value.0,
                       ParseMinuteSeconds(rest).value.1, ParseMinuteSeconds(rest).value.2))
  {
    var s := dt + "°" + rest;
    assert s == dt + ['°'] + rest;
    IndexOfAfter(dt, '°', rest);
    assert s[..|dt|] == dt;
    assert s[|dt| + 1..] == rest;
  }

  lemma TextParts(r: Rendered)
    ensures Text(r) == IntText(r.degree) + "°" + (IntText(r.minute) + "'" + SecondsText(r.negative, r.tenths) + "\"")
  {
  }

  /** The DMS text reads back to exactly the rendered degree, minute, seconds sign and tenths. */
  lemma TextReadsBack(r: Rendered)
    ensures ParseDms(Text(r)) == Some(r)
  {
    var dt, mt, st := IntText(r.degree), IntText(r.minute), SecondsText(r.negative, r.tenths);
    IntTextWithout(r.minute, '\'');
    ParseIntOfIntText(r.minute);
    SecondsTextReadsBack(r.negative, r.tenths);
    ParseMinuteSecondsParts(mt, st);
    IntTextWithout(r.degree, '°');
    ParseIntOfIntText(r.degree);
    ParseDmsParts(dt, mt + "'" + st + "\"");
    TextParts(r);
  }

  /** What `convert` prints reads back to its rendering of the input. */
  lemma ConvertReadsBack(n: real)
    ensures ParseDms(Convert(n)) == Some(Render(n))
  {
    TextReadsBack(Render(n));
  }

  /**
   Between -1 and 0 the degree truncates to zero, which has no sign: only
   the minute and the seconds show that the input is negative.
   */
  lemma RenderSmallNegative(n: real)
    requires -1.0 < n < 0.0
    ensures Render(n).degree == 0 && Render(n).minute <= 0
  {
    DecomposeNegative(n);
  }

  /** Latitude of Tokyo Station. */
  lemma ConvertTokyoLatitude()
    ensures Convert(35.681298) == "35°40'52.7\""
  {
    var d := Decompose(35.681298);
    assert d.degree == 35;
    assert d.minute == 40;
    assert Render(35.681298).tenths == 527;
    assert NatText(35) == "35";
    assert NatText(40) == "40";
    assert NatText(52) == "52";
  }

  /** Longitude of Tokyo Station. */
  lemma ConvertTokyoLongitude()
    ensures Convert(139.766247) == "139°45'58.5\""
  {
    var d := Decompose(139.766247);
    assert d.degree == 139;
    assert d.minute == 45;
    assert Render(139.766247).tenths == 585;
    assert NatText(139) == "139";
    assert NatText(45) == "45";
    assert NatText(58) == "58";
  }

  /** Seconds that round up to 60.0 are printed as 60.0; the minute is not incremented. */
  lemma ConvertNoCarry()
    ensures Convert(35.01666) == "35°0'60.0\""
  {
    var d := Decompose(35.01666);
    assert d.degree == 35;
    assert d.minute == 0;
    assert Render(35.01666).tenths == 600;
    assert NatText(35) == "35";
    assert NatText(0) == "0";
    assert NatText(60) == "60";
  }

  /** A negative input with no zero component prints a minus on every component. */
  lemma ConvertNegative()
    ensures Convert(-35.681298) == "-35°-40'-52.7\""
  {
    var d := Decompose(-35.681298);
    assert d.degree == -35;
    assert d.minute == -40;
    assert Render(-35.681298).tenths == 527;
    assert NatText(35) == "35";
    assert NatText(40) == "40";
    assert NatText(52) == "52";
  }

  /** Just west of Greenwich: the degree prints as `0` with no sign. */
  lemma ConvertSmallNegative()
    ensures Convert(-0.5) == "0°-30'0.0\""
  {
    var d := Decompose(-0.5);
    assert d.degree == 0;
    assert d.minute == -30;
    assert Render(-0.5).tenths == 0;
    assert NatText(0) == "0";
    assert NatText(30) == "30";
  }

  /** A whole negative degree: the zero minute and seconds print with no sign. */
  lemma ConvertWholeNegative()
    ensures Convert(-35.0) == "-35°0'0.0\""
  {
    var d := Decompose(-35.0);
    assert d.degree == -35;
    assert d.minute == 0;
    assert Render(-35.0).tenths == 0;
    assert NatText(35) == "35";
    assert NatText(0) == "0";
  }
}
