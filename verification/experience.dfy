/**
  `ExperienceValidator`: the pattern `(\d+(?:\.\d+)?)\s*(?:years?|yrs?)`
  searched in the lower-cased text, the singular "1 year" decision on the value
  of the matched numeral, and the 0..50 range check of `is_valid_experience`.

  The numeral the pattern captures is determined by where the match starts: a
  numeral that stopped early would leave a digit or a '.' in front of the unit,
  and neither is whitespace nor 'y'.
 */
module Experience {

  import opened Wrappers
  import opened Text
  import opened Search
  import opened Values

  const Units: set<string> := {"year", "years", "yr", "yrs"}

  /** t[s..d] is digits, t[d] is '.', and t[d + 1..u] is digits. */
  predicate DecimalPointAt(t: string, s: nat, d: nat, u: nat)
    requires s <= d < u <= |t|
  {
    All(t, s, d, IsDigit) && t[d] == '.' && All(t, d + 1, u, IsDigit)
  }

  /** t[s..u] is `\d+(?:\.\d+)?`. */
  ghost predicate IsNumeral(t: string, s: nat, u: nat) {
    && s < u <= |t|
    && (|| All(t, s, u, IsDigit)
        || exists d: nat | s < d && d + 1 < u :: DecimalPointAt(t, s, d, u))
  }

  /** The pattern matches t[s..e] when tried at s, with group 1 being t[s..u]. */
  ghost predicate IsExpMatch(t: string, s: nat, u: nat, e: nat) {
    && IsNumeral(t, s, u)
    && exists w: nat | u <= w <= e <= |t| :: All(t, u, w, IsSpace) && t[w..e] in Units
  }

  /** Where group 1 ends: the digit run, and a '.' with the digit run after it when there is one. */
  function NumeralEnd(t: string, s: nat): (u: nat)
    requires s <= |t|
    ensures s <= u <= |t|
  {
    var d := SpanEnd(t, s, IsDigit);
    if d + 1 < |t| && t[d] == '.' && IsDigit(t[d + 1]) then SpanEnd(t, d + 1, IsDigit) else d
  }

  /** `years?|yrs?` at w: the alternatives in order, each taking the optional 's' when it is there. */
  function UnitEnd(t: string, w: nat): (r: Option<nat>)
    ensures r.Some? ==> w <= r.value <= |t| && t[w..r.value] in Units
  {
    if HasAt(t, w, "years") then Some(w + 5)
    else if HasAt(t, w, "year") then Some(w + 4)
    else if HasAt(t, w, "yrs") then Some(w + 3)
    else if HasAt(t, w, "yr") then Some(w + 2)
    else None
  }

  /** Where the pieces of a match lie: the end of group 1 and the end of the match. */
  datatype ExpParts = ExpParts(numEnd: nat, end: nat)

  /** The pattern tried at position s alone. */
  function ExpScan(t: string, s: nat): (r: Option<ExpParts>)
    ensures r.Some? ==> IsExpMatch(t, s, r.value.numEnd, r.value.end)
  {
    if s >= |t| || !IsDigit(t[s]) then None
    else
      var u := NumeralEnd(t, s);
      var w := SpanEnd(t, u, IsSpace);
      match UnitEnd(t, w)
      case None => None
      case Some(e) =>
        var d := SpanEnd(t, s, IsDigit);
        assert IsNumeral(t, s, u) by {
          if u != d {
            assert DecimalPointAt(t, s, d, u);
          }
        }
        Some(ExpParts(u, e))
  }

  /** Just before a unit, after optional whitespace, stands whitespace or the unit's 'y'. */
  lemma BeforeUnit(t: string, u: nat, w: nat, e: nat)
    requires u <= w <= e <= |t| && All(t, u, w, IsSpace) && t[w..e] in Units
    ensures w < |t| && t[w] == 'y'
    ensures u < |t| && !IsDigit(t[u]) && t[u] != '.'
    ensures SpanEnd(t, u, IsSpace) == w
    ensures UnitEnd(t, w).Some? && e <= UnitEnd(t, w).value
  {
    assert t[w..e][0] == t[w];
    if u < w {
      assert IsSpace(t[u]);
    }
    SpanEndExact(t, u, w, IsSpace);
    assert HasAt(t, w, t[w..e]);
  }

  /** Group 1 of a match at s ends where NumeralEnd says. */
  lemma NumeralDetermined(t: string, s: nat, u: nat, e: nat)
    requires IsExpMatch(t, s, u, e)
    ensures NumeralEnd(t, s) == u
  {
    var w: nat :| u <= w <= e <= |t| && All(t, u, w, IsSpace) && t[w..e] in Units;
    BeforeUnit(t, u, w, e);
    if All(t, s, u, IsDigit) {
      SpanEndExact(t, s, u, IsDigit);
    } else {
      var d: nat :| s < d && d + 1 < u && DecimalPointAt(t, s, d, u);
      SpanEndExact(t, s, d, IsDigit);
      assert IsDigit(t[d + 1]);
      SpanEndExact(t, d + 1, u, IsDigit);
    }
  }

  /** Whenever the pattern matches at s, the scanner finds the same group 1 and a match at least as long. */
  lemma ExpScanComplete(t: string, s: nat, u: nat, e: nat)
    requires IsExpMatch(t, s, u, e)
    ensures ExpScan(t, s).Some?
    ensures ExpScan(t, s).value.numEnd == u && e <= ExpScan(t, s).value.end
  {
    var w: nat :| u <= w <= e <= |t| && All(t, u, w, IsSpace) && t[w..e] in Units;
    BeforeUnit(t, u, w, e);
    NumeralDetermined(t, s, u, e);
  }

  /** `re.search` of the experience pattern. */
  function FindExp(t: string): (r: Option<Found<ExpParts>>)
    ensures r.None? <==> forall s: nat, u: nat, e: nat :: !IsExpMatch(t, s, u, e)
    ensures r.Some? ==> IsExpMatch(t, r.value.start, r.value.parts.numEnd, r.value.parts.end)
    ensures r.Some? ==> forall s: nat, u: nat, e: nat | s < r.value.start :: !IsExpMatch(t, s, u, e)
    ensures r.Some? ==> forall u: nat, e: nat | IsExpMatch(t, r.value.start, u, e) ::
                          u == r.value.parts.numEnd && e <= r.value.parts.end
  {
    var r := Leftmost(t, 0, ExpScan);
    assert r.None? ==> forall s: nat, u: nat, e: nat :: !IsExpMatch(t, s, u, e) by {
      forall s: nat, u: nat, e: nat | r.None? && IsExpMatch(t, s, u, e) ensures false {
        ExpScanComplete(t, s, u, e);
      }
    }
    assert r.Some? ==> forall s: nat, u: nat, e: nat | s < r.value.start :: !IsExpMatch(t, s, u, e) by {
      forall s: nat, u: nat, e: nat | r.Some? && s < r.value.start && IsExpMatch(t, s, u, e) ensures false {
        ExpScanComplete(t, s, u, e);
      }
    }
    assert r.Some? ==> forall u: nat, e: nat | IsExpMatch(t, r.value.start, u, e) ::
                         u == r.value.parts.numEnd && e <= r.value.parts.end by {
      forall u: nat, e: nat | r.Some? && IsExpMatch(t, r.value.start, u, e)
        ensures u == r.value.parts.numEnd && e <= r.value.parts.end {
        ExpScanComplete(t, r.value.start, u, e);
      }
    }
    r
  }

  /** The pattern matches somewhere in t. */
  ghost predicate HasExpMatch(t: string) {
    exists s: nat, u: nat, e: nat :: IsExpMatch(t, s, u, e)
  }

  /** The pattern matches t at s with group 1 ending at u, and at no earlier position. */
  ghost predicate IsLeftmostGroup(t: string, s: nat, u: nat) {
    && (exists e: nat :: IsExpMatch(t, s, u, e))
    && forall s0: nat, u0: nat, e0: nat | s0 < s :: !IsExpMatch(t, s0, u0, e0)
  }

  /** The text of a numeral on its own: digits, or digits, '.', digits. */
  ghost predicate IsNumeralText(num: string) {
    IsNumeral(num, 0, |num|)
  }

  /** A numeral cut out of the text is a numeral on its own. */
  lemma NumeralCutOut(t: string, s: nat, u: nat)
    requires IsNumeral(t, s, u)
    ensures IsNumeralText(t[s..u])
  {
    var num := t[s..u];
    assert forall k | 0 <= k < |num| :: num[k] == t[s + k];
    if !All(t, s, u, IsDigit) {
      var d: nat :| s < d && d + 1 < u && DecimalPointAt(t, s, d, u);
      assert DecimalPointAt(num, 0, d - s, |num|);
    }
  }

  /** Group 1 of `re.search(pattern, t)`: the numeral of the leftmost match. */
  function MatchedNumeral(t: string): (r: Option<string>)
    ensures r.None? <==> forall s: nat, u: nat, e: nat :: !IsExpMatch(t, s, u, e)
    ensures r.Some? ==> IsNumeralText(r.value)
    ensures r.Some? ==> FindExp(t).Some? && r.value == t[FindExp(t).value.start..FindExp(t).value.parts.numEnd]
  {
    match FindExp(t)
    case None => None
    case Some(f) =>
      NumeralCutOut(t, f.start, f.parts.numEnd);
      Some(t[f.start..f.parts.numEnd])
  }

  function DigitValue(c: char): nat {
    if IsDigit(c) then (c as int - '0' as int) else 0
  }

  /** The value of a string of decimal digits. */
  function DigitsValue(ds: string): nat {
    if ds == [] then 0 else 10 * DigitsValue(ds[..|ds| - 1]) + DigitValue(ds[|ds| - 1])
  }

  function Pow10(n: nat): (r: nat)
    ensures r >= 1
  {
    if n == 0 then 1 else 10 * Pow10(n - 1)
  }

  /** The exact value of a numeral: `float(group(1))` before rounding. */
  function DecimalValue(num: string): (v: real)
    ensures v >= 0.0
  {
    var d := SpanEnd(num, 0, IsDigit);
    if d + 1 < |num| then
      DigitsValue(num[..d]) as real + DigitsValue(num[d + 1..]) as real / Pow10(|num| - d - 1) as real
    else
      DigitsValue(num[..d]) as real
  }

  predicate IsZeroDigit(c: char) {
    c == '0'
  }

  predicate IsZeroOrPoint(c: char) {
    c == '.' || c == '0'
  }

  /** The spelling of one: the integer part is zeros and then a '1', and the fraction, if any, is zeros. */
  ghost predicate IsOneNumeral(num: string) {
    var d := SpanEnd(num, 0, IsDigit);
    && 1 <= d
    && num[d - 1] == '1'
    && All(num, 0, d - 1, IsZeroDigit)
    && All(num, d, |num|, IsZeroOrPoint)
  }

  /** A string of n digits is worth less than 10^n. */
  lemma {:induction false} DigitsBelowPow10(ds: string)
    ensures DigitsValue(ds) < Pow10(|ds|)
  {
    if ds != [] {
      DigitsBelowPow10(ds[..|ds| - 1]);
    }
  }

  /** Digits are worth zero exactly when they are all '0'. */
  lemma {:induction false} DigitsZero(ds: string)
    requires All(ds, 0, |ds|, IsDigit)
    ensures DigitsValue(ds) == 0 <==> All(ds, 0, |ds|, IsZeroDigit)
  {
    if ds != [] {
      var p := ds[..|ds| - 1];
      assert forall k | 0 <= k < |p| :: p[k] == ds[k];
      DigitsZero(p);
    }
  }

  /** Digits are worth one exactly when they are zeros followed by a final '1'. */
  lemma DigitsOne(ds: string)
    requires All(ds, 0, |ds|, IsDigit)
    ensures DigitsValue(ds) == 1 <==> |ds| >= 1 && ds[|ds| - 1] == '1' && All(ds, 0, |ds| - 1, IsZeroDigit)
  {
    if ds != [] {
      var p := ds[..|ds| - 1];
      assert forall k | 0 <= k < |p| :: p[k] == ds[k];
      DigitsZero(p);
    }
  }

  /** An integer part plus a proper fraction is one exactly when the integer part is one and the fraction zero. */
  lemma SumIsOne(i: nat, f: nat, p: nat)
    requires f < p
    ensures i as real + f as real / p as real == 1.0 <==> i == 1 && f == 0
  {
    var x := f as real / p as real;
    assert x * p as real == f as real;
    assert 0.0 <= x < 1.0;
  }

  /** `years != 1` decided on the spelling: a numeral is worth exactly one iff it is spelled as one. */
  lemma DecimalValueOne(num: string)
    requires IsNumeralText(num)
    ensures DecimalValue(num) == 1.0 <==> IsOneNumeral(num)
  {
    var d := SpanEnd(num, 0, IsDigit);
    var ip := num[..d];
    assert forall k | 0 <= k < |ip| :: ip[k] == num[k];
    DigitsOne(ip);
    if All(num, 0, |num|, IsDigit) {
      SpanEndExact(num, 0, |num|, IsDigit);
    } else {
      var q: nat :| 0 < q && q + 1 < |num| && DecimalPointAt(num, 0, q, |num|);
      SpanEndExact(num, 0, q, IsDigit);
      FractionZero(num, d);
      var fp := num[d + 1..];
      DigitsBelowPow10(fp);
      SumIsOne(DigitsValue(ip), DigitsValue(fp), Pow10(|fp|));
    }
  }

  /** The fraction after the point at d is worth zero exactly when everything from d on is '.' or '0'. */
  lemma FractionZero(num: string, d: nat)
    requires 0 < d && d + 1 < |num| && DecimalPointAt(num, 0, d, |num|)
    ensures DigitsValue(num[d + 1..]) == 0 <==> All(num, d, |num|, IsZeroOrPoint)
  {
    var fp := num[d + 1..];
    assert forall k | 0 <= k < |fp| :: fp[k] == num[d + 1 + k];
    DigitsZero(fp);
  }

  /**
    `f"{years} years" if years != 1 else "1 year"` for the numeral num, where
    `render` stands for the text of `float(num)`.
   */
  function YearsPhrase(num: string, render: string -> string): (r: string)
    requires IsNumeralText(num)
    ensures r == if IsOneNumeral(num) then "1 year" else render(num) + " years"
  {
    DecimalValueOne(num);
    if DecimalValue(num) != 1.0 then render(num) + " years" else "1 year"
  }

  /** `ExperienceValidator.extract_experience` */
  function ExtractExperience(text: string, render: string -> string): (r: Option<string>)
    ensures r.None? <==> text == [] || MatchedNumeral(Lower(text)).None?
    ensures r.Some? ==> r.value == YearsPhrase(MatchedNumeral(Lower(text)).value, render)
  {
    if text == [] then None
    else
      match MatchedNumeral(Lower(text))
      case None => None
      case Some(num) => Some(YearsPhrase(num, render))
  }

  /** Text without " year" holds no " years" either, so neither removal touches it. */
  lemma YearsAbsent(s: string)
    ensures !Contains(s, " year") ==> RemoveAll(RemoveAll(s, " years"), " year") == s
  {
    if !Contains(s, " year") {
      forall i: nat | i <= |s| && HasAt(s, i, " years") ensures HasAt(s, i, " year") {
        assert s[i..i + 4 + 1] == s[i..i + 6][..5];
      }
      RemoveAllAbsent(s, " years");
      RemoveAllAbsent(s, " year");
    }
  }

  /**
    `ExperienceValidator.is_valid_experience`. `parse` stands for `float()`:
    None where it raises `ValueError`. A value that is not text has no
    `replace` and is rejected.
   */
  function IsValidExperience(years: Value, parse: string -> Option<real>): (r: bool)
    ensures years.NonText? ==> !r
    ensures years.Text? && !Contains(years.s, " year") ==>
              (r <==> parse(years.s).Some? && 0.0 <= parse(years.s).value <= 50.0)
  {
    match years
    case NonText(_) => false
    case Text(s) =>
      YearsAbsent(s);
      var x := parse(RemoveAll(RemoveAll(s, " years"), " year"));
      x.Some? && 0.0 <= x.value <= 50.0
  }

  /** A numeral holds no space. */
  lemma NumeralHasNoSpace(num: string)
    requires IsNumeralText(num)
    ensures ' ' !in num
  {
    forall k | 0 <= k < |num| ensures IsDigit(num[k]) || num[k] == '.' {
      if !All(num, 0, |num|, IsDigit) {
        var d: nat :| 0 < d && d + 1 < |num| && DecimalPointAt(num, 0, d, |num|);
      }
    }
  }

  /**
    Validating "N years" for a numeral N checks N's value against the range,
    given a `parse` that reads numerals exactly.
   */
  lemma ValidateNumeralYears(num: string, parse: string -> Option<real>)
    requires IsNumeralText(num)
    requires parse(num) == Some(DecimalValue(num))
    ensures IsValidExperience(Text(num + " years"), parse) <==> DecimalValue(num) <= 50.0
  {
    NumeralHasNoSpace(num);
    RemoveAllSuffix(num, " years");
    RemoveAllSuffix(num, " year");
  }

  /** Both removals leave the number of "1 year". */
  lemma SingularRemoved()
    ensures RemoveAll(RemoveAll("1 year", " years"), " year") == "1"
  {
    assert "1 year" == "1" + " year";
    assert "1 year"[1..] == " year" && "1 year"[0] != " years"[0];
    RemoveAllShort(" year", " years");
    RemoveAllSuffix("1", " year");
  }

  /**
    The phrase `extract_experience` produces is accepted by
    `is_valid_experience` exactly when the value is at most 50, given that
    `parse` reads back what `render` writes and reads "1" as one.
   */
  lemma PhraseThenValidate(num: string, render: string -> string, parse: string -> Option<real>)
    requires IsNumeralText(num)
    requires ' ' !in render(num)
    requires parse(render(num)) == Some(DecimalValue(num))
    requires parse("1") == Some(1.0)
    ensures IsValidExperience(Text(YearsPhrase(num, render)), parse) <==> DecimalValue(num) <= 50.0
  {
    DecimalValueOne(num);
    if IsOneNumeral(num) {
      SingularRemoved();
    } else {
      RemoveAllSuffix(render(num), " years");
      RemoveAllSuffix(render(num), " year");
    }
  }

  /**
    What `extract_experience` returns, `is_valid_experience` accepts exactly
    when the matched value is at most 50 (same assumptions on parse and render).
   */
  lemma ExtractThenValidate(text: string, render: string -> string, parse: string -> Option<real>)
    requires ExtractExperience(text, render).Some?
    requires ' ' !in render(MatchedNumeral(Lower(text)).value)
    requires parse(render(MatchedNumeral(Lower(text)).value)) == Some(DecimalValue(MatchedNumeral(Lower(text)).value))
    requires parse("1") == Some(1.0)
    ensures IsValidExperience(Text(ExtractExperience(text, render).value), parse)
            <==> DecimalValue(MatchedNumeral(Lower(text)).value) <= 50.0
  {
    PhraseThenValidate(MatchedNumeral(Lower(text)).value, render, parse);
  }

  /** In "1 yr" the pattern matches at 0, with the numeral "1". */
  lemma OneYrNumeral()
    ensures Lower("1 yr") == "1 yr"
    ensures MatchedNumeral("1 yr") == Some("1")
  {
    assert SpanEnd("1 yr", 0, IsDigit) == 1;
    assert SpanEnd("1 yr", 1, IsSpace) == 2;
    assert HasAt("1 yr", 2, "yr");
    assert ExpScan("1 yr", 0) == Some(ExpParts(1, 4));
  }

  /** "1 yr" gives the singular. */
  lemma OneYrSingular(render: string -> string)
    ensures ExtractExperience("1 yr", render) == Some("1 year")
  {
    OneYrNumeral();
    assert SpanEnd("1", 0, IsDigit) == 1;
  }

  /** "01" and "1.00" are worth one and give the singular; "10" and "0.1" do not. */
  lemma OneSpellings(render: string -> string)
    ensures YearsPhrase("01", render) == "1 year"
    ensures IsNumeralText("1.00") && YearsPhrase("1.00", render) == "1 year"
    ensures YearsPhrase("10", render) == render("10") + " years"
    ensures IsNumeralText("0.1") && YearsPhrase("0.1", render) == render("0.1") + " years"
  {
    assert SpanEnd("01", 0, IsDigit) == 2;
    assert SpanEnd("10", 0, IsDigit) == 2;
    assert SpanEnd("1.00", 0, IsDigit) == 1;
    assert DecimalPointAt("1.00", 0, 1, 4);
    assert SpanEnd("0.1", 0, IsDigit) == 1;
    assert DecimalPointAt("0.1", 0, 1, 3);
  }

}
