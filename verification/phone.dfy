/**
  `PhoneValidator.extract_phone`: the pattern `[\+]?[1-9]?[0-9]{7,14}` searched
  in the text once every '-' and every ' ' has been removed.

  Unrolled, the pattern accepts an optional '+', then either 7 to 14 digits, or
  15 digits of which the first is not '0' (the `[1-9]?` taking one and
  `[0-9]{7,14}` the other fourteen).
 */
module Phone {

  import opened Wrappers
  import opened Text
  import opened Search

  predicate NotDash(c: char) {
    c != '-'
  }

  predicate NotBlank(c: char) {
    c != ' '
  }

  /** `text.replace('-', '').replace(' ', '')` */
  function CleanPhoneText(text: string): (r: string)
    ensures |r| <= |text|
    ensures forall c :: c in r <==> c in text && c != '-' && c != ' '
    ensures ('-' !in text && ' ' !in text) ==> r == text
  {
    Filter(Filter(text, NotDash), NotBlank)
  }

  /** Cleaning works character by character: the cleaned text of a concatenation is the concatenation of the cleaned parts. */
  lemma CleanPhoneTextAppend(a: string, b: string)
    ensures CleanPhoneText(a + b) == CleanPhoneText(a) + CleanPhoneText(b)
  {
    FilterAppend(a, b, NotDash);
    FilterAppend(Filter(a, NotDash), Filter(b, NotDash), NotBlank);
  }

  /** A single character is dropped when it is '-' or ' ', and kept otherwise. */
  lemma CleanPhoneTextChar(c: char)
    ensures CleanPhoneText([c]) == if c == '-' || c == ' ' then [] else [c]
  {
    FilterChar(c, NotDash);
    FilterChar(c, NotBlank);
  }

  /** `[1-9]?[0-9]{7,14}` matches c[q..e]. */
  ghost predicate PhoneDigits(c: string, q: nat, e: nat) {
    && q + 7 <= e <= q + 15
    && e <= |c|
    && All(c, q, e, IsDigit)
    && (e == q + 15 ==> c[q] != '0')
  }

  /** The whole pattern matches c[s..e] when tried at position s. */
  ghost predicate IsPhoneMatch(c: string, s: nat, e: nat) {
    && s < |c|
    && (PhoneDigits(c, s, e) || (c[s] == '+' && PhoneDigits(c, s + 1, e)))
  }

  /**
    The pattern tried at position s alone, in the order of the regex engine:
    take the '+' if there is one, then a digit 1-9 if there is one followed by
    seven more digits, otherwise give the digit back to `[0-9]{7,14}`.
   */
  function PhoneScan(c: string, s: nat): (r: Option<nat>)
    ensures r.Some? ==> IsPhoneMatch(c, s, r.value)
  {
    if s >= |c| then None
    else
      var q := if c[s] == '+' then s + 1 else s;
      var n := SpanEnd(c, q, IsDigit) - q;
      if n >= 8 && '1' <= c[q] <= '9' then Some(q + 1 + Min(n - 1, 14))
      else if n >= 7 then Some(q + Min(n, 14))
      else None
  }

  /** Whenever the pattern matches at s, the scanner succeeds there, and with a match at least as long. */
  lemma PhoneScanComplete(c: string, s: nat, e: nat)
    requires IsPhoneMatch(c, s, e)
    ensures PhoneScan(c, s).Some? && e <= PhoneScan(c, s).value
  {
    var q := if c[s] == '+' then s + 1 else s;
    assert PhoneDigits(c, q, e);
    SpanEndMaximal(c, q, e, IsDigit);
    assert IsDigit(c[q]);
  }

  /** `re.search` of the phone pattern. */
  function FindPhone(c: string): (r: Option<Found<nat>>)
    ensures r.None? <==> forall s: nat, e: nat :: !IsPhoneMatch(c, s, e)
    ensures r.Some? ==> IsPhoneMatch(c, r.value.start, r.value.parts)
    ensures r.Some? ==> forall s: nat, e: nat | s < r.value.start :: !IsPhoneMatch(c, s, e)
    ensures r.Some? ==> forall e: nat | IsPhoneMatch(c, r.value.start, e) :: e <= r.value.parts
  {
    var r := Leftmost(c, 0, PhoneScan);
    assert r.None? ==> forall s: nat, e: nat :: !IsPhoneMatch(c, s, e) by {
      forall s: nat, e: nat | r.None? && IsPhoneMatch(c, s, e) ensures false {
        PhoneScanComplete(c, s, e);
      }
    }
    assert r.Some? ==> forall s: nat, e: nat | s < r.value.start :: !IsPhoneMatch(c, s, e) by {
      forall s: nat, e: nat | r.Some? && s < r.value.start && IsPhoneMatch(c, s, e) ensures false {
        PhoneScanComplete(c, s, e);
      }
    }
    assert r.Some? ==> forall e: nat | IsPhoneMatch(c, r.value.start, e) :: e <= r.value.parts by {
      forall e: nat | r.Some? && IsPhoneMatch(c, r.value.start, e) ensures e <= r.value.parts {
        PhoneScanComplete(c, r.value.start, e);
      }
    }
    r
  }

  /** Somewhere in c there are seven digits in a row. */
  ghost predicate HasSevenDigits(c: string) {
    exists i: nat :: SevenDigitsAt(c, i)
  }

  predicate SevenDigitsAt(c: string, i: nat) {
    i + 7 <= |c| && All(c, i, i + 7, IsDigit)
  }

  /** The pattern matches somewhere exactly when seven digits stand together. */
  lemma PhoneMatchExists(c: string)
    ensures (exists s: nat, e: nat :: IsPhoneMatch(c, s, e)) <==> HasSevenDigits(c)
  {
    if exists s: nat, e: nat :: IsPhoneMatch(c, s, e) {
      var s: nat, e: nat :| IsPhoneMatch(c, s, e);
      var q := if c[s] == '+' then s + 1 else s;
      assert PhoneDigits(c, q, e);
      assert SevenDigitsAt(c, q);
    }
    if HasSevenDigits(c) {
      var i: nat :| SevenDigitsAt(c, i);
      assert IsPhoneMatch(c, i, i + 7);
    }
  }

  /** `PhoneValidator.extract_phone` */
  function ExtractPhone(text: string): (r: Option<string>)
    ensures r.None? <==> !HasSevenDigits(CleanPhoneText(text))
    ensures r.Some? ==> IsPhoneMatch(r.value, 0, |r.value|)
    ensures r.Some? ==> Contains(CleanPhoneText(text), r.value)
    ensures r.Some? ==> |r.value| >= 7
    ensures r.Some? ==> && FindPhone(CleanPhoneText(text)).Some?
                        && r.value == CleanPhoneText(text)[FindPhone(CleanPhoneText(text)).value.start..FindPhone(CleanPhoneText(text)).value.parts]
  {
    var c := CleanPhoneText(text);
    PhoneMatchExists(c);
    if text == [] then None
    else
      match FindPhone(c)
      case None => None
      case Some(f) =>
        var w := c[f.start..f.parts];
        MatchCutOut(c, f.start, f.parts);
        assert HasAt(c, f.start, w);
        Some(w)
  }

  /** A match cut out of the text on its own is matched whole. */
  lemma MatchCutOut(c: string, s: nat, e: nat)
    requires IsPhoneMatch(c, s, e)
    ensures IsPhoneMatch(c[s..e], 0, e - s)
  {
    var w := c[s..e];
    var q := if c[s] == '+' then s + 1 else s;
    assert PhoneDigits(c, q, e);
    assert forall k | q - s <= k < e - s :: w[k] == c[k + s];
    assert PhoneDigits(w, q - s, e - s);
  }

  /** An extracted number contains neither '-' nor ' ': only an optional leading '+' and digits. */
  lemma ExtractedPhoneChars(text: string)
    requires ExtractPhone(text).Some?
    ensures forall k | 0 <= k < |ExtractPhone(text).value| ::
              IsDigit(ExtractPhone(text).value[k]) || (k == 0 && ExtractPhone(text).value[k] == '+')
  {
    var w := ExtractPhone(text).value;
    assert IsPhoneMatch(w, 0, |w|);
  }

  /** Extracting from an extracted number gives it back unchanged. */
  lemma ExtractPhoneIdempotent(text: string)
    requires ExtractPhone(text).Some?
    ensures ExtractPhone(ExtractPhone(text).value) == ExtractPhone(text)
  {
    var w := ExtractPhone(text).value;
    ExtractedPhoneChars(text);
    assert '-' !in w && ' ' !in w;
    WholePhone(w);
  }

  /** Text without separators that the pattern matches whole is extracted whole. */
  lemma WholePhone(w: string)
    requires IsPhoneMatch(w, 0, |w|) && '-' !in w && ' ' !in w
    ensures ExtractPhone(w) == Some(w)
  {
    assert CleanPhoneText(w) == w;
    PhoneScanComplete(w, 0, |w|);
    var f := FindPhone(w).value;
    assert f.start == 0;
    assert w[f.start..f.parts] == w;
  }

  /**
    A numeral after a space is not on its own once the separators are gone:
    digits d before it join it, so "123456 5 years" yields "1234565".
   */
  lemma NumeralJoinsDigits(d: string, num: string)
    requires All(d, 0, |d|, IsDigit) && All(num, 0, |num|, IsDigit)
    requires 7 <= |d| + |num| <= 14
    ensures ExtractPhone(d + " " + num + " years") == Some(d + num)
  {
    SpacesDropped(d, num);
    JoinedExtract(d, num);
  }

  /** Digits followed directly by "years" are extracted as the digits. */
  lemma JoinedExtract(d: string, num: string)
    requires All(d, 0, |d|, IsDigit) && All(num, 0, |num|, IsDigit)
    requires 7 <= |d| + |num| <= 14
    ensures ExtractPhone((d + num) + "years") == Some(d + num)
  {
    var c := (d + num) + "years";
    JoinedDigits(d, num, "years");
    LeadingDigits(c, |d| + |num|);
    assert c[..|d| + |num|] == d + num;
  }

  /** Two digit runs side by side, followed by a text without separators opening with a letter, form one run that stops there. */
  lemma JoinedDigits(d: string, num: string, unit: string)
    requires All(d, 0, |d|, IsDigit) && All(num, 0, |num|, IsDigit)
    requires unit != [] && IsLetter(unit[0]) && '-' !in unit && ' ' !in unit
    ensures All((d + num) + unit, 0, |d| + |num|, IsDigit)
    ensures !IsDigit(((d + num) + unit)[|d| + |num|])
    ensures '-' !in (d + num) + unit && ' ' !in (d + num) + unit
  {
    var c := (d + num) + unit;
    forall k | 0 <= k < |d| + |num| ensures IsDigit(c[k]) {
      if k < |d| { assert c[k] == d[k]; } else { assert c[k] == num[k - |d|]; }
    }
    assert c[|d| + |num|] == unit[0];
  }

  /** The two spaces around a numeral are dropped before the search. */
  lemma SpacesDropped(d: string, num: string)
    ensures ExtractPhone(d + " " + num + " years") == ExtractPhone((d + num) + "years")
  {
    var unit := "years";
    assert d + " " + num + " years" == d + [' '] + (num + [' '] + unit);
    SeparatorIgnored(d, num + [' '] + unit, ' ');
    assert d + (num + [' '] + unit) == (d + num) + [' '] + unit;
    SeparatorIgnored(d + num, unit, ' ');
  }

  /** Text without separators that opens with 7 to 14 digits, and no more, yields those digits. */
  lemma LeadingDigits(c: string, n: nat)
    requires 7 <= n <= 14 && n <= |c|
    requires All(c, 0, n, IsDigit) && (n < |c| ==> !IsDigit(c[n]))
    requires '-' !in c && ' ' !in c
    ensures ExtractPhone(c) == Some(c[..n])
  {
    assert IsPhoneMatch(c, 0, n);
    var f := FindPhone(c).value;
    assert f.start == 0;
    var e := f.parts;
    assert PhoneDigits(c, 0, e);
    SpanEndExact(c, 0, n, IsDigit);
    SpanEndMaximal(c, 0, e, IsDigit);
  }

  /** A '-' or a ' ' anywhere in the text changes nothing: the separators are dropped before the search. */
  lemma SeparatorIgnored(a: string, b: string, sep: char)
    requires sep == '-' || sep == ' '
    ensures ExtractPhone(a + [sep] + b) == ExtractPhone(a + b)
  {
    FilterAppend(a, [sep] + b, NotDash);
    FilterAppend([sep], b, NotDash);
    FilterAppend(a, b, NotDash);
    assert a + [sep] + b == a + ([sep] + b);
    var a1, b1 := Filter(a, NotDash), Filter(b, NotDash);
    FilterAppend(a1, b1, NotBlank);
    if sep == '-' {
      assert Filter([sep], NotDash) == [];
      assert Filter(a + [sep] + b, NotDash) == a1 + b1;
    } else {
      assert Filter([sep], NotDash) == [sep];
      assert Filter(a + [sep] + b, NotDash) == a1 + ([sep] + b1);
      FilterAppend(a1, [sep] + b1, NotBlank);
      FilterAppend([sep], b1, NotBlank);
      assert Filter([sep], NotBlank) == [];
    }
  }

}
