/**
  EmailValidator: the pattern `\b[A-Za-z0-9._%+-]+@[A-Za-z0-9.-]+\.[A-Z|a-z]{2,}\b`
  written as a scanner that follows the regex engine's backtracking order, next
  to a declarative statement of what the pattern matches.

  The top-level-domain class `[A-Z|a-z]` lists '|' as a member, so the model
  admits '|' there exactly as the regex does.
 */
module Email {

  import opened Wrappers
  import opened Text
  import opened Search

  /** `[A-Za-z0-9._%+-]` */
  predicate IsLocalChar(c: char) {
    IsLetter(c) || IsDigit(c) || c == '.' || c == '_' || c == '%' || c == '+' || c == '-'
  }

  /** `[A-Za-z0-9.-]` */
  predicate IsDomainChar(c: char) {
    IsLetter(c) || IsDigit(c) || c == '.' || c == '-'
  }

  /** `[A-Z|a-z]` */
  predicate IsTldChar(c: char) {
    IsLetter(c) || c == '|'
  }

  /** Where the pieces of a match lie: the '@', the '.' before the top-level domain, and the end. */
  datatype EmailParts = EmailParts(at: nat, dot: nat, end: nat)

  /** t[s..p.end] matches the pattern at s, with its '@' at p.at and its last '.' at p.dot. */
  ghost predicate IsEmailParts(t: string, s: nat, p: EmailParts) {
    && s < p.at
    && p.at + 1 < p.dot
    && p.dot + 3 <= p.end <= |t|
    && WordBoundary(t, s)
    && All(t, s, p.at, IsLocalChar)
    && t[p.at] == '@'
    && All(t, p.at + 1, p.dot, IsDomainChar)
    && t[p.dot] == '.'
    && All(t, p.dot + 1, p.end, IsTldChar)
    && WordBoundary(t, p.end)
  }

  /** The pattern matches t[s..e] when tried at position s. */
  ghost predicate IsEmailMatch(t: string, s: nat, e: nat) {
    exists a: nat, d: nat :: IsEmailParts(t, s, EmailParts(a, d, e))
  }

  /** `[A-Z|a-z]{2,}\b` after the greedy run from..e: give back characters until a word boundary follows. */
  function TldEnd(t: string, from: nat, e: nat): (r: Option<nat>)
    requires from <= e <= |t|
    ensures r.Some? ==> from + 2 <= r.value <= e && WordBoundary(t, r.value)
    ensures forall e' | from + 2 <= e' <= e && WordBoundary(t, e') :: r.Some? && e' <= r.value
    decreases e
  {
    if e < from + 2 then None
    else if WordBoundary(t, e) then Some(e)
    else TldEnd(t, from, e - 1)
  }

  /** The end of the top-level domain that follows the '.' at `dot`, if one fits. */
  function AfterDot(t: string, dot: nat): (r: Option<nat>)
    requires dot < |t|
    ensures r.Some? ==> dot + 3 <= r.value <= |t| && All(t, dot + 1, r.value, IsTldChar) && WordBoundary(t, r.value)
    ensures forall e | dot + 3 <= e <= |t| && All(t, dot + 1, e, IsTldChar) && WordBoundary(t, e) :: r.Some? && e <= r.value
  {
    var k := SpanEnd(t, dot + 1, IsTldChar);
    var r := TldEnd(t, dot + 1, k);
    assert forall e | dot + 3 <= e <= |t| && All(t, dot + 1, e, IsTldChar) && WordBoundary(t, e) :: r.Some? && e <= r.value by {
      forall e | dot + 3 <= e <= |t| && All(t, dot + 1, e, IsTldChar) && WordBoundary(t, e) ensures r.Some? && e <= r.value {
        SpanEndMaximal(t, dot + 1, e, IsTldChar);
      }
    }
    r
  }

  /**
    `[A-Za-z0-9.-]+\.` after the '@' at `at`: the domain run is given back one
    character at a time, from position p down, until a '.' is reached that a
    top-level domain can follow.
   */
  function DotSearch(t: string, at: nat, p: nat): (r: Option<EmailParts>)
    requires p <= |t|
    ensures r.Some? ==> && r.value.at == at && at + 2 <= r.value.dot <= p && r.value.dot < |t|
                        && t[r.value.dot] == '.' && AfterDot(t, r.value.dot) == Some(r.value.end)
    ensures forall q | at + 2 <= q <= p && q < |t| && t[q] == '.' && AfterDot(t, q).Some? :: r.Some? && q <= r.value.dot
    decreases p
  {
    if p < at + 2 then None
    else if p < |t| && t[p] == '.' && AfterDot(t, p).Some? then Some(EmailParts(at, p, AfterDot(t, p).value))
    else DotSearch(t, at, p - 1)
  }

  /** The regex tried at position s alone: `\b`, the local part, '@', then the domain search. */
  function EmailScan(t: string, s: nat): (r: Option<EmailParts>)
    ensures r.Some? ==> IsEmailParts(t, s, r.value)
  {
    if s >= |t| || !WordBoundary(t, s) then None
    else
      var a := SpanEnd(t, s, IsLocalChar);
      if a == s || a == |t| || t[a] != '@' then None
      else
        var d := SpanEnd(t, a + 1, IsDomainChar);
        var r := DotSearch(t, a, d);
        assert r.Some? ==> All(t, a + 1, r.value.dot, IsDomainChar);
        r
  }

  /** Whenever the pattern matches at s, the scanner finds a match there, and one that reaches at least as far. */
  lemma EmailScanComplete(t: string, s: nat, p: EmailParts)
    requires IsEmailParts(t, s, p)
    ensures EmailScan(t, s).Some?
    ensures p.end <= EmailScan(t, s).value.end
  {
    SpanEndExact(t, s, p.at, IsLocalChar);
    var d := SpanEnd(t, p.at + 1, IsDomainChar);
    assert IsDomainChar(t[p.dot]);
    SpanEndMaximal(t, p.at + 1, p.dot + 1, IsDomainChar);
    assert AfterDot(t, p.dot).Some? && p.end <= AfterDot(t, p.dot).value;
    var r := DotSearch(t, p.at, d);
    assert r.Some? && p.dot <= r.value.dot;
    if r.value.dot != p.dot {
      assert !IsTldChar(t[r.value.dot]);
      assert p.end <= r.value.dot;
    }
  }

  /** No match starts before k, given that the scanner fails at every position before k. */
  lemma NoEmailBefore(t: string, k: nat)
    requires forall s | 0 <= s < k && s <= |t| :: EmailScan(t, s).None?
    ensures forall s: nat, e: nat | s < k :: !IsEmailMatch(t, s, e)
  {
    forall s: nat, e: nat | s < k && IsEmailMatch(t, s, e) ensures false {
      var a: nat, d: nat :| IsEmailParts(t, s, EmailParts(a, d, e));
      EmailScanComplete(t, s, EmailParts(a, d, e));
    }
  }

  /** `re.search`: the leftmost start at which the pattern matches, with the longest match there. */
  function FindEmail(t: string): (r: Option<Found<EmailParts>>)
    ensures r.None? <==> forall s: nat, e: nat :: !IsEmailMatch(t, s, e)
    ensures r.Some? ==> IsEmailParts(t, r.value.start, r.value.parts)
    ensures r.Some? ==> r.value.start < r.value.parts.end <= |t|
    ensures r.Some? ==> forall s: nat, e: nat | s < r.value.start :: !IsEmailMatch(t, s, e)
    ensures r.Some? ==> forall e: nat | IsEmailMatch(t, r.value.start, e) :: e <= r.value.parts.end
  {
    var r := Leftmost(t, 0, EmailScan);
    if r.None? then
      NoEmailBefore(t, |t| + 1);
      r
    else
      NoEmailBefore(t, r.value.start);
      LongestAt(t, r.value.start);
      assert IsEmailMatch(t, r.value.start, r.value.parts.end);
      r
  }

  /** The scanner's match at s is the longest match at s. */
  lemma LongestAt(t: string, s: nat)
    requires EmailScan(t, s).Some?
    ensures forall e: nat | IsEmailMatch(t, s, e) :: e <= EmailScan(t, s).value.end
  {
    forall e: nat | IsEmailMatch(t, s, e) ensures e <= EmailScan(t, s).value.end {
      var a: nat, d: nat :| IsEmailParts(t, s, EmailParts(a, d, e));
      EmailScanComplete(t, s, EmailParts(a, d, e));
    }
  }

  /** The shape every extracted address has: exactly one '@', not first, and a '.' after it. */
  predicate HasOneAtAndDot(w: string) {
    exists a | 0 < a < |w| ::
      && w[a] == '@'
      && (forall k | 0 <= k < |w| && k != a :: w[k] != '@')
      && (exists d | a < d < |w| :: w[d] == '.')
  }

  /** `EmailValidator.extract_email` */
  function ExtractEmail(text: string): (r: Option<string>)
    ensures text == [] ==> r.None?
    ensures r.None? <==> forall s: nat, e: nat :: !IsEmailMatch(text, s, e)
    ensures r.Some? ==> |r.value| >= 5
    ensures r.Some? ==> && FindEmail(text).Some?
                        && r.value == text[FindEmail(text).value.start..FindEmail(text).value.parts.end]
  {
    if text == [] then None
    else
      match FindEmail(text)
      case None => None
      case Some(f) => Some(text[f.start..f.parts.end])
  }

  /** Any match, cut out, has exactly one '@', not first, and a '.' after it. */
  lemma MatchShape(text: string, s: nat, p: EmailParts)
    requires IsEmailParts(text, s, p)
    ensures HasOneAtAndDot(text[s..p.end])
  {
    var w := text[s..p.end];
    var a := p.at - s;
    forall k | 0 <= k < |w| && k != a ensures w[k] != '@' {
      var i := s + k;
      assert w[k] == text[i];
      if i < p.at {
        assert IsLocalChar(text[i]);
      } else if i < p.dot {
        assert IsDomainChar(text[i]);
      } else if i > p.dot {
        assert IsTldChar(text[i]);
      }
    }
    assert w[p.dot - s] == '.';
    assert w[a] == '@';
  }

  /** An extracted address has exactly one '@', not in first position, and a '.' after it. */
  lemma ExtractedEmailShape(text: string)
    requires ExtractEmail(text).Some?
    ensures HasOneAtAndDot(ExtractEmail(text).value)
  {
    var f := FindEmail(text).value;
    MatchShape(text, f.start, f.parts);
  }

  /** `EmailValidator.is_valid_email`: `re.match`, i.e. the pattern tried at position 0 only. */
  function IsValidEmail(email: string): (r: bool)
    ensures r <==> exists e: nat :: IsEmailMatch(email, 0, e)
  {
    if email == [] then false
    else if EmailScan(email, 0).Some? then
      assert IsEmailMatch(email, 0, EmailScan(email, 0).value.end);
      true
    else
      NoEmailBefore(email, 1);
      false
  }

  /**
    `EmailValidator.normalize_email`. The clause "no upper-case letter" is a
    corollary of the last one (a slice of `Lower(email)`), kept for callers.
   */
  function NormalizeEmail(email: string): (r: Option<string>)
    ensures r.None? <==> email == []
    ensures r.Some? ==> r.value == [] || (!IsSpace(r.value[0]) && !IsSpace(r.value[|r.value| - 1]))
    ensures r.Some? ==> forall c | c in r.value :: !IsUpper(c)
    ensures r.Some? ==> exists i | 0 <= i <= |email| - |r.value| ::
                          && r.value == Lower(email)[i..i + |r.value|]
                          && All(Lower(email), 0, i, IsSpace)
                          && All(Lower(email), i + |r.value|, |email|, IsSpace)
  {
    if email == [] then None
    else
      StripChars(Lower(email));
      Some(Strip(Lower(email)))
  }

  /** Normalising a normalised address changes nothing, unless normalising left it empty. */
  lemma NormalizeEmailIdempotent(email: string)
    requires NormalizeEmail(email).Some? && NormalizeEmail(email).value != []
    ensures NormalizeEmail(NormalizeEmail(email).value) == NormalizeEmail(email)
  {
    var r := NormalizeEmail(email).value;
    assert Lower(r) == r by {
      forall k | 0 <= k < |r| ensures Lower(r)[k] == r[k] {
      }
    }
    StripUnpadded(r);
  }

  /** A match that starts on a non-word character always has a match starting further left. */
  lemma {:induction false} EarlierStart(t: string, j: nat, s: nat, p: EmailParts)
    requires j < s && IsEmailParts(t, s, p)
    requires All(t, j, s, IsWordChar)
    ensures exists s': nat | s' <= j :: IsEmailParts(t, s', p)
    decreases j
  {
    assert All(t, j, p.at, IsLocalChar);
    if WordBoundary(t, j) {
      assert IsEmailParts(t, j, p);
    } else {
      EarlierStart(t, j - 1, s, p);
    }
  }

  /** A match with no match starting before it starts on a word character. */
  lemma FirstStartsOnWordChar(t: string, s: nat, p: EmailParts)
    requires IsEmailParts(t, s, p)
    requires forall s': nat, e: nat | s' < s :: !IsEmailMatch(t, s', e)
    ensures IsWordChar(t[s])
  {
    if !IsWordChar(t[s]) {
      EarlierStart(t, s - 1, s, p);
      var s': nat :| s' <= s - 1 && IsEmailParts(t, s', p);
      assert IsEmailMatch(t, s', p.end);
    }
  }

  /** The leftmost match always starts on a word character. */
  lemma FoundStartsOnWordChar(t: string)
    requires FindEmail(t).Some?
    ensures IsWordChar(t[FindEmail(t).value.start])
  {
    var f := FindEmail(t).value;
    FirstStartsOnWordChar(t, f.start, f.parts);
  }

  /** A match that starts on a word character and ends on a letter is, cut out on its own, a match of the whole text. */
  lemma MatchStandsAlone(t: string, s: nat, p: EmailParts)
    requires IsEmailParts(t, s, p)
    requires IsWordChar(t[s]) && IsLetter(t[p.end - 1])
    ensures IsEmailParts(t[s..p.end], 0, EmailParts(p.at - s, p.dot - s, p.end - s))
  {
    var w := t[s..p.end];
    var q := EmailParts(p.at - s, p.dot - s, p.end - s);
    assert forall k | 0 <= k < |w| :: w[k] == t[s + k];
    assert All(w, 0, q.at, IsLocalChar) by {
      forall k | 0 <= k < q.at ensures IsLocalChar(w[k]) {
        assert IsLocalChar(t[s + k]);
      }
    }
    assert All(w, q.at + 1, q.dot, IsDomainChar) by {
      forall k | q.at + 1 <= k < q.dot ensures IsDomainChar(w[k]) {
        assert IsDomainChar(t[s + k]);
      }
    }
    assert All(w, q.dot + 1, q.end, IsTldChar) by {
      forall k | q.dot + 1 <= k < q.end ensures IsTldChar(w[k]) {
        assert IsTldChar(t[s + k]);
      }
    }
    assert WordBoundary(w, 0);
    assert WordBoundary(w, q.end);
  }

  /** Text that the pattern matches from its first to its last character is found whole. */
  lemma WholeMatchFound(w: string)
    requires IsEmailMatch(w, 0, |w|)
    ensures FindEmail(w).Some? && FindEmail(w).value.start == 0 && FindEmail(w).value.parts.end == |w|
  {
  }

  /** Text that the pattern matches from its first to its last character is extracted whole. */
  lemma WholeMatchExtracted(w: string)
    requires IsEmailMatch(w, 0, |w|)
    ensures IsValidEmail(w)
    ensures ExtractEmail(w) == Some(w)
  {
    WholeMatchFound(w);
    assert w[0..|w|] == w;
  }

  /** In "a@b.c|5" a match at 0 that reaches the '|' stops there: the digit after it is outside the class. */
  lemma BarEnd(p: EmailParts)
    requires IsEmailParts("a@b.c|5", 0, p) && 6 <= p.end
    ensures p.end == 6
  {
    var t := "a@b.c|5";
    assert t[p.dot] == '.';
    assert p.dot == 3;
    assert !IsTldChar(t[6]);
  }

  /** In "a@b.c|5" the leftmost match starts at 0 and its top-level domain "c|" stops before the digit. */
  lemma BarFound()
    ensures FindEmail("a@b.c|5").Some?
    ensures FindEmail("a@b.c|5").value.start == 0 && FindEmail("a@b.c|5").value.parts.end == 6
  {
    assert IsEmailParts("a@b.c|5", 0, EmailParts(1, 3, 6));
    var f := FindEmail("a@b.c|5").value;
    assert f.start == 0;
    assert 6 <= f.parts.end;
    BarEnd(f.parts);
  }

  /**
    Because '|' belongs to the top-level-domain class, an extracted address can
    end in '|' and then fail validation and re-extraction.
   */
  lemma BarInTopLevelDomain()
    ensures ExtractEmail("a@b.c|5") == Some("a@b.c|")
    ensures !IsValidEmail("a@b.c|")
    ensures ExtractEmail("a@b.c|") == None
  {
    BarFound();
    assert "a@b.c|5"[0..6] == "a@b.c|";
    NoMatchInBar();
  }

  /** "a@b.c|" holds no match: its only top-level domain candidate "c|" is not followed by a word boundary. */
  lemma NoMatchInBar()
    ensures forall s: nat, e: nat :: !IsEmailMatch("a@b.c|", s, e)
  {
    var w := "a@b.c|";
    forall s: nat, e: nat | IsEmailMatch(w, s, e) ensures false {
    }
  }

}
