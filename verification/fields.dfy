/**
  `DataValidator`: the input sanitiser and the character-class and length
  validators for the name, position and location fields.

  Each validator's pattern is `^[C]+$` tried with `re.match`. Python's `$` also
  matches just before a final '\n', but every class here contains `\s`, and so
  '\n', which makes the anchored pattern accept exactly the non-empty texts
  built from characters of C.
 */
module Fields {

  import opened Text

  /** The characters `re.sub(r'[<>"\';]', '', text)` removes. */
  predicate IsUnsafe(c: char) {
    c == '<' || c == '>' || c == '"' || c == '\'' || c == ';'
  }

  predicate IsSafe(c: char) {
    !IsUnsafe(c)
  }

  /** `DataValidator.sanitize_input` */
  function SanitizeInput(text: string): (r: string)
    ensures text == [] ==> r == []
    ensures forall c | c in r :: IsSafe(c) && c in text
    ensures r == [] || (!IsSpace(r[0]) && !IsSpace(r[|r| - 1]))
  {
    if text == [] then []
    else
      var kept := Filter(text, IsSafe);
      StripChars(kept);
      Strip(kept)
  }

  /** Sanitising is idempotent. */
  lemma SanitizeIdempotent(text: string)
    ensures SanitizeInput(SanitizeInput(text)) == SanitizeInput(text)
  {
    var r := SanitizeInput(text);
    if r != [] {
      assert All(r, 0, |r|, IsSafe) by {
        forall k | 0 <= k < |r| ensures IsSafe(r[k]) {
          assert r[k] in r;
        }
      }
      StripUnpadded(r);
    }
  }

  /** Sanitising leaves text that is already clean unchanged. */
  lemma SanitizeClean(text: string)
    requires forall c | c in text :: IsSafe(c)
    requires text == [] || (!IsSpace(text[0]) && !IsSpace(text[|text| - 1]))
    ensures SanitizeInput(text) == text
  {
    if text != [] {
      assert All(text, 0, |text|, IsSafe) by {
        forall k | 0 <= k < |text| ensures IsSafe(text[k]) {
          assert text[k] in text;
        }
      }
      StripUnpadded(text);
    }
  }

  /** Unfolds the definition of `SanitizeInput`, empty text included; a step for the two lemmas below, not a property of its own. */
  lemma SanitizeIsStripOfSafe(text: string)
    ensures SanitizeInput(text) == Strip(Filter(text, IsSafe))
  {
  }

  /** An unsafe character is deleted wherever it stands: the result is as if it had never been typed. */
  lemma SanitizeDropsUnsafe(a: string, b: string, u: char)
    requires IsUnsafe(u)
    ensures SanitizeInput(a + [u] + b) == SanitizeInput(a + b)
  {
    FilterDrops(a, b, u, IsSafe);
    SanitizeIsStripOfSafe(a + [u] + b);
    SanitizeIsStripOfSafe(a + b);
  }

  /** Text made of safe characters only is just stripped: every character stays, in order. */
  lemma SanitizeSafeText(text: string)
    requires forall c | c in text :: IsSafe(c)
    ensures SanitizeInput(text) == Strip(text)
  {
    assert All(text, 0, |text|, IsSafe) by {
      forall k | 0 <= k < |text| ensures IsSafe(text[k]) {
        assert text[k] in text;
      }
    }
    SanitizeIsStripOfSafe(text);
  }

  /** `re.match(r'^[C]+$', s)`: one or more class characters from 0, then the end or a final '\n'. */
  ghost predicate AnchoredClassMatch(s: string, P: char -> bool) {
    exists j: nat | 1 <= j <= |s| :: All(s, 0, j, P) && (j == |s| || (j == |s| - 1 && s[j] == '\n'))
  }

  /** Non-empty, and every character in the class. */
  predicate AllInClass(s: string, P: char -> bool) {
    |s| >= 1 && All(s, 0, |s|, P)
  }

  /** For a class that contains '\n', the anchored pattern accepts exactly the non-empty texts of class characters. */
  lemma AnchoredClassMatchIff(s: string, P: char -> bool)
    requires P('\n')
    ensures AnchoredClassMatch(s, P) <==> AllInClass(s, P)
  {
    if AnchoredClassMatch(s, P) {
      var j: nat :| 1 <= j <= |s| && All(s, 0, j, P) && (j == |s| || (j == |s| - 1 && s[j] == '\n'));
      assert All(s, 0, |s|, P) by {
        forall k | 0 <= k < |s| ensures P(s[k]) {
          if k >= j {
            assert s[k] == '\n';
          }
        }
      }
    }
    if AllInClass(s, P) {
      assert All(s, 0, |s|, P);
    }
  }

  /** `[a-zA-Z\s\-'\.]` */
  predicate IsNameChar(c: char) {
    IsLetter(c) || IsSpace(c) || c == '-' || c == '\'' || c == '.'
  }

  /** `[a-zA-Z0-9\s\-/\+\.\(\)]` */
  predicate IsPositionChar(c: char) {
    IsLetter(c) || IsDigit(c) || IsSpace(c) || c == '-' || c == '/' || c == '+' || c == '.' || c == '(' || c == ')'
  }

  /** `[a-zA-Z\s,\.\-]` */
  predicate IsLocationChar(c: char) {
    IsLetter(c) || IsSpace(c) || c == ',' || c == '.' || c == '-'
  }

  /** The text has a character that is not whitespace. */
  predicate HasNonSpace(s: string) {
    exists k | 0 <= k < |s| :: !IsSpace(s[k])
  }

  /**
    `DataValidator.validate_name`: at least one word after `strip().split()`,
    the anchored class pattern, and at most 100 characters. One word is enough.
   */
  function ValidateName(name: string): (r: bool)
    ensures r <==> HasNonSpace(name) && AnchoredClassMatch(name, IsNameChar) && |name| <= 100
  {
    WordsNonEmpty(Strip(name));
    StripKeepsNonSpace(name);
    AnchoredClassMatchIff(name, IsNameChar);
    name != [] && |Words(Strip(name))| >= 1 && AllInClass(name, IsNameChar) && |name| <= 100
  }

  /** `DataValidator.validate_position` */
  function ValidatePosition(position: string): (r: bool)
    ensures r <==> AnchoredClassMatch(position, IsPositionChar) && 2 <= |position| <= 100
  {
    AnchoredClassMatchIff(position, IsPositionChar);
    position != [] && AllInClass(position, IsPositionChar) && 2 <= |position| <= 100
  }

  /** `DataValidator.validate_location` */
  function ValidateLocation(location: string): (r: bool)
    ensures r <==> AnchoredClassMatch(location, IsLocationChar) && 2 <= |location| <= 100
  {
    AnchoredClassMatchIff(location, IsLocationChar);
    location != [] && AllInClass(location, IsLocationChar) && 2 <= |location| <= 100
  }

  /** A single word is a valid name, though the comment in `validate_name` asks for two; blanks alone are not. */
  lemma NameExamples()
    ensures ValidateName("Alice")
    ensures ValidateName("Mary-Jane O'Neil")
    ensures !ValidateName("   ")
    ensures !ValidateName("R2D2")
  {
    assert !IsSpace("Alice"[0]);
    assert AllInClass("Alice", IsNameChar);
    assert !IsSpace("Mary-Jane O'Neil"[0]);
    assert AllInClass("Mary-Jane O'Neil", IsNameChar);
    assert !AllInClass("R2D2", IsNameChar) by {
      assert !IsNameChar("R2D2"[1]);
    }
  }

}
