/**
  Character classes and the string primitives of Python that the validators and
  the chatbot use (`lower`, `strip`, `split`, `replace`, `in`, `re.sub` of one
  character class, and the `\b` word boundary). The model is ASCII-only: `\s`,
  `str.isspace`, `strip` and `split` all treat exactly the ASCII characters
  9..13, 28..31 and 32 as whitespace, and `\w` is `[A-Za-z0-9_]`.
 */
module Text {

  predicate IsSpace(c: char) {
    c == ' ' || '\t' <= c <= '\r' || '\U{1C}' <= c <= '\U{1F}'
  }

  predicate IsNonSpace(c: char) {
    !IsSpace(c)
  }

  predicate IsDigit(c: char) {
    '0' <= c <= '9'
  }

  predicate IsUpper(c: char) {
    'A' <= c <= 'Z'
  }

  predicate IsLetter(c: char) {
    IsUpper(c) || 'a' <= c <= 'z'
  }

  /** `\w` */
  predicate IsWordChar(c: char) {
    IsLetter(c) || IsDigit(c) || c == '_'
  }

  function LowerChar(c: char): char {
    if IsUpper(c) then (c as int + 32) as char else c
  }

  /** `str.lower()` on ASCII text. */
  function Lower(s: string): (r: string)
    ensures |r| == |s|
    ensures forall i | 0 <= i < |s| :: r[i] == LowerChar(s[i])
    ensures forall c | c in r :: !IsUpper(c)
  {
    if s == [] then [] else [LowerChar(s[0])] + Lower(s[1..])
  }

  /** Every character of t[i..j] satisfies P. */
  predicate All(t: string, i: nat, j: nat, P: char -> bool)
    requires i <= j <= |t|
  {
    forall k | i <= k < j :: P(t[k])
  }

  function Min(a: int, b: int): int {
    if a <= b then a else b
  }

  /** The end of the longest run of P-characters starting at i: where a greedy `[P]*` stops. */
  function SpanEnd(t: string, i: nat, P: char -> bool): (j: nat)
    requires i <= |t|
    ensures i <= j <= |t|
    ensures All(t, i, j, P)
    ensures j < |t| ==> !P(t[j])
    decreases |t| - i
  {
    if i < |t| && P(t[i]) then SpanEnd(t, i + 1, P) else i
  }

  /** A run of P-characters from i stops no earlier than any other run of P-characters from i. */
  lemma {:induction false} SpanEndMaximal(t: string, i: nat, j: nat, P: char -> bool)
    requires i <= j <= |t| && All(t, i, j, P)
    ensures j <= SpanEnd(t, i, P)
    decreases j - i
  {
    if i < j {
      assert P(t[i]);
      SpanEndMaximal(t, i + 1, j, P);
    }
  }

  /** A run of P-characters that ends at a non-P character (or at the end) is the one SpanEnd finds. */
  lemma SpanEndExact(t: string, i: nat, j: nat, P: char -> bool)
    requires i <= j <= |t| && All(t, i, j, P)
    requires j < |t| ==> !P(t[j])
    ensures SpanEnd(t, i, P) == j
  {
    SpanEndMaximal(t, i, j, P);
  }

  /** Keeps the characters that satisfy P, in order: `re.sub('[^P]', '', s)`. */
  function Filter(s: string, P: char -> bool): (r: string)
    ensures |r| <= |s|
    ensures forall c :: c in r <==> c in s && P(c)
    ensures All(s, 0, |s|, P) ==> r == s
  {
    if s == [] then []
    else
      var rest := Filter(s[1..], P);
      assert forall c :: c in s <==> c == s[0] || c in s[1..];
      if P(s[0]) then [s[0]] + rest else rest
  }

  /** Filtering a concatenation filters each part. */
  lemma {:induction false} FilterAppend(a: string, b: string, P: char -> bool)
    ensures Filter(a + b, P) == Filter(a, P) + Filter(b, P)
    decreases |a|
  {
    if a == [] {
      assert a + b == b;
    } else {
      assert (a + b)[0] == a[0] && (a + b)[1..] == a[1..] + b;
      FilterAppend(a[1..], b, P);
    }
  }

  /** Filtering one character keeps it exactly when it satisfies P. */
  lemma FilterChar(c: char, P: char -> bool)
    ensures Filter([c], P) == if P(c) then [c] else []
  {
    assert [c][1..] == [];
  }

  /** Filtering drops a character that fails P wherever it stands, and changes nothing else. */
  lemma FilterDrops(a: string, b: string, c: char, P: char -> bool)
    requires !P(c)
    ensures Filter(a + [c] + b, P) == Filter(a + b, P)
  {
    assert a + [c] + b == a + ([c] + b);
    FilterAppend(a, [c] + b, P);
    FilterAppend([c], b, P);
    FilterChar(c, P);
    FilterAppend(a, b, P);
  }

  /** The length of s once its trailing whitespace is removed. */
  function TrimmedEnd(s: string, j: nat): (k: nat)
    requires j <= |s|
    ensures k <= j
    ensures All(s, k, j, IsSpace)
    ensures k > 0 ==> !IsSpace(s[k - 1])
    decreases j
  {
    if j > 0 && IsSpace(s[j - 1]) then TrimmedEnd(s, j - 1) else j
  }

  /** `str.strip()`: the text between the leading and the trailing whitespace. */
  function Strip(s: string): (r: string)
    ensures |r| <= |s|
    ensures r == [] || (!IsSpace(r[0]) && !IsSpace(r[|r| - 1]))
    ensures exists i | 0 <= i <= |s| - |r| ::
      && r == s[i..i + |r|]
      && All(s, 0, i, IsSpace)
      && All(s, i + |r|, |s|, IsSpace)
  {
    var i := SpanEnd(s, 0, IsSpace);
    var u := s[i..];
    var r := u[..TrimmedEnd(u, |u|)];
    assert r == s[i..i + |r|];
    assert All(s, i + |r|, |s|, IsSpace) by {
      forall k | i + |r| <= k < |s| ensures IsSpace(s[k]) {
        assert s[k] == u[k - i];
      }
    }
    r
  }

  /** Text that has no leading or trailing whitespace is left alone by Strip. */
  lemma StripUnpadded(s: string)
    requires s == [] || (!IsSpace(s[0]) && !IsSpace(s[|s| - 1]))
    ensures Strip(s) == s
  {
    var r := Strip(s);
    var i :| 0 <= i <= |s| - |r| && r == s[i..i + |r|] && All(s, 0, i, IsSpace) && All(s, i + |r|, |s|, IsSpace);
    if s != [] {
      assert i == 0;
      assert i + |r| == |s|;
    }
  }

  /** Strip keeps a non-whitespace character exactly when the text has one. */
  lemma StripKeepsNonSpace(s: string)
    ensures (exists k | 0 <= k < |Strip(s)| :: !IsSpace(Strip(s)[k])) <==> (exists k | 0 <= k < |s| :: !IsSpace(s[k]))
  {
    var r := Strip(s);
    var i :| 0 <= i <= |s| - |r| && r == s[i..i + |r|] && All(s, 0, i, IsSpace) && All(s, i + |r|, |s|, IsSpace);
    if exists k | 0 <= k < |s| :: !IsSpace(s[k]) {
      var k :| 0 <= k < |s| && !IsSpace(s[k]);
      assert !(k < i) by {
        assert !IsSpace(s[k]);
      }
      assert i <= k < i + |r|;
      assert !IsSpace(r[k - i]);
    }
  }

  /** Every character of Strip(s) comes from s. */
  lemma StripChars(s: string)
    ensures forall c | c in Strip(s) :: c in s
  {
    var r := Strip(s);
    var i :| 0 <= i <= |s| - |r| && r == s[i..i + |r|] && All(s, 0, i, IsSpace) && All(s, i + |r|, |s|, IsSpace);
    SliceChars(s, i, i + |r|);
  }

  /** Every character of a slice comes from the sequence. */
  lemma SliceChars(s: string, a: nat, b: nat)
    requires a <= b <= |s|
    ensures forall c | c in s[a..b] :: c in s
  {
    forall c | c in s[a..b] ensures c in s {
      var k :| 0 <= k < b - a && s[a..b][k] == c;
      assert s[a + k] == c;
    }
  }

  /** The `\b` assertion at position i: exactly one side of i is a word character. */
  predicate WordBoundary(t: string, i: nat)
    requires i <= |t|
  {
    (i > 0 && IsWordChar(t[i - 1])) != (i < |t| && IsWordChar(t[i]))
  }

  /** w occurs in t at position i. */
  predicate HasAt(t: string, i: nat, w: string) {
    i + |w| <= |t| && t[i..i + |w|] == w
  }

  /** Python's `sub in s` on strings. */
  predicate Contains(s: string, sub: string) {
    exists i: nat | i <= |s| :: HasAt(s, i, sub)
  }

  /** `s.replace(pat, '')`: removes the non-overlapping occurrences of pat, scanning left to right. */
  function RemoveAll(s: string, pat: string): (r: string)
    requires pat != []
    ensures |r| <= |s|
    decreases |s|
  {
    if |pat| <= |s| && s[..|pat|] == pat then RemoveAll(s[|pat|..], pat)
    else if s == [] then []
    else [s[0]] + RemoveAll(s[1..], pat)
  }

  /** Text shorter than pat has no occurrence of it to lose. */
  lemma {:induction false} RemoveAllShort(s: string, pat: string)
    requires pat != [] && |s| < |pat|
    ensures RemoveAll(s, pat) == s
    decreases |s|
  {
    if s != [] {
      RemoveAllShort(s[1..], pat);
      assert s == [s[0]] + s[1..];
    }
  }

  /** Text in which pat does not occur is left unchanged by RemoveAll. */
  lemma {:induction false} RemoveAllAbsent(s: string, pat: string)
    requires pat != [] && !Contains(s, pat)
    ensures RemoveAll(s, pat) == s
    decreases |s|
  {
    if s != [] {
      assert !HasAt(s, 0, pat);
      forall i: nat | i <= |s[1..]| && HasAt(s[1..], i, pat) ensures HasAt(s, i + 1, pat) {
        assert s[1..][i..i + |pat|] == s[i + 1..i + 1 + |pat|];
      }
      RemoveAllAbsent(s[1..], pat);
      assert s == [s[0]] + s[1..];
    }
  }

  /** Text without the first character of pat loses nothing to RemoveAll, and an appended pat is removed. */
  lemma {:induction false} RemoveAllSuffix(x: string, pat: string)
    requires pat != []
    requires pat[0] !in x
    ensures RemoveAll(x, pat) == x
    ensures RemoveAll(x + pat, pat) == x
  {
    if x == [] {
      assert RemoveAll(pat, pat) == RemoveAll([], pat);
    } else {
      assert x[..1] != pat[..1];
      assert (x + pat)[0] == x[0] && (x + pat)[1..] == x[1..] + pat;
      RemoveAllSuffix(x[1..], pat);
      assert x == [x[0]] + x[1..];
    }
  }

  /** `str.split()` with no separator: the maximal runs of non-whitespace characters, in order. */
  function Words(s: string): (ws: seq<string>)
    decreases |s|
  {
    if s == [] then []
    else if IsSpace(s[0]) then Words(s[1..])
    else
      var k := SpanEnd(s, 0, IsNonSpace);
      [s[..k]] + Words(s[k..])
  }

  /** s[i..j] is a maximal non-empty run of non-whitespace characters. */
  predicate IsWordRun(s: string, i: nat, j: nat) {
    && i < j <= |s|
    && All(s, i, j, IsNonSpace)
    && (i == 0 || IsSpace(s[i - 1]))
    && (j == |s| || IsSpace(s[j]))
  }

  /** A maximal run of a suffix s[d..] is a maximal run of s, unless it starts the suffix right after a non-space. */
  lemma RunOfSuffix(s: string, d: nat, i: nat, j: nat)
    requires d <= |s| && IsWordRun(s[d..], i, j)
    requires i == 0 ==> d == 0 || IsSpace(s[d - 1])
    ensures IsWordRun(s, i + d, j + d) && s[i + d..j + d] == s[d..][i..j]
  {
    assert All(s, i + d, j + d, IsNonSpace) by {
      forall k | i + d <= k < j + d ensures IsNonSpace(s[k]) {
        assert s[k] == s[d..][k - d];
      }
    }
  }

  /** A maximal run of s that starts at or after d is a maximal run of s[d..]. */
  lemma RunToSuffix(s: string, d: nat, i: nat, j: nat)
    requires IsWordRun(s, i, j) && d <= i
    ensures IsWordRun(s[d..], i - d, j - d) && s[d..][i - d..j - d] == s[i..j]
  {
    assert All(s[d..], i - d, j - d, IsNonSpace) by {
      forall k | i - d <= k < j - d ensures IsNonSpace(s[d..][k]) {
        assert s[d..][k] == s[k + d];
      }
    }
  }

  /** Every word split() returns is a maximal non-whitespace run. */
  lemma {:induction false} WordsSound(s: string)
    ensures forall w | w in Words(s) :: exists i: nat, j: nat :: IsWordRun(s, i, j) && s[i..j] == w
    decreases |s|
  {
    if s == [] {
    } else if IsSpace(s[0]) {
      WordsSound(s[1..]);
      forall w | w in Words(s) ensures exists i: nat, j: nat :: IsWordRun(s, i, j) && s[i..j] == w {
        assert w in Words(s[1..]);
        var i: nat, j: nat :| IsWordRun(s[1..], i, j) && s[1..][i..j] == w;
        RunOfSuffix(s, 1, i, j);
      }
    } else {
      var k := SpanEnd(s, 0, IsNonSpace);
      WordsSound(s[k..]);
      assert IsWordRun(s, 0, k);
      forall w | w in Words(s) ensures exists i: nat, j: nat :: IsWordRun(s, i, j) && s[i..j] == w {
        if w != s[..k] {
          assert w in Words(s[k..]);
          var i: nat, j: nat :| IsWordRun(s[k..], i, j) && s[k..][i..j] == w;
          assert s[k..][0] == s[k] && IsSpace(s[k]);
          RunOfSuffix(s, k, i, j);
        }
      }
    }
  }

  /** split() skips leading whitespace. */
  lemma WordsSkip(s: string)
    requires s != [] && IsSpace(s[0])
    ensures Words(s) == Words(s[1..])
  {
  }

  /** split() takes the leading run as its first word and goes on after it. */
  lemma WordsHead(s: string)
    requires s != [] && !IsSpace(s[0])
    ensures Words(s) == [s[..SpanEnd(s, 0, IsNonSpace)]] + Words(s[SpanEnd(s, 0, IsNonSpace)..])
  {
  }

  /** A maximal run at the start of the text is split()'s first word. */
  lemma FirstRunIsWord(s: string, j: nat)
    requires IsWordRun(s, 0, j)
    ensures s[0..j] in Words(s)
  {
    SpanEndExact(s, 0, j, IsNonSpace);
    WordsHead(s);
    assert s[0..j] == s[..j];
  }

  /** After leading whitespace, a maximal run of s is a maximal run of s[1..]. */
  lemma SkipStep(s: string, i: nat, j: nat)
    requires IsWordRun(s, i, j) && IsSpace(s[0])
    ensures 1 <= i && IsWordRun(s[1..], i - 1, j - 1) && s[1..][i - 1..j - 1] == s[i..j]
  {
    assert IsNonSpace(s[i]);
    RunToSuffix(s, 1, i, j);
  }

  /** A maximal run of s other than the leading one lies in the rest after the leading run. */
  lemma HeadStep(s: string, i: nat, j: nat)
    requires IsWordRun(s, i, j) && !IsSpace(s[0]) && i > 0
    ensures SpanEnd(s, 0, IsNonSpace) <= i
    ensures IsWordRun(s[SpanEnd(s, 0, IsNonSpace)..], i - SpanEnd(s, 0, IsNonSpace), j - SpanEnd(s, 0, IsNonSpace))
    ensures s[SpanEnd(s, 0, IsNonSpace)..][i - SpanEnd(s, 0, IsNonSpace)..j - SpanEnd(s, 0, IsNonSpace)] == s[i..j]
  {
    var k := SpanEnd(s, 0, IsNonSpace);
    assert !IsNonSpace(s[i - 1]);
    RunToSuffix(s, k, i, j);
  }

  /** Every maximal non-whitespace run is a word split() returns. */
  lemma {:induction false} WordsComplete(s: string, i: nat, j: nat)
    requires IsWordRun(s, i, j)
    ensures s[i..j] in Words(s)
    decreases |s|
  {
    if IsSpace(s[0]) {
      SkipStep(s, i, j);
      WordsComplete(s[1..], i - 1, j - 1);
      WordsSkip(s);
    } else if i == 0 {
      FirstRunIsWord(s, j);
    } else {
      var k := SpanEnd(s, 0, IsNonSpace);
      HeadStep(s, i, j);
      WordsComplete(s[k..], i - k, j - k);
      WordsHead(s);
      InRest(s[i..j], s[..k], Words(s[k..]));
    }
  }

  /** A word among the later words is among all of them. */
  lemma InRest(w: string, first: string, rest: seq<string>)
    requires w in rest
    ensures w in [first] + rest
  {
  }

  /** split() lists exactly the maximal non-whitespace runs of the text. */
  lemma WordsAreRuns(s: string)
    ensures forall w :: w in Words(s) <==> exists i: nat, j: nat :: IsWordRun(s, i, j) && s[i..j] == w
  {
    WordsSound(s);
    forall w, i: nat, j: nat | IsWordRun(s, i, j) && s[i..j] == w ensures w in Words(s) {
      WordsComplete(s, i, j);
    }
  }

  /** split() finds at least one word exactly when the text has a non-whitespace character. */
  lemma {:induction false} WordsNonEmpty(s: string)
    ensures |Words(s)| >= 1 <==> exists k | 0 <= k < |s| :: !IsSpace(s[k])
    decreases |s|
  {
    if s != [] && IsSpace(s[0]) {
      WordsNonEmpty(s[1..]);
      if exists k | 0 <= k < |s| :: !IsSpace(s[k]) {
        var k :| 0 <= k < |s| && !IsSpace(s[k]);
        assert !IsSpace(s[1..][k - 1]);
      }
      if exists k | 0 <= k < |s[1..]| :: !IsSpace(s[1..][k]) {
        var k :| 0 <= k < |s[1..]| && !IsSpace(s[1..][k]);
        assert !IsSpace(s[k + 1]);
      }
    }
  }

}
