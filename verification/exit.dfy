/**
  `TalentScoutChatbot.is_exit_keyword`: three layered checks on the lower-cased,
  stripped input. The input equals a keyword; some whitespace-separated token,
  once its non-word characters are deleted, equals a keyword; or the input
  contains one of the exit phrases.
 */
module ExitIntent {

  import opened Text

  const ExitKeywords: seq<string> := ["quit", "exit", "bye", "goodbye", "stop", "end", "finish", "done"]

  const ExitPhrases: seq<string> := [
    "i want to quit", "i want to exit", "i'm done", "that's all",
    "end interview", "finish interview", "i have to go", "gotta go"
  ]

  /** `re.sub(r'[^\w]', '', word)` */
  function CleanWord(word: string): (r: string)
    ensures forall c | c in r :: IsWordChar(c) && c in word
  {
    Filter(word, IsWordChar)
  }

  /** The token loop: some token, cleaned, is a keyword. */
  function SomeTokenIsKeyword(words: seq<string>): (r: bool)
    ensures r <==> exists w | w in words :: CleanWord(w) in ExitKeywords
  {
    if words == [] then false
    else if CleanWord(words[0]) in ExitKeywords then true
    else SomeTokenIsKeyword(words[1..])
  }

  /** The phrase loop: `phrase in user_lower` for each phrase in turn, stopping at the first that occurs. */
  function SomePhraseIn(u: string, phrases: seq<string>): (r: bool)
    ensures r <==> exists p | p in phrases :: Contains(u, p)
  {
    if phrases == [] then false
    else if Contains(u, phrases[0]) then true
    else SomePhraseIn(u, phrases[1..])
  }

  /** `user_input.lower().strip()` */
  function Normalized(input: string): string {
    Strip(Lower(input))
  }

  /** `TalentScoutChatbot.is_exit_keyword`; a `None` input is falsy like the empty text. */
  function IsExitKeyword(input: string): (r: bool)
    ensures input == [] ==> !r
  {
    if input == [] then false
    else
      var u := Normalized(input);
      if u in ExitKeywords then true
      else if SomeTokenIsKeyword(Words(u)) then true
      else SomePhraseIn(u, ExitPhrases)
  }

  /** Some maximal non-whitespace run of u, cleaned, is a keyword. */
  ghost predicate HasKeywordRun(u: string) {
    exists i: nat, j: nat :: IsWordRun(u, i, j) && CleanWord(u[i..j]) in ExitKeywords
  }

  /** A keyword is made of lower-case letters only. */
  lemma KeywordLetters(k: string)
    requires k in ExitKeywords
    ensures |k| >= 1 && All(k, 0, |k|, IsLetter)
  {
  }

  /** An input that is exactly a keyword is also a one-token input whose token is that keyword. */
  lemma ExactIsToken(u: string)
    requires u in ExitKeywords
    ensures IsWordRun(u, 0, |u|) && CleanWord(u[0..|u|]) == u
  {
    KeywordLetters(u);
    assert u[0..|u|] == u;
    assert All(u, 0, |u|, IsWordChar);
    assert All(u, 0, |u|, IsNonSpace);
  }

  /** The token loop finds a keyword exactly when some maximal run of u cleans to one. */
  lemma TokensAreRuns(u: string)
    ensures SomeTokenIsKeyword(Words(u)) <==> HasKeywordRun(u)
  {
    WordsAreRuns(u);
    if HasKeywordRun(u) {
      var i: nat, j: nat :| IsWordRun(u, i, j) && CleanWord(u[i..j]) in ExitKeywords;
      assert u[i..j] in Words(u);
    }
  }

  /** The exact-match layer is subsumed by the token layer. */
  lemma ExactSubsumed(u: string)
    ensures (u in ExitKeywords || SomeTokenIsKeyword(Words(u))) <==> HasKeywordRun(u)
  {
    TokensAreRuns(u);
    if u in ExitKeywords {
      ExactIsToken(u);
    }
  }

  /**
    The detector is the token check or the phrase check: the exact-match check
    adds nothing, since a keyword is a single token that cleans to itself.
   */
  lemma ExitCharacterization(input: string)
    ensures IsExitKeyword(input) <==>
              input != [] && (HasKeywordRun(Normalized(input)) || SomePhraseIn(Normalized(input), ExitPhrases))
  {
    ExactSubsumed(Normalized(input));
  }

  /** Lower-case text without surrounding whitespace is its own normal form. */
  lemma NormalizedPlain(u: string)
    requires forall k | 0 <= k < |u| :: !IsUpper(u[k])
    requires u == [] || (!IsSpace(u[0]) && !IsSpace(u[|u| - 1]))
    ensures Normalized(u) == u
  {
    assert Lower(u) == u;
    StripUnpadded(u);
  }

  /** A step for `ShoutedBye`, kept apart to stay within the resource limit: lower-casing " BYE ". */
  lemma ByeLower()
    ensures Lower(" BYE ") == " bye "
  {
  }

  /** A step for `ShoutedBye`, kept apart to stay within the resource limit: stripping " bye ". */
  lemma ByeStrip()
    ensures Strip(" bye ") == "bye"
  {
    assert SpanEnd(" bye ", 0, IsSpace) == 1;
    assert TrimmedEnd(" bye "[1..], 4) == 3;
  }

  /** The exact check ignores case and surrounding whitespace. */
  lemma ShoutedBye()
    ensures IsExitKeyword(" BYE ")
  {
    ByeLower();
    ByeStrip();
    assert Normalized(" BYE ") == "bye";
  }

  /** Cleaning works character by character: a concatenation cleans to the concatenation of the cleaned parts. */
  lemma CleanWordAppend(a: string, b: string)
    ensures CleanWord(a + b) == CleanWord(a) + CleanWord(b)
  {
    FilterAppend(a, b, IsWordChar);
  }

  /** A single character is kept exactly when it is a word character. */
  lemma CleanWordChar(c: char)
    ensures CleanWord([c]) == if IsWordChar(c) then [c] else []
  {
    FilterChar(c, IsWordChar);
  }

  /** Cleaning keeps a token of word characters as it is. */
  lemma CleanWordKeeps(w: string)
    requires All(w, 0, |w|, IsWordChar)
    ensures CleanWord(w) == w
  {
  }

  /** Cleaning a token deletes a trailing non-word character. */
  lemma CleanWordTrailing(w: string, c: char)
    requires !IsWordChar(c)
    ensures CleanWord(w + [c]) == CleanWord(w)
  {
    FilterAppend(w, [c], IsWordChar);
    assert Filter([c], IsWordChar) == [];
  }

  /** "done!" is a run of "ok, done!" and cleans to the keyword "done". */
  lemma OkDoneRun()
    ensures HasKeywordRun("ok, done!")
  {
    assert IsWordRun("ok, done!", 4, 9) && "ok, done!"[4..9] == "done!";
    assert "done" + ['!'] == "done!";
    assert All("done", 0, 4, IsWordChar);
    CleanWordTrailing("done", '!');
    CleanWordKeeps("done");
  }

  /** Punctuation around a keyword token is deleted before the comparison. */
  lemma PunctuatedDone()
    ensures IsExitKeyword("ok, done!")
  {
    NormalizedPlain("ok, done!");
    OkDoneRun();
    ExitCharacterization("ok, done!");
  }

  /** Every exit phrase is longer than seven characters. */
  lemma PhrasesLong()
    ensures forall p | p in ExitPhrases :: |p| >= 8
  {
  }

  /** Text without whitespace has itself as its only run. */
  lemma SingleRun(u: string)
    requires All(u, 0, |u|, IsNonSpace)
    ensures forall i: nat, j: nat | IsWordRun(u, i, j) :: i == 0 && j == |u|
  {
  }

  /** A single token of word characters has a keyword run only when it is itself a keyword. */
  lemma WordTokenRun(u: string)
    requires All(u, 0, |u|, IsWordChar)
    ensures HasKeywordRun(u) <==> u in ExitKeywords
  {
    assert All(u, 0, |u|, IsNonSpace);
    CleanWordKeeps(u);
    SingleRun(u);
    assert u[0..|u|] == u;
  }

  /** "weekend" is one run, and it cleans to itself, which is no keyword. */
  lemma WeekendNoRun()
    ensures !HasKeywordRun("weekend")
  {
    assert All("weekend", 0, 7, IsWordChar);
    WordTokenRun("weekend");
  }

  /** "weekend" is too short to hold an exit phrase. */
  lemma WeekendNoPhrase()
    ensures !SomePhraseIn("weekend", ExitPhrases)
  {
    PhrasesLong();
  }

  /** A token that merely contains a keyword is no keyword: "weekend" ends in "end" but is not an exit. */
  lemma WeekendNotExit()
    ensures !IsExitKeyword("weekend")
  {
    NormalizedPlain("weekend");
    WeekendNoRun();
    WeekendNoPhrase();
    ExitCharacterization("weekend");
  }

}
