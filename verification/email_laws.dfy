/**
  Properties of the email extractor that relate several calls: extraction
  followed by validation, and extraction applied to its own result.
 */
module EmailLaws {

  import opened Wrappers
  import opened Text
  import opened Search
  import opened Email

  /** A match that starts on a word character and ends on a letter, cut out on its own, is valid and extracted whole. */
  lemma CutOutRoundTrip(text: string, s: nat, p: EmailParts, w: string)
    requires IsEmailParts(text, s, p) && w == text[s..p.end]
    requires IsWordChar(text[s]) && IsLetter(w[|w| - 1])
    ensures IsValidEmail(w)
    ensures ExtractEmail(w) == Some(w)
  {
    assert w[|w| - 1] == text[p.end - 1];
    MatchStandsAlone(text, s, p);
    assert IsEmailParts(w, 0, EmailParts(p.at - s, p.dot - s, |w|));
    WholeMatchExtracted(w);
  }

  /** The leftmost match, when it ends in a letter, is valid and extracted whole once cut out. */
  lemma FoundRoundTrip(text: string, f: Found<EmailParts>, w: string)
    requires FindEmail(text) == Some(f) && w == text[f.start..f.parts.end]
    requires IsLetter(w[|w| - 1])
    ensures IsValidEmail(w)
    ensures ExtractEmail(w) == Some(w)
  {
    FoundStartsOnWordChar(text);
    CutOutRoundTrip(text, f.start, f.parts, w);
  }

  /**
    Extraction followed by validation or by a second extraction: when the
    extracted address ends in a letter, it is valid and extracting from it gives
    it back unchanged.
   */
  lemma ExtractEmailRoundTrip(text: string, v: string)
    requires ExtractEmail(text) == Some(v)
    requires IsLetter(v[|v| - 1])
    ensures IsValidEmail(v)
    ensures ExtractEmail(v) == Some(v)
  {
    FoundRoundTrip(text, FindEmail(text).value, v);
  }

}
