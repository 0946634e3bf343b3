# TalentScout hiring assistant: validators and conversation turn, in Dafny

TalentScout is a screening chatbot. It talks to a candidate and forwards each
turn to a hosted language model. From what the candidate types it picks out an
email address, a phone number and the years of experience, and it keeps these
in a candidate record. This project models that core and proves properties of
the model:

- `validators.py`: the email, phone and experience extractors and validators;
  input sanitising; the name, position and location checks; and the record
  manager's validation and sanitising of a whole record.
- `chatbot.py`: exit-intent detection; the first-write-wins extraction into the
  candidate record; and one conversation turn (`get_response`), which is
  modelled as a pure step from one chatbot state to the next.

The modules are:

| module | file | models |
|---|---|---|
| `Wrappers`, `Values` | wrappers.dfy, values.dfy | `Option`; a record value, either text or a non-text value with its Python truthiness |
| `Text` | text.dfy | ASCII character classes, `lower`, `strip`, `split`, `re.sub` of a class, `replace(pat, '')`, `in` on strings, the `\b` boundary |
| `Search` | search.dfy | `re.search` as the leftmost position where a single-position matcher succeeds |
| `Email`, `EmailLaws` | email.dfy, email_laws.dfy | `EmailValidator` |
| `Phone` | phone.dfy | `PhoneValidator.extract_phone` |
| `Experience` | experience.dfy | `ExperienceValidator` |
| `Fields` | fields.dfy | `DataValidator.sanitize_input`, `validate_name`, `validate_position`, `validate_location` |
| `Candidate` | candidate.dfy | `CandidateDataManager.validate_candidate_data`, `sanitize_candidate_data` |
| `ExitIntent` | exit.dfy | `TalentScoutChatbot.is_exit_keyword` |
| `Chatbot` | chatbot.dfy | `extract_candidate_info`, `get_farewell_message`, `get_response` |

Each regular expression is modelled twice:

- a declarative predicate saying which slices the pattern matches at a given
  position;
- a scanner that tries the alternatives in the order of Python's backtracking
  engine.

The scanner is proved sound and complete against the predicate, and it returns
the longest match at its start. `re.search` is the leftmost start where the
scanner succeeds. `re.match` is the scanner at position 0.

Characters are treated as ASCII, which is what these patterns and the
string methods act on for ASCII text:

- whitespace is `\t \n \v \f \r`, the separators 28–31 and the space;
- `\w` is `[A-Za-z0-9_]`;
- `lower` changes only `A`–`Z`.

Three things are parameters of the model rather than part of it:

- `render: string -> string` is Python's text of `float(num)` for a matched
  numeral.
- `parse: string -> Option<real>` is `float(s)`, with `None` where it raises
  `ValueError`.
- The outcome of the remote completion call is `Reply`: the assistant's text,
  or the text of the exception.

The phone-number library check (`is_valid_phone`) is also a parameter
(`phoneOk`) of the record validation.

### Behaviour of the code worth knowing

- Email extraction is not idempotent:
  - The top-level-domain class `[A-Z|a-z]` contains `'|'`.
  - `"a@b.c|5"` extracts `"a@b.c|"`. That text is rejected by `is_valid_email`, and extracting from it again gives `None` (`Email.BarInTopLevelDomain`).
  - The round trip holds when the extracted address ends in a letter (`EmailLaws.ExtractEmailRoundTrip`).
- The phone pattern `[1-9]?[0-9]{7,14}` takes 7–14 digits, or 15 digits whose first is not `0`.
- "5 years" on its own is never taken for a phone number: the phone pattern needs seven digits in a row, once `-` and spaces are removed (`Phone.ExtractPhone`). Because the separators go first, a numeral does join the digits right before it: "123456 5 years" yields the phone number "1234565" (`Phone.NumeralJoinsDigits`).
- The code decides between "1 year" and the plural by comparing `float(group(1))` with 1 (validators.py:98-99). The model decides on the numeral's exact decimal value instead, and the plural text comes from the `render` parameter in place of `float`'s printing. The two agree except on numerals that a float rounds to 1, such as "1.00000000000000001". Under the model, "1", "01" and "1.00" all give "1 year" (`Experience.OneSpellings`).
- The chatbot itself stores `group(1) + ' years'` without converting the number. So "1 yr" is stored as "1 years", while `extract_experience` gives "1 year" (`Chatbot.OneYrStoredPlural`).
- The comment in `validate_name` asks for two words. The code accepts one (`Fields.NameExamples`).
- The history sent with each request is the last 12 messages, that is six exchanges (`Chatbot.Recent`).

## Model

| member | source | states |
|---|---|---|
| Email.EmailScanComplete | validators.py:13 | whenever the email pattern matches at a position, the scanner succeeds there and reaches at least as far |
| Email.FindEmail | validators.py:26 | the search finds nothing iff the pattern matches nowhere; otherwise it returns a match, no match starts earlier, and none at that start is longer |
| Email.ExtractEmail | validators.py:21-29 | empty text gives None; None iff the pattern matches nowhere; otherwise the leftmost-longest match, at least five characters long |
| Email.ExtractedEmailShape | validators.py:13 | an extracted address has exactly one '@', not in first position, and a '.' after it |
| Email.FoundStartsOnWordChar | validators.py:13 | the leftmost match always starts on a word character, because a match starting elsewhere has one further left |
| Email.IsValidEmail | validators.py:15-19 | valid iff the pattern matches at position 0, so empty text is invalid |
| Email.NormalizeEmail | validators.py:31-35 | None iff the input is empty; otherwise the lower-cased input with its leading and trailing whitespace cut off: a slice of it with only whitespace outside and none at its own ends |
| Email.NormalizeEmailIdempotent | validators.py:31-35 | normalising a non-empty normalised address gives it back |
| Email.BarInTopLevelDomain | validators.py:13 | from "a@b.c" followed by a bar and a digit, the address extracted ends in the bar, fails validation and gives None when extracted again |
| EmailLaws.ExtractEmailRoundTrip | validators.py:15-29 | an extracted address that ends in a letter is valid, and extracting from it gives it back |
| Phone.CleanPhoneText | validators.py:62 | the cleaned text holds exactly the input's characters other than '-' and ' ', and text without separators is unchanged |
| Phone.CleanPhoneTextAppend | validators.py:62 | cleaning keeps order: the cleaned text of a concatenation is the concatenation of the cleaned parts |
| Phone.CleanPhoneTextChar | validators.py:62 | a single '-' or ' ' cleans to nothing, any other character to itself; with the concatenation law this fixes the cleaned text completely |
| Phone.FindPhone | validators.py:63 | None iff the phone pattern matches nowhere; otherwise the leftmost match, and the longest one at its start |
| Phone.PhoneMatchExists | validators.py:41 | the phone pattern matches somewhere iff seven digits stand together |
| Phone.ExtractPhone | validators.py:56-67 | None iff the cleaned text has no seven digits in a row; otherwise the leftmost match in the cleaned text, the longest at its start, at least seven characters long and matched whole by the pattern |
| Phone.ExtractedPhoneChars | validators.py:56-67 | an extracted number is digits, with at most a leading '+' |
| Phone.ExtractPhoneIdempotent | validators.py:56-67 | extracting from an extracted number gives it back |
| Phone.SeparatorIgnored | validators.py:62 | inserting a '-' or a ' ' anywhere in the text does not change the extracted number |
| Phone.NumeralJoinsDigits | validators.py:62-66 | digits d followed by a space, a numeral of digits and " years" yield d joined to the numeral as the phone number, whenever the two together are 7 to 14 digits long |
| Experience.ExpScanComplete | validators.py:87 | whenever the experience pattern matches at a position, the scanner finds the same numeral there and a match at least as long |
| Experience.FindExp | validators.py:95 | None iff the pattern matches nowhere; otherwise the leftmost match, whose captured numeral is the only one possible at that start |
| Experience.MatchedNumeral | validators.py:95-98 | group 1 of the leftmost match is a numeral, and None iff there is no match |
| Experience.DecimalValueOne | validators.py:98-99 | the numeral's exact value is one iff its integer digits are zeros and then a final 1, and every fraction digit is 0 |
| Experience.YearsPhrase | validators.py:98-99 | "1 year" exactly for numerals whose exact value is one (the code compares the float with 1), otherwise the rendered number followed by " years" |
| Experience.ExtractExperience | validators.py:89-101 | None iff the text is empty or the lower-cased text has no match; otherwise the phrase for the matched numeral |
| Experience.OneSpellings | validators.py:98-99 | "01" and "1.00" give "1 year"; "10" and "0.1" give the plural |
| Experience.OneYrSingular | validators.py:89-101 | "1 yr" gives "1 year" |
| Experience.IsValidExperience | validators.py:103-109 | a value that is not text is rejected; text without " year" in it is parsed as it stands and accepted iff its value lies in 0..50 |
| Experience.ValidateNumeralYears | validators.py:103-109 | "N years" is accepted iff N is at most 50, for a parse that reads numerals exactly |
| Experience.PhraseThenValidate | validators.py:103-109 | for a render/parse pair that reads the numeral's exact value back, the phrase built for a numeral is accepted iff its value is at most 50, including the singular "1 year" |
| Experience.ExtractThenValidate | validators.py:89-109 | for a render/parse pair that reads the numeral's exact value back, whatever extract_experience returns is accepted by is_valid_experience iff the matched value is at most 50 |
| Fields.SanitizeInput | validators.py:124-131 | empty gives empty; every character kept is safe and comes from the input; no surrounding whitespace |
| Fields.SanitizeDropsUnsafe | validators.py:129-130 | an unsafe character is deleted wherever it stands, with the rest of the result unchanged |
| Fields.SanitizeSafeText | validators.py:124-131 | text of safe characters only is just stripped, so every character stays, in order; with the previous row this fixes the result for every input |
| Fields.SanitizeIdempotent | validators.py:124-131 | sanitising twice is sanitising once |
| Fields.SanitizeClean | validators.py:124-131 | text with no unsafe character and no surrounding whitespace is left unchanged |
| Fields.AnchoredClassMatchIff | validators.py:140 | for a class containing '\n', `^[C]+$` accepts exactly the non-empty texts made of class characters, even with the final-newline rule of `$` |
| Fields.ValidateName | validators.py:134-143 | valid iff the name has a non-whitespace character, matches the anchored name pattern, and has at most 100 characters |
| Fields.ValidatePosition | validators.py:146-153 | valid iff the anchored position pattern matches and the length is 2 to 100 |
| Fields.ValidateLocation | validators.py:156-163 | valid iff the anchored location pattern matches and the length is 2 to 100 |
| Fields.NameExamples | validators.py:139-143 | "Alice" and "Mary-Jane O'Neil" are valid names; "   " and "R2D2" are not |
| Candidate.ValidateCandidateData | validators.py:174-205 | valid iff no error; each message is present iff its field is present and fails; messages come in check order |
| Candidate.PicksInOrder | validators.py:181-203 | for any set of failing checks, the messages form a subsequence of the four in check order, one per failing check |
| Candidate.SanitizeCandidateData | validators.py:207-217 | the same keys; each text value v becomes the sanitised v; other values are unchanged |
| Candidate.SanitizeCandidateIdempotent | validators.py:207-217 | sanitising a record twice is sanitising it once |
| ExitIntent.SomeTokenIsKeyword | chatbot.py:66-71 | the token loop succeeds iff some token, with its non-word characters deleted, is a keyword |
| ExitIntent.SomePhraseIn | chatbot.py:79-81 | the phrase loop, run over a list of phrases, succeeds iff the text contains one of them |
| ExitIntent.ExitCharacterization | chatbot.py:53-83 | exit iff the input is non-empty and its lower-cased, stripped form has a whitespace-delimited run that cleans to a keyword, or contains an exit phrase |
| ExitIntent.CleanWordTrailing | chatbot.py:69 | cleaning a token deletes a trailing non-word character |
| ExitIntent.CleanWordAppend | chatbot.py:69 | cleaning keeps order: a concatenation cleans to the concatenation of the cleaned parts |
| ExitIntent.CleanWordChar | chatbot.py:69 | a single character is kept iff it is a word character |
| ExitIntent.ShoutedBye | chatbot.py:59-63 | " BYE " is an exit |
| ExitIntent.PunctuatedDone | chatbot.py:66-71 | "ok, done!" is an exit through its token "done!" |
| ExitIntent.WeekendNotExit | chatbot.py:58-83 | "weekend" is not an exit, though it ends in "end" |
| Chatbot.StoreIfAbsent | chatbot.py:90-93 | keeps every existing entry; stores a non-empty finding under an absent key and nothing else |
| Chatbot.StoredExperienceMatch | chatbot.py:101-105 | the stored experience is absent iff the experience pattern matches nowhere in the lower-cased input; otherwise it is group 1 of the leftmost match followed by " years" |
| Chatbot.ExtractCandidateInfo | chatbot.py:85-105 | existing entries are never overwritten; only email, phone and experience may be added; each is added iff absent before and its extractor finds something |
| Chatbot.ExtractCandidateInfoIdempotent | chatbot.py:85-105 | extracting twice from the same input changes nothing more |
| Chatbot.OneYrStoredPlural | chatbot.py:102-105 | "1 yr" is stored as "1 years", while extract_experience gives "1 year" |
| Chatbot.Recent | chatbot.py:126 | the last min(12, n) history entries, in order |
| Chatbot.Outbound | chatbot.py:123-130 | the request is the system prompt, the recent history and the user's input, at most 14 messages |
| Chatbot.GetResponse | chatbot.py:115-153 | an exit returns the farewell, sends nothing and keeps the state; otherwise the request is sent; a reply is answered, the pair is appended and the record is updated by extraction; a failure apologises and keeps the state |
| Chatbot.ErrorAnswerShape | chatbot.py:152-153 | the apology names the technical difficulties and carries the error text |
| Chatbot.TurnKeepsAlternating | chatbot.py:144-145 | every turn keeps the history alternating user, assistant, in whole pairs |
| Chatbot.ConverseInvariant | chatbot.py:115-153 | over any conversation the history stays alternating and grows by two per answered turn; the record only gains entries; the prompt never changes |
| Text.WordsAreRuns | chatbot.py:66 | `split()` returns exactly the maximal non-whitespace runs of the text |

## Left out

- app.py (the Streamlit front end) is not part of this model. It holds the conversation-ended flag, its own copy of the displayed messages and the restart button; it never saves the record.
- The Groq client, the API key lookup, the model name and the call parameters (temperature, token limit, top_p) are left out: the call is the `Reply` parameter.
- The wording of the system prompt is left out: it is carried unchanged in the state and affects no modelled behaviour.
- `PhoneValidator.is_valid_phone` and `format_phone` are left out: they call the phonenumbers library. Record validation takes the phone check as a parameter.
- `DataValidator.hash_data` is left out: it uses JSON serialisation and SHA-256.
- `export_to_dataframe` and `save_to_csv` are left out: they do pandas and file I/O and take a wall-clock timestamp.
- Unicode is left out: text is treated as ASCII, as described above. Non-ASCII letters, digits and whitespace, which Python's `str` methods and `re` also accept, are not modelled.
- Experience.ExtractExperience: the text of a non-singular number is the `render` parameter, not Python's `float` printing. The singular decision uses the numeral's exact decimal value, so float rounding of very long numerals is not modelled.
- Experience.YearsPhrase: the singular is decided on the numeral's exact value, not on `float(group(1)) != 1`. A numeral that a float rounds to 1, such as "1.00000000000000001", gives "1 year" in the code and the plural here.
- Experience.PhraseThenValidate: holds only for a render/parse pair that reads the numeral's exact value back. With Python floats, "50.000000000000001" renders as "50.0" and is accepted although its exact value is above 50.
- Experience.ExtractThenValidate: rests on the same exact read-back assumption as PhraseThenValidate. Float rounding can make the code accept a matched value slightly above 50.
- Experience.ValidateNumeralYears: `float()` is the `parse` parameter. The lemmas assume a parse that reads numerals exactly; Python's NaN and infinities are outside the reals, and `parse` gives None for them, which the range check also rejects.
- `is_valid_experience` on bytes is left out: `bytes.replace` with text arguments raises TypeError, which the code does not catch. The model takes text or a non-text value, and rejects the latter.
- Candidate.ValidateCandidateData: a truthy email or name value that is not text makes `name.strip()` (validators.py:141) or `re.match` (validators.py:19, 143) raise. The requires clause rules this case out instead of modelling the exception.
- A `None` input to the extractors and to `is_exit_keyword` is not modelled separately: they treat it like the empty text, which is modelled.
- A reply whose content is `None` is left out: `Reply.Ok` carries text.
- The per-turn `bot_response` argument of `extract_candidate_info` is left out: the code never reads it.
