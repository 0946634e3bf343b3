/**
  `CandidateDataManager`: record-level validation, which collects one message
  per failing field in a fixed order, and record-level sanitising.

  A record is a map from field name to value. The phone and experience checks
  are parameters: the first wraps a phone-number library that is not part of
  this model, and the second can be instantiated with
  `Experience.IsValidExperience`.
 */
module Candidate {

  import opened Text
  import opened Values
  import opened Email
  import opened Fields

  type Record = map<string, Value>

  datatype Validation = Validation(valid: bool, errors: seq<string>)

  const EmailError := "Invalid email format"
  const PhoneError := "Invalid phone number"
  const ExperienceError := "Invalid experience format"
  const NameError := "Invalid name format"

  /** The messages in the order the checks run. */
  const AllErrors: seq<string> := [EmailError, PhoneError, ExperienceError, NameError]

  /**
    `is_valid_email` on a record value: False when the value is falsy. A truthy
    value that is not text makes `re.match` raise, so it is excluded by the
    callers' preconditions.
   */
  function EmailOk(v: Value): bool
    requires v.Text? || IsFalsy(v)
  {
    v.Text? && IsValidEmail(v.s)
  }

  /** `validate_name` on a record value, under the same restriction. */
  function NameOk(v: Value): bool
    requires v.Text? || IsFalsy(v)
  {
    v.Text? && ValidateName(v.s)
  }

  /** A truthy value that is not text would raise inside the email or name check. */
  predicate Checkable(info: Record, key: string) {
    key in info ==> info[key].Text? || IsFalsy(info[key])
  }

  /** The field is present and its check fails. */
  predicate Fails(info: Record, key: string, ok: Value -> bool) {
    key in info && !ok(info[key])
  }

  /** a can be obtained from b by deleting elements: the same order, nothing added. */
  predicate IsSubsequence<T(==)>(a: seq<T>, b: seq<T>)
    decreases |b|
  {
    if a == [] then true
    else if b == [] then false
    else if a[0] == b[0] then IsSubsequence(a[1..], b[1..])
    else IsSubsequence(a, b[1..])
  }

  /** `m` appended when the field fails its validation. */
  function AppendIf(errors: seq<string>, fails: bool, m: string): seq<string> {
    if fails then errors + [m] else errors
  }

  /** `CandidateDataManager.validate_candidate_data` */
  function ValidateCandidateData(info: Record, phoneOk: Value -> bool, expOk: Value -> bool): (r: Validation)
    requires Checkable(info, "email") && Checkable(info, "name")
    ensures r.valid <==> r.errors == []
    ensures EmailError in r.errors <==> "email" in info && !EmailOk(info["email"])
    ensures PhoneError in r.errors <==> Fails(info, "phone", phoneOk)
    ensures ExperienceError in r.errors <==> Fails(info, "experience", expOk)
    ensures NameError in r.errors <==> "name" in info && !NameOk(info["name"])
    ensures IsSubsequence(r.errors, AllErrors)
  {
    var emailFails := "email" in info && !EmailOk(info["email"]);
    var nameFails := "name" in info && !NameOk(info["name"]);
    var e1 := AppendIf([], emailFails, EmailError);
    var e2 := AppendIf(e1, Fails(info, "phone", phoneOk), PhoneError);
    var e3 := AppendIf(e2, Fails(info, "experience", expOk), ExperienceError);
    var e4 := AppendIf(e3, nameFails, NameError);
    PicksInOrder(emailFails, Fails(info, "phone", phoneOk), Fails(info, "experience", expOk), nameFails);
    Validation(e4 == [], e4)
  }

  /** The four messages are different texts. */
  lemma ErrorsDistinct()
    ensures EmailError != PhoneError && EmailError != ExperienceError && EmailError != NameError
    ensures PhoneError != ExperienceError && PhoneError != NameError && ExperienceError != NameError
  {
    assert EmailError[8] == 'e' && PhoneError[8] == 'p' && ExperienceError[8] == 'e' && NameError[8] == 'n';
    assert EmailError[9] == 'm' && ExperienceError[9] == 'x';
  }

  /** Putting b's first element, which a lacks, in front of a subsequence of b's tail, or not, gives a subsequence of b. */
  lemma OptionalHead<T>(take: bool, a: seq<T>, b: seq<T>)
    requires b != [] && b[0] !in a && IsSubsequence(a, b[1..])
    ensures IsSubsequence((if take then [b[0]] else []) + a, b)
  {
    var e := (if take then [b[0]] else []) + a;
    if take {
      assert e[0] == b[0] && e[1..] == a;
    } else {
      assert e == a;
      assert a != [] ==> a[0] != b[0];
    }
  }

  /** The messages picked by the four checks, in check order. */
  function Picked(b1: bool, b2: bool, b3: bool, b4: bool): seq<string> {
    (if b1 then [EmailError] else []) + PickedFrom2(b2, b3, b4)
  }

  function PickedFrom2(b2: bool, b3: bool, b4: bool): seq<string> {
    (if b2 then [PhoneError] else []) + PickedFrom3(b3, b4)
  }

  function PickedFrom3(b3: bool, b4: bool): seq<string> {
    (if b3 then [ExperienceError] else []) + PickedFrom4(b4)
  }

  function PickedFrom4(b4: bool): seq<string> {
    if b4 then [NameError] else []
  }

  /** The chain of conditional appends builds the picked messages. */
  lemma AppendsPick(b1: bool, b2: bool, b3: bool, b4: bool)
    ensures AppendIf(AppendIf(AppendIf(AppendIf([], b1, EmailError), b2, PhoneError), b3, ExperienceError), b4, NameError)
            == Picked(b1, b2, b3, b4)
  {
  }

  /** The picked messages are a subsequence of all messages. */
  lemma PickedInOrder(b1: bool, b2: bool, b3: bool, b4: bool)
    ensures IsSubsequence(Picked(b1, b2, b3, b4), AllErrors)
  {
    ErrorsDistinct();
    assert AllErrors[3..] == [NameError];
    OptionalHead(b4, [], AllErrors[3..]);
    assert AllErrors[2..] == [ExperienceError] + AllErrors[3..];
    OptionalHead(b3, PickedFrom4(b4), AllErrors[2..]);
    assert AllErrors[1..] == [PhoneError] + AllErrors[2..];
    OptionalHead(b2, PickedFrom3(b3, b4), AllErrors[1..]);
    OptionalHead(b1, PickedFrom2(b2, b3, b4), AllErrors);
  }

  /** A message is picked exactly when its check fails. */
  lemma PickedMembers(b1: bool, b2: bool, b3: bool, b4: bool)
    ensures var e := Picked(b1, b2, b3, b4);
            && (EmailError in e <==> b1) && (PhoneError in e <==> b2)
            && (ExperienceError in e <==> b3) && (NameError in e <==> b4)
  {
    ErrorsDistinct();
  }

  /** Whatever subset of the four checks fails, the messages come out in check order. */
  lemma PicksInOrder(b1: bool, b2: bool, b3: bool, b4: bool)
    ensures var e := AppendIf(AppendIf(AppendIf(AppendIf([], b1, EmailError), b2, PhoneError), b3, ExperienceError), b4, NameError);
            && IsSubsequence(e, AllErrors)
            && (EmailError in e <==> b1) && (PhoneError in e <==> b2)
            && (ExperienceError in e <==> b3) && (NameError in e <==> b4)
  {
    AppendsPick(b1, b2, b3, b4);
    PickedInOrder(b1, b2, b3, b4);
    PickedMembers(b1, b2, b3, b4);
  }

  /** A record with none of the four fields validates with no errors. */
  lemma EmptyRecordValid(phoneOk: Value -> bool, expOk: Value -> bool)
    ensures ValidateCandidateData(map[], phoneOk, expOk) == Validation(true, [])
  {
  }

  /** `CandidateDataManager.sanitize_candidate_data` */
  function SanitizeCandidateData(info: Record): (r: Record)
    ensures r.Keys == info.Keys
    ensures forall k | k in r :: r[k].Text? <==> info[k].Text?
    ensures forall k | k in r && !info[k].Text? :: r[k] == info[k]
    ensures forall k | k in info && info[k].Text? :: r[k] == Text(SanitizeInput(info[k].s))
    ensures forall k | k in r && r[k].Text? :: forall c | c in r[k].s :: IsSafe(c) && c in info[k].s
    ensures forall k | k in r && r[k].Text? :: r[k].s == [] || (!IsSpace(r[k].s[0]) && !IsSpace(r[k].s[|r[k].s| - 1]))
  {
    map k | k in info :: if info[k].Text? then Text(SanitizeInput(info[k].s)) else info[k]
  }

  /** Sanitising a record twice is sanitising it once. */
  lemma SanitizeCandidateIdempotent(info: Record)
    ensures SanitizeCandidateData(SanitizeCandidateData(info)) == SanitizeCandidateData(info)
  {
    var r := SanitizeCandidateData(info);
    forall k | k in r && r[k].Text? ensures SanitizeInput(r[k].s) == r[k].s {
      SanitizeIdempotent(info[k].s);
    }
  }

}
