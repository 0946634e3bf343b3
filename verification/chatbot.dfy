/**
  `TalentScoutChatbot`: one conversational turn as a pure state step, and the
  first-write-wins merge of extracted fields into the candidate record.

  The remote completion call is not part of this model: its outcome for the
  turn is the parameter `reply`, either the assistant's text or the text of the
  exception it raised. The system prompt is part of the state; its wording
  plays no part in the behaviour modelled here.
 */
module Chatbot {

  import opened Wrappers
  import opened Values
  import opened Text
  import opened Email
  import opened Phone
  import opened Experience
  import opened ExitIntent

  datatype Role = System | User | Assistant

  datatype Message = Message(role: Role, content: string)

  /** The outcome of the completion call. */
  datatype Reply = Ok(text: string) | Err(error: string)

  /** The chatbot's state: the prompt, the conversation so far and the candidate record. */
  datatype Bot = Bot(systemPrompt: string, history: seq<Message>, info: map<string, Value>)

  /** What a turn returns to the user, the next state, and the messages sent out, if any. */
  datatype Turn = Turn(answer: string, bot: Bot, sent: Option<seq<Message>>)

  /** How many history entries go out with each request. */
  const HistoryWindow := 12

  /** `get_farewell_message` */
  const Farewell: string :=
    "Thank you so much for your time today! \U{1F64F} \n\n"
    + "It was wonderful getting to know you and learning about your experience. "
    + "We'll carefully review everything we discussed and be in touch within the next few days "
    + "if your profile aligns with our current opportunities. \n\n"
    + "Best of luck with your job search! \U{1F3AF}"

  const Difficulty: string := "technical difficulties"

  const ApologyHead: string := "I apologize, but I'm experiencing "

  /** The text before the error in the apology. */
  const ErrorPrefix: string := ApologyHead + Difficulty + ". Please try again in a moment. Error: "

  /** The record b keeps every entry of a unchanged. */
  predicate Extends(a: map<string, Value>, b: map<string, Value>) {
    forall k | k in a :: k in b && b[k] == a[k]
  }

  /** The value an extractor found, stored under key when the key is absent and the value truthy (non-empty). */
  function StoreIfAbsent(info: map<string, Value>, key: string, found: Option<string>): (r: map<string, Value>)
    ensures Extends(info, r)
    ensures forall k | k in r && k !in info :: k == key
    ensures key !in info ==> (key in r <==> found.Some? && found.value != [])
    ensures key !in info && key in r ==> r[key] == Text(found.value)
  {
    if key !in info && found.Some? && found.value != [] then info[key := Text(found.value)] else info
  }

  /** Group 1 of the experience pattern in the lower-cased input, with " years" appended. */
  function StoredExperience(input: string): (r: Option<string>)
    ensures r.None? <==> MatchedNumeral(Lower(input)).None?
    ensures r.Some? ==> r.value == MatchedNumeral(Lower(input)).value + " years"
  {
    match MatchedNumeral(Lower(input))
    case None => None
    case Some(num) => Some(num + " years")
  }

  /**
    The stored text, read against the pattern itself: there is one iff the
    experience pattern matches the lower-cased input somewhere, and then it is
    group 1 of the leftmost match followed by " years".
   */
  lemma StoredExperienceMatch(input: string)
    ensures StoredExperience(input).None? <==> !HasExpMatch(Lower(input))
    ensures StoredExperience(input).Some? ==>
              exists s: nat, u: nat | s <= u <= |Lower(input)| && IsLeftmostGroup(Lower(input), s, u) ::
                StoredExperience(input).value == Lower(input)[s..u] + " years"
  {
  }

  /** The three stores of `extract_candidate_info`, for whatever the extractors found. */
  function Merge(info: map<string, Value>, email: Option<string>, phone: Option<string>, exp: Option<string>): (r: map<string, Value>)
    requires email.Some? ==> email.value != []
    requires phone.Some? ==> phone.value != []
    requires exp.Some? ==> exp.value != []
    ensures Extends(info, r)
    ensures forall k | k in r && k !in info :: k == "email" || k == "phone" || k == "experience"
    ensures "email" !in info ==> ("email" in r <==> email.Some?) && ("email" in r ==> r["email"] == Text(email.value))
    ensures "phone" !in info ==> ("phone" in r <==> phone.Some?) && ("phone" in r ==> r["phone"] == Text(phone.value))
    ensures "experience" !in info ==> ("experience" in r <==> exp.Some?) && ("experience" in r ==> r["experience"] == Text(exp.value))
  {
    var i1 := StoreIfAbsent(info, "email", email);
    var i2 := StoreIfAbsent(i1, "phone", phone);
    StoreIfAbsent(i2, "experience", exp)
  }

  /** `TalentScoutChatbot.extract_candidate_info`. Every extractor hit is non-empty, hence truthy and stored. */
  function ExtractCandidateInfo(info: map<string, Value>, input: string): (r: map<string, Value>)
    ensures Extends(info, r)
    ensures forall k | k in r && k !in info :: k == "email" || k == "phone" || k == "experience"
    ensures "email" !in info ==>
              && ("email" in r <==> ExtractEmail(input).Some?)
              && ("email" in r ==> r["email"] == Text(ExtractEmail(input).value))
    ensures "phone" !in info ==>
              && ("phone" in r <==> ExtractPhone(input).Some?)
              && ("phone" in r ==> r["phone"] == Text(ExtractPhone(input).value))
    ensures "experience" !in info ==>
              && ("experience" in r <==> StoredExperience(input).Some?)
              && ("experience" in r ==> r["experience"] == Text(StoredExperience(input).value))
  {
    Merge(info, ExtractEmail(input), ExtractPhone(input), StoredExperience(input))
  }

  /** Running the extraction twice on the same input changes nothing more. */
  lemma ExtractCandidateInfoIdempotent(info: map<string, Value>, input: string)
    ensures ExtractCandidateInfo(ExtractCandidateInfo(info, input), input) == ExtractCandidateInfo(info, input)
  {
    MergeTwice(info, ExtractEmail(input), ExtractPhone(input), StoredExperience(input));
  }

  /** Merging the same findings a second time adds nothing. */
  lemma MergeTwice(info: map<string, Value>, email: Option<string>, phone: Option<string>, exp: Option<string>)
    requires email.Some? ==> email.value != []
    requires phone.Some? ==> phone.value != []
    requires exp.Some? ==> exp.value != []
    ensures Merge(Merge(info, email, phone, exp), email, phone, exp) == Merge(info, email, phone, exp)
  {
    var r := Merge(info, email, phone, exp);
    var r2 := Merge(r, email, phone, exp);
    assert r2.Keys == r.Keys;
  }

  /**
    The chatbot stores the raw numeral and always says "years", unlike
    `extract_experience`: for "1 yr" it stores "1 years" where the validator
    gives "1 year".
   */
  lemma OneYrStoredPlural(render: string -> string)
    ensures StoredExperience("1 yr") == Some("1 years")
    ensures ExtractExperience("1 yr", render) == Some("1 year")
  {
    OneYrNumeral();
    StoredNumeral("1 yr", "1 yr", "1");
    assert "1" + " years" == "1 years";
    OneYrSingular(render);
  }

  /** What is stored is the numeral the experience search finds, followed by " years". */
  lemma StoredNumeral(input: string, t: string, num: string)
    requires Lower(input) == t && MatchedNumeral(t) == Some(num)
    ensures StoredExperience(input) == Some(num + " years")
  {
  }

  /** `conversation_history[-12:]` */
  function Recent(h: seq<Message>): (r: seq<Message>)
    ensures |r| == Min(HistoryWindow, |h|)
    ensures r == h[|h| - |r|..]
  {
    if |h| <= HistoryWindow then h else h[|h| - HistoryWindow..]
  }

  /** The request of one turn: the system prompt, the recent history and the user's input. */
  function Outbound(bot: Bot, input: string): (r: seq<Message>)
    ensures |r| == 2 + Min(HistoryWindow, |bot.history|) && |r| <= 14
    ensures r[0] == Message(System, bot.systemPrompt)
    ensures r[|r| - 1] == Message(User, input)
    ensures r[1..|r| - 1] == bot.history[|bot.history| - (|r| - 2)..]
  {
    [Message(System, bot.systemPrompt)] + Recent(bot.history) + [Message(User, input)]
  }

  /** `TalentScoutChatbot.get_response` */
  function GetResponse(bot: Bot, input: string, reply: Reply): (t: Turn)
    ensures IsExitKeyword(input) ==> t == Turn(Farewell, bot, None)
    ensures !IsExitKeyword(input) ==> t.sent == Some(Outbound(bot, input))
    ensures t.bot.systemPrompt == bot.systemPrompt
    ensures Extends(bot.info, t.bot.info)
    ensures !IsExitKeyword(input) && reply.Ok? ==>
              && t.answer == reply.text
              && t.bot.history == bot.history + [Message(User, input), Message(Assistant, reply.text)]
              && t.bot.info == ExtractCandidateInfo(bot.info, input)
    ensures (IsExitKeyword(input) || reply.Err?) ==> t.bot == bot
    ensures !IsExitKeyword(input) && reply.Err? ==> t.answer == ErrorPrefix + reply.error
  {
    if IsExitKeyword(input) then Turn(Farewell, bot, None)
    else
      var sent := Outbound(bot, input);
      match reply
      case Ok(text) =>
        var history := bot.history + [Message(User, input), Message(Assistant, text)];
        Turn(text, Bot(bot.systemPrompt, history, ExtractCandidateInfo(bot.info, input)), Some(sent))
      case Err(e) =>
        Turn(ErrorPrefix + e, bot, Some(sent))
  }

  /** The apology text names the difficulty and ends with the error text. */
  lemma ApologyShape(e: string)
    ensures Contains(ErrorPrefix + e, Difficulty)
    ensures Contains(ErrorPrefix + e, e)
  {
    var a := ErrorPrefix + e;
    assert a[|ApologyHead|..|ApologyHead| + |Difficulty|] == Difficulty;
    assert HasAt(a, |ApologyHead|, Difficulty);
    assert a[|ErrorPrefix|..|ErrorPrefix| + |e|] == e;
    assert HasAt(a, |ErrorPrefix|, e);
  }

  /** When the completion call fails, the answer names the difficulty and carries the error text. */
  lemma ErrorAnswerShape(bot: Bot, input: string, e: string)
    requires !IsExitKeyword(input)
    ensures Contains(GetResponse(bot, input, Err(e)).answer, Difficulty)
    ensures Contains(GetResponse(bot, input, Err(e)).answer, e)
  {
    ApologyShape(e);
  }

  /** The history alternates user and assistant entries, starting with the user, and has whole pairs. */
  predicate Alternating(h: seq<Message>) {
    && |h| % 2 == 0
    && forall i | 0 <= i < |h| :: h[i].role == (if i % 2 == 0 then User else Assistant)
  }

  /** Appending a user entry and then an assistant entry keeps the history alternating. */
  lemma PairKeepsAlternating(h: seq<Message>, u: Message, a: Message)
    requires Alternating(h) && u.role == User && a.role == Assistant
    ensures Alternating(h + [u, a])
  {
    var h2 := h + [u, a];
    forall i | 0 <= i < |h2| ensures h2[i].role == (if i % 2 == 0 then User else Assistant) {
      if i < |h| {
        assert h2[i] == h[i];
      }
    }
  }

  /** Every turn keeps the history alternating. */
  lemma TurnKeepsAlternating(bot: Bot, input: string, reply: Reply)
    requires Alternating(bot.history)
    ensures Alternating(GetResponse(bot, input, reply).bot.history)
  {
    if !IsExitKeyword(input) && reply.Ok? {
      PairKeepsAlternating(bot.history, Message(User, input), Message(Assistant, reply.text));
    }
  }

  /** One user input and the completion outcome for it. */
  datatype Exchange = Exchange(input: string, reply: Reply)

  /** The state after a sequence of turns. */
  function Converse(bot: Bot, xs: seq<Exchange>): Bot
    decreases |xs|
  {
    if xs == [] then bot
    else Converse(GetResponse(bot, xs[0].input, xs[0].reply).bot, xs[1..])
  }

  /** The number of turns that reached the model and got a reply. */
  function Answered(xs: seq<Exchange>): nat {
    if xs == [] then 0
    else (if !IsExitKeyword(xs[0].input) && xs[0].reply.Ok? then 1 else 0) + Answered(xs[1..])
  }

  /**
    Over a whole conversation the history stays alternating and grows by one
    pair per answered turn, the record only gains entries, and the prompt is
    never changed.
   */
  lemma {:induction false} ConverseInvariant(bot: Bot, xs: seq<Exchange>)
    requires Alternating(bot.history)
    ensures Alternating(Converse(bot, xs).history)
    ensures |Converse(bot, xs).history| == |bot.history| + 2 * Answered(xs)
    ensures Extends(bot.info, Converse(bot, xs).info)
    ensures Converse(bot, xs).systemPrompt == bot.systemPrompt
    decreases |xs|
  {
    if xs != [] {
      var next := GetResponse(bot, xs[0].input, xs[0].reply).bot;
      TurnKeepsAlternating(bot, xs[0].input, xs[0].reply);
      ConverseInvariant(next, xs[1..]);
    }
  }

}
