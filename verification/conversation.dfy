/**
 * The conversation controller of the chat client: the state the component
 * keeps (`messages`, `input`, `isProcessing`, `loading`, `isSpeaking`) and the
 * handlers that change it, each modelled as one atomic transition.  Effects
 * on the outside world (a toast, the POST to the generation endpoint, the
 * abort signal, a new browser tab) are returned as values, never performed.
 */
module Conversation {
  import opened Wrappers
  import opened Strings

  datatype Role = User | Bot

  /** `{ text, type }` as stored in `messages`. */
  datatype Message = Message(text: string, role: Role)

  /** The component's state.  `speaking` is `isSpeaking`: the index of the
      message being read aloud, or none. */
  datatype State = State(
    messages: seq<Message>,
    input: string,
    isProcessing: bool,
    loading: bool,
    speaking: Option<nat>)

  /** The state right after mounting. */
  const Initial: State := State([], "", false, false, None)

  /** What a transition asks of the browser or the network. */
  datatype Effect =
    | NoEffect
    | Toast(notice: string)
    | Post(prompt: string)
    | Abort
    | OpenTab(url: string)
    | Speak(utterance: string)
    | CancelSpeech

  datatype Step = Step(state: State, effect: Effect)

  const BusyNotice: string := "Please enter a message or wait for the previous response!"
  const CanceledText: string := "Request canceled"
  const ApologyText: string := "Sorry, something went wrong. Please try again."
  const VoiceNotice: string := "Sorry, I couldn't understand your voice input."
  const SearchPrefix: string := "https://www.google.com/search?q="
  const ReasonsIntro: string := "Here are some common reasons you can ask: "
  const Reasons: seq<string> := ["Why is the sky blue?", "Explain quantum physics.", "How does AI work?"]

  /** `messages` grew by exactly `m` at the end. */
  predicate AppendedOne(before: seq<Message>, after: seq<Message>, m: Message) {
    |after| == |before| + 1 && after[..|before|] == before && after[|before|] == m
  }

  /** An accepted send: the raw input becomes the one new user message, the
      input is cleared, both flags are raised, the speech state is kept and
      the raw input is posted. */
  predicate Posted(s: State, r: Step) {
    && AppendedOne(s.messages, r.state.messages, Message(s.input, User))
    && r.state.input == []
    && r.state.isProcessing && r.state.loading
    && r.state.speaking == s.speaking
    && r.effect == Post(s.input)
  }

  /** `getResponse`, up to the request: rejected with a toast when the input
      is blank or `isProcessing` is raised; otherwise the raw input becomes a
      user message, the input is cleared, both flags are raised and the raw
      input is posted.  The guard `!input.trim()` is written as `Blank`, which
      `TrimEmptyIffBlank` shows to be the same test. */
  function GetResponse(s: State): (r: Step)
    ensures r.effect.Toast? <==> Blank(s.input) || s.isProcessing
    ensures r.effect.Toast? ==> r.state == s && r.effect.notice == BusyNotice
    ensures !r.effect.Toast? ==> Posted(s, r)
  {
    if Blank(s.input) || s.isProcessing then
      Step(s, Toast(BusyNotice))
    else
      Step(s.(messages := s.messages + [Message(s.input, User)],
              input := [],
              isProcessing := true,
              loading := true),
           Post(s.input))
  }

  /** One candidate of the endpoint's reply: the texts of `content.parts`.
      Every part is taken to carry a string `text`. */
  datatype Candidate = Candidate(parts: seq<string>)

  /** How the awaited POST settles, as seen by `getResponse`. */
  datatype Settlement =
    | Responded(candidates: seq<Candidate>)
    | Canceled
    | Failed

  /** `res.data.candidates[0].content.parts[0].text`, or none when there is
      no first candidate or no first part (reading the path would throw). */
  function ReplyText(candidates: seq<Candidate>): (r: Option<string>)
    ensures r.Some? <==> |candidates| > 0 && |candidates[0].parts| > 0
    ensures r.Some? ==> r.value == candidates[0].parts[0]
  {
    if |candidates| > 0 && |candidates[0].parts| > 0 then Some(candidates[0].parts[0]) else None
  }

  /** The bot message's text for a settlement: the reply, the cancellation
      notice when axios reports a cancel, the apology for every other error
      (a reply without a first candidate or a first part included). */
  function SettlementText(o: Settlement): (t: string)
    ensures o.Canceled? ==> t == CanceledText
    ensures o.Failed? ==> t == ApologyText
    ensures o.Responded? && ReplyText(o.candidates).Some? ==> t == ReplyText(o.candidates).value
    ensures o.Responded? && ReplyText(o.candidates).None? ==> t == ApologyText
  {
    match o
    case Responded(cs) =>
      (match ReplyText(cs)
       case Some(text) => text
       case None => ApologyText)
    case Canceled => CanceledText
    case Failed => ApologyText
  }

  /** The rest of `getResponse`, once the POST settles: exactly one bot
      message is appended and the `finally` block lowers both flags.  The
      input typed meanwhile and the speech state are left alone. */
  function Settle(s: State, o: Settlement): (r: State)
    ensures AppendedOne(s.messages, r.messages, Message(SettlementText(o), Bot))
    ensures !r.isProcessing && !r.loading
    ensures r.input == s.input && r.speaking == s.speaking
  {
    s.(messages := s.messages + [Message(SettlementText(o), Bot)],
       loading := false,
       isProcessing := false)
  }

  /** `stopResponse`: signals the abort and lowers `isProcessing` at once;
      `loading` stays raised until the request settles. */
  function StopResponse(s: State): (r: Step)
    ensures !r.state.isProcessing
    ensures r.state.messages == s.messages && r.state.loading == s.loading
    ensures r.state.input == s.input && r.state.speaking == s.speaking
    ensures r.effect == Abort
  {
    Step(s.(isProcessing := false), Abort)
  }

  /** The summed lengths of `items`. */
  function TotalLength(items: seq<string>): nat {
    if |items| == 0 then 0 else |items[0]| + TotalLength(items[1..])
  }

  /** `Array.prototype.join` on strings: the items in order with one
      separator between each two neighbours, and nothing for no items. */
  function Join(items: seq<string>, sep: string): (r: string)
    ensures |items| == 0 ==> |r| == 0
    ensures |items| > 0 ==> |r| == TotalLength(items) + (|items| - 1) * |sep|
    ensures |items| > 0 ==> r[..|items[0]|] == items[0]
  {
    if |items| == 0 then []
    else if |items| == 1 then items[0]
    else items[0] + sep + Join(items[1..], sep)
  }

  /** Joining one more item adds a separator and that item at the end. */
  lemma {:induction false} JoinAppend(items: seq<string>, x: string, sep: string)
    requires |items| > 0
    ensures Join(items + [x], sep) == Join(items, sep) + sep + x
    decreases |items|
  {
    var ys := items + [x];
    assert ys[0] == items[0];
    if |items| > 1 {
      assert ys[1..] == items[1..] + [x];
      JoinAppend(items[1..], x, sep);
    } else {
      assert ys[1..] == [x];
    }
  }

  /** The text `handleReason` posts as a bot message. */
  function ReasonsText(): string {
    ReasonsIntro + Join(Reasons, ", ")
  }

  /** The suggestion message: the introduction, then the three suggestions
      separated by a comma and a space. */
  lemma ReasonsTextSpelled()
    ensures ReasonsText()
            == ReasonsIntro + "Why is the sky blue?" + ", " + "Explain quantum physics." + ", " + "How does AI work?"
  {
    var a, b, c := "Why is the sky blue?", "Explain quantum physics.", "How does AI work?";
    assert Reasons[1..] == [b, c] && Reasons[1..][1..] == [c];
    assert Join(Reasons[1..], ", ") == b + ", " + c;
    assert Join(Reasons, ", ") == a + ", " + (b + ", " + c);
    assert ReasonsIntro + (a + ", " + (b + ", " + c)) == ReasonsIntro + a + ", " + b + ", " + c;
  }


  /** `handleReason`: appends the fixed suggestion as a bot message, whatever
      the flags say. */
  function HandleReason(s: State): (r: State)
    ensures AppendedOne(s.messages, r.messages, Message(ReasonsText(), Bot))
    ensures r.input == s.input && r.isProcessing == s.isProcessing
    ensures r.loading == s.loading && r.speaking == s.speaking
  {
    s.(messages := s.messages + [Message(ReasonsText(), Bot)])
  }

  /** `handleSearch`: opens a search for the raw input and clears it. */
  function HandleSearch(s: State): (r: Step)
    ensures r.state.input == []
    ensures r.state.messages == s.messages && r.state.isProcessing == s.isProcessing
    ensures r.state.loading == s.loading && r.state.speaking == s.speaking
    ensures r.effect == OpenTab(SearchPrefix + s.input)
  {
    Step(s.(input := []), OpenTab(SearchPrefix + s.input))
  }

  /** The input's `onChange`. */
  function TypeInput(s: State, value: string): (r: State)
    ensures r.input == value
    ensures r.messages == s.messages && r.isProcessing == s.isProcessing
    ensures r.loading == s.loading && r.speaking == s.speaking
  {
    s.(input := value)
  }

  /** The recogniser's `onresult`: the first alternative of the first result
      replaces the input.  When the event carries no such alternative, reading
      it throws inside the callback and nothing changes. */
  function VoiceResult(s: State, results: seq<seq<string>>): (r: State)
    ensures |results| > 0 && |results[0]| > 0 ==> r.input == results[0][0]
    ensures !(|results| > 0 && |results[0]| > 0) ==> r == s
    ensures r.messages == s.messages && r.isProcessing == s.isProcessing
    ensures r.loading == s.loading && r.speaking == s.speaking
  {
    if |results| > 0 && |results[0]| > 0 then s.(input := results[0][0]) else s
  }

  /** The recogniser's `onerror`: a toast, and nothing else. */
  function VoiceError(s: State): (r: Step)
    ensures r.state == s && r.effect == Toast(VoiceNotice)
  {
    Step(s, Toast(VoiceNotice))
  }

  /** `handleKeyPress`: Enter sends, every other key does nothing. */
  function KeyPress(s: State, key: string): (r: Step)
    ensures key != "Enter" ==> r.state == s && r.effect == NoEffect
    ensures key == "Enter" ==> (r.effect.Post? <==> !Blank(s.input) && !s.isProcessing)
    ensures key == "Enter" && !r.effect.Post? ==> r.state == s && r.effect == Toast(BusyNotice)
    ensures r.effect.Post? ==> Posted(s, r)
  {
    if key == "Enter" then GetResponse(s) else Step(s, NoEffect)
  }

  /** The send button: it stops the request while `isProcessing` is raised
      and sends otherwise. */
  function SendButton(s: State): (r: Step)
    ensures s.isProcessing ==>
              && r.effect == Abort && !r.state.isProcessing
              && r.state.messages == s.messages && r.state.loading == s.loading
              && r.state.input == s.input && r.state.speaking == s.speaking
    ensures !s.isProcessing ==> (r.effect.Post? <==> !Blank(s.input))
    ensures !s.isProcessing && !r.effect.Post? ==> r.state == s && r.effect == Toast(BusyNotice)
    ensures r.effect.Post? ==> Posted(s, r)
  {
    if s.isProcessing then StopResponse(s) else GetResponse(s)
  }
}
