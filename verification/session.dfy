/**
 * The component driven by a sequence of user and environment events.  Each
 * event is one handler running to completion; a POST that has been sent but
 * has not settled yet is counted in `pending`, and an environment event
 * `Settled` resolves one of them.  Events whose control is
 * disabled or absent on screen change nothing.
 */
module Session {
  import opened Wrappers
  import opened Strings
  import opened Segmenter
  import opened Conversation
  import opened Speech

  datatype Event =
    | Typed(value: string)
    | KeyPressed(key: string)
    | SendPressed
    | Settled(outcome: Settlement)
    | ReasonPressed
    | SearchPressed
    | Heard(results: seq<seq<string>>)
    | NotHeard
    | SpeakerPressed(index: nat)
    | SpeechFinished

  /** The component's state together with the number of requests sent and
      not yet settled. */
  datatype Session = Session(ui: State, pending: nat)

  const Start: Session := Session(Initial, 0)

  datatype Next = Next(session: Session, effect: Effect)

  /** A speaker button is rendered beside each text part of a bot message; a
      message with no text part has none. */
  predicate HasSpeaker(messages: seq<Message>, index: nat) {
    && index < |messages|
    && messages[index].role == Bot
    && exists j :: 0 <= j < |Segments(messages[index].text, 0)| && Segments(messages[index].text, 0)[j].kind == Text
  }

  /** An empty bot message shows no speaker button, and a non-empty one with
      no code block shows one: its whole text is a single text part. */
  lemma SpeakerShown(messages: seq<Message>, index: nat)
    ensures HasSpeaker(messages, index) ==>
              index < |messages| && messages[index].role == Bot && |messages[index].text| > 0
    ensures (&& index < |messages| && messages[index].role == Bot && |messages[index].text| > 0
             && NextMatch(messages[index].text, 0).None?) ==> HasSpeaker(messages, index)
  {
    if index < |messages| {
      var t := messages[index].text;
      SegmentsProperties(t);
      if |t| > 0 && NextMatch(t, 0).None? {
        assert Segments(t, 0)[0].kind == Text;
      }
    }
  }

  /** Dispatches one event to its handler.  The text field is disabled while
      `isProcessing` is raised, so typing and Enter do nothing then. */
  function Apply(ss: Session, e: Event): (r: Next)
    ensures r.effect.Post? ==> r.session.pending == ss.pending + 1
    ensures e.Settled? && ss.pending > 0 ==> r.session.pending == ss.pending - 1
    ensures !r.effect.Post? && !(e.Settled? && ss.pending > 0) ==> r.session.pending == ss.pending
    ensures (e.Typed? || e.KeyPressed?) && ss.ui.isProcessing ==> r == Next(ss, NoEffect)
    ensures e.SpeakerPressed? && !HasSpeaker(ss.ui.messages, e.index) ==> r == Next(ss, NoEffect)
  {
    var ui := ss.ui;
    match e
    case Typed(v) =>
      if ui.isProcessing then Next(ss, NoEffect) else Next(ss.(ui := TypeInput(ui, v)), NoEffect)
    case KeyPressed(k) =>
      if ui.isProcessing then Next(ss, NoEffect) else Sent(ss, KeyPress(ui, k))
    case SendPressed => Sent(ss, SendButton(ui))
    case Settled(o) =>
      if ss.pending == 0 then Next(ss, NoEffect) else Next(Session(Settle(ui, o), ss.pending - 1), NoEffect)
    case ReasonPressed => Next(ss.(ui := HandleReason(ui)), NoEffect)
    case SearchPressed => var st := HandleSearch(ui); Next(ss.(ui := st.state), st.effect)
    case Heard(rs) => Next(ss.(ui := VoiceResult(ui, rs)), NoEffect)
    case NotHeard => var st := VoiceError(ui); Next(ss.(ui := st.state), st.effect)
    case SpeakerPressed(i) =>
      if HasSpeaker(ui.messages, i) then
        var st := SpeakText(ui, ui.messages[i].text, i); Next(ss.(ui := st.state), st.effect)
      else Next(ss, NoEffect)
    case SpeechFinished => Next(ss.(ui := SpeechEnded(ui)), NoEffect)
  }

  /** Takes a controller step, counting the request it posts, if any. */
  function Sent(ss: Session, st: Step): Next {
    Next(Session(st.state, if st.effect.Post? then ss.pending + 1 else ss.pending), st.effect)
  }

  /** The session after every event, in order. */
  function Run(ss: Session, events: seq<Event>): Session
    decreases |events|
  {
    if |events| == 0 then ss else Run(Apply(ss, events[0]).session, events[1..])
  }

  /** What holds in every reachable session: `isProcessing` implies `loading`,
      `loading` implies an unsettled request, every user message has a
      non-blank text, and the message being read aloud is an existing bot
      message. */
  predicate Valid(ss: Session) {
    && (ss.ui.isProcessing ==> ss.ui.loading)
    && (ss.ui.loading ==> ss.pending > 0)
    && UsersNonBlank(ss.ui.messages)
    && (ss.ui.speaking.Some? ==> ss.ui.speaking.value < |ss.ui.messages| && ss.ui.messages[ss.ui.speaking.value].role == Bot)
  }

  /** Every user message has a non-blank text. */
  predicate UsersNonBlank(messages: seq<Message>) {
    forall i :: 0 <= i < |messages| && messages[i].role == User ==> !Blank(messages[i].text)
  }

  lemma AppendKeepsUsersNonBlank(messages: seq<Message>, m: Message)
    requires UsersNonBlank(messages) && (m.role == User ==> !Blank(m.text))
    ensures UsersNonBlank(messages + [m])
  {
    var after := messages + [m];
    forall i | 0 <= i < |after| && after[i].role == User
      ensures !Blank(after[i].text)
    {
      if i < |messages| {
        assert after[i] == messages[i];
      }
    }
  }

  lemma StartValid()
    ensures Valid(Start)
  {
  }

  /** The transition's effect on `messages`: at most one message appended,
      nothing before it changed. */
  lemma ApplyAppendsAtMostOne(ss: Session, e: Event)
    ensures ss.ui.messages <= Apply(ss, e).session.ui.messages
    ensures |Apply(ss, e).session.ui.messages| <= |ss.ui.messages| + 1
  {
  }

  lemma ApplyPreservesValid(ss: Session, e: Event)
    requires Valid(ss)
    ensures Valid(Apply(ss, e).session)
  {
    var before, after := ss.ui.messages, Apply(ss, e).session.ui.messages;
    ApplyAppendsAtMostOne(ss, e);
    if |after| > |before| {
      var m := after[|before|];
      assert after == before + [m];
      assert m.role == User ==> !Blank(m.text);
      AppendKeepsUsersNonBlank(before, m);
    } else {
      assert after == before;
    }
  }

  /** Validity holds after any sequence of events from a valid session. */
  lemma {:induction false} RunPreservesValid(ss: Session, events: seq<Event>)
    requires Valid(ss)
    ensures Valid(Run(ss, events))
    decreases |events|
  {
    if |events| > 0 {
      ApplyPreservesValid(ss, events[0]);
      RunPreservesValid(Apply(ss, events[0]).session, events[1..]);
    }
  }

  /** The history only grows: no event removes or rewrites a message. */
  lemma {:induction false} RunKeepsHistory(ss: Session, events: seq<Event>)
    ensures ss.ui.messages <= Run(ss, events).ui.messages
    ensures |Run(ss, events).ui.messages| <= |ss.ui.messages| + |events|
    decreases |events|
  {
    if |events| > 0 {
      ApplyAppendsAtMostOne(ss, events[0]);
      RunKeepsHistory(Apply(ss, events[0]).session, events[1..]);
    }
  }

  /** A request is posted exactly when Enter or the send button meets a
      non-blank input while `isProcessing` is down; the posted prompt is the raw
      input, now the last user message. */
  lemma PostIffAccepted(ss: Session, e: Event)
    ensures Apply(ss, e).effect.Post? <==>
              (e.SendPressed? || (e.KeyPressed? && e.key == "Enter"))
              && !ss.ui.isProcessing && !Blank(ss.ui.input)
    ensures Apply(ss, e).effect.Post? ==>
              && Apply(ss, e).effect.prompt == ss.ui.input
              && AppendedOne(ss.ui.messages, Apply(ss, e).session.ui.messages, Message(ss.ui.input, User))
  {
  }

  /** While `isProcessing` is raised, no event posts a request. */
  lemma NoPostWhileProcessing(ss: Session, e: Event)
    requires ss.ui.isProcessing
    ensures !Apply(ss, e).effect.Post?
  {
  }

  lemma RunStep(ss: Session, e: Event, rest: seq<Event>)
    ensures Run(ss, [e] + rest) == Run(Apply(ss, e).session, rest)
  {
    assert ([e] + rest)[1..] == rest;
  }

  /** Running two event sequences one after the other is running their
      concatenation. */
  lemma {:induction false} RunConcat(ss: Session, a: seq<Event>, b: seq<Event>)
    ensures Run(ss, a + b) == Run(Run(ss, a), b)
    decreases |a|
  {
    if |a| == 0 {
      assert a + b == b;
    } else {
      assert (a + b)[0] == a[0] && (a + b)[1..] == a[1..] + b;
      RunConcat(Apply(ss, a[0]).session, a[1..], b);
    }
  }

  /** Typing a non-blank message and pressing send, while `isProcessing` is down,
      records it as a user message and leaves one more request pending. */
  lemma TypeAndSend(ss: Session, v: string)
    requires !ss.ui.isProcessing && !Blank(v)
    ensures Run(ss, [Typed(v), SendPressed])
            == Session(ss.ui.(messages := ss.ui.messages + [Message(v, User)], input := [],
                              isProcessing := true, loading := true),
                       ss.pending + 1)
  {
    RunStep(ss, Typed(v), [SendPressed]);
    RunStep(Apply(ss, Typed(v)).session, SendPressed, []);
  }

  /** A full exchange: typing a non-blank message and sending it with
      `isProcessing` down, then the request settling, leaves the user message
      followed by the bot's answer, an empty input and both flags lowered. */
  lemma ExchangeAppendsPair(ss: Session, v: string, o: Settlement)
    requires !ss.ui.isProcessing && !Blank(v)
    ensures Run(ss, [Typed(v), SendPressed, Settled(o)])
            == Session(ss.ui.(messages := ss.ui.messages + [Message(v, User), Message(SettlementText(o), Bot)],
                              input := [], isProcessing := false, loading := false),
                       ss.pending)
  {
    var sent := Run(ss, [Typed(v), SendPressed]);
    TypeAndSend(ss, v);
    assert [Typed(v), SendPressed, Settled(o)] == [Typed(v), SendPressed] + [Settled(o)];
    RunConcat(ss, [Typed(v), SendPressed], [Settled(o)]);
    SettleStep(sent, o);
    var pair := [Message(v, User), Message(SettlementText(o), Bot)];
    assert Settle(sent.ui, o)
           == ss.ui.(messages := ss.ui.messages + pair, input := [], isProcessing := false, loading := false) by {
      assert sent.ui.messages + [pair[1]] == ss.ui.messages + pair;
    }
  }

  /** The send button while `isProcessing` is raised, as a run of one event. */
  lemma StopStep(ss: Session)
    requires ss.ui.isProcessing
    ensures Run(ss, [SendPressed]) == Session(ss.ui.(isProcessing := false), ss.pending)
  {
    RunStep(ss, SendPressed, []);
  }

  /** The settlement of a pending request, as a run of one event. */
  lemma SettleStep(ss: Session, o: Settlement)
    requires ss.pending > 0
    ensures Run(ss, [Settled(o)]) == Session(Settle(ss.ui, o), ss.pending - 1)
  {
    RunStep(ss, Settled(o), []);
  }

  /** Sending, pressing the button again (now a stop button) and the request
      settling as canceled leaves the user message followed by exactly one
      "Request canceled" bot message, with both flags lowered. */
  lemma StopThenCancel(ss: Session, v: string)
    requires !ss.ui.isProcessing && !Blank(v)
    ensures Run(ss, [Typed(v), SendPressed, SendPressed, Settled(Canceled)])
            == Session(ss.ui.(messages := ss.ui.messages + [Message(v, User), Message(CanceledText, Bot)],
                              input := [], isProcessing := false, loading := false),
                       ss.pending)
  {
    var sent := Run(ss, [Typed(v), SendPressed]);
    TypeAndSend(ss, v);
    var stopped := Session(sent.ui.(isProcessing := false), sent.pending);
    StopStep(sent);
    SettleStep(stopped, Canceled);
    assert [SendPressed] + [Settled(Canceled)] == [SendPressed, Settled(Canceled)];
    RunConcat(sent, [SendPressed], [Settled(Canceled)]);
    assert [Typed(v), SendPressed, SendPressed, Settled(Canceled)]
           == [Typed(v), SendPressed] + [SendPressed, Settled(Canceled)];
    RunConcat(ss, [Typed(v), SendPressed], [SendPressed, Settled(Canceled)]);
    assert stopped.ui.messages + [Message(CanceledText, Bot)]
           == ss.ui.messages + [Message(v, User), Message(CanceledText, Bot)];
  }

  /** Stopping lowers `isProcessing` before the request settles, so a second
      request can be sent while the first is still pending; when the first
      one settles, its cleanup lowers both flags although the second is still
      pending. */
  lemma StopAllowsOverlap(ss: Session, o: Settlement)
    requires Valid(ss) && ss.ui.isProcessing
    ensures var s1 := Apply(ss, SendPressed).session;
            var s2 := Apply(s1, Typed("again")).session;
            var s3 := Apply(s2, SendPressed);
            var s4 := Apply(s3.session, Settled(o)).session;
            && s3.effect == Post("again")
            && s3.session.pending == ss.pending + 1
            && !s4.ui.isProcessing && !s4.ui.loading && s4.pending == ss.pending
  {
    assert !IsWhitespace("again"[0]);
  }
}
