/**
 * Reading a bot message aloud.  The speaker button of a message toggles:
 * pressing it on the message being read cancels speech; pressing it on any
 * other message starts a new utterance and marks that message as the one
 * being read.  The utterance's `onend` clears the mark.
 */
module Speech {
  import opened Wrappers
  import opened Conversation

  /** `speakText(text, index)`. */
  function SpeakText(s: State, text: string, index: nat): (r: Step)
    ensures s.speaking == Some(index) ==> r.state.speaking.None? && r.effect == CancelSpeech
    ensures s.speaking != Some(index) ==> r.state.speaking == Some(index) && r.effect == Speak(text)
    ensures r.state.messages == s.messages && r.state.input == s.input
    ensures r.state.isProcessing == s.isProcessing && r.state.loading == s.loading
  {
    if s.speaking == Some(index) then Step(s.(speaking := None), CancelSpeech)
    else Step(s.(speaking := Some(index)), Speak(text))
  }

  /** The utterance's `onend`: clears the mark, whichever utterance ended. */
  function SpeechEnded(s: State): (r: State)
    ensures r.speaking.None?
    ensures r.messages == s.messages && r.input == s.input
    ensures r.isProcessing == s.isProcessing && r.loading == s.loading
  {
    s.(speaking := None)
  }

  /** Pressing the same speaker twice returns to silence, from silence or from
      reading another message. */
  lemma SpeakTwiceSilences(s: State, text: string, index: nat)
    requires s.speaking != Some(index)
    ensures SpeakText(SpeakText(s, text, index).state, text, index).state.speaking.None?
    ensures SpeakText(SpeakText(s, text, index).state, text, index).effect == CancelSpeech
  {
  }

  /** Pressing another message's speaker while one is being read switches to
      it rather than stopping. */
  lemma SpeakOtherSwitches(s: State, a: string, i: nat, b: string, j: nat)
    requires i != j
    ensures SpeakText(SpeakText(s, a, i).state, b, j).state.speaking == Some(j)
    ensures SpeakText(SpeakText(s, a, i).state, b, j).effect == Speak(b)
  {
  }
}
