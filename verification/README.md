# Chat client core, modelled in Dafny

This project models the logic inside `src/App.jsx`, a React chat client for a
text-generation endpoint. It covers three parts of that file:

- **Reply segmenter.** `splitMessages` cuts a message into text parts and code
  parts. Code parts are the matches of the lazy, global regular expression
  ```` /(```[\s\S]+?```)/g ````. The renderer later deletes every fence from a
  code part.
- **Conversation controller.** The component state is
  `{messages, input, isProcessing, loading, isSpeaking}`. Each event handler is
  a pure transition on that state:
  - `getResponse`: the guard, the optimistic user message, and the settlement
    of the request;
  - `stopResponse`;
  - `handleReason` and `handleSearch`;
  - the voice recogniser's result and error handlers;
  - typing, Enter, and the send/stop button.
- **Speech toggle.** `speakText` and the utterance's `onend`.

Modules:

- `Wrappers` holds `Option`.
- `Strings` holds:
  - `trim` over the ECMAScript white-space and line-terminator characters;
  - `indexOf` with position clamping.
- `Segmenter` holds:
  - the regular expression, as "the leftmost fenced span from position k";
  - `String.prototype.match` with the global flag;
  - a reference definition `Segments` of the parts;
  - the `splitMessages` loop, proved equal to `Segments`;
  - the display-time fence removal.
- `Conversation` holds the state record, the effects a transition requests,
  and one function per handler.
- `Speech` holds `speakText` and `onend`.
- `Session` drives the component with a sequence of events. It also counts
  requests that have been sent but have not yet settled. It proves:
  - the invariant kept by every event;
  - that history is append-only;
  - the single-request guard;
  - whole exchanges as lemmas over all inputs.

Effects such as the toast, the POST, the abort signal, a new tab and speech
output are returned as values. How a request settles is an input to the
model:

- a reply, given as its candidates;
- a cancellation;
- any other failure.

Notes on what the code does:

- Code parts keep their fences. Fences are removed only when displayed.
- A result that arrives after the user pressed stop is still appended, and its
  cleanup lowers both flags.
- `speakText` on another message does not cancel the current utterance.
- `onend` clears the speaking mark whichever utterance ended.
- Every failure other than a cancellation gives the same apology.
- The prompt is posted as typed, with no prefix.
- Only user messages are sure to have a non-blank text (`Session.Valid`). A
  reply whose first part is the empty string is stored as an empty bot
  message.
- After a stop, a second request can be in flight while the first has not
  settled (`Session.StopAllowsOverlap`). `loading` stays raised after a stop
  until the request settles.

## Model

| member | source | states |
|---|---|---|
| Strings.TrimStart | src/App.jsx:38 | removes exactly the leading white space: the result is a suffix of the input, what was removed is all white space, and the result does not start with white space |
| Strings.TrimEnd | src/App.jsx:38 | removes exactly the trailing white space: the result is a prefix of the input, what was removed is all white space, and the result does not end with white space |
| Strings.LeadingBlank | src/App.jsx:38 | the length of the white space the input starts with: every character before it is white space and the one at it is not |
| Strings.Trim | src/App.jsx:38 | `input.trim()` is the piece of the input that starts where the leading white space ends and stops at a character that is not white space, with only white space after it |
| Strings.TrimEmptyIffBlank | src/App.jsx:38 | `!input.trim()` holds exactly when every character of the input is white space |
| Strings.SearchFromFindsFirst | src/App.jsx:106 | the search returns the first occurrence at or after the start, or -1 exactly when there is none |
| Strings.IndexOfFindsFirst | src/App.jsx:106 | `indexOf(s, position)` clamps the position into the string, then finds the first occurrence from there |
| Segmenter.FindFence | src/App.jsx:100 | the first fence at or after a position, or none when no fence follows |
| Segmenter.MatchAtSpec | src/App.jsx:100 | the lazy pattern matches at `p` exactly when a fence starts at `p` and another at `p+4` or later, and then it ends after the nearest such fence |
| Segmenter.NextMatch | src/App.jsx:100 | the global regular expression finds the leftmost match at or after the resume point, or none when no position matches; every match is at least 7 characters long |
| Segmenter.NextMatchIsLeftmost | src/App.jsx:100 | a match with no match between the resume point and its start is the one that is found |
| Segmenter.StringMatch | src/App.jsx:102-104 | `text.match(regex)` is null exactly when nothing matches; otherwise it lists the texts of all successive matches |
| Segmenter.FencedSpanIffWholeMatch | src/App.jsx:100 | a string is one whole match exactly when it is an opening fence, at least one character, and the nearest later fence |
| Segmenter.IndexOfFindsMatch | src/App.jsx:106 | `text.indexOf(match, lastIndex)` returns the position where the regular expression found that match, so it is never below `lastIndex` |
| Segmenter.SegmentsConcat | src/App.jsx:98-119 | the contents of all parts, concatenated, give back the text exactly |
| Segmenter.SegmentsCodes | src/App.jsx:102-112 | the code parts, in order, are exactly the list `text.match(regex)` returns |
| Segmenter.SegmentsWellFormed | src/App.jsx:104-117 | text parts are non-empty and contain no match; code parts are whole fenced spans; no two text parts are adjacent |
| Segmenter.SegmentsProperties | src/App.jsx:98-119 | the lossless, code-list and shape laws together; an empty text gives no parts; a text with no match gives one text part holding the whole text |
| Segmenter.SplitMessages | src/App.jsx:98-119 | `splitMessages` returns the reference parts, so the parts concatenate to the text, are well formed, and their code parts are the match list |
| Segmenter.ForEachMatch | src/App.jsx:104-113 | after the `forEach` over the match list, `lastIndex` is past the last match, and the parts pushed so far followed by the reference parts from `lastIndex` are all the parts |
| Segmenter.VisitMatch | src/App.jsx:105-112 | the callback pushes the text before the match only when it is non-empty, then the match with its fences, and moves `lastIndex` to the match's end |
| Segmenter.RemoveFencesKeepsText | src/App.jsx:153 | deleting the fences keeps every character other than a backtick, in order, and removes backticks only in multiples of three |
| Segmenter.RemoveFencesLeftmostFirst | src/App.jsx:153 | the global replace works left to right: content with no fence is unchanged; otherwise the text before the leftmost fence is kept verbatim, that fence is deleted, and the rest is treated the same way |
| Segmenter.RemoveFencesBlock | src/App.jsx:153 | a code block whose body has no backtick is displayed as exactly its body |
| Segmenter.ExampleStrayBackticks | src/App.jsx:153 | two backticks, then `a`, then a fence are displayed as the two backticks followed by `a`: backticks that are not a fence stay where they were |
| Segmenter.RemoveFencesLeavesNoFence | src/App.jsx:153 | no fence is left in the displayed content |
| Segmenter.RemoveFencesIdentityIffNoFence | src/App.jsx:153 | the displayed content equals the stored content exactly when the stored content has no fence |
| Segmenter.Display | src/App.jsx:143-153 | a text part is shown as it is; a code part is shown with no fence left and with all of its other characters in order |
| Segmenter.ExampleOneBlock | src/App.jsx:98-119 | `"Explain ```x=1``` please"` gives the text before the block, the block with its fences, and the text after it |
| Segmenter.ExampleBlockDisplay | src/App.jsx:153 | that block is displayed as `x=1` |
| Conversation.GetResponse | src/App.jsx:37-46 | the request is refused with the notice exactly when the input is blank or `isProcessing` is raised, and then nothing changes; otherwise the raw input is appended as the one new user message, the input is cleared, both flags are raised, the raw input is posted, and the speech state is kept |
| Conversation.ReplyText | src/App.jsx:54 | the reply text exists exactly when there is a first candidate with a first part, and it is that part |
| Conversation.SettlementText | src/App.jsx:54-60 | the bot message is the reply's text, `Request canceled` on a cancel, or the apology on any other failure, a reply with no first candidate or no first part included |
| Conversation.Settle | src/App.jsx:54-64 | settling appends exactly one bot message, lowers both flags, and keeps the input and the speech state |
| Conversation.StopResponse | src/App.jsx:67-70 | stopping signals the abort and lowers only `isProcessing`; messages, `loading`, input and speech are unchanged |
| Conversation.Join | src/App.jsx:80 | `reasons.join(", ")`: empty for no items; otherwise it starts with the first item, and its length is the items' total plus one separator between each two neighbours |
| Conversation.JoinAppend | src/App.jsx:80 | joining one more item appends a separator and that item |
| Conversation.ReasonsTextSpelled | src/App.jsx:77-80 | the suggestion message is the introduction followed by the three suggestions separated by ", " |
| Conversation.HandleReason | src/App.jsx:77-83 | appends exactly one bot message with the fixed suggestions and changes nothing else |
| Conversation.HandleSearch | src/App.jsx:72-75 | opens the search for the raw input and clears the input; nothing else changes |
| Conversation.TypeInput | src/App.jsx:171 | typing replaces the input and changes nothing else |
| Conversation.VoiceResult | src/App.jsx:90-93 | the first alternative of the first result replaces the input; an event without one changes nothing; nothing else changes |
| Conversation.VoiceError | src/App.jsx:95 | a recognition error shows its notice and changes nothing |
| Conversation.KeyPress | src/App.jsx:121-123 | any key but Enter changes nothing; Enter posts exactly when the input is non-blank and `isProcessing` is down, appending the raw input as a user message, and otherwise shows the notice and changes nothing |
| Conversation.SendButton | src/App.jsx:178 | while `isProcessing` is raised the button signals the abort and lowers only that flag; otherwise it posts exactly when the input is non-blank, appending the raw input as a user message, and else shows the notice and changes nothing |
| Speech.SpeakText | src/App.jsx:25-35 | pressing the speaker of the message being read cancels speech and clears the mark; pressing any other starts speaking that text and marks its index; the conversation is untouched |
| Speech.SpeechEnded | src/App.jsx:32 | `onend` clears the mark whatever it was and changes nothing else |
| Speech.SpeakTwiceSilences | src/App.jsx:25-35 | pressing the same speaker twice, starting from not reading that message, ends in silence with a cancel |
| Speech.SpeakOtherSwitches | src/App.jsx:29-34 | pressing another message's speaker while one is read switches the mark to it and starts a new utterance |
| Session.Apply | src/App.jsx:166-189 | an event that posts leaves one more request pending; a settlement of a pending request leaves one fewer; every other event leaves the count alone; while `isProcessing` is raised, typing and key presses change nothing because the text field is disabled; pressing a speaker that is not rendered changes nothing |
| Session.SpeakerShown | src/App.jsx:133-142 | only a non-empty bot message can show a speaker button, and every non-empty bot message without a code block shows one |
| Session.ApplyAppendsAtMostOne | src/App.jsx:42-83 | no event removes or rewrites a message; each appends at most one |
| Session.ApplyPreservesValid | src/App.jsx:37-64 | every event keeps `isProcessing` implying `loading`, `loading` implying a pending request, user messages non-blank, and the speaking mark on an existing bot message |
| Session.RunPreservesValid | src/App.jsx:37-64 | that invariant holds after any sequence of events |
| Session.RunKeepsHistory | src/App.jsx:42-83 | after any sequence of events the old history is a prefix of the new one, grown by at most one message per event |
| Session.PostIffAccepted | src/App.jsx:37-53 | a request is posted exactly when Enter or the send button meets a non-blank input while `isProcessing` is down; the prompt is the raw input, which becomes the last user message |
| Session.NoPostWhileProcessing | src/App.jsx:175-178 | while `isProcessing` is raised no event posts a request |
| Session.RunConcat | src/App.jsx:166-189 | running two event sequences one after the other is running their concatenation |
| Session.TypeAndSend | src/App.jsx:37-46 | typing a non-blank message and sending it while `isProcessing` is down records it and leaves one more request pending |
| Session.ExchangeAppendsPair | src/App.jsx:37-64 | a full exchange adds the user message and then the settlement's bot message, clears the input and lowers both flags |
| Session.StopThenCancel | src/App.jsx:56-70 | send, stop, then a cancel adds the user message and one `Request canceled` message, with both flags lowered |
| Session.StopAllowsOverlap | src/App.jsx:61-70 | after stop a second request can be posted while the first is pending, and the first one's cleanup then lowers both flags although the second is still pending |

## Left out

- The POST itself is not modelled: the endpoint URL, the API key, the request body and axios. The model keeps only the posted prompt and the settlement outcome.
- The link between the abort signal and a cancellation is not modelled. Which outcome a request settles with is an input.
- The browser APIs are not modelled: speech synthesis, speech recognition, the clipboard and `window.open`. Only their effect on the state is kept, and the text spoken or the URL opened is returned as an effect.
- The copy button is not modelled (src/App.jsx:147-150). It reads a part and changes no state.
- JSX rendering, scrolling, toast display and styling are not modelled. The one exception is which controls exist: the speaker button appears only beside text parts of bot messages, and the text field is disabled while `isProcessing` is raised (`Session.Apply`, `Session.SpeakerShown`).
- Concurrency is not modelled. Each handler runs atomically, and a settlement is one event. The pending-request count records sends that have not settled, not their order.
- Characters are Unicode scalar values, whereas JavaScript strings are UTF-16 code units. Lengths and indices agree only when the text has no characters outside the Basic Multilingual Plane.
- Conversation.ReplyText: each part of a candidate is taken to carry a string `text`. A first part without one makes the source store `undefined` as the bot message, and rendering it then throws in `splitMessages` (src/App.jsx:102); the model has no such message.
- Conversation.GetResponse: the effect carries only the prompt, not the URL, the key or the abort signal, because those belong to the network layer.
- Session.StopAllowsOverlap: it states the effect of the stale cleanup on the flags, but not which reply text reaches the screen first, because the model does not order settlements.
