/**
 * The reply segmenter `splitMessages` of the chat client and the fence
 * removal applied to code parts when they are displayed.
 *
 * The regular expression /(```[\s\S]+?```)/g is modelled directly: a match
 * starts at a fence, and its lazy `+?` makes it end at the FIRST fence that
 * begins at least one character after the opening fence.  `String.prototype.match`
 * with the global flag collects the leftmost matches one after the other.
 */
module Segmenter {
  import opened Wrappers
  import opened Strings

  /** A fence begins at index `i` of `t`. */
  predicate FenceAt(t: string, i: int) {
    0 <= i && i + 3 <= |t| && t[i] == '`' && t[i + 1] == '`' && t[i + 2] == '`'
  }

  /** The first fence of `t` that begins at or after `k`. */
  function FindFence(t: string, k: nat): (r: Option<nat>)
    ensures r.Some? ==> k <= r.value && FenceAt(t, r.value)
    ensures r.Some? ==> forall j :: k <= j < r.value ==> !FenceAt(t, j)
    ensures r.None? ==> forall j :: k <= j ==> !FenceAt(t, j)
    decreases |t| - k
  {
    if k + 3 > |t| then None
    else if FenceAt(t, k) then Some(k)
    else FindFence(t, k + 1)
  }

  /** Whether the regular expression matches when tried at index `p`, and if so
      the index just past the match.  A match is an opening fence, at least one
      character, and the nearest closing fence after that character. */
  function MatchAt(t: string, p: nat): Option<nat> {
    if FenceAt(t, p) then
      match FindFence(t, p + 4)
      case Some(q) => Some(q + 3)
      case None => None
    else
      None
  }

  /** What a match tried at `p` is: both directions. */
  lemma MatchAtSpec(t: string, p: nat)
    ensures var r := MatchAt(t, p);
            && (r.Some? ==> p + 7 <= r.value <= |t|)
            && (r.Some? ==> FenceAt(t, p) && FenceAt(t, r.value - 3))
            && (r.Some? ==> forall j :: p + 4 <= j < r.value - 3 ==> !FenceAt(t, j))
            && (r.None? ==> !FenceAt(t, p) || forall j :: p + 4 <= j ==> !FenceAt(t, j))
  {
  }

  /** A match of the regular expression: `t[start..end]`. */
  datatype Span = Span(start: nat, end: nat)

  /** The leftmost match that starts at or after `k`. */
  function NextMatch(t: string, k: nat): (r: Option<Span>)
    ensures r.Some? ==> k <= r.value.start && MatchAt(t, r.value.start) == Some(r.value.end)
    ensures r.Some? ==> r.value.start + 7 <= r.value.end <= |t|
    ensures r.Some? ==> forall j :: k <= j < r.value.start ==> MatchAt(t, j).None?
    ensures r.None? ==> forall j: nat :: k <= j ==> MatchAt(t, j).None?
    decreases |t| - k
  {
    if k + 3 > |t| then None
    else
      match MatchAt(t, k)
      case Some(e) => Some(Span(k, e))
      case None => NextMatch(t, k + 1)
  }

  /** A match at `p` with none between `k` and `p` is the one `NextMatch`
      finds from `k`. */
  lemma NextMatchIsLeftmost(t: string, k: nat, p: nat, e: nat)
    requires k <= p && MatchAt(t, p) == Some(e)
    requires forall j :: k <= j < p ==> MatchAt(t, j).None?
    ensures NextMatch(t, k) == Some(Span(p, e))
  {
  }

  /** All matches from `k` on, in order: the regular expression resumes
      scanning where the previous match ended. */
  function AllSpans(t: string, k: nat): (spans: seq<Span>)
    requires k <= |t|
    ensures forall j :: 0 <= j < |spans| ==> k <= spans[j].start && spans[j].start + 7 <= spans[j].end <= |t|
    ensures |spans| == 0 <==> NextMatch(t, k).None?
    decreases |t| - k
  {
    match NextMatch(t, k)
    case None => []
    case Some(m) => [m] + AllSpans(t, m.end)
  }

  /** The text of each span. */
  function SpanTexts(t: string, spans: seq<Span>): (ms: seq<string>)
    requires forall j :: 0 <= j < |spans| ==> spans[j].start <= spans[j].end <= |t|
    ensures |ms| == |spans|
    ensures forall j :: 0 <= j < |spans| ==> ms[j] == t[spans[j].start..spans[j].end]
  {
    seq(|spans|, j requires 0 <= j < |spans| => t[spans[j].start..spans[j].end])
  }

  /** The matched texts from `k` on: what `text.match(regex)` lists. */
  function AllMatches(t: string, k: nat): (ms: seq<string>)
    requires k <= |t|
  {
    SpanTexts(t, AllSpans(t, k))
  }

  /** `text.match(regex)`: `null` when nothing matches. */
  function StringMatch(text: string): (r: Option<seq<string>>)
    ensures r.None? <==> NextMatch(text, 0).None?
    ensures r.Some? ==> r.value == AllMatches(text, 0)
  {
    var ms := AllMatches(text, 0);
    if ms == [] then None else Some(ms)
  }

  datatype Kind = Text | Code

  /** One rendered part of a reply: `{type, content}`. */
  datatype Part = Part(kind: Kind, content: string)

  /** The parts of `t[k..]`, defined directly from the leftmost-match search:
      the text before each match (if any), the match itself with its fences,
      and the text after the last match (if any). */
  function Segments(t: string, k: nat): seq<Part>
    requires k <= |t|
    decreases |t| - k
  {
    match NextMatch(t, k)
    case None =>
      if k < |t| then [Part(Text, t[k..])] else []
    case Some(m) =>
      (if m.start > k then [Part(Text, t[k..m.start])] else [])
      + [Part(Code, t[m.start..m.end])]
      + Segments(t, m.end)
  }

  /** The contents of all parts, concatenated. */
  function Concat(parts: seq<Part>): string {
    if |parts| == 0 then [] else parts[0].content + Concat(parts[1..])
  }

  /** The contents of the code parts, in order. */
  function Codes(parts: seq<Part>): seq<string> {
    if |parts| == 0 then []
    else (if parts[0].kind == Code then [parts[0].content] else []) + Codes(parts[1..])
  }

  /** A whole code block: opening fence, at least one character, and a closing
      fence that is the first fence after that character. */
  predicate IsFencedSpan(c: string) {
    && |c| >= 7
    && FenceAt(c, 0)
    && FenceAt(c, |c| - 3)
    && forall j :: 4 <= j < |c| - 3 ==> !FenceAt(c, j)
  }

  /** What the segmenter promises of its output: text parts are non-empty and
      contain no complete fenced block, code parts are fenced blocks, and two
      text parts are never adjacent. */
  ghost predicate WellFormed(parts: seq<Part>) {
    && (forall i :: 0 <= i < |parts| && parts[i].kind == Text ==>
          |parts[i].content| > 0 && NextMatch(parts[i].content, 0).None?)
    && (forall i :: 0 <= i < |parts| && parts[i].kind == Code ==> IsFencedSpan(parts[i].content))
    && (forall i, j :: 0 <= i < j < |parts| && j == i + 1 ==> parts[i].kind == Code || parts[j].kind == Code)
  }

  /** Fences inside a slice are the fences of the whole string, shifted. */
  lemma FenceInSlice(t: string, a: nat, b: nat, j: int)
    requires a <= b <= |t|
    ensures FenceAt(t[a..b], j) <==> 0 <= j && j + 3 <= b - a && FenceAt(t, a + j)
  {
  }

  /** A string is one fenced block exactly when the regular expression, tried
      at its start, matches all of it. */
  lemma FencedSpanIffWholeMatch(c: string)
    ensures IsFencedSpan(c) <==> MatchAt(c, 0) == Some(|c|)
  {
    if IsFencedSpan(c) {
      assert FindFence(c, 4) == Some(|c| - 3);
    }
  }

  /** The text the regular expression matched, cut out on its own, is a
      fenced block. */
  lemma {:induction false} MatchIsFencedSpan(t: string, p: nat, e: nat)
    requires MatchAt(t, p) == Some(e)
    ensures IsFencedSpan(t[p..e])
  {
    var c := t[p..e];
    FenceInSlice(t, p, e, 0);
    FenceInSlice(t, p, e, |c| - 3);
    forall j | 4 <= j < |c| - 3
      ensures !FenceAt(c, j)
    {
      FenceInSlice(t, p, e, j);
    }
  }

  /** Wherever a fenced block occurs, the regular expression matches when
      tried there (possibly ending at the same or an earlier closing fence). */
  lemma {:induction false} OccurrenceIsMatch(t: string, w: string, r: nat)
    requires IsFencedSpan(w) && OccursAt(t, w, r)
    ensures MatchAt(t, r).Some?
  {
    FenceInSlice(t, r, r + |w|, 0);
    FenceInSlice(t, r, r + |w|, |w| - 3);
    assert FenceAt(t, r + |w| - 3);
  }

  /** A match inside a slice is a match of the whole string. */
  lemma {:induction false} MatchInSlice(t: string, a: nat, b: nat, j: nat)
    requires a <= b <= |t|
    requires MatchAt(t[a..b], j).Some?
    ensures MatchAt(t, a + j).Some?
  {
    var u := t[a..b];
    var q := MatchAt(u, j).value - 3;
    FenceInSlice(t, a, b, j);
    FenceInSlice(t, a, b, q);
    assert FenceAt(t, a + q);
  }

  /** A slice in which no match of the whole string starts contains no match
      of its own. */
  lemma {:induction false} SliceWithoutMatch(t: string, a: nat, b: nat)
    requires a <= b <= |t|
    requires forall j: nat :: a <= j < b ==> MatchAt(t, j).None?
    ensures NextMatch(t[a..b], 0).None?
  {
    var u := t[a..b];
    if NextMatch(u, 0).Some? {
      MatchInSlice(t, a, b, NextMatch(u, 0).value.start);
      assert false;
    }
  }

  /** Searching for the text of the leftmost match from `k` finds it exactly
      where the regular expression found it: an earlier occurrence of the same
      text would itself have been a match. */
  lemma {:induction false} IndexOfFindsMatch(t: string, k: nat)
    requires k <= |t| && NextMatch(t, k).Some?
    ensures var m := NextMatch(t, k).value;
            IndexOf(t, t[m.start..m.end], k) == m.start
  {
    var m := NextMatch(t, k).value;
    var w := t[m.start..m.end];
    MatchIsFencedSpan(t, m.start, m.end);
    assert OccursAt(t, w, m.start);
    IndexOfFindsFirst(t, w, k);
    var r := IndexOf(t, w, k);
    if r != m.start {
      OccurrenceIsMatch(t, w, r);
      assert false;
    }
  }

  lemma SeqAssoc<T>(x: seq<T>, y: seq<T>, z: seq<T>)
    ensures x + (y + z) == (x + y) + z
  {
  }

  lemma {:induction false} ConcatAppend(a: seq<Part>, b: seq<Part>)
    ensures Concat(a + b) == Concat(a) + Concat(b)
  {
    if |a| == 0 {
      assert a + b == b;
    } else {
      ConcatAppend(a[1..], b);
      assert Concat(a + b) == Concat(a) + Concat(b) by {
        calc {
          Concat(a + b);
          { assert (a + b)[0] == a[0] && (a + b)[1..] == a[1..] + b; }
          a[0].content + Concat(a[1..] + b);
          a[0].content + (Concat(a[1..]) + Concat(b));
          { SeqAssoc(a[0].content, Concat(a[1..]), Concat(b)); }
          Concat(a) + Concat(b);
        }
      }
    }
  }

  lemma {:induction false} CodesAppend(a: seq<Part>, b: seq<Part>)
    ensures Codes(a + b) == Codes(a) + Codes(b)
  {
    if |a| == 0 {
      assert a + b == b;
    } else {
      CodesAppend(a[1..], b);
      var h := if a[0].kind == Code then [a[0].content] else [];
      assert Codes(a + b) == Codes(a) + Codes(b) by {
        calc {
          Codes(a + b);
          { assert (a + b)[0] == a[0] && (a + b)[1..] == a[1..] + b; }
          h + Codes(a[1..] + b);
          h + (Codes(a[1..]) + Codes(b));
          { SeqAssoc(h, Codes(a[1..]), Codes(b)); }
          Codes(a) + Codes(b);
        }
      }
    }
  }

  /** One step of `Segments` when a match is found. */
  lemma SegmentsStep(t: string, k: nat, m: Span)
    requires k <= |t| && NextMatch(t, k) == Some(m)
    ensures m.start >= k && m.end <= |t|
    ensures Segments(t, k) == LeadingText(t, k, m.start) + [Part(Code, t[m.start..m.end])] + Segments(t, m.end)
  {
  }

  /** The text part before a match, if there is any text there. */
  function LeadingText(t: string, k: nat, p: nat): (r: seq<Part>)
    requires k <= p <= |t|
    ensures Concat(r) == t[k..p]
  {
    if p > k then
      assert Concat([Part(Text, t[k..p])]) == t[k..p] + Concat([]);
      [Part(Text, t[k..p])]
    else []
  }

  /** Lossless: concatenating the parts gives back the text. */
  lemma {:induction false} SegmentsConcat(t: string, k: nat)
    requires k <= |t|
    ensures Concat(Segments(t, k)) == t[k..]
    decreases |t| - k
  {
    if NextMatch(t, k).None? {
      if k < |t| {
        assert Concat([Part(Text, t[k..])]) == t[k..] + Concat([]);
      }
    } else {
      var m := NextMatch(t, k).value;
      SegmentsStep(t, k, m);
      SegmentsConcat(t, m.end);
      var pre := LeadingText(t, k, m.start);
      var code := [Part(Code, t[m.start..m.end])];
      var rest := Segments(t, m.end);
      ConcatAppend(pre + code, rest);
      ConcatAppend(pre, code);
      assert Concat(code) == t[m.start..m.end] + Concat([]);
      SliceSplit(t, k, m.start, m.end);
    }
  }

  lemma SliceSplit(t: string, a: nat, b: nat, c: nat)
    requires a <= b <= c <= |t|
    ensures t[a..] == t[a..b] + t[b..c] + t[c..]
  {
  }

  /** The code parts are exactly the regular expression's matches, in order. */
  lemma {:induction false} SegmentsCodes(t: string, k: nat)
    requires k <= |t|
    ensures Codes(Segments(t, k)) == AllMatches(t, k)
    decreases |t| - k
  {
    match NextMatch(t, k)
    case None =>
      if k < |t| {
        assert Codes([Part(Text, t[k..])]) == [] + Codes([]);
      }
    case Some(m) =>
      SegmentsStep(t, k, m);
      AllMatchesStep(t, k, m);
      SegmentsCodes(t, m.end);
      var pre := LeadingText(t, k, m.start);
      var code := [Part(Code, t[m.start..m.end])];
      CodesAppend(pre + code, Segments(t, m.end));
      CodesAppend(pre, code);
      assert Codes(code) == [t[m.start..m.end]] + Codes([]);
      assert Codes(pre) == [];
  }

  lemma WellFormedAppend(a: seq<Part>, b: seq<Part>)
    requires WellFormed(a) && WellFormed(b)
    requires |a| > 0 && |b| > 0 ==> a[|a| - 1].kind == Code || b[0].kind == Code
    ensures WellFormed(a + b)
  {
    var c := a + b;
    forall i, j | 0 <= i < j < |c| && j == i + 1
      ensures c[i].kind == Code || c[j].kind == Code
    {
      if i < |a| - 1 {
      } else if i == |a| - 1 {
      } else {
        assert c[i] == b[i - |a|] && c[j] == b[j - |a|];
      }
    }
  }

  /** The parts of `t[k..]` are well formed. */
  lemma {:induction false} SegmentsWellFormed(t: string, k: nat)
    requires k <= |t|
    ensures WellFormed(Segments(t, k))
    decreases |t| - k
  {
    match NextMatch(t, k)
    case None =>
      if k < |t| {
        SliceWithoutMatch(t, k, |t|);
        assert t[k..|t|] == t[k..];
      }
    case Some(m) =>
      SegmentsStep(t, k, m);
      SegmentsWellFormed(t, m.end);
      MatchIsFencedSpan(t, m.start, m.end);
      var pre := LeadingText(t, k, m.start);
      var code := [Part(Code, t[m.start..m.end])];
      if m.start > k {
        SliceWithoutMatch(t, k, m.start);
      }
      assert WellFormed(pre);
      assert WellFormed(code);
      WellFormedAppend(pre, code);
      WellFormedAppend(pre + code, Segments(t, m.end));
  }

  /** Listing the matches from `k` is the first match followed by the
      matches after it. */
  lemma AllMatchesStep(t: string, k: nat, m: Span)
    requires k <= |t| && NextMatch(t, k) == Some(m)
    ensures AllSpans(t, k) == [m] + AllSpans(t, m.end)
    ensures AllMatches(t, k) == [t[m.start..m.end]] + AllMatches(t, m.end)
  {
    var rest := AllMatches(t, m.end);
    assert AllMatches(t, k)[1..] == rest;
  }

  /** The reference parts of a text have every property promised of
      `splitMessages`. */
  lemma SegmentsProperties(text: string)
    ensures Concat(Segments(text, 0)) == text
    ensures WellFormed(Segments(text, 0))
    ensures Codes(Segments(text, 0)) == AllMatches(text, 0)
    ensures text == [] ==> Segments(text, 0) == []
    ensures NextMatch(text, 0).None? && text != [] ==> Segments(text, 0) == [Part(Text, text)]
  {
    SegmentsConcat(text, 0);
    SegmentsWellFormed(text, 0);
    SegmentsCodes(text, 0);
  }

  /** Where the scan stands after the first `i` matches of `spans`, having
      started at `k`. */
  function EndOf(spans: seq<Span>, i: nat, k: nat): nat
    requires i <= |spans|
  {
    if i == 0 then k else spans[i - 1].end
  }

  /** The `i`-th match from `k` is the leftmost match after the previous one. */
  lemma {:induction false} AllSpansChain(t: string, k: nat, i: nat)
    requires k <= |t| && i < |AllSpans(t, k)|
    ensures EndOf(AllSpans(t, k), i, k) <= |t|
    ensures NextMatch(t, EndOf(AllSpans(t, k), i, k)) == Some(AllSpans(t, k)[i])
    decreases |t| - k
  {
    var m := NextMatch(t, k).value;
    AllMatchesStep(t, k, m);
    var rest := AllSpans(t, m.end);
    if i > 0 {
      AllSpansChain(t, m.end, i - 1);
      assert AllSpans(t, k)[i] == rest[i - 1];
      assert EndOf(AllSpans(t, k), i, k) == EndOf(rest, i - 1, m.end);
    }
  }

  lemma EndOfCons(m: Span, rest: seq<Span>, k: nat)
    ensures EndOf([m] + rest, |rest| + 1, k) == EndOf(rest, |rest|, m.end)
  {
    if |rest| > 0 {
      assert ([m] + rest)[|rest|] == rest[|rest| - 1];
    }
  }

  /** After the last match from `k` nothing matches. */
  lemma {:induction false} AllSpansExhaustive(t: string, k: nat)
    requires k <= |t|
    ensures EndOf(AllSpans(t, k), |AllSpans(t, k)|, k) <= |t|
    ensures NextMatch(t, EndOf(AllSpans(t, k), |AllSpans(t, k)|, k)).None?
    decreases |t| - k
  {
    if NextMatch(t, k).Some? {
      var m := NextMatch(t, k).value;
      var rest := AllSpans(t, m.end);
      AllSpansExhaustive(t, m.end);
      AllMatchesStep(t, k, m);
      EndOfCons(m, rest, k);
    } else {
      assert |AllSpans(t, k)| == 0;
    }
  }

  lemma Reassociate<T>(a: seq<T>, b: seq<T>, c: seq<T>, x: seq<T>, y: seq<T>)
    requires a + x == y && x == b + c
    ensures (a + b) + c == y
  {
  }

  /** What one turn of the `forEach` needs to know about the `i`-th match:
      `indexOf` finds it where the regular expression found it, right after
      the previous match. */
  lemma ForEachStep(text: string, ms: seq<string>, i: nat)
    requires ms == AllMatches(text, 0) && i < |ms|
    ensures var spans := AllSpans(text, 0);
            var k := EndOf(spans, i, 0);
            && k <= |text|
            && NextMatch(text, k) == Some(spans[i])
            && ms[i] == text[spans[i].start..spans[i].end]
            && EndOf(spans, i + 1, 0) == spans[i].end
  {
    AllSpansChain(text, 0, i);
  }

  /** `splitMessages(text)`: walks the list returned by `text.match(regex)`,
      locating each match with `indexOf(match, lastIndex)`, emitting the text
      before it (when non-empty) and the match itself, and finally the text
      after the last match (when non-empty). */
  method SplitMessages(text: string) returns (parts: seq<Part>)
    ensures parts == Segments(text, 0)
    ensures Concat(parts) == text
    ensures WellFormed(parts)
    ensures Codes(parts) == AllMatches(text, 0)
    ensures text == [] ==> parts == []
    ensures NextMatch(text, 0).None? && text != [] ==> parts == [Part(Text, text)]
  {
    parts := [];
    var lastIndex: nat := 0;
    var matches := StringMatch(text);
    if matches.Some? {
      parts, lastIndex := ForEachMatch(text, matches.value);
    }
    assert parts + Segments(text, lastIndex) == Segments(text, 0);
    if lastIndex < |text| {
      parts := parts + [Part(Text, text[lastIndex..])];
    }
    SegmentsProperties(text);
  }

  /** The `forEach` over the match list of `splitMessages`: returns the parts
      emitted and `lastIndex`, which ends up past the last match.  Throughout,
      the parts emitted followed by the reference parts from `lastIndex` are
      the reference parts of the whole text. */
  method ForEachMatch(text: string, ms: seq<string>) returns (parts: seq<Part>, lastIndex: nat)
    requires ms == AllMatches(text, 0)
    ensures lastIndex <= |text| && NextMatch(text, lastIndex).None?
    ensures parts + Segments(text, lastIndex) == Segments(text, 0)
  {
    ghost var spans := AllSpans(text, 0);
    parts := [];
    lastIndex := 0;
    var i := 0;
    while i < |ms|
      invariant 0 <= i <= |ms| == |spans|
      invariant lastIndex == EndOf(spans, i, 0) && lastIndex <= |text|
      invariant parts + Segments(text, lastIndex) == Segments(text, 0)
    {
      ForEachStep(text, ms, i);
      var pushed, next := VisitMatch(text, ms[i], lastIndex);
      SegmentsStep(text, lastIndex, spans[i]);
      Reassociate(parts, pushed, Segments(text, next), Segments(text, lastIndex), Segments(text, 0));
      parts := parts + pushed;
      lastIndex := next;
      i := i + 1;
    }
    AllSpansExhaustive(text, 0);
  }

  /** The `forEach` callback: finds `found` from `lastIndex` on, pushes the
      text before it when there is any, then `found` as code, and moves
      `lastIndex` past it.  When `found` is the leftmost match from
      `lastIndex`, the pushed parts are that match's reference parts. */
  method VisitMatch(text: string, found: string, lastIndex: nat) returns (pushed: seq<Part>, next: nat)
    requires lastIndex <= |text| && NextMatch(text, lastIndex).Some?
    requires var m := NextMatch(text, lastIndex).value; found == text[m.start..m.end]
    ensures var m := NextMatch(text, lastIndex).value;
            && next == m.end
            && pushed == (if m.start > lastIndex then [Part(Text, text[lastIndex..m.start])] else [])
                         + [Part(Code, text[m.start..m.end])]
  {
    IndexOfFindsMatch(text, lastIndex);
    var index := IndexOf(text, found, lastIndex);
    pushed := [];
    if index > lastIndex {
      pushed := pushed + [Part(Text, text[lastIndex..index])];
    }
    pushed := pushed + [Part(Code, found)];
    next := index + |found|;
  }

  /** `content.replace(/```/g, '')`: deletes the fences found scanning left
      to right, each search resuming after the fence just deleted. */
  function RemoveFences(s: string): (r: string)
    ensures |r| <= |s|
    decreases |s|
  {
    if |s| < 3 then s
    else if FenceAt(s, 0) then RemoveFences(s[3..])
    else [s[0]] + RemoveFences(s[1..])
  }

  /** The characters of `s` other than backticks, in order. */
  function NoBackticks(s: string): string
    decreases |s|
  {
    if |s| == 0 then []
    else if s[0] == '`' then NoBackticks(s[1..])
    else [s[0]] + NoBackticks(s[1..])
  }

  /** A fence contributes nothing but backticks. */
  lemma FenceHasNoText(s: string)
    requires FenceAt(s, 0)
    ensures NoBackticks(s) == NoBackticks(s[3..])
  {
    assert s[1..][1..] == s[2..] && s[2..][1..] == s[3..];
    assert NoBackticks(s) == NoBackticks(s[1..]);
    assert NoBackticks(s[1..]) == NoBackticks(s[2..]);
  }

  /** What a part shows on screen: text parts as they are, code parts without
      their fences. */
  function Display(p: Part): (r: string)
    ensures p.kind == Text ==> r == p.content
    ensures p.kind == Code ==> (forall j :: !FenceAt(r, j)) && NoBackticks(r) == NoBackticks(p.content)
  {
    if p.kind == Code then
      RemoveFencesLeavesNoFence(p.content);
      RemoveFencesKeepsText(p.content);
      RemoveFences(p.content)
    else
      p.content
  }

  /** The replacement deletes backticks only, three at a time: every other
      character survives, in order. */
  lemma {:induction false} RemoveFencesKeepsText(s: string)
    ensures NoBackticks(RemoveFences(s)) == NoBackticks(s)
    ensures (|s| - |RemoveFences(s)|) % 3 == 0
    decreases |s|
  {
    if |s| < 3 {
    } else if FenceAt(s, 0) {
      FenceHasNoText(s);
      RemoveFencesKeepsText(s[3..]);
    } else {
      var r := [s[0]] + RemoveFences(s[1..]);
      assert r[0] == s[0] && r[1..] == RemoveFences(s[1..]);
      RemoveFencesKeepsText(s[1..]);
    }
  }

  /** A string that does not begin with a fence keeps its first character. */
  lemma RemoveFencesKeepsHead(s: string)
    requires |s| > 0 && !FenceAt(s, 0)
    ensures |RemoveFences(s)| > 0 && RemoveFences(s)[0] == s[0]
  {
  }

  /** After the replacement no fence is left: deleting a fence never brings
      three backticks together. */
  lemma {:induction false} RemoveFencesLeavesNoFence(s: string)
    ensures forall j :: !FenceAt(RemoveFences(s), j)
    decreases |s|
  {
    if |s| < 3 {
    } else if FenceAt(s, 0) {
      RemoveFencesLeavesNoFence(s[3..]);
    } else {
      var u := s[1..];
      var tail := RemoveFences(u);
      var r := [s[0]] + tail;
      assert RemoveFences(s) == r;
      RemoveFencesLeavesNoFence(u);
      forall j ensures !FenceAt(r, j) {
        if j >= 1 {
          assert FenceAt(r, j) ==> FenceAt(tail, j - 1);
        } else if s[0] == '`' {
          // s does not open with a fence, so s[1..3] is not two backticks
          assert !FenceAt(u, 0);
          RemoveFencesKeepsHead(u);
          if u[0] == '`' && |u| >= 3 {
            var v := u[1..];
            assert v[0] == s[2] && s[2] != '`';
            RemoveFencesKeepsHead(v);
            assert tail == [u[0]] + RemoveFences(v);
            assert tail[1] != '`';
          }
        }
      }
    }
  }

  /** The replacement changes a string exactly when it contains a fence. */
  lemma {:induction false} RemoveFencesIdentityIffNoFence(s: string)
    ensures RemoveFences(s) == s <==> forall j :: !FenceAt(s, j)
    decreases |s|
  {
    RemoveFencesLeavesNoFence(s);
    if |s| >= 3 && !FenceAt(s, 0) {
      RemoveFencesIdentityIffNoFence(s[1..]);
      if forall j :: !FenceAt(s, j) {
        forall j ensures !FenceAt(s[1..], j) {
          assert FenceAt(s[1..], j) ==> FenceAt(s, j + 1);
        }
      }
    } else if |s| >= 3 {
      assert |RemoveFences(s)| <= |s| - 3;
    }
  }
  /** Deleting from the first fence on: everything before the leftmost fence
      is kept as it is, and the replacement resumes right after that fence. */
  lemma {:induction false} RemoveFencesFrom(s: string, i: nat)
    requires FenceAt(s, i) && forall j :: 0 <= j < i ==> !FenceAt(s, j)
    ensures RemoveFences(s) == s[..i] + RemoveFences(s[i + 3..])
    decreases i
  {
    if i == 0 {
      assert s[..0] + RemoveFences(s[3..]) == RemoveFences(s[3..]);
    } else {
      var u := s[1..];
      assert FenceAt(u, i - 1);
      forall j | 0 <= j < i - 1
        ensures !FenceAt(u, j)
      {
        assert FenceAt(u, j) ==> FenceAt(s, j + 1);
      }
      RemoveFencesFrom(u, i - 1);
      assert u[i - 1 + 3..] == s[i + 3..];
      assert s[..i] == [s[0]] + u[..i - 1];
      assert RemoveFences(s) == [s[0]] + RemoveFences(u);
      SeqAssoc([s[0]], u[..i - 1], RemoveFences(s[i + 3..]));
    }
  }

  /** The global replacement works left to right: with no fence the content
      is unchanged, and otherwise the text before the leftmost fence is kept
      verbatim, that fence is deleted, and the rest is processed the same way.
      Stray backticks therefore stay where they were. */
  lemma RemoveFencesLeftmostFirst(s: string)
    ensures FindFence(s, 0).None? ==> RemoveFences(s) == s
    ensures FindFence(s, 0).Some? ==>
              var i := FindFence(s, 0).value;
              RemoveFences(s) == s[..i] + RemoveFences(s[i + 3..])
  {
    match FindFence(s, 0)
    case None => RemoveFencesIdentityIffNoFence(s);
    case Some(i) => RemoveFencesFrom(s, i);
  }

  /** A code block whose body holds no backtick is displayed as its body. */
  lemma RemoveFencesBlock(w: string)
    requires forall i :: 0 <= i < |w| ==> w[i] != '`'
    ensures RemoveFences("```" + w + "```") == w
  {
    var f := "```";
    var u := w + f;
    SeqAssoc(f, w, f);
    assert RemoveFences(f + u) == RemoveFences(u) by {
      assert FenceAt(f + u, 0) && (f + u)[3..] == u;
    }
    assert FenceAt(u, |w|) by {
      assert u[|w|] == f[0] && u[|w| + 1] == f[1] && u[|w| + 2] == f[2];
    }
    forall j | 0 <= j < |w|
      ensures !FenceAt(u, j)
    {
      assert u[j] == w[j];
    }
    RemoveFencesFrom(u, |w|);
    assert u[..|w|] == w && |u[|w| + 3..]| == 0;
  }

  /** `"``a```".replace(/```/g, '')` is `"``a"`: the two leading backticks
      are not a fence and stay in front. */
  lemma ExampleStrayBackticks()
    ensures RemoveFences("``a```") == "``a"
  {
    var s := "``a```";
    assert !FenceAt(s, 0) && !FenceAt(s, 1) && FenceAt(s, 3);
    RemoveFencesFrom(s, 3);
    assert s[..3] == "``a" && |s[6..]| == 0;
  }


  const ExampleReply: string := "Explain ```x=1``` please"

  lemma ExampleReplyFirstMatch()
    ensures NextMatch(ExampleReply, 0) == Some(Span(8, 17))
  {
    var t := ExampleReply;
    assert MatchAt(t, 8) == Some(17) by {
      assert FindFence(t, 12) == Some(14);
    }
    forall j | 0 <= j < 8
      ensures MatchAt(t, j).None?
    {
      assert t[j] != '`';
    }
    NextMatchIsLeftmost(t, 0, 8, 17);
  }

  lemma ExampleReplyNoMoreMatches()
    ensures NextMatch(ExampleReply, 17).None?
  {
    var t := ExampleReply;
    assert NextMatch(t, 20).None?;
  }

  lemma ExampleReplySlices()
    ensures ExampleReply[..8] == "Explain "
    ensures ExampleReply[8..17] == "```x=1```"
    ensures ExampleReply[17..] == " please"
  {
  }

  /** A reply with one fenced block in the middle splits into the text
      before it, the block with its fences, and the text after it. */
  lemma ExampleOneBlock()
    ensures Segments(ExampleReply, 0)
            == [Part(Text, "Explain "), Part(Code, "```x=1```"), Part(Text, " please")]
  {
    var t := ExampleReply;
    ExampleReplySlices();
    ExampleReplyFirstMatch();
    ExampleReplyNoMoreMatches();
    assert Segments(t, 17) == [Part(Text, " please")];
    SegmentsStep(t, 0, Span(8, 17));
  }

  /** On screen that block shows without its fences. */
  lemma ExampleBlockDisplay()
    ensures Display(Part(Code, "```x=1```")) == "x=1"
  {
    assert "```x=1```" == "```" + "x=1" + "```";
    RemoveFencesBlock("x=1");
  }

}
