/**
 * String primitives of ECMAScript that the chat client relies on:
 * `String.prototype.trim` and `String.prototype.indexOf`.
 */
module Strings {

  /** The WhiteSpace and LineTerminator characters that `trim` removes. */
  predicate IsWhitespace(c: char) {
    || c == '\t' || c == '\n' || c == '\U{000B}' || c == '\U{000C}' || c == '\r'
    || c == ' ' || c == '\U{00A0}' || c == '\U{1680}'
    || ('\U{2000}' <= c <= '\U{200A}')
    || c == '\U{2028}' || c == '\U{2029}' || c == '\U{202F}' || c == '\U{205F}'
    || c == '\U{3000}' || c == '\U{FEFF}'
  }

  /** Every character of `s` is whitespace (the empty string included). */
  predicate Blank(s: string) {
    forall i :: 0 <= i < |s| ==> IsWhitespace(s[i])
  }

  /** Drops the leading whitespace: the result is the suffix of `s` that starts
      at its first non-whitespace character. */
  function TrimStart(s: string): (r: string)
    ensures |r| <= |s| && r == s[|s| - |r|..]
    ensures Blank(s[..|s| - |r|])
    ensures |r| > 0 ==> !IsWhitespace(r[0])
    decreases |s|
  {
    if |s| > 0 && IsWhitespace(s[0]) then
      var r := TrimStart(s[1..]);
      HeadAndPrefix(s, |s| - |r|);
      r
    else
      s
  }

  /** A non-empty prefix is the first character followed by a prefix of the
      rest. */
  lemma HeadAndPrefix(s: string, n: nat)
    requires 0 < n <= |s|
    ensures s[..n] == [s[0]] + s[1..][..n - 1]
  {
  }

  /** Drops the trailing whitespace: the result is the prefix of `s` that ends
      at its last non-whitespace character. */
  function TrimEnd(s: string): (r: string)
    ensures |r| <= |s| && r == s[..|r|]
    ensures Blank(s[|r|..])
    ensures |r| > 0 ==> !IsWhitespace(r[|r| - 1])
    decreases |s|
  {
    if |s| > 0 && IsWhitespace(s[|s| - 1]) then
      var r := TrimEnd(s[..|s| - 1]);
      assert s[|r|..] == s[..|s| - 1][|r|..] + [s[|s| - 1]];
      r
    else
      s
  }

  /** The number of white-space characters `s` starts with. */
  function LeadingBlank(s: string): (n: nat)
    ensures n <= |s| && Blank(s[..n])
    ensures n < |s| ==> !IsWhitespace(s[n])
  {
    var u := TrimStart(s);
    assert |u| > 0 ==> s[|s| - |u|] == u[0];
    |s| - |u|
  }

  /** Cutting a blank prefix of length `i` off `s`, and then a blank suffix
      off what is left, keeps the piece of `s` that starts at `i`, followed
      by white space only. */
  lemma CutBothEnds(s: string, u: string, r: string, i: nat)
    requires i <= |s| && u == s[i..]
    requires |r| <= |u| && r == u[..|r|] && Blank(u[|r|..])
    requires |r| > 0 ==> !IsWhitespace(r[|r| - 1])
    ensures && i + |r| <= |s| && r == s[i..i + |r|] && Blank(s[i + |r|..])
            && (|r| > 0 ==> !IsWhitespace(s[i + |r| - 1]))
  {
    assert s[i + |r|..] == u[|r|..];
  }

  /** `String.prototype.trim`: the input with its blank ends cut off.  The
      result starts where the leading white space ends and stops at a
      character that is not white space, and only white space follows it. */
  function Trim(s: string): (r: string)
    ensures var i := LeadingBlank(s);
            && i + |r| <= |s| && r == s[i..i + |r|] && Blank(s[i + |r|..])
            && (|r| > 0 ==> !IsWhitespace(s[i + |r| - 1]))
  {
    var u := TrimStart(s);
    var r := TrimEnd(u);
    var i := LeadingBlank(s);
    assert u == s[i..];
    CutBothEnds(s, u, r, i);
    r
  }

  /** `s.trim()` is the empty string, i.e. falsy, exactly when `s` is blank. */
  lemma TrimEmptyIffBlank(s: string)
    ensures Trim(s) == [] <==> Blank(s)
  {
    var u := TrimStart(s);
    if Trim(s) == [] {
      assert Blank(u[0..]);
      if |u| > 0 {
        assert false;
      }
      assert s[..|s|] == s;
    }
    if Blank(s) && |u| > 0 {
      assert false;
    }
  }

  /** `t` contains `s` starting at index `i`. */
  predicate OccursAt(t: string, s: string, i: int) {
    0 <= i && i + |s| <= |t| && t[i..i + |s|] == s
  }

  /** The first occurrence of `s` in `t` at or after `k`, or -1. */
  function SearchFrom(t: string, s: string, k: nat): int
    decreases |t| - k
  {
    if k + |s| > |t| then -1
    else if t[k..k + |s|] == s then k
    else SearchFrom(t, s, k + 1)
  }

  /** The search returns the first occurrence from `k` on, and -1 exactly
      when there is none. */
  lemma {:induction false} SearchFromFindsFirst(t: string, s: string, k: nat)
    ensures var r := SearchFrom(t, s, k);
            && (r == -1 || (k <= r && OccursAt(t, s, r)))
            && (r == -1 ==> forall j :: k <= j ==> !OccursAt(t, s, j))
            && (r != -1 ==> forall j :: k <= j < r ==> !OccursAt(t, s, j))
    decreases |t| - k
  {
    if k + |s| <= |t| && t[k..k + |s|] != s {
      SearchFromFindsFirst(t, s, k + 1);
    }
  }

  /** Where `indexOf` starts looking: `position` clamped into `0..len`. */
  function ClampIndex(position: int, len: nat): (r: nat)
    ensures r <= len
    ensures 0 <= position <= len ==> r == position
  {
    if position < 0 then 0 else if position > len then len else position
  }

  /** `t.indexOf(s, position)`. */
  function IndexOf(t: string, s: string, position: int): int {
    SearchFrom(t, s, ClampIndex(position, |t|))
  }

  /** `indexOf` returns the first occurrence at or after the clamped
      position, and -1 exactly when there is none. */
  lemma IndexOfFindsFirst(t: string, s: string, position: int)
    ensures var r := IndexOf(t, s, position);
            var start := ClampIndex(position, |t|);
            && (r == -1 || (start <= r && OccursAt(t, s, r)))
            && (r == -1 ==> forall j :: start <= j ==> !OccursAt(t, s, j))
            && (r != -1 ==> forall j :: start <= j < r ==> !OccursAt(t, s, j))
  {
    SearchFromFindsFirst(t, s, ClampIndex(position, |t|));
  }
}
