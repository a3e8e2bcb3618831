/**
 * The part of `String.prototype.trim` that the task store relies on:
 * stripping ECMAScript white space and line terminators from both ends
 * of a title, and the fact that a title trims to "" exactly when it is
 * made of such characters only.
 */
module Text {

  /** ECMAScript WhiteSpace (TAB, VT, FF, ZWNBSP and every Zs code point)
      and LineTerminator (LF, CR, LS, PS): the characters `trim` removes. */
  predicate IsTrimmable(c: char) {
    || c == '\t' || c == '\U{000B}' || c == '\U{000C}' || c == ' '
    || c == '\U{00A0}' || c == '\U{FEFF}' || c == '\U{1680}'
    || ('\U{2000}' <= c <= '\U{200A}')
    || c == '\U{202F}' || c == '\U{205F}' || c == '\U{3000}'
    || c == '\n' || c == '\r' || c == '\U{2028}' || c == '\U{2029}'
  }

  /** A string that holds trimmable characters only (the empty string included). */
  predicate IsBlank(s: string) {
    forall i :: 0 <= i < |s| ==> IsTrimmable(s[i])
  }

  /** Drops the trimmable characters at the front. */
  function TrimStart(s: string): (r: string)
    ensures |r| <= |s| && r == s[|s| - |r|..]
    ensures IsBlank(s[..|s| - |r|])
    ensures r == [] || !IsTrimmable(r[0])
  {
    if s != [] && IsTrimmable(s[0]) then
      var r := TrimStart(s[1..]);
      assert s[..|s| - |r|] == [s[0]] + s[1..][..|s| - 1 - |r|];
      BlankConcat([s[0]], s[1..][..|s| - 1 - |r|]);
      r
    else
      s
  }

  /** Drops the trimmable characters at the back. */
  function TrimEnd(s: string): (r: string)
    ensures |r| <= |s| && r == s[..|r|]
    ensures IsBlank(s[|r|..])
    ensures r == [] || !IsTrimmable(r[|r| - 1])
  {
    if s != [] && IsTrimmable(s[|s| - 1]) then
      var r := TrimEnd(s[..|s| - 1]);
      assert s[|r|..] == s[..|s| - 1][|r|..] + [s[|s| - 1]];
      BlankConcat(s[..|s| - 1][|r|..], [s[|s| - 1]]);
      r
    else
      s
  }

  /** `s.trim()`: the longest slice of `s` that neither starts nor ends
      with a trimmable character, obtained by cutting blank ends off. */
  function Trim(s: string): (r: string)
    ensures |r| <= |s|
    ensures r == [] <==> IsBlank(s)
    ensures r != [] ==> !IsTrimmable(r[0]) && !IsTrimmable(r[|r| - 1])
    ensures exists i, j :: 0 <= i <= j <= |s| && r == s[i..j] && IsBlank(s[..i]) && IsBlank(s[j..])
  {
    var front := TrimStart(s);
    var r := TrimEnd(front);
    TrimmedSlice(s, |s| - |front|, front, r);
    r
  }

  /** `!s.trim()`: the title is empty once trimmed. */
  function TrimsToEmpty(s: string): (b: bool)
    ensures b <==> IsBlank(s)
  {
    Trim(s) == []
  }

  /** What is left after cutting a blank front of length `i` and then a
      blank back is the slice of `s` between them; when nothing is left,
      `s` is blank. */
  lemma {:induction false} TrimmedSlice(s: string, i: int, front: string, r: string)
    requires 0 <= i <= |s| && front == s[i..] && IsBlank(s[..i])
    requires |r| <= |front| && r == front[..|r|] && IsBlank(front[|r|..])
    ensures i + |r| <= |s| && r == s[i..i + |r|] && IsBlank(s[i + |r|..])
    ensures r == [] ==> IsBlank(s)
  {
    CutBothEnds(s, i, front, r);
    if r == [] {
      assert s == s[..i] + front;
      BlankConcat(s[..i], front);
    }
  }

  /** Cutting `i` characters off the front and then keeping a prefix of
      what is left is taking a slice of the original. */
  lemma {:induction false} CutBothEnds(s: string, i: int, front: string, r: string)
    requires 0 <= i <= |s| && front == s[i..]
    requires |r| <= |front| && r == front[..|r|]
    ensures i + |r| <= |s| && r == s[i..i + |r|] && front[|r|..] == s[i + |r|..]
  {
  }

  /** Two blank strings glued together are blank, and conversely. */
  lemma {:induction false} BlankConcat(a: string, b: string)
    ensures IsBlank(a + b) <==> IsBlank(a) && IsBlank(b)
  {
    if IsBlank(a) && IsBlank(b) {
      forall i | 0 <= i < |a + b| ensures IsTrimmable((a + b)[i]) {
        if i >= |a| { assert (a + b)[i] == b[i - |a|]; }
      }
    }
    if IsBlank(a + b) {
      forall i | 0 <= i < |a| ensures IsTrimmable(a[i]) {
        assert (a + b)[i] == a[i];
      }
      forall i | 0 <= i < |b| ensures IsTrimmable(b[i]) {
        assert (a + b)[|a| + i] == b[i];
      }
    }
  }
}
