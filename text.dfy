/** The pieces of Python's string handling that the intake form relies on:
    the whitespace class shared by `str.strip()` and the regular-expression
    escape `\s`, and `str.strip()` itself. */
module PyText {

  /** A whitespace character in the sense of CPython's `str.isspace()`, which is
      also what `\s` matches in a `str` pattern: the characters whose
      bidirectional class is WS, B or S, or whose general category is Zs. */
  predicate IsSpace(c: char) {
    || ('\t' <= c <= '\r')               // TAB, LF, VT, FF, CR
    || ('\U{1C}' <= c <= ' ')            // the four information separators and SPACE
    || c == '\U{85}'                     // NEXT LINE
    || c == '\U{A0}'                     // NO-BREAK SPACE
    || c == '\U{1680}'                   // OGHAM SPACE MARK
    || ('\U{2000}' <= c <= '\U{200A}')   // EN QUAD .. HAIR SPACE
    || c == '\U{2028}' || c == '\U{2029}' // LINE and PARAGRAPH SEPARATOR
    || c == '\U{202F}' || c == '\U{205F}' || c == '\U{3000}'
  }

  predicate IsAsciiLetter(c: char) {
    ('A' <= c <= 'Z') || ('a' <= c <= 'z')
  }

  predicate AllSpace(s: string) {
    forall i :: 0 <= i < |s| ==> IsSpace(s[i])
  }

  /** `s.lstrip()`: the suffix of `s` left after dropping its leading whitespace. */
  function StripLeft(s: string): (r: string)
    ensures |r| <= |s| && r == s[|s| - |r|..]
    ensures AllSpace(s[..|s| - |r|])
    ensures r != [] ==> !IsSpace(r[0])
  {
    if s != [] && IsSpace(s[0]) then
      var r := StripLeft(s[1..]);
      assert s[..|s| - |r|] == [s[0]] + s[1..][..|s| - 1 - |r|];
      r
    else s
  }

  /** `s.rstrip()`: the prefix of `s` left after dropping its trailing whitespace. */
  function StripRight(s: string): (r: string)
    ensures |r| <= |s| && r == s[..|r|]
    ensures AllSpace(s[|r|..])
    ensures r != [] ==> !IsSpace(r[|r| - 1])
  {
    if s != [] && IsSpace(s[|s| - 1]) then
      var r := StripRight(s[..|s| - 1]);
      assert s[|r|..] == s[..|s| - 1][|r|..] + [s[|s| - 1]];
      r
    else s
  }

  /** `t` is a stripped form of `raw`: no longer than it, empty exactly when
      `raw` is all whitespace, and otherwise free of whitespace at both ends. */
  predicate Trimmed(raw: string, t: string) {
    && |t| <= |raw|
    && (t == [] <==> AllSpace(raw))
    && (t != [] ==> !IsSpace(t[0]) && !IsSpace(t[|t| - 1]))
  }

  /** `s.strip()` with no argument: `s` without its leading and trailing
      whitespace. The result is empty exactly when `s` is all whitespace, and
      otherwise neither starts nor ends with whitespace. */
  function Strip(s: string): (r: string)
    ensures Trimmed(s, r)
  {
    StripRight(StripLeft(s))
  }

  /** What `Strip` removes is whitespace and what it keeps is one slice of `s`. */
  lemma StripIsTrimmedSlice(s: string) returns (lo: int)
    ensures IsTrimmedSlice(s, lo, Strip(s))
  {
    var t := StripLeft(s);
    var r := StripRight(t);
    lo := |s| - |t|;
    assert Strip(s) == r;
    SliceOfSuffix(s, lo, |r|);
    assert s[lo..lo + |r|] == r;
    assert AllSpace(s[..lo]);
    assert s[lo + |r|..] == t[|r|..];
  }

  lemma SliceOfSuffix(s: string, lo: int, k: int)
    requires 0 <= lo <= lo + k <= |s|
    ensures s[lo..][..k] == s[lo..lo + k]
    ensures s[lo..][k..] == s[lo + k..]
  {
  }

  /** `r` is the slice of `s` starting at `lo`, with only whitespace around it. */
  predicate IsTrimmedSlice(s: string, lo: int, r: string) {
    && 0 <= lo <= lo + |r| <= |s|
    && s[lo..lo + |r|] == r
    && AllSpace(s[..lo])
    && AllSpace(s[lo + |r|..])
  }

  /** Stripping twice is stripping once. */
  lemma StripIdempotent(s: string)
    ensures Strip(Strip(s)) == Strip(s)
  {
  }

  /** Whitespace added around a string is removed again: `Strip` undoes padding
      of a string that is already stripped. */
  lemma {:induction false} StripPadded(pre: string, s: string, post: string)
    requires AllSpace(pre) && AllSpace(post)
    requires s == [] || (!IsSpace(s[0]) && !IsSpace(s[|s| - 1]))
    ensures Strip(pre + s + post) == s
  {
    if s == [] {
      assert pre + s + post == pre + post;
      assert AllSpace(pre + post) by {
        forall i | 0 <= i < |pre + post| ensures IsSpace((pre + post)[i]) {
          if i >= |pre| { assert (pre + post)[i] == post[i - |pre|]; }
        }
      }
    } else {
      assert pre + s + post == pre + (s + post);
      StripLeftPadded(pre, s + post);
      StripRightPadded(s, post);
    }
  }

  lemma {:induction false} StripLeftPadded(pre: string, t: string)
    requires AllSpace(pre)
    requires t == [] || !IsSpace(t[0])
    ensures StripLeft(pre + t) == t
  {
    if pre != [] {
      assert (pre + t)[1..] == pre[1..] + t;
      StripLeftPadded(pre[1..], t);
    }
  }

  lemma {:induction false} StripRightPadded(t: string, post: string)
    requires AllSpace(post)
    requires t == [] || !IsSpace(t[|t| - 1])
    ensures StripRight(t + post) == t
  {
    if post != [] {
      assert (t + post)[..|t + post| - 1] == t + post[..|post| - 1];
      StripRightPadded(t, post[..|post| - 1]);
    } else {
      assert t + post == t;
    }
  }
}
