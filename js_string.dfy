/**
 * The parts of ECMAScript string semantics that the analysis extractors rely on:
 * the line terminators that a regular-expression `.` refuses to match, and the
 * white space that `String.prototype.trim` strips from both ends.
 */
module JsString {

  /** ECMAScript LineTerminator: LF, CR, LINE SEPARATOR and PARAGRAPH SEPARATOR. */
  predicate IsLineTerminator(c: char) {
    c == '\n' || c == '\r' || c == '\U{2028}' || c == '\U{2029}'
  }

  /** The code points of the Unicode general category Zs (space separators) outside U+2000..U+200A. */
  const SpaceSeparators: set<char> := {' ', '\U{00A0}', '\U{1680}', '\U{202F}', '\U{205F}', '\U{3000}'}

  /**
   * ECMAScript WhiteSpace: TAB, VT, FF, ZWNBSP and the code points of the
   * Unicode general category Zs (space separators).
   */
  predicate IsWhiteSpace(c: char) {
    || c in {'\t', '\U{000B}', '\U{000C}', '\U{FEFF}'}
    || c in SpaceSeparators
    || ('\U{2000}' <= c <= '\U{200A}')
  }

  /** What `trim` removes: white space and line terminators alike. */
  predicate IsTrimmable(c: char) {
    IsWhiteSpace(c) || IsLineTerminator(c)
  }

  predicate AllTrimmable(s: string) {
    forall k :: 0 <= k < |s| ==> IsTrimmable(s[k])
  }

  predicate NoLineTerminator(s: string) {
    forall k :: 0 <= k < |s| ==> !IsLineTerminator(s[k])
  }

  /** Removes the leading trimmable characters. */
  function TrimStart(s: string): string
    decreases |s|
  {
    if s != [] && IsTrimmable(s[0]) then TrimStart(s[1..]) else s
  }

  /** Removes the trailing trimmable characters. */
  function TrimEnd(s: string): string
    decreases |s|
  {
    if s != [] && IsTrimmable(s[|s| - 1]) then TrimEnd(s[..|s| - 1]) else s
  }

  /** `TrimStart` gives the longest suffix that does not start with a trimmable character. */
  lemma {:induction false} TrimStartShape(s: string)
    ensures var r := TrimStart(s);
      && |r| <= |s| && r == s[|s| - |r|..]
      && AllTrimmable(s[..|s| - |r|])
      && (r == [] || !IsTrimmable(r[0]))
    decreases |s|
  {
    if s != [] && IsTrimmable(s[0]) {
      var r := TrimStart(s[1..]);
      TrimStartShape(s[1..]);
      TrimmablePrefixGrows(s, |s| - |r|);
      assert s[1..][|s| - 1 - |r|..] == s[|s| - |r|..];
    }
  }

  /** `TrimEnd` gives the longest prefix that does not end with a trimmable character. */
  lemma {:induction false} TrimEndShape(s: string)
    ensures var r := TrimEnd(s);
      && |r| <= |s| && r == s[..|r|]
      && AllTrimmable(s[|r|..])
      && (r == [] || !IsTrimmable(r[|r| - 1]))
    decreases |s|
  {
    if s != [] && IsTrimmable(s[|s| - 1]) {
      var r := TrimEnd(s[..|s| - 1]);
      TrimEndShape(s[..|s| - 1]);
      TrimmableSuffixGrows(s, |r|);
      assert s[..|s| - 1][..|r|] == s[..|r|];
    }
  }

  lemma TrimmablePrefixGrows(s: string, b: nat)
    requires s != [] && 1 <= b <= |s| && IsTrimmable(s[0])
    requires AllTrimmable(s[1..][..b - 1])
    ensures AllTrimmable(s[..b])
  {
    var whole, tail := s[..b], s[1..][..b - 1];
    forall k | 0 <= k < b ensures IsTrimmable(whole[k]) {
      if 0 < k {
        assert whole[k] == tail[k - 1];
      }
    }
  }

  lemma TrimmableSuffixGrows(s: string, b: nat)
    requires s != [] && b <= |s| - 1 && IsTrimmable(s[|s| - 1])
    requires AllTrimmable(s[..|s| - 1][b..])
    ensures AllTrimmable(s[b..])
  {
    var whole, head := s[b..], s[..|s| - 1][b..];
    forall k | 0 <= k < |s| - b ensures IsTrimmable(whole[k]) {
      if b + k < |s| - 1 {
        assert whole[k] == head[k];
      }
    }
  }

  /** `String.prototype.trim`: both ends stripped of trimmable characters. */
  function Trim(s: string): string {
    TrimEnd(TrimStart(s))
  }

  /**
   * The result of `trim` is the slice of `s` left after removing the
   * trimmable run at each end: it neither starts nor ends with a trimmable
   * character, and everything cut off on either side is trimmable.
   */
  lemma TrimShape(s: string)
    ensures var r := Trim(s);
      r == [] || (!IsTrimmable(r[0]) && !IsTrimmable(r[|r| - 1]))
    ensures var r, a := Trim(s), |s| - |TrimStart(s)|;
      && 0 <= a && a + |r| <= |s|
      && r == s[a..a + |r|]
      && AllTrimmable(s[..a])
      && AllTrimmable(s[a + |r|..])
  {
    var t := TrimStart(s);
    TrimStartShape(s);
    TrimEndShape(t);
    TrimEndOfSuffix(s, t, TrimEnd(t));
  }

  /** Where the result of trimming the end of a suffix of s sits inside s. */
  lemma TrimEndOfSuffix(s: string, t: string, r: string)
    requires |t| <= |s| && t == s[|s| - |t|..]
    requires |r| <= |t| && r == t[..|r|] && AllTrimmable(t[|r|..])
    requires t == [] || !IsTrimmable(t[0])
    ensures r == [] || !IsTrimmable(r[0])
    ensures var a := |s| - |t|;
      && a + |r| <= |s|
      && r == s[a..a + |r|]
      && AllTrimmable(s[a + |r|..])
  {
    var a := |s| - |t|;
    if r != [] {
      assert r[0] == t[0];
    }
    assert s[a + |r|..] == t[|r|..];
    assert s[a..a + |r|] == t[..|r|];
  }

  /** A string with no trimmable character at either end is its own trim. */
  lemma TrimUntouched(s: string)
    requires s != [] && !IsTrimmable(s[0]) && !IsTrimmable(s[|s| - 1])
    ensures Trim(s) == s
  {
  }

  /** One trailing trimmable character is cut off a string that is otherwise its own trim. */
  lemma TrimDropsTrailing(s: string, c: char)
    requires s != [] && !IsTrimmable(s[0]) && !IsTrimmable(s[|s| - 1]) && IsTrimmable(c)
    ensures Trim(s + [c]) == s
  {
    var t := s + [c];
    assert TrimStart(t) == t;
    assert t[..|t| - 1] == s;
    assert TrimEnd(t) == TrimEnd(s) == s;
  }
}
