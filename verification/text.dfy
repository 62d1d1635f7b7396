/** Character classes and string primitives of the JavaScript runtime that the
    extraction heuristic relies on: `String.prototype.trim`, `includes`,
    `split("\n")`, and the `\s`, `\d`, `\w` classes of (non-unicode) regular
    expressions. Strings are sequences of characters, each a Unicode scalar
    value; JavaScript counts a character outside the Basic Multilingual Plane
    twice, as two UTF-16 code units. */
module Text {

  /** The code points ECMAScript counts as WhiteSpace or LineTerminator: the
      set `trim` strips and `\s` matches. */
  predicate IsSpace(c: char) {
    || c == ' ' || c == '\t' || c == '\n' || c == '\r'
    || c == '\U{000B}' || c == '\U{000C}' || c == '\U{00A0}' || c == '\U{1680}'
    || ('\U{2000}' <= c <= '\U{200A}')
    || c == '\U{2028}' || c == '\U{2029}' || c == '\U{202F}' || c == '\U{205F}'
    || c == '\U{3000}' || c == '\U{FEFF}'
  }

  /** `\d` */
  predicate IsDigit(c: char) {
    '0' <= c <= '9'
  }

  /** `\w`, which decides where `\b` holds. */
  predicate IsWordChar(c: char) {
    ('a' <= c <= 'z') || ('A' <= c <= 'Z') || IsDigit(c) || c == '_'
  }

  predicate AllSpace(s: string) {
    forall i :: 0 <= i < |s| ==> IsSpace(s[i])
  }

  /** A string `trim` leaves unchanged. */
  predicate IsTrimmed(s: string) {
    |s| == 0 || (!IsSpace(s[0]) && !IsSpace(s[|s| - 1]))
  }

  /** Number of white-space characters at the front of `s`. */
  function LeadingSpaces(s: string): (n: nat)
    ensures n <= |s|
    ensures n < |s| ==> !IsSpace(s[n])
  {
    if |s| > 0 && IsSpace(s[0]) then 1 + LeadingSpaces(s[1..]) else 0
  }

  /** ... and they are all white space. */
  lemma {:induction false} LeadingSpacesAreSpaces(s: string)
    ensures AllSpace(s[..LeadingSpaces(s)])
  {
    if |s| > 0 && IsSpace(s[0]) {
      var t := s[1..];
      var k := LeadingSpaces(t);
      LeadingSpacesAreSpaces(t);
      var pre := s[..k + 1];
      forall i | 0 <= i < |pre| ensures IsSpace(pre[i]) {
        if i > 0 {
          assert pre[i] == t[..k][i - 1];
        }
      }
    }
  }

  /** Number of white-space characters at the back of `s`. */
  function TrailingSpaces(s: string): (n: nat)
    ensures n <= |s|
    ensures n < |s| ==> !IsSpace(s[|s| - n - 1])
  {
    if |s| > 0 && IsSpace(s[|s| - 1]) then 1 + TrailingSpaces(s[..|s| - 1]) else 0
  }

  /** ... and they are all white space. */
  lemma {:induction false} TrailingSpacesAreSpaces(s: string)
    ensures AllSpace(s[|s| - TrailingSpaces(s)..])
  {
    if |s| > 0 && IsSpace(s[|s| - 1]) {
      var t := s[..|s| - 1];
      var k := TrailingSpaces(t);
      TrailingSpacesAreSpaces(t);
      var suf := s[|s| - (k + 1)..];
      forall i | 0 <= i < |suf| ensures IsSpace(suf[i]) {
        if i < k {
          assert suf[i] == t[|t| - k..][i];
        }
      }
    }
  }

  /** `String.prototype.trim`. */
  function Trim(s: string): (r: string)
    ensures IsTrimmed(r)
  {
    var lo := LeadingSpaces(s);
    var rest := s[lo..];
    rest[..|rest| - TrailingSpaces(rest)]
  }

  /** `trim` drops white space at both ends and nothing else. */
  lemma TrimSlice(s: string)
    ensures exists lo, hi :: 0 <= lo <= hi <= |s| && Trim(s) == s[lo..hi] && AllSpace(s[..lo]) && AllSpace(s[hi..])
  {
    var lo := LeadingSpaces(s);
    var rest := s[lo..];
    var n := TrailingSpaces(rest);
    LeadingSpacesAreSpaces(s);
    TrailingSpacesAreSpaces(rest);
    assert Trim(s) == s[lo..|s| - n];
    assert rest[|rest| - n..] == s[|s| - n..];
  }

  /** The white-space prefix is determined by where the first other character stands. */
  lemma {:induction false} LeadingSpacesExact(s: string, n: nat)
    requires n <= |s| && AllSpace(s[..n]) && (n < |s| ==> !IsSpace(s[n]))
    ensures LeadingSpaces(s) == n
  {
    if n > 0 {
      assert IsSpace(s[..n][0]);
      assert s[1..][..n - 1] == s[..n][1..];
      LeadingSpacesExact(s[1..], n - 1);
    }
  }

  /** The white-space suffix is determined by where the last other character stands. */
  lemma {:induction false} TrailingSpacesExact(s: string, n: nat)
    requires n <= |s| && AllSpace(s[|s| - n..]) && (n < |s| ==> !IsSpace(s[|s| - n - 1]))
    ensures TrailingSpaces(s) == n
  {
    if n > 0 {
      var t := s[..|s| - 1];
      assert IsSpace(s[|s| - n..][n - 1]);
      assert t[|t| - (n - 1)..] == s[|s| - n..][..n - 1];
      TrailingSpacesExact(t, n - 1);
    }
  }

  /** Any decomposition into white space, a trimmed middle and white space
      determines what `trim` returns. */
  lemma TrimOfPadded(pre: string, m: string, post: string)
    requires AllSpace(pre) && AllSpace(post) && IsTrimmed(m)
    ensures Trim(pre + m + post) == m
  {
    var s := pre + m + post;
    if |m| == 0 {
      assert s == pre + post;
      assert AllSpace(s[..|s|]);
      LeadingSpacesExact(s, |s|);
    } else {
      assert s[..|pre|] == pre;
      LeadingSpacesExact(s, |pre|);
      var rest := s[|pre|..];
      assert rest == m + post;
      assert rest[|rest| - |post|..] == post;
      TrailingSpacesExact(rest, |post|);
      assert rest[..|rest| - |post|] == m;
    }
  }

  /** `trim` is idempotent, and exactly the trimmed strings are its fixed points. */
  lemma TrimFixedPoint(s: string)
    ensures Trim(s) == s <==> IsTrimmed(s)
    ensures Trim(Trim(s)) == Trim(s)
  {
    if IsTrimmed(s) {
      TrimOfPadded("", s, "");
      assert "" + s + "" == s;
    }
    var t := Trim(s);
    TrimOfPadded("", t, "");
    assert "" + t + "" == t;
  }

  /** `sub` occurs in `s` starting at position `i`. */
  predicate OccursAt(s: string, sub: string, i: nat) {
    i + |sub| <= |s| && s[i..i + |sub|] == sub
  }

  /** `s.includes(sub)`, computed by scanning start positions. */
  function Contains(s: string, sub: string): bool
    decreases |s|
  {
    |sub| <= |s| && (s[..|sub|] == sub || Contains(s[1..], sub))
  }

  /** `Contains` agrees with the textbook definition of a substring. */
  lemma {:induction false} ContainsIff(s: string, sub: string)
    ensures Contains(s, sub) <==> exists i: nat :: OccursAt(s, sub, i)
    decreases |s|
  {
    if |sub| <= |s| && s[..|sub|] != sub && |s| > 0 {
      ContainsIff(s[1..], sub);
      if exists i: nat :: OccursAt(s, sub, i) {
        var i: nat :| OccursAt(s, sub, i);
        assert i > 0;
        assert OccursAt(s[1..], sub, i - 1);
      }
      if Contains(s[1..], sub) {
        var j: nat :| OccursAt(s[1..], sub, j);
        assert OccursAt(s, sub, j + 1);
      }
    } else if |sub| <= |s| && s[..|sub|] == sub {
      assert OccursAt(s, sub, 0);
    }
  }

  /** A string without the first character of `sub` does not contain `sub`. */
  lemma NotContainsWithoutFirst(s: string, sub: string)
    requires |sub| > 0 && sub[0] !in s
    ensures !Contains(s, sub)
  {
    ContainsIff(s, sub);
    forall i: nat | i + |sub| <= |s| ensures !OccursAt(s, sub, i) {
      assert s[i..i + |sub|][0] == s[i];
    }
  }

  /** True when `s` contains at least one of `words`: the `test` of an
      alternation regex such as `/(a|b|c)/`. */
  predicate ContainsAny(s: string, words: seq<string>) {
    exists k :: 0 <= k < |words| && Contains(s, words[k])
  }

  /** The pieces of `s.split("\n")`. */
  function SplitLines(s: string): (r: seq<string>)
    ensures |r| >= 1
    ensures forall k :: 0 <= k < |r| ==> '\n' !in r[k]
    decreases |s|
  {
    if '\n' !in s then [s]
    else
      var i := IndexOfNewline(s);
      [s[..i]] + SplitLines(s[i + 1..])
  }

  /** Position of the first line feed of `s`. */
  function IndexOfNewline(s: string): (i: nat)
    requires '\n' in s
    ensures i < |s| && s[i] == '\n' && '\n' !in s[..i]
  {
    if s[0] == '\n' then 0
    else
      var k := IndexOfNewline(s[1..]);
      assert s[..k + 1] == [s[0]] + s[1..][..k];
      k + 1
  }

  /** `parts.join("\n")`. */
  function JoinLines(parts: seq<string>): string
    requires |parts| >= 1
  {
    if |parts| == 1 then parts[0] else parts[0] + "\n" + JoinLines(parts[1..])
  }

  /** Splitting at line feeds loses nothing: joining the pieces gives the string back. */
  lemma {:induction false} JoinSplitLines(s: string)
    ensures JoinLines(SplitLines(s)) == s
    decreases |s|
  {
    if '\n' in s {
      var i := IndexOfNewline(s);
      var rest := SplitLines(s[i + 1..]);
      JoinSplitLines(s[i + 1..]);
      assert SplitLines(s) == [s[..i]] + rest;
      assert SplitLines(s)[1..] == rest;
      assert JoinLines(SplitLines(s)) == s[..i] + "\n" + JoinLines(rest);
      assert s == s[..i] + "\n" + s[i + 1..];
    }
  }

  /** ... and the pieces are exactly the newline-free lines that were joined. */
  lemma {:induction false} SplitJoinLines(parts: seq<string>)
    requires |parts| >= 1
    requires forall k :: 0 <= k < |parts| ==> '\n' !in parts[k]
    ensures SplitLines(JoinLines(parts)) == parts
  {
    if |parts| == 1 {
    } else {
      var s := JoinLines(parts);
      var rest := JoinLines(parts[1..]);
      assert s == parts[0] + "\n" + rest;
      assert '\n' in s by { assert s[|parts[0]|] == '\n'; }
      var i := IndexOfNewline(s);
      assert i == |parts[0]|;
      assert s[..i] == parts[0];
      assert s[i + 1..] == rest;
      SplitJoinLines(parts[1..]);
    }
  }
}
