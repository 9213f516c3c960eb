/**
 * The pieces of Python's `str` that the analysis and the query interpreter use:
 * `isspace`, `strip()`, `split()`, `lower()`, slicing with `[::-1]`, and the
 * regular-expression classes `\d` and `\w`.
 */
module Text {

  /** Python's `str.isspace`: the characters `strip()` and `split()` treat as whitespace. */
  predicate IsSpace(c: char) {
    || ('\t' <= c <= '\r')
    || ('\U{1C}' <= c <= '\U{1F}')
    || c == ' '
    || c == '\U{85}'
    || c == '\U{A0}'
    || c == '\U{1680}'
    || ('\U{2000}' <= c <= '\U{200A}')
    || c == '\U{2028}'
    || c == '\U{2029}'
    || c == '\U{202F}'
    || c == '\U{205F}'
    || c == '\U{3000}'
  }

  predicate AllSpace(s: seq<char>) {
    forall i :: 0 <= i < |s| ==> IsSpace(s[i])
  }

  predicate NoSpace(s: seq<char>) {
    forall i :: 0 <= i < |s| ==> !IsSpace(s[i])
  }

  /** The regular-expression class `\d`, restricted to ASCII digits. */
  predicate IsDigit(c: char) {
    '0' <= c <= '9'
  }

  /** The regular-expression class `\w`, restricted to ASCII letters, digits and `_`. */
  predicate IsWordChar(c: char) {
    ('a' <= c <= 'z') || ('A' <= c <= 'Z') || IsDigit(c) || c == '_'
  }

  /** `lower()` on one character, restricted to ASCII. */
  function LowerChar(c: char): (r: char)
    ensures 'A' <= c <= 'Z' ==> 'a' <= r <= 'z'
    ensures !('A' <= c <= 'Z') ==> r == c
  {
    if 'A' <= c <= 'Z' then (c as int - 'A' as int + 'a' as int) as char else c
  }

  /** `s.lower()`, restricted to ASCII. */
  function Lower(s: seq<char>): (r: seq<char>)
    ensures |r| == |s|
  {
    if s == [] then [] else [LowerChar(s[0])] + Lower(s[1..])
  }

  /** Lowering works character by character. */
  lemma {:induction false} LowerAt(s: seq<char>)
    ensures forall i :: 0 <= i < |s| ==> Lower(s)[i] == LowerChar(s[i])
  {
    if s != [] {
      LowerAt(s[1..]);
      assert forall i :: 1 <= i < |s| ==> Lower(s)[i] == Lower(s[1..])[i - 1];
    }
  }

  /** `s[::-1]`. */
  function Reverse(s: seq<char>): (r: seq<char>)
    ensures |r| == |s|
    ensures forall i :: 0 <= i < |s| ==> r[i] == s[|s| - 1 - i]
  {
    if s == [] then [] else Reverse(s[1..]) + [s[0]]
  }

  /** Number of whitespace characters at the front of `s`. */
  function LeadingSpaces(s: seq<char>): (n: nat)
    ensures n <= |s|
    ensures AllSpace(s[..n])
    ensures n < |s| ==> !IsSpace(s[n])
  {
    if s == [] || !IsSpace(s[0]) then 0 else 1 + LeadingSpaces(s[1..])
  }

  /** Number of whitespace characters at the end of `s`. */
  function TrailingSpaces(s: seq<char>): (n: nat)
    ensures n <= |s|
    ensures AllSpace(s[|s| - n..])
    ensures n < |s| ==> !IsSpace(s[|s| - 1 - n])
    ensures s != [] && !IsSpace(s[0]) ==> n < |s|
  {
    if s == [] || !IsSpace(s[|s| - 1]) then 0 else 1 + TrailingSpaces(s[..|s| - 1])
  }

  /**
   * `s.strip()`: drop the leading and the trailing whitespace and keep the
   * interior untouched.  The result is the slice of `s` that starts after the
   * leading whitespace; everything of `s` after it is whitespace, and the
   * result neither starts nor ends with whitespace.
   */
  function Strip(s: seq<char>): (r: seq<char>)
    ensures LeadingSpaces(s) + |r| <= |s|
    ensures r == s[LeadingSpaces(s)..LeadingSpaces(s) + |r|]
    ensures AllSpace(s[LeadingSpaces(s) + |r|..])
    ensures r != [] ==> !IsSpace(r[0]) && !IsSpace(r[|r| - 1])
    ensures r == [] <==> AllSpace(s)
  {
    var a := LeadingSpaces(s);
    var b := TrailingSpaces(s[a..]);
    StripShape(s, a, b);
    s[a..][..|s| - a - b]
  }

  lemma StripShape(s: seq<char>, a: nat, b: nat)
    requires a <= |s| && AllSpace(s[..a]) && (a < |s| ==> !IsSpace(s[a]))
    requires b <= |s| - a && AllSpace(s[|s| - b..]) && (b < |s| - a ==> !IsSpace(s[|s| - 1 - b]))
    requires a < |s| ==> b < |s| - a
    ensures var r := s[a..][..|s| - a - b];
      && r == s[a..a + |r|]
      && AllSpace(s[a + |r|..])
      && (r != [] ==> !IsSpace(r[0]) && !IsSpace(r[|r| - 1]))
      && (r == [] <==> AllSpace(s))
  {
    var r := s[a..][..|s| - a - b];
    assert r == s[a..|s| - b];
    if r == [] {
      assert s == s[..a];
    } else {
      assert r[0] == s[a];
      assert r[|r| - 1] == s[|s| - 1 - b];
    }
  }

  /** Stripping twice is stripping once. */
  lemma {:induction false} StripIdempotent(s: seq<char>)
    ensures Strip(Strip(s)) == Strip(s)
  {
    var r := Strip(s);
    if r != [] {
      assert LeadingSpaces(r) == 0;
      assert TrailingSpaces(r) == 0;
    }
  }

  /** Number of non-whitespace characters at the front of `s`. */
  function WordLength(s: seq<char>): (n: nat)
    ensures n <= |s|
    ensures NoSpace(s[..n])
    ensures n < |s| ==> IsSpace(s[n])
  {
    if s == [] || IsSpace(s[0]) then 0 else 1 + WordLength(s[1..])
  }

  /** `s.split()` with no separator: the maximal runs of non-whitespace, in order. */
  function Split(s: seq<char>): (words: seq<seq<char>>)
    ensures forall k :: 0 <= k < |words| ==> words[k] != [] && NoSpace(words[k])
    decreases |s|
  {
    var a := LeadingSpaces(s);
    if a == |s| then []
    else
      var t := s[a..];
      var n := WordLength(t);
      [t[..n]] + Split(t[n..])
  }

  /**
   * An independent count of the maximal non-whitespace runs: the positions that
   * hold a non-whitespace character and are not preceded by one.  `afterSpace`
   * says whether the position before `s` counts as whitespace (or the start).
   */
  function RunStarts(s: seq<char>, afterSpace: bool): nat {
    if s == [] then 0
    else (if !IsSpace(s[0]) && afterSpace then 1 else 0) + RunStarts(s[1..], IsSpace(s[0]))
  }

  lemma {:induction false} RunStartsSkipSpaces(s: seq<char>, a: nat)
    requires a <= |s| && AllSpace(s[..a])
    ensures RunStarts(s, true) == RunStarts(s[a..], true)
  {
    if a > 0 {
      assert IsSpace(s[..a][0]);
      assert s[1..][..a - 1] == s[..a][1..];
      RunStartsSkipSpaces(s[1..], a - 1);
      assert s[1..][a - 1..] == s[a..];
    }
  }

  lemma {:induction false} RunStartsInsideWord(s: seq<char>, n: nat, afterSpace: bool)
    requires n <= |s| && NoSpace(s[..n])
    ensures RunStarts(s, afterSpace)
         == (if n > 0 && afterSpace then 1 else 0) + RunStarts(s[n..], if n > 0 then false else afterSpace)
  {
    if n > 0 {
      assert !IsSpace(s[..n][0]);
      assert s[1..][..n - 1] == s[..n][1..];
      RunStartsInsideWord(s[1..], n - 1, false);
      assert s[1..][n - 1..] == s[n..];
    }
  }

  /** `len(s.split())` counts exactly the maximal non-whitespace runs of `s`. */
  lemma {:induction false} SplitCountsRuns(s: seq<char>)
    ensures |Split(s)| == RunStarts(s, true)
    decreases |s|
  {
    var a := LeadingSpaces(s);
    RunStartsSkipSpaces(s, a);
    if a < |s| {
      var t := s[a..];
      var n := WordLength(t);
      RunStartsInsideWord(t, n, true);
      var rest := t[n..];
      if rest != [] {
        assert IsSpace(rest[0]);
        assert RunStarts(rest, false) == RunStarts(rest[1..], true);
        assert RunStarts(rest, true) == RunStarts(rest[1..], true);
      }
      SplitCountsRuns(rest);
    }
  }

  /** There are no words exactly when the text is all whitespace, and never more words than characters. */
  lemma {:induction false} SplitBounds(s: seq<char>)
    ensures |Split(s)| == 0 <==> AllSpace(s)
    ensures |Split(s)| <= |s|
    decreases |s|
  {
    var a := LeadingSpaces(s);
    if a == |s| {
      assert s == s[..a];
    } else {
      var t := s[a..];
      assert !IsSpace(s[a]);
      SplitBounds(t[WordLength(t)..]);
    }
  }
}
