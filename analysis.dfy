/**
 * `analize_string`: the property bundle computed for a submitted value.  Every
 * property is computed from the value with its surrounding whitespace stripped.
 */
module Analysis {
  import opened Text

  /** The `properties` dictionary; `sha256Hash` is the hex digest of the stripped value. */
  datatype Properties = Properties(
    length: nat,
    isPalindrome: bool,
    uniqueCharacters: nat,
    wordCount: nat,
    sha256Hash: string,
    characterFrequencyMap: map<char, nat>)

  /** `set(v)`. */
  function CharSet(s: seq<char>): set<char> {
    set c | c in s
  }

  /** `v.lower() == v[::-1].lower()`: no character is removed before comparing. */
  predicate IsPalindrome(v: seq<char>) {
    Lower(v) == Lower(Reverse(v))
  }

  predicate NoDuplicates(ks: seq<char>) {
    forall i, j :: 0 <= i < j < |ks| ==> ks[i] != ks[j]
  }

  /** `dict(Counter(v))`: each character of `v` mapped to its number of occurrences. */
  function Frequencies(s: seq<char>): (m: map<char, nat>)
    ensures m.Keys == CharSet(s)
    ensures forall c :: c in m ==> m[c] == multiset(s)[c]
  {
    if s == [] then map[]
    else
      var p := s[..|s| - 1];
      var c := s[|s| - 1];
      var m := Frequencies(p);
      assert s == p + [c];
      m[c := if c in m then m[c] + 1 else 1]
  }

  /** The keys of `dict(Counter(v))`, each listed once. */
  function Distinct(s: seq<char>): (ks: seq<char>)
    ensures NoDuplicates(ks)
    ensures forall c :: c in ks <==> c in s
    ensures |ks| <= |s|
  {
    if s == [] then []
    else
      var d := Distinct(s[..|s| - 1]);
      var c := s[|s| - 1];
      assert s == s[..|s| - 1] + [c];
      if c in d then d else d + [c]
  }

  function Get(m: map<char, nat>, c: char): nat {
    if c in m then m[c] else 0
  }

  /** The counts of `m` added up over the keys `ks`. */
  function SumCounts(m: map<char, nat>, ks: seq<char>): nat {
    if ks == [] then 0 else SumCounts(m, ks[..|ks| - 1]) + Get(m, ks[|ks| - 1])
  }

  /** The property bundle of `value`; `sha256` is the hex digest of a string's encoding. */
  function Analyze(value: string, sha256: string -> string): (p: Properties)
    ensures p.length <= |value|
    ensures p.length == 0 <==> AllSpace(value)
    ensures p.wordCount <= p.length
    ensures p.uniqueCharacters == |p.characterFrequencyMap.Keys|
    ensures p.sha256Hash == sha256(Strip(value))
  {
    var v := Strip(value);
    SplitBounds(v);
    Properties(|v|, IsPalindrome(v), |CharSet(v)|, |Split(v)|, sha256(v), Frequencies(v))
  }

  /** Case-insensitive mirror comparison: character i matches character |v|-1-i, ignoring ASCII case. */
  lemma PalindromeMirror(v: seq<char>)
    ensures IsPalindrome(v) <==> forall i :: 0 <= i < |v| ==> LowerChar(v[i]) == LowerChar(v[|v| - 1 - i])
  {
    LowerAt(v);
    LowerAt(Reverse(v));
    if forall i :: 0 <= i < |v| ==> LowerChar(v[i]) == LowerChar(v[|v| - 1 - i]) {
      assert forall i :: 0 <= i < |v| ==> Lower(v)[i] == Lower(Reverse(v))[i];
    } else {
      var i :| 0 <= i < |v| && LowerChar(v[i]) != LowerChar(v[|v| - 1 - i]);
      assert Lower(v)[i] != Lower(Reverse(v))[i];
    }
  }

  lemma {:induction false} SumCountsUpdate(m: map<char, nat>, ks: seq<char>, c: char, n: nat)
    requires NoDuplicates(ks)
    ensures SumCounts(m[c := n], ks) == SumCounts(m, ks) - (if c in ks then Get(m, c) else 0) + (if c in ks then n else 0)
  {
    if ks != [] {
      var p := ks[..|ks| - 1];
      assert forall x :: x in p ==> x in ks;
      assert ks[|ks| - 1] !in p;
      SumCountsUpdate(m, p, c, n);
      assert c in ks <==> c in p || c == ks[|ks| - 1];
    }
  }

  /** The counts of the frequency map add up to the number of characters. */
  lemma {:induction false} FrequenciesSumToLength(s: seq<char>)
    ensures SumCounts(Frequencies(s), Distinct(s)) == |s|
  {
    if s != [] {
      var p := s[..|s| - 1];
      var c := s[|s| - 1];
      FrequenciesSumToLength(p);
      var m := Frequencies(p);
      var d := Distinct(p);
      var m' := m[c := Get(m, c) + 1];
      SumCountsUpdate(m, d, c, Get(m, c) + 1);
      if c in d {
        assert Distinct(s) == d;
      } else {
        assert c !in m;
        assert Distinct(s) == d + [c];
        assert (d + [c])[..|d|] == d;
        assert SumCounts(m', d + [c]) == SumCounts(m', d) + 1;
      }
    }
  }

  lemma {:induction false} DistinctCardinality(ks: seq<char>)
    requires NoDuplicates(ks)
    ensures |CharSet(ks)| == |ks|
  {
    if ks != [] {
      var p := ks[..|ks| - 1];
      DistinctCardinality(p);
      assert CharSet(ks) == CharSet(p) + {ks[|ks| - 1]};
      assert ks[|ks| - 1] !in CharSet(p);
    }
  }

  /** The number of distinct characters is the number of frequency-map keys and at most the length. */
  lemma UniqueCharactersBound(s: seq<char>)
    ensures |CharSet(s)| == |Frequencies(s).Keys| == |Distinct(s)|
    ensures |CharSet(s)| <= |s|
  {
    var d := Distinct(s);
    DistinctCardinality(d);
    assert CharSet(d) == CharSet(s);
  }

  /** `word_count` counts the maximal non-whitespace runs; it is 0 exactly for a blank value and at most `length`. */
  lemma AnalyzeWordCount(value: string, sha256: string -> string)
    ensures Analyze(value, sha256).wordCount == RunStarts(Strip(value), true)
    ensures Analyze(value, sha256).wordCount == 0 <==> Analyze(value, sha256).length == 0
    ensures Analyze(value, sha256).wordCount <= Analyze(value, sha256).length
  {
    var v := Strip(value);
    SplitCountsRuns(v);
    SplitBounds(v);
    if v != [] {
      assert !IsSpace(v[0]);
    }
  }

  /** `is_palindrome` is the case-insensitive mirror test of the stripped value. */
  lemma AnalyzePalindrome(value: string, sha256: string -> string)
    ensures var v := Strip(value);
      Analyze(value, sha256).isPalindrome <==> forall i :: 0 <= i < |v| ==> LowerChar(v[i]) == LowerChar(v[|v| - 1 - i])
  {
    PalindromeMirror(Strip(value));
  }

  /**
   * `character_frequency_map` has exactly the characters of the stripped value
   * as keys, each with a positive count equal to its number of occurrences,
   * and the counts add up to `length`; `unique_characters` is its number of keys.
   */
  lemma AnalyzeFrequencies(value: string, sha256: string -> string)
    ensures var v := Strip(value); var p := Analyze(value, sha256);
      && p.characterFrequencyMap.Keys == CharSet(v)
      && (forall c :: c in p.characterFrequencyMap ==>
            p.characterFrequencyMap[c] == multiset(v)[c] && p.characterFrequencyMap[c] > 0)
      && SumCounts(p.characterFrequencyMap, Distinct(v)) == p.length
      && p.uniqueCharacters == |p.characterFrequencyMap.Keys| <= p.length
  {
    var v := Strip(value);
    FrequenciesSumToLength(v);
    UniqueCharactersBound(v);
  }

  /** Surrounding whitespace does not change the bundle, digest included. */
  lemma AnalyzeIgnoresSurroundingWhitespace(value: string, sha256: string -> string)
    ensures Analyze(Strip(value), sha256) == Analyze(value, sha256)
  {
    StripIdempotent(value);
  }

  /** Values with the same stripped form get the same identity. */
  lemma SameStrippedFormSameHash(v1: string, v2: string, sha256: string -> string)
    requires Strip(v1) == Strip(v2)
    ensures Analyze(v1, sha256).sha256Hash == Analyze(v2, sha256).sha256Hash
  {
  }

  /** A blank value: no characters, no words, a palindrome, an empty frequency map. */
  lemma AnalyzeBlank(value: string, sha256: string -> string)
    requires AllSpace(value)
    ensures Analyze(value, sha256) == Properties(0, true, 0, 0, sha256([]), map[])
  {
    assert CharSet([]) == {};
  }
}
