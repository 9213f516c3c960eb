/**
 * `parse_nl_query`: a fixed, ordered list of regular-expression searches over
 * the lower-cased query, each writing keys into a filter dictionary.  Each
 * regular expression is modelled by hand: a list of literal prefixes tried in
 * the order the regex engine backtracks through them, followed by a captured
 * digit run, a captured word character, or nothing.
 */
module Query {
  import opened Wrappers
  import opened Text
  import opened FilterSet

  datatype Capture = Nothing | Digits | WordChar

  /** A regular expression `(p1|p2|...)` followed by the capture `capture`. */
  datatype Pattern = Pattern(prefixes: seq<string>, capture: Capture)

  /** A match of a pattern: where it starts, and where its capture group starts and what it holds. */
  datatype Match = Match(start: nat, groupStart: nat, group: string)

  /** `p` occurs in `q` at position `i`. */
  predicate StartsWithAt(q: string, i: nat, p: string)
    requires i <= |q|
    ensures StartsWithAt(q, i, p) ==> i + |p| <= |q|
    decreases |p|
  {
    p == [] || (i < |q| && q[i] == p[0] && StartsWithAt(q, i + 1, p[1..]))
  }

  lemma {:induction false} StartsWithAtSlice(q: string, i: nat, p: string)
    requires i <= |q|
    ensures StartsWithAt(q, i, p) <==> i + |p| <= |q| && q[i..i + |p|] == p
    decreases |p|
  {
    if p != [] && i < |q| {
      StartsWithAtSlice(q, i + 1, p[1..]);
      if i + |p| <= |q| {
        assert q[i..i + |p|] == [q[i]] + q[i + 1..i + 1 + |p[1..]|];
        assert p == [p[0]] + p[1..];
      }
    }
  }

  /** Length of the run of digits at the front of `s`; `\d+` is greedy and takes all of it. */
  function DigitRun(s: string): (n: nat)
    ensures n <= |s|
    ensures forall k :: 0 <= k < n ==> IsDigit(s[k])
    ensures n < |s| ==> !IsDigit(s[n])
  {
    if s == [] || !IsDigit(s[0]) then 0 else 1 + DigitRun(s[1..])
  }

  /** The capture group read at position `j`, if the capture can match there. */
  function CaptureAt(q: string, j: nat, c: Capture): (r: Option<string>)
    requires j <= |q|
    ensures r.Some? ==> j + |r.value| <= |q| && r.value == q[j..j + |r.value|]
  {
    match c
    case Nothing => Some([])
    case Digits =>
      var n := DigitRun(q[j..]);
      if n == 0 then None else Some(q[j..j + n])
    case WordChar =>
      if j < |q| && IsWordChar(q[j]) then Some([q[j]]) else None
  }

  /**
   * No capture always matches and reads nothing; `(\d+)` needs a digit and
   * reads the whole run of digits; `(\w)` needs a word character and reads
   * exactly that one.
   */
  lemma CaptureAtSpec(q: string, j: nat, c: Capture)
    requires j <= |q|
    ensures var r := CaptureAt(q, j, c);
      && (c == Nothing ==> r == Some([]))
      && (c == Digits ==> (r.Some? <==> j < |q| && IsDigit(q[j])))
      && (c == Digits && r.Some? ==>
            && (forall k :: j <= k < j + |r.value| ==> IsDigit(q[k]))
            && (j + |r.value| == |q| || !IsDigit(q[j + |r.value|])))
      && (c == WordChar ==> (r.Some? <==> j < |q| && IsWordChar(q[j])))
      && (c == WordChar && r.Some? ==> r.value == [q[j]])
  {
    if c == Digits {
      var n := DigitRun(q[j..]);
      assert forall k :: j <= k < j + n ==> q[k] == q[j..][k - j];
    }
  }

  /** Prefix `p` occurs at `i` and the capture can match right after it. */
  predicate Fits(q: string, i: nat, p: string, c: Capture)
    requires i <= |q|
  {
    StartsWithAt(q, i, p) && CaptureAt(q, i + |p|, c).Some?
  }

  /** The match made through alternative `p` when it fits at `i`. */
  function Through(q: string, i: nat, p: string, c: Capture): Match
    requires i <= |q| && Fits(q, i, p, c)
  {
    Match(i, i + |p|, CaptureAt(q, i + |p|, c).value)
  }

  /** Alternative `k` is the first one, from index `from` on, that fits at `i`. */
  predicate FirstFitting(q: string, i: nat, prefixes: seq<string>, c: Capture, from: nat, k: nat)
    requires i <= |q| && from <= k < |prefixes|
  {
    Fits(q, i, prefixes[k], c) && forall j :: from <= j < k ==> !Fits(q, i, prefixes[j], c)
  }

  /** The match at `i` through the first alternative, from index `from` on, that fits there. */
  function MatchFrom(q: string, i: nat, prefixes: seq<string>, c: Capture, from: nat): (r: Option<Match>)
    requires i <= |q| && from <= |prefixes|
    ensures r.Some? ==> r.value.start == i
    decreases |prefixes| - from
  {
    if from == |prefixes| then None
    else if Fits(q, i, prefixes[from], c) then Some(Through(q, i, prefixes[from], c))
    else MatchFrom(q, i, prefixes, c, from + 1)
  }

  /** The match of the regular expression at `i`: the engine tries the alternatives in order. */
  function MatchAt(q: string, i: nat, prefixes: seq<string>, c: Capture): Option<Match>
    requires i <= |q|
  {
    MatchFrom(q, i, prefixes, c, 0)
  }

  /**
   * From `from` on, the pattern matches at `i` exactly when some alternative
   * fits there, and the match is made through the first such alternative.
   */
  lemma {:induction false} MatchFromSpec(q: string, i: nat, prefixes: seq<string>, c: Capture, from: nat)
    requires i <= |q| && from <= |prefixes|
    ensures MatchFrom(q, i, prefixes, c, from).Some? <==>
              exists k :: from <= k < |prefixes| && Fits(q, i, prefixes[k], c)
    ensures MatchFrom(q, i, prefixes, c, from).Some? ==>
              exists k :: from <= k < |prefixes| && FirstFitting(q, i, prefixes, c, from, k)
                          && MatchFrom(q, i, prefixes, c, from).value == Through(q, i, prefixes[k], c)
    decreases |prefixes| - from
  {
    if from < |prefixes| {
      if Fits(q, i, prefixes[from], c) {
        assert FirstFitting(q, i, prefixes, c, from, from);
      } else {
        MatchFromSpec(q, i, prefixes, c, from + 1);
        if MatchFrom(q, i, prefixes, c, from + 1).Some? {
          var k :| from + 1 <= k < |prefixes| && FirstFitting(q, i, prefixes, c, from + 1, k)
                   && MatchFrom(q, i, prefixes, c, from + 1).value == Through(q, i, prefixes[k], c);
          assert FirstFitting(q, i, prefixes, c, from, k);
        }
      }
    }
  }

  predicate MatchesAt(q: string, i: nat, p: Pattern)
    requires i <= |q|
  {
    MatchAt(q, i, p.prefixes, p.capture).Some?
  }

  /** `re.search` from position `i` on. */
  function SearchFrom(q: string, p: Pattern, i: nat): Option<Match>
    requires i <= |q|
    decreases |q| - i
  {
    var here := MatchAt(q, i, p.prefixes, p.capture);
    if here.Some? then here
    else if i == |q| then None
    else SearchFrom(q, p, i + 1)
  }

  /** The search finds the leftmost position at or after `i` where the pattern matches, or reports that there is none. */
  lemma {:induction false} SearchFromSpec(q: string, p: Pattern, i: nat)
    requires i <= |q|
    ensures var r := SearchFrom(q, p, i);
      && (r.Some? ==> i <= r.value.start <= |q| && r == MatchAt(q, r.value.start, p.prefixes, p.capture))
      && (r.Some? ==> forall j :: i <= j < r.value.start ==> !MatchesAt(q, j, p))
      && (r.None? ==> forall j :: i <= j <= |q| ==> !MatchesAt(q, j, p))
    decreases |q| - i
  {
    if !MatchesAt(q, i, p) && i < |q| {
      SearchFromSpec(q, p, i + 1);
      assert SearchFrom(q, p, i) == SearchFrom(q, p, i + 1);
      forall j | i <= j < i + 1 ensures !MatchesAt(q, j, p) {
      }
    }
  }

  /** `re.search(p, q)`. */
  function Search(q: string, p: Pattern): Option<Match> {
    SearchFrom(q, p, 0)
  }

  /** A match at `i` is made through the first fitting alternative, and its group is what the capture reads after it. */
  lemma MatchAtGroup(q: string, i: nat, p: Pattern)
    requires i <= |q| && MatchesAt(q, i, p)
    ensures var m := MatchAt(q, i, p.prefixes, p.capture).value;
      && (exists k :: 0 <= k < |p.prefixes| && FirstFitting(q, i, p.prefixes, p.capture, 0, k)
                      && m.groupStart == i + |p.prefixes[k]|)
      && m.groupStart <= |q|
      && CaptureAt(q, m.groupStart, p.capture) == Some(m.group)
  {
    MatchFromSpec(q, i, p.prefixes, p.capture, 0);
    var k :| 0 <= k < |p.prefixes| && FirstFitting(q, i, p.prefixes, p.capture, 0, k)
             && MatchFrom(q, i, p.prefixes, p.capture, 0).value == Through(q, i, p.prefixes[k], p.capture);
    var j := i + |p.prefixes[k]|;
    var g := CaptureAt(q, j, p.capture);
    assert g.Some?;
    assert MatchAt(q, i, p.prefixes, p.capture).value == Match(i, j, g.value);
  }

  /**
   * `re.search`: the pattern is found exactly when it matches somewhere; the
   * match found is the leftmost one, made through the first alternative that
   * fits there, and its group is what the capture reads right after it.
   */
  lemma SearchSpec(q: string, p: Pattern)
    ensures Search(q, p).Some? <==> exists i :: 0 <= i <= |q| && MatchesAt(q, i, p)
    ensures Search(q, p).Some? ==> var m := Search(q, p).value;
      && m.start <= |q| && MatchesAt(q, m.start, p)
      && (forall i :: 0 <= i < m.start ==> !MatchesAt(q, i, p))
      && (exists k :: 0 <= k < |p.prefixes| && FirstFitting(q, m.start, p.prefixes, p.capture, 0, k)
                      && m.groupStart == m.start + |p.prefixes[k]|)
      && m.groupStart <= |q|
      && CaptureAt(q, m.groupStart, p.capture) == Some(m.group)
  {
    SearchFromSpec(q, p, 0);
    if Search(q, p).Some? {
      var i := Search(q, p).value.start;
      assert MatchesAt(q, i, p);
      MatchAtGroup(q, i, p);
    }
  }

  /** `lit in q`. */
  predicate Contains(q: string, lit: string) {
    Search(q, Pattern([lit], Nothing)).Some?
  }

  /** Substring search finds `lit` exactly when it occurs somewhere in `q`. */
  lemma ContainsOccurs(q: string, lit: string)
    ensures Contains(q, lit) <==> exists i :: 0 <= i <= |q| && StartsWithAt(q, i, lit)
  {
    var p := Pattern([lit], Nothing);
    SearchFromSpec(q, p, 0);
    if Contains(q, lit) {
      var i := Search(q, p).value.start;
      MatchFromSpec(q, i, p.prefixes, p.capture, 0);
      assert Fits(q, i, p.prefixes[0], Nothing);
      assert exists i :: 0 <= i <= |q| && StartsWithAt(q, i, lit);
    } else {
      forall i | 0 <= i <= |q| ensures !StartsWithAt(q, i, lit) {
        assert !MatchesAt(q, i, p);
        MatchFromSpec(q, i, p.prefixes, p.capture, 0);
        assert !Fits(q, i, p.prefixes[0], Nothing);
      }
    }
  }

  /** `int(...)` of a string of ASCII digits. */
  function DecimalValue(ds: string): nat {
    if ds == [] then 0
    else 10 * DecimalValue(ds[..|ds| - 1]) + (ds[|ds| - 1] as int - '0' as int) % 10
  }

  /** The decimal numeral of `n`, without leading zeros. */
  function DecimalString(n: nat): (ds: string)
    ensures ds != [] && forall k :: 0 <= k < |ds| ==> IsDigit(ds[k])
  {
    if n < 10 then [('0' as int + n) as char]
    else DecimalString(n / 10) + [('0' as int + n % 10) as char]
  }

  /** Reading back the numeral of `n` gives `n`. */
  lemma {:induction false} DecimalRoundTrip(n: nat)
    ensures DecimalValue(DecimalString(n)) == n
  {
    if n >= 10 {
      var ds := DecimalString(n);
      assert ds[..|ds| - 1] == DecimalString(n / 10);
      DecimalRoundTrip(n / 10);
    }
  }

  /** Leading zeros do not change the value: `int("007") == 7`. */
  lemma {:induction false} DecimalLeadingZero(ds: string)
    ensures DecimalValue("0" + ds) == DecimalValue(ds)
  {
    if ds != [] {
      assert ("0" + ds)[..|"0" + ds| - 1] == "0" + ds[..|ds| - 1];
      DecimalLeadingZero(ds[..|ds| - 1]);
    }
  }

  /** `longer than (\d+)` */
  const LongerThan := Pattern(["longer than "], Digits)
  /** `longer than or equal to (\d+)` */
  const LongerOrEqual := Pattern(["longer than or equal to "], Digits)
  /** `contain(?:ing|s)? the letter (\w)`: the optional group tries `ing`, then `s`, then nothing. */
  const TheLetter := Pattern(["containing the letter ", "contains the letter ", "contain the letter "], WordChar)
  /** `contain(?:ing|s)? (\w)` */
  const ContainAny := Pattern(["containing ", "contains ", "contain "], WordChar)

  /** The number captured by the leftmost match of a digit pattern. */
  function Number(q: string, p: Pattern): Option<nat> {
    var m := Search(q, p);
    if m.Some? then Some(DecimalValue(m.value.group)) else None
  }

  /**
   * A digit pattern yields a number exactly when it matches somewhere; the
   * number is read from the whole, non-empty run of digits after the leftmost
   * match's prefix.
   */
  lemma NumberSpec(q: string, p: Pattern)
    requires p.capture == Digits
    ensures Number(q, p).Some? <==> exists i :: 0 <= i <= |q| && MatchesAt(q, i, p)
    ensures Number(q, p).Some? ==> var m := Search(q, p).value;
      && m.group != [] && m.groupStart + |m.group| <= |q|
      && (forall k :: 0 <= k < |m.group| ==> IsDigit(m.group[k]))
      && (m.groupStart + |m.group| == |q| || !IsDigit(q[m.groupStart + |m.group|]))
      && Number(q, p).value == DecimalValue(m.group)
  {
    SearchSpec(q, p);
    if Search(q, p).Some? {
      CaptureAtSpec(q, Search(q, p).value.groupStart, Digits);
    }
  }

  /** The character captured by the leftmost match of a word-character pattern. */
  function Letter(q: string, p: Pattern): (r: Option<char>)
    requires p.capture == WordChar
    ensures r.Some? <==> Search(q, p).Some?
    ensures r.Some? ==> Search(q, p).value.groupStart < |q| && r.value == q[Search(q, p).value.groupStart]
    ensures r.Some? ==> r.value in q && IsWordChar(r.value)
  {
    var m := Search(q, p);
    SearchSpec(q, p);
    if m.Some? then
      CaptureAtSpec(q, m.value.groupStart, WordChar);
      Some(m.value.group[0])
    else None
  }

  predicate MentionsSingleWord(q: string) {
    Contains(q, "single word") || Contains(q, "single-word") || Contains(q, "one word")
  }

  /** The keys `ParseNlQuery` may write. */
  const ParsedKeys: set<Key> :=
    {IsPalindromeKey, WordCountKey, MinLengthKey, MinLengthExclusiveKey, MinLengthRawKey, ContainsCharacterKey}

  /** The outcome of each search of `parse_nl_query` over the lower-cased query. */
  datatype Scan = Scan(
    palindrome: bool,
    singleWord: bool,
    longerThan: Option<nat>,
    longerOrEqual: Option<nat>,
    theLetter: Option<char>,
    containing: Option<char>)

  /**
   * The six searches of `parse_nl_query`.  A letter is captured exactly when
   * its pattern is found, and it is the word character right after the
   * leftmost match's prefix.
   */
  function ScanQuery(q: string): (s: Scan)
    ensures s.theLetter.Some? <==> Search(q, TheLetter).Some?
    ensures s.theLetter.Some? ==> Search(q, TheLetter).value.groupStart < |q|
                                  && s.theLetter.value == q[Search(q, TheLetter).value.groupStart]
    ensures s.theLetter.Some? ==> s.theLetter.value in q && IsWordChar(s.theLetter.value)
    ensures s.containing.Some? <==> Search(q, ContainAny).Some?
    ensures s.containing.Some? ==> Search(q, ContainAny).value.groupStart < |q|
                                   && s.containing.value == q[Search(q, ContainAny).value.groupStart]
    ensures s.containing.Some? ==> s.containing.value in q && IsWordChar(s.containing.value)
  {
    Scan(Contains(q, "palind"), MentionsSingleWord(q), Number(q, LongerThan), Number(q, LongerOrEqual),
         Letter(q, TheLetter), Letter(q, ContainAny))
  }

  /**
   * The dictionary the pattern list leaves behind, key by key.  Each key is
   * present exactly when its phrase occurs; "longer than N" stores N itself
   * (not N+1) and flags the bound as exclusive; a later "longer than or equal
   * to M" overwrites `min_length` with M; "the letter X" takes precedence over
   * the plain "containing X".
   */
  predicate Writes(s: Scan, filters: Filters) {
    && filters.Keys <= ParsedKeys
    && (IsPalindromeKey in filters <==> s.palindrome)
    && (IsPalindromeKey in filters ==> filters[IsPalindromeKey] == VBool(true))
    && (WordCountKey in filters <==> s.singleWord)
    && (WordCountKey in filters ==> filters[WordCountKey] == VInt(1))
    && (MinLengthExclusiveKey in filters <==> s.longerThan.Some?)
    && (MinLengthRawKey in filters <==> s.longerThan.Some?)
    && (MinLengthExclusiveKey in filters ==> filters[MinLengthExclusiveKey] == VBool(true))
    && (MinLengthRawKey in filters ==> s.longerThan.Some? && filters[MinLengthRawKey] == VInt(s.longerThan.value))
    && (MinLengthKey in filters <==> s.longerThan.Some? || s.longerOrEqual.Some?)
    && (s.longerOrEqual.Some? ==> filters[MinLengthKey] == VInt(s.longerOrEqual.value))
    && (s.longerOrEqual.None? && s.longerThan.Some? ==> filters[MinLengthKey] == VInt(s.longerThan.value))
    && (ContainsCharacterKey in filters <==> s.theLetter.Some? || s.containing.Some?)
    && (s.theLetter.Some? ==> filters[ContainsCharacterKey] == VChar(s.theLetter.value))
    && (s.theLetter.None? && s.containing.Some? ==> filters[ContainsCharacterKey] == VChar(s.containing.value))
  }

  /** The assignments of `parse_nl_query`, in order, each overwriting what an earlier one wrote. */
  method ApplyPatterns(s: Scan) returns (filters: Filters)
    ensures Writes(s, filters)
  {
    filters := map[];
    if s.palindrome {
      filters := filters[IsPalindromeKey := VBool(true)];
    }
    if s.singleWord {
      filters := filters[WordCountKey := VInt(1)];
    }
    if s.longerThan.Some? {
      filters := filters[MinLengthKey := VInt(s.longerThan.value + 0)];
      filters := filters[MinLengthExclusiveKey := VBool(true)];
      filters := filters[MinLengthRawKey := VInt(s.longerThan.value)];
    }
    if s.longerOrEqual.Some? {
      filters := filters[MinLengthKey := VInt(s.longerOrEqual.value)];
    }
    if s.theLetter.Some? {
      filters := filters[ContainsCharacterKey := VChar(s.theLetter.value)];
    }
    if s.containing.Some? && ContainsCharacterKey !in filters {
      filters := filters[ContainsCharacterKey := VChar(s.containing.value)];
    }
  }

  /** `parse_nl_query`: lower-case the query, search for each phrase, write the keys. */
  method ParseNlQuery(query: string) returns (filters: Filters)
    ensures Writes(ScanQuery(Lower(query)), filters)
  {
    var q := Lower(query);
    filters := ApplyPatterns(ScanQuery(q));
  }

  /** The interpreter returns an empty dictionary exactly when no pattern matches. */
  lemma EmptyExactlyWhenNothingMatches(s: Scan, filters: Filters)
    requires Writes(s, filters)
    ensures filters == map[] <==>
              !s.palindrome && !s.singleWord && s.longerThan.None? && s.longerOrEqual.None?
              && s.theLetter.None? && s.containing.None?
  {
    if filters != map[] {
      var k :| k in filters;
    }
  }

  /** `contains_character`, when written, is one word character of the lower-cased query. */
  lemma ContainsCharacterFromQuery(query: string, filters: Filters)
    requires Writes(ScanQuery(Lower(query)), filters)
    ensures ContainsCharacterKey in filters ==>
              filters[ContainsCharacterKey].VChar?
              && filters[ContainsCharacterKey].c in Lower(query)
              && IsWordChar(filters[ContainsCharacterKey].c)
  {
  }
}
