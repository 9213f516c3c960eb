/**
 * The decision logic of the `/strings` endpoints: the guards that reject a
 * request, the rewrite of the interpreter's exclusive bound, the filter
 * dictionary of the list endpoint, and the lookup order of a single string.
 * Status codes are named by what they mean; response bodies are left out.
 */
module Routes {
  import opened Wrappers
  import opened Text
  import opened FilterSet
  import opened Analysis
  import opened Query
  import opened Crud

  /** The default page of `list_filtered`. */
  const DefaultLimit: nat := 100
  const DefaultOffset: nat := 0

  /** Outcome of `POST /strings`. */
  datatype CreateOutcome =
    | Created(record: Record)   // 201
    | SchemaRejected            // 422 from request validation: no value, or the empty string
    | MissingValue              // 400: a value of whitespace only
    | AlreadyExists             // 409: a row holds this exact value
    | Unprocessable             // 422: the insert itself failed

  /**
   * `POST /strings`: request validation rejects a missing or empty value
   * (`min_length=1`); the handler then rejects a value of whitespace only,
   * then a value already stored verbatim, both before any analysis or insert;
   * otherwise it stores the raw value with the properties of its stripped form.
   */
  method CreateStringEndpoint(store: Store, val: Option<string>, sha256: string -> string)
    returns (outcome: CreateOutcome)
    requires store.Valid()
    modifies store
    ensures store.Valid()
    ensures val.None? || val.value == [] <==> outcome == SchemaRejected
    ensures val.Some? && val.value != [] && Strip(val.value) == [] <==> outcome == MissingValue
    ensures val.Some? && Strip(val.value) != [] && old(store.HasValue(val.value)) <==> outcome == AlreadyExists
    ensures !outcome.Created? ==> store.rows == old(store.rows)
    ensures outcome == Unprocessable <==>
              val.Some? && Strip(val.value) != [] && !old(store.HasValue(val.value))
              && old(store.HasId(Analyze(val.value, sha256).sha256Hash))
    ensures outcome.Created? ==>
              var p := Analyze(val.value, sha256);
              && outcome.record == Record(p.sha256Hash, val.value, p.length, p.isPalindrome,
                                          p.uniqueCharacters, p.wordCount, p)
              && store.rows == old(store.rows) + [outcome.record]
  {
    if val.None? || val.value == [] {
      return SchemaRejected;
    }
    if Strip(val.value) == [] {
      return MissingValue;
    }
    var existing := store.GetByValue(val.value);
    if existing.Some? {
      return AlreadyExists;
    }
    var props := Analyze(val.value, sha256);
    var res := store.CreateString(val.value, props);
    if res.Err? {
      return Unprocessable;
    }
    outcome := Created(res.value);
  }

  /**
   * `if parsed.get("min_length_exclusive")`: turn the exclusive bound into
   * `min_length = min_length_raw + 1` and drop both helper keys.
   */
  method NormalizeExclusive(parsed: Filters) returns (result: Filters)
    requires MinLengthExclusiveKey in parsed && Truthy(parsed[MinLengthExclusiveKey]) ==>
               MinLengthRawKey in parsed && parsed[MinLengthRawKey].VInt?
    ensures MinLengthExclusiveKey in parsed && Truthy(parsed[MinLengthExclusiveKey]) ==>
              result == (parsed - {MinLengthExclusiveKey, MinLengthRawKey})[MinLengthKey := VInt(parsed[MinLengthRawKey].i + 1)]
    ensures !(MinLengthExclusiveKey in parsed && Truthy(parsed[MinLengthExclusiveKey])) ==> result == parsed
  {
    result := parsed;
    if MinLengthExclusiveKey in result && Truthy(result[MinLengthExclusiveKey]) {
      result := result[MinLengthKey := VInt(result[MinLengthRawKey].i + 1)];
      result := result - {MinLengthExclusiveKey};
      result := result - {MinLengthRawKey};
    }
  }

  datatype QueryError =
    | EmptyQuery      // 400: missing or blank query
    | Unparseable     // 400: no pattern recognised

  /** Whether the scan of a query recognised at least one phrase. */
  predicate Recognised(s: Scan) {
    s.palindrome || s.singleWord || s.longerThan.Some? || s.longerOrEqual.Some?
    || s.theLetter.Some? || s.containing.Some?
  }

  /**
   * What the natural-language endpoint queries with, given the scan of the
   * lower-cased query: only the known keys other than `max_length`, each
   * present exactly when its phrase occurred; `is_palindrome` true, `word_count` 1, the captured letter
   * ("the letter X" before "containing X"); and "longer than N" giving
   * `min_length = N + 1` even when "longer than or equal to M" also occurred.
   */
  predicate Normalized(s: Scan, f: Filters) {
    && WellTyped(f)
    && f.Keys <= FilterKeys
    && MaxLengthKey !in f
    && (IsPalindromeKey in f <==> s.palindrome)
    && (WordCountKey in f <==> s.singleWord)
    && (ContainsCharacterKey in f <==> s.theLetter.Some? || s.containing.Some?)
    && (MinLengthKey in f <==> s.longerThan.Some? || s.longerOrEqual.Some?)
    && (s.longerThan.Some? ==> f[MinLengthKey] == VInt(s.longerThan.value + 1))
    && (s.longerThan.None? && s.longerOrEqual.Some? ==> f[MinLengthKey] == VInt(s.longerOrEqual.value))
    && (IsPalindromeKey in f ==> f[IsPalindromeKey] == VBool(true))
    && (WordCountKey in f ==> f[WordCountKey] == VInt(1))
    && (s.theLetter.Some? ==> f[ContainsCharacterKey] == VChar(s.theLetter.value))
    && (s.theLetter.None? && s.containing.Some? ==> f[ContainsCharacterKey] == VChar(s.containing.value))
  }

  /** The rewrite of the exclusive bound turns what the interpreter wrote into a `Normalized` dictionary. */
  lemma RewriteNormalizes(s: Scan, parsed: Filters)
    requires Writes(s, parsed)
    ensures MinLengthExclusiveKey in parsed && Truthy(parsed[MinLengthExclusiveKey]) ==>
              MinLengthRawKey in parsed && parsed[MinLengthRawKey].VInt?
    ensures MinLengthExclusiveKey in parsed && Truthy(parsed[MinLengthExclusiveKey]) ==>
              Normalized(s, (parsed - {MinLengthExclusiveKey, MinLengthRawKey})[MinLengthKey := VInt(parsed[MinLengthRawKey].i + 1)])
    ensures !(MinLengthExclusiveKey in parsed && Truthy(parsed[MinLengthExclusiveKey])) ==> Normalized(s, parsed)
  {
  }

  /**
   * What the endpoint does with the interpreter's dictionary `parsed` for a
   * query whose scan is `s`: reject it when it is empty, otherwise rewrite
   * the exclusive bound.
   */
  method CheckParsed(ghost s: Scan, parsed: Filters) returns (res: Result<Filters, QueryError>)
    requires Writes(s, parsed)
    ensures res != Err(EmptyQuery)
    ensures res == Err(Unparseable) <==> !Recognised(s)
    ensures res.Ok? ==> Normalized(s, res.value)
  {
    EmptyExactlyWhenNothingMatches(s, parsed);
    if parsed == map[] {
      return Err(Unparseable);
    }
    RewriteNormalizes(s, parsed);
    var normalized := NormalizeExclusive(parsed);
    res := Ok(normalized);
  }

  /**
   * The filter dictionary `GET /strings/filter-by-natural-language` queries
   * with.  A blank query and a query nothing was recognised in are rejected.
   */
  method InterpretQuery(query: string) returns (res: Result<Filters, QueryError>)
    ensures Strip(query) == [] <==> res == Err(EmptyQuery)
    ensures res == Err(Unparseable) <==> Strip(query) != [] && !Recognised(ScanQuery(Lower(query)))
    ensures res.Ok? ==> Normalized(ScanQuery(Lower(query)), res.value)
  {
    if query == [] || Strip(query) == [] {
      return Err(EmptyQuery);
    }
    var parsed := ParseNlQuery(query);
    res := CheckParsed(ScanQuery(Lower(query)), parsed);
  }

  /** The response of a list endpoint: the rows and how many there are. */
  datatype Listing = Listing(data: seq<Record>, count: nat, filters: Filters)

  /** `GET /strings/filter-by-natural-language`: interpret, then list the first page of matching rows. */
  method FilterByNaturalLanguage(store: Store, query: string) returns (res: Result<Listing, QueryError>)
    ensures res == Err(EmptyQuery) <==> Strip(query) == []
    ensures res == Err(Unparseable) <==> Strip(query) != [] && !Recognised(ScanQuery(Lower(query)))
    ensures res.Ok? ==> var f := res.value.filters;
      && Normalized(ScanQuery(Lower(query)), f)
      && res.value.data == Paginate(Matching(store.rows, f), DefaultLimit, DefaultOffset)
      && res.value.count == |res.value.data|
  {
    var interpreted := InterpretQuery(query);
    if interpreted.Err? {
      return Err(interpreted.error);
    }
    var rows := store.ListFiltered(interpreted.value, DefaultLimit, DefaultOffset);
    res := Ok(Listing(rows, |rows|, interpreted.value));
  }

  /** `filters` holds exactly the query parameters that were given, each with its value. */
  predicate FromParameters(filters: Filters, isPalindrome: Option<bool>, minLength: Option<nat>,
                           maxLength: Option<nat>, wordCount: Option<nat>, containsCharacter: Option<char>) {
    && WellTyped(filters) && filters.Keys <= FilterKeys
    && (IsPalindromeKey in filters <==> isPalindrome.Some?)
    && (isPalindrome.Some? ==> filters[IsPalindromeKey] == VBool(isPalindrome.value))
    && (MinLengthKey in filters <==> minLength.Some?)
    && (minLength.Some? ==> filters[MinLengthKey] == VInt(minLength.value))
    && (MaxLengthKey in filters <==> maxLength.Some?)
    && (maxLength.Some? ==> filters[MaxLengthKey] == VInt(maxLength.value))
    && (WordCountKey in filters <==> wordCount.Some?)
    && (wordCount.Some? ==> filters[WordCountKey] == VInt(wordCount.value))
    && (ContainsCharacterKey in filters <==> containsCharacter.Some?)
    && (containsCharacter.Some? ==> filters[ContainsCharacterKey] == VChar(containsCharacter.value))
  }

  /** The filter dictionary of `GET /strings`: exactly the parameters that were given, with their values. */
  method BuildListFilters(isPalindrome: Option<bool>, minLength: Option<nat>, maxLength: Option<nat>,
                          wordCount: Option<nat>, containsCharacter: Option<char>)
    returns (filters: Filters)
    ensures FromParameters(filters, isPalindrome, minLength, maxLength, wordCount, containsCharacter)
  {
    filters := map[];
    if isPalindrome.Some? {
      filters := filters[IsPalindromeKey := VBool(isPalindrome.value)];
    }
    if minLength.Some? {
      filters := filters[MinLengthKey := VInt(minLength.value)];
    }
    if maxLength.Some? {
      filters := filters[MaxLengthKey := VInt(maxLength.value)];
    }
    if wordCount.Some? {
      filters := filters[WordCountKey := VInt(wordCount.value)];
    }
    if containsCharacter.Some? {
      filters := filters[ContainsCharacterKey := VChar(containsCharacter.value)];
    }
  }

  /** `GET /strings`: list the first page of rows satisfying the given parameters. */
  method ListStrings(store: Store, isPalindrome: Option<bool>, minLength: Option<nat>, maxLength: Option<nat>,
                     wordCount: Option<nat>, containsCharacter: Option<char>)
    returns (listing: Listing)
    ensures FromParameters(listing.filters, isPalindrome, minLength, maxLength, wordCount, containsCharacter)
    ensures listing.data == Paginate(Matching(store.rows, listing.filters), DefaultLimit, DefaultOffset)
    ensures listing.count == |listing.data|
    ensures forall r :: r in listing.data ==> r in store.rows
    ensures isPalindrome.Some? ==> forall r :: r in listing.data ==> r.isPalindrome == isPalindrome.value
    ensures minLength.Some? ==> forall r :: r in listing.data ==> r.length >= minLength.value
    ensures maxLength.Some? ==> forall r :: r in listing.data ==> r.length <= maxLength.value
    ensures wordCount.Some? ==> forall r :: r in listing.data ==> r.wordCount == wordCount.value
    ensures containsCharacter.Some? ==>
              forall r :: r in listing.data ==> containsCharacter.value in r.properties.characterFrequencyMap
  {
    var filters := BuildListFilters(isPalindrome, minLength, maxLength, wordCount, containsCharacter);
    var rows := store.ListFiltered(filters, DefaultLimit, DefaultOffset);
    listing := Listing(rows, |rows|, filters);
  }

  /** `GET /strings/{string_value}`: a row with that exact value, else a row with that id, else not found. */
  method GetString(store: Store, key: string) returns (r: Option<Record>)
    ensures store.HasValue(key) ==> r.Some? && r.value in store.rows && r.value.value == key
    ensures !store.HasValue(key) && store.HasId(key) ==> r.Some? && r.value in store.rows && r.value.id == key
    ensures r.None? <==> !store.HasValue(key) && !store.HasId(key)
  {
    r := store.GetByValue(key);
    if r.None? {
      r := store.GetById(key);
    }
  }
}
