# String analyzer: a Dafny model

This project models the core of a small HTTP service that stores analysed strings.
- `analize_string` (app/utils.py) computes a property bundle for a submitted value: length, word count, palindrome flag, distinct-character count, character-frequency map and SHA-256 identity.
- `parse_nl_query` (app/utils.py) turns a free-text query into a filter dictionary using a fixed, ordered list of regular-expression searches.
- `list_filtered` and the other table operations of app/crud.py select, create, look up and delete rows.
- app/routes.py adds the guards that reject requests, the rewrite of an exclusive length bound, the filter dictionary of the list endpoint and the lookup order of a single string.

Modules, one per concern:

- `Wrappers` (wrappers.dfy): `Option` and `Result`.
- `Text` (text.dfy): the Python `str` operations the core relies on.
  - `isspace`, `strip()`, `split()`, `[::-1]` and `lower()`.
  - The regex classes `\d` and `\w`.
- `FilterSet` (filter_set.dfy): filter dictionaries.
  - Values are a boolean, an integer or one character.
  - Keys are `is_palindrome`, `min_length`, `max_length`, `word_count`, `contains_character`, the interpreter's helper keys `min_length_exclusive` and `min_length_raw`, and any other name.
- `Analysis` (analysis.dfy): `analize_string` as the function `Analyze`, with lemmas on each property.
- `Query` (query.dfy): `parse_nl_query`, in three parts.
  - Each regular expression is written out as an ordered list of literal prefixes followed by a captured digit run or word character. The prefixes are tried in the order the regex engine backtracks through them.
  - `ScanQuery` performs the six searches.
  - `ApplyPatterns` performs the dictionary assignments in source order, so later ones overwrite earlier ones.
- `Crud` (crud.dfy): the `strings` table as the class `Store` holding a sequence of rows in table order.
  - `BuildConditions` builds the conjunct list of `list_filtered`, and `Where` evaluates it.
  - `Matching` is the reference meaning of a filter dictionary, and `Paginate` applies offset and limit.
- `Routes` (routes.dfy): the endpoint decision logic.

Behaviour of the code that differs from what a reader of the service's description might expect:

- "longer than N" is stored by the interpreter as `min_length = N`, with `min_length_exclusive` and `min_length_raw = N`. The endpoint later sets `min_length = N + 1` and removes both helper keys.
  - So when a query contains both "longer than N" and "longer than or equal to M", the endpoint filters with N + 1.
  - The assignment of M does not survive (`Routes.Normalized`, `Routes.RewriteNormalizes`).
- The stored `value` is the value as submitted, not the stripped one. The 409 duplicate check compares raw values. The id is the digest of the stripped value.
  - So submitting `" abc"` after `"abc"` passes the duplicate check.
  - The insert then breaks the primary key and the request ends as a 422 (`Routes.CreateStringEndpoint`, outcome `Unprocessable`).
- `contain(?:ing|s)?` makes the suffix optional, so the bare word "contain" also triggers both letter patterns.
- The interpreter lower-cases the query, so `contains_character` is always lower case. The frequency map it is checked against is case-sensitive.
- The natural-language endpoint rejects a query whose dictionary is empty. The model proves this happens exactly when no phrase was recognised (`Query.EmptyExactlyWhenNothingMatches`).

## Model

| member | source | states |
|---|---|---|
| Text.Strip | app/utils.py:6 | `strip()` yields the slice after the leading whitespace; everything after it is whitespace; it neither starts nor ends with whitespace; it is empty exactly when the value is all whitespace |
| Text.StripIdempotent | app/utils.py:6 | stripping a stripped value changes nothing |
| Text.Reverse | app/utils.py:9 | `v[::-1]` has the same length and holds character `\|v\|-1-i` at position `i` |
| Text.LowerAt | app/utils.py:9 | `lower()` maps each character on its own (ASCII model) |
| Text.Split | app/utils.py:8 | every word `split()` returns is non-empty and holds no whitespace |
| Text.SplitCountsRuns | app/utils.py:8 | `len(v.split())` equals the number of maximal non-whitespace runs, counted independently |
| Text.SplitBounds | app/utils.py:8 | there are no words exactly when the text is all whitespace, and never more words than characters |
| Analysis.Frequencies | app/utils.py:12 | `dict(Counter(v))` has exactly the characters of `v` as keys, each mapped to its number of occurrences |
| Analysis.Analyze | app/utils.py:5-21 | the bundle of a value: its length is at most the raw length and is 0 exactly when the value is all whitespace; the word count never exceeds the length; `unique_characters` is the number of frequency-map keys; the digest is taken of the stripped value |
| Analysis.Distinct | app/utils.py:12 | the keys of the dictionary, each listed once: no duplicates, exactly the characters of `v`, no more of them than characters |
| Analysis.FrequenciesSumToLength | app/utils.py:7-12 | the frequency counts add up to the length |
| Analysis.UniqueCharactersBound | app/utils.py:10-12 | `len(set(v))` equals the number of frequency-map keys and is at most the length |
| Analysis.PalindromeMirror | app/utils.py:9 | the palindrome test holds exactly when each character equals its mirror character ignoring case, with nothing removed |
| Analysis.AnalyzeWordCount | app/utils.py:6-8 | `word_count` is the number of runs in the stripped value; it is 0 exactly when `length` is 0, and never exceeds `length` |
| Analysis.AnalyzePalindrome | app/utils.py:6-9 | `is_palindrome` is the mirror test on the stripped value |
| Analysis.AnalyzeFrequencies | app/utils.py:6-12 | the frequency map has the stripped value's characters as keys with positive counts equal to their occurrences; the counts add up to `length`; `unique_characters` is the number of keys and is at most `length` |
| Analysis.AnalyzeIgnoresSurroundingWhitespace | app/utils.py:5-21 | analysing the stripped value gives the identical bundle, digest included |
| Analysis.AnalyzeBlank | app/utils.py:5-21 | a blank value gives length 0, word count 0, no distinct characters, palindrome true, an empty map, and the digest of the empty string |
| Query.StartsWithAtSlice | app/utils.py:27-29 | the prefix test means the slice of the query at that position equals the literal |
| Query.DigitRun | app/utils.py:33 | `\d+` takes the whole run of digits at that point |
| Query.CaptureAt | app/utils.py:33-46 | a captured group is the slice of the query at the capture position |
| Query.CaptureAtSpec | app/utils.py:33-46 | `(\d+)` matches exactly when a digit follows and reads the whole maximal run of digits; `(\w)` matches exactly when a word character follows and reads exactly that one; an empty capture always matches |
| Query.MatchFromSpec | app/utils.py:33-46 | the regex matches at `i` exactly when one of its alternatives occurs there followed by the capture. The match is made through the first such alternative in order, and its group is that capture |
| Query.MatchAtGroup | app/utils.py:33-46 | a match goes through the first fitting alternative, and its group is what the capture reads right after that prefix |
| Query.SearchFromSpec | app/utils.py:33-46 | `re.search` returns the leftmost match, or none when the pattern matches nowhere |
| Query.SearchSpec | app/utils.py:33-46 | `re.search` finds the pattern exactly when it matches somewhere. The match is the leftmost one, made through the first fitting alternative, and its group is the capture read right after it |
| Query.ContainsOccurs | app/utils.py:27-29 | the substring test holds exactly when the literal occurs somewhere in the query |
| Query.DecimalRoundTrip | app/utils.py:35-40 | `int()` reads back the decimal numeral of every natural number |
| Query.DecimalLeadingZero | app/utils.py:35-40 | a leading zero does not change what `int()` reads |
| Query.NumberSpec | app/utils.py:33-40 | a digit pattern yields a number exactly when it matches somewhere. The number is read from the non-empty, maximal run of digits right after the leftmost match's prefix |
| Query.Letter | app/utils.py:42-48 | a letter is captured exactly when the pattern is found; it is the word character right after the leftmost match's prefix |
| Query.ScanQuery | app/utils.py:42-48 | "the letter X" and "containing X" are captured exactly when their patterns are found. Each captured letter is the word character of the lower-cased query right after the leftmost match's prefix |
| Query.ApplyPatterns | app/utils.py:26-49 | each key is present exactly when its phrase matched. `is_palindrome` is `True` and `word_count` is 1. "longer than N" writes `min_length = N`, the exclusive flag and the raw N. "or equal to M" overwrites `min_length` with M. "the letter X" beats "containing X". No other key is written |
| Query.ParseNlQuery | app/utils.py:24-49 | the same per-key contract, for the searches over the lower-cased query |
| Query.EmptyExactlyWhenNothingMatches | app/utils.py:25-49 | the dictionary is empty exactly when no pattern matched |
| Query.ContainsCharacterFromQuery | app/utils.py:42-48 | `contains_character` is one word character taken from the lower-cased query |
| Crud.BuildConditions | app/crud.py:42-54 | one conjunct per known key present; a record meets all conjuncts exactly when it satisfies the dictionary; other keys add nothing |
| Crud.Where | app/crud.py:55-56 | the selected rows are exactly the rows of the table that meet every conjunct |
| Crud.WhereIsMatching | app/crud.py:43-56 | evaluating the conjuncts selects the same rows, in the same order, as the reference meaning of the dictionary |
| Crud.EmptyFiltersKeepAll | app/crud.py:42-56 | an empty dictionary adds no condition and keeps every row |
| Crud.MatchingSound | app/crud.py:43-56 | every selected row is in the table and satisfies every present key; every such row is selected |
| Crud.ContradictoryBoundsSelectNothing | app/crud.py:45-48 | `min_length > max_length` is let through and selects no row |
| Crud.Paginate | app/crud.py:57 | skips `offset` rows, then keeps at most `limit`, in order |
| Crud.FirstWhere | app/crud.py:6-14 | `.first()` returns the first row in table order with that cell, or none when no row has it |
| Crud.Store.GetByValue | app/crud.py:6-9 | returns a row of the table with exactly that value, and returns none exactly when no row has it |
| Crud.Store.GetById | app/crud.py:11-14 | returns a row of the table with exactly that id, and returns none exactly when no row has it |
| Crud.Store.CreateString | app/crud.py:16-30 | appends a row whose id is the digest and whose columns copy the properties. It fails and leaves the table unchanged when the id or the value is already stored (app/models.py:12-13). Value and id stay unique |
| Crud.RemoveAt | app/crud.py:32-38 | removing one row of a table with unique columns keeps them unique and drops exactly the rows with that value |
| Crud.Store.DeleteByValue | app/crud.py:32-38 | returns false and changes nothing when no row has the value. Otherwise it removes exactly that row, keeps the others in order, and returns true |
| Crud.Store.ListFiltered | app/crud.py:40-60 | the result is the page (offset, then limit) of the rows satisfying the dictionary; at most `limit` rows, each satisfying every present key |
| Routes.CreateStringEndpoint | app/routes.py:14-35 | a missing or empty value is refused by request validation (app/schema.py:6, 422). A value of whitespace only is refused with 400, and a value stored verbatim with 409, both before any insert. The insert fails exactly when the digest is already an id. Otherwise it appends the record holding the raw value, the digest as id, and the length, palindrome flag, distinct-character count, word count and property bundle of the stripped form |
| Routes.NormalizeExclusive | app/routes.py:76-79 | with a truthy exclusive flag, `min_length` becomes raw + 1 and both helper keys are removed; otherwise the dictionary is unchanged |
| Routes.RewriteNormalizes | app/routes.py:76-79 | applied to what the interpreter wrote, the rewrite leaves only `is_palindrome`, `word_count`, `min_length` and `contains_character`, each present exactly when its phrase occurred, and never `max_length`. `is_palindrome` is true and `word_count` 1. The letter comes from "the letter X" before "containing X". "longer than N" ends as `min_length = N + 1` even when "or equal to M" also matched; M survives only alone |
| Routes.CheckParsed | app/routes.py:69-79 | an empty dictionary is rejected exactly when the scan recognised nothing. Otherwise the rewritten dictionary is normalized as above (never `max_length`), every value included |
| Routes.InterpretQuery | app/routes.py:63-79 | a blank query is rejected, and so is a query with no recognised phrase. Otherwise the dictionary is normalized as above (never `max_length`): each key, its value, and N + 1 for "longer than N" |
| Routes.FilterByNaturalLanguage | app/routes.py:62-103 | the same rejections. On success the dictionary is normalized as above (never `max_length`), every value included. The rows are the first page (limit 100, offset 0) of rows satisfying it, and `count` is their number |
| Routes.BuildListFilters | app/routes.py:151-161 | the dictionary holds exactly the parameters that were given, with their values |
| Routes.ListStrings | app/routes.py:151-174 | the dictionary holds exactly the given parameters with their values. The rows are the first page of rows satisfying it, so every returned row meets each given parameter and no matching row before the limit is missed. `count` is their number |
| Routes.GetString | app/routes.py:118-123 | a row with the exact value wins; otherwise a row with that id; not found only when neither exists |

## Left out

- The SHA-256 digest itself. `Analyze` takes it as a parameter `sha256: string -> string`, which stands for UTF-8 encoding followed by `hexdigest()`. Properties are proved for every such function.
- Python's Unicode `lower()` and the Unicode regex classes. `lower()` is modelled on ASCII letters only, and `\d` and `\w` on ASCII digits, letters and `_`. Non-ASCII case mappings that change the length of a string are not modelled. The whitespace set of `strip()` and `split()` is Python's `isspace` set written out.
- Database mechanics are not modelled. That covers sessions, commit and refresh, and the JSONB `has_key` operator, which is replaced by membership in the frequency map. `created_at` (a server clock) is also out, as are app/database.py, app/main.py and app/config.py.
- Row order from the database is unspecified. The model uses table (insertion) order and selects rows as an order-preserving filter.
- HTTP mapping is reduced to outcome constructors, and response bodies are not assembled. Left out too: the `isinstance` checks (the model is typed, so they never fire), and the `except Exception` wrappers other than the failing insert. The request validation of `POST /strings` is modelled only for a missing or empty value; a non-string body is excluded by the types.
- The DELETE endpoint's 204/404 mapping is not modelled; only `Crud.Store.DeleteByValue` is.
- Query.DecimalRoundTrip, Query.NumberSpec: `int()` is modelled for numerals of any length. CPython (3.11 and later, and the security backports) refuses to convert a numeral longer than 4300 digits with `ValueError`. The natural-language endpoint turns that error into a 422 (app/routes.py:107-112). The model instead accepts such a query with `min_length` set from the full number. The limit is an interpreter setting, not part of the program.
