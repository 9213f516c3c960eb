/**
 * Filter dictionaries as the query interpreter, the list endpoint and the
 * record store pass them around: named keys mapped to a boolean, an integer
 * or a one-character string.
 */
module FilterSet {

  datatype Value = VBool(b: bool) | VInt(i: int) | VChar(c: char)

  /**
   * Dictionary keys: `is_palindrome`, `min_length`, `max_length`,
   * `word_count`, `contains_character`, the interpreter's helper keys
   * `min_length_exclusive` and `min_length_raw`, and any other name.
   */
  datatype Key =
    | IsPalindromeKey
    | MinLengthKey
    | MaxLengthKey
    | WordCountKey
    | ContainsCharacterKey
    | MinLengthExclusiveKey
    | MinLengthRawKey
    | OtherKey(name: string)

  type Filters = map<Key, Value>

  /** The keys the record store turns into conditions; every other key is ignored. */
  const FilterKeys: set<Key> :=
    {IsPalindromeKey, MinLengthKey, MaxLengthKey, WordCountKey, ContainsCharacterKey}

  /** Python truthiness of a dictionary value. */
  predicate Truthy(v: Value) {
    match v
    case VBool(b) => b
    case VInt(i) => i != 0
    case VChar(_) => true
  }

  /** Each known key holds a value of the type the store compares it with. */
  predicate WellTyped(f: Filters) {
    && (IsPalindromeKey in f ==> f[IsPalindromeKey].VBool?)
    && (MinLengthKey in f ==> f[MinLengthKey].VInt?)
    && (MaxLengthKey in f ==> f[MaxLengthKey].VInt?)
    && (WordCountKey in f ==> f[WordCountKey].VInt?)
    && (ContainsCharacterKey in f ==> f[ContainsCharacterKey].VChar?)
  }
}
