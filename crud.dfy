/**
 * The record table and the operations of `crud.py` on it.  The database is
 * replaced by an in-memory sequence of rows in table order; a query's
 * `WHERE` clause is evaluated row by row, in that order.
 */
module Crud {
  import opened Wrappers
  import opened FilterSet
  import opened Analysis

  /** A row of the `strings` table (`created_at`, set by the database clock, is left out). */
  datatype Record = Record(
    id: string,
    value: string,
    length: int,
    isPalindrome: bool,
    uniqueCharacters: int,
    wordCount: int,
    properties: Properties)

  /** One conjunct of the `WHERE` clause `list_filtered` builds. */
  datatype Condition =
    | PalindromeIs(b: bool)
    | LengthAtLeast(n: int)
    | LengthAtMost(n: int)
    | WordCountIs(n: int)
    | HasCharacter(c: char)

  predicate Holds(c: Condition, r: Record) {
    match c
    case PalindromeIs(b) => r.isPalindrome == b
    case LengthAtLeast(n) => r.length >= n
    case LengthAtMost(n) => r.length <= n
    case WordCountIs(n) => r.wordCount == n
    case HasCharacter(ch) => ch in r.properties.characterFrequencyMap
  }

  /** `and_(*conditions)`; with no conditions there is no `WHERE` clause and every row qualifies. */
  predicate AllHold(conds: seq<Condition>, r: Record) {
    forall i :: 0 <= i < |conds| ==> Holds(conds[i], r)
  }

  /** The reference meaning of a filter dictionary: every known key present constrains the record, other keys do not. */
  predicate Satisfies(f: Filters, r: Record)
    requires WellTyped(f)
  {
    && (IsPalindromeKey in f ==> r.isPalindrome == f[IsPalindromeKey].b)
    && (MinLengthKey in f ==> r.length >= f[MinLengthKey].i)
    && (MaxLengthKey in f ==> r.length <= f[MaxLengthKey].i)
    && (WordCountKey in f ==> r.wordCount == f[WordCountKey].i)
    && (ContainsCharacterKey in f ==> f[ContainsCharacterKey].c in r.properties.characterFrequencyMap)
  }

  lemma AllHoldAppend(conds: seq<Condition>, c: Condition)
    ensures forall r :: AllHold(conds + [c], r) <==> AllHold(conds, r) && Holds(c, r)
  {
    forall r ensures AllHold(conds + [c], r) <==> AllHold(conds, r) && Holds(c, r) {
      if AllHold(conds, r) && Holds(c, r) {
        forall i | 0 <= i < |conds + [c]| ensures Holds((conds + [c])[i], r) {
          if i < |conds| { assert (conds + [c])[i] == conds[i]; }
        }
      }
      if AllHold(conds + [c], r) {
        assert Holds((conds + [c])[|conds|], r);
        forall i | 0 <= i < |conds| ensures Holds(conds[i], r) {
          assert (conds + [c])[i] == conds[i];
        }
      }
    }
  }

  /** How many of the five known keys `f` holds. */
  function KnownKeyCount(f: Filters): nat {
    (if IsPalindromeKey in f then 1 else 0) + (if MinLengthKey in f then 1 else 0)
    + (if MaxLengthKey in f then 1 else 0) + (if WordCountKey in f then 1 else 0)
    + (if ContainsCharacterKey in f then 1 else 0)
  }

  /** The `conditions` list of `list_filtered`: one conjunct per known key present, in the source's order. */
  method BuildConditions(filters: Filters) returns (conds: seq<Condition>)
    requires WellTyped(filters)
    ensures |conds| == KnownKeyCount(filters)
    ensures forall r :: AllHold(conds, r) <==> Satisfies(filters, r)
  {
    conds := [];
    if IsPalindromeKey in filters {
      AllHoldAppend(conds, PalindromeIs(filters[IsPalindromeKey].b));
      conds := conds + [PalindromeIs(filters[IsPalindromeKey].b)];
    }
    if MinLengthKey in filters {
      AllHoldAppend(conds, LengthAtLeast(filters[MinLengthKey].i));
      conds := conds + [LengthAtLeast(filters[MinLengthKey].i)];
    }
    if MaxLengthKey in filters {
      AllHoldAppend(conds, LengthAtMost(filters[MaxLengthKey].i));
      conds := conds + [LengthAtMost(filters[MaxLengthKey].i)];
    }
    if WordCountKey in filters {
      AllHoldAppend(conds, WordCountIs(filters[WordCountKey].i));
      conds := conds + [WordCountIs(filters[WordCountKey].i)];
    }
    if ContainsCharacterKey in filters {
      AllHoldAppend(conds, HasCharacter(filters[ContainsCharacterKey].c));
      conds := conds + [HasCharacter(filters[ContainsCharacterKey].c)];
    }
  }

  /** The rows that satisfy every condition, in table order. */
  function Where(rows: seq<Record>, conds: seq<Condition>): (out: seq<Record>)
    ensures |out| <= |rows|
    ensures forall r :: r in out ==> r in rows && AllHold(conds, r)
    ensures forall r :: r in rows && AllHold(conds, r) ==> r in out
  {
    if rows == [] then []
    else
      var rest := Where(rows[1..], conds);
      assert forall r :: r in rows[1..] ==> r in rows;
      assert forall r :: r in rows ==> r == rows[0] || r in rows[1..];
      if AllHold(conds, rows[0]) then [rows[0]] + rest else rest
  }

  /** The reference filter: the rows that satisfy the filter dictionary, in table order. */
  function Matching(rows: seq<Record>, f: Filters): seq<Record>
    requires WellTyped(f)
  {
    if rows == [] then []
    else if Satisfies(f, rows[0]) then [rows[0]] + Matching(rows[1..], f)
    else Matching(rows[1..], f)
  }

  /** Evaluating conditions that mean what the dictionary means selects the same rows. */
  lemma {:induction false} WhereIsMatching(rows: seq<Record>, conds: seq<Condition>, f: Filters)
    requires WellTyped(f)
    requires forall r :: AllHold(conds, r) <==> Satisfies(f, r)
    ensures Where(rows, conds) == Matching(rows, f)
  {
    if rows != [] {
      WhereIsMatching(rows[1..], conds, f);
    }
  }

  /** An empty dictionary keeps every row. */
  lemma {:induction false} EmptyFiltersKeepAll(rows: seq<Record>)
    ensures Matching(rows, map[]) == rows
  {
    if rows != [] {
      EmptyFiltersKeepAll(rows[1..]);
    }
  }

  /** Every selected row is a row of the table that satisfies the dictionary. */
  lemma {:induction false} MatchingSound(rows: seq<Record>, f: Filters)
    requires WellTyped(f)
    ensures |Matching(rows, f)| <= |rows|
    ensures forall r :: r in Matching(rows, f) ==> r in rows && Satisfies(f, r)
    ensures forall r :: r in rows && Satisfies(f, r) ==> r in Matching(rows, f)
  {
    if rows != [] {
      MatchingSound(rows[1..], f);
      assert forall r :: r in rows ==> r == rows[0] || r in rows[1..];
    }
  }

  /** Bounds with `min_length > max_length` are let through and select nothing. */
  lemma {:induction false} ContradictoryBoundsSelectNothing(rows: seq<Record>, f: Filters)
    requires WellTyped(f)
    requires MinLengthKey in f && MaxLengthKey in f && f[MinLengthKey].i > f[MaxLengthKey].i
    ensures Matching(rows, f) == []
  {
    if rows != [] {
      ContradictoryBoundsSelectNothing(rows[1..], f);
    }
  }

  /** `.offset(offset).limit(limit)`: skip `offset` rows, then keep at most `limit`. */
  function Paginate(xs: seq<Record>, limit: nat, offset: nat): (page: seq<Record>)
    ensures |page| <= limit
    ensures |page| == if offset >= |xs| then 0 else if |xs| - offset <= limit then |xs| - offset else limit
    ensures forall k :: 0 <= k < |page| ==> page[k] == xs[offset + k]
  {
    if offset >= |xs| then []
    else if |xs| - offset <= limit then xs[offset..]
    else xs[offset..offset + limit]
  }

  predicate UniqueValues(rows: seq<Record>) {
    forall i, j :: 0 <= i < j < |rows| ==> rows[i].value != rows[j].value
  }

  predicate UniqueIds(rows: seq<Record>) {
    forall i, j :: 0 <= i < j < |rows| ==> rows[i].id != rows[j].id
  }

  /**
   * Removing the row at `k` from a table with unique values keeps both
   * columns unique and removes exactly the rows holding that row's value.
   */
  lemma {:induction false} RemoveAt(rows: seq<Record>, k: nat)
    requires k < |rows| && UniqueValues(rows) && UniqueIds(rows)
    ensures var rest := rows[..k] + rows[k + 1..];
      && UniqueValues(rest) && UniqueIds(rest)
      && forall r :: r in rest <==> r in rows && r.value != rows[k].value
  {
    var rest := rows[..k] + rows[k + 1..];
    assert forall j :: 0 <= j < |rest| ==> rest[j] == rows[if j < k then j else j + 1];
    forall r | r in rows && r.value != rows[k].value ensures r in rest {
      var j :| 0 <= j < |rows| && rows[j] == r;
      if j < k { assert rest[j] == r; } else { assert rest[j - 1] == r; }
    }
  }

  /** The two columns rows are looked up by. */
  datatype Column = ValueColumn | IdColumn

  function Cell(r: Record, c: Column): string {
    match c
    case ValueColumn => r.value
    case IdColumn => r.id
  }

  /** `.where(column == key)` followed by `.first()`: the first row in table order with that cell. */
  function FirstWhere(rows: seq<Record>, c: Column, key: string): (r: Option<nat>)
    ensures r.Some? ==> r.value < |rows| && Cell(rows[r.value], c) == key
    ensures r.Some? ==> forall j :: 0 <= j < r.value ==> Cell(rows[j], c) != key
    ensures r.None? ==> forall j :: 0 <= j < |rows| ==> Cell(rows[j], c) != key
  {
    if rows == [] then None
    else if Cell(rows[0], c) == key then Some(0)
    else
      var r := FirstWhere(rows[1..], c, key);
      if r.Some? then Some(r.value + 1) else None
  }

  datatype StoreError = IntegrityError

  /** The `strings` table: `id` is the primary key and `value` is unique. */
  class Store {
    var rows: seq<Record>

    ghost predicate Valid()
      reads this
    {
      UniqueValues(rows) && UniqueIds(rows)
    }

    constructor ()
      ensures Valid() && rows == []
    {
      rows := [];
    }

    predicate HasValue(value: string)
      reads this
    {
      exists i :: 0 <= i < |rows| && rows[i].value == value
    }

    predicate HasId(id: string)
      reads this
    {
      exists i :: 0 <= i < |rows| && rows[i].id == id
    }

    /** `get_by_value`: the row whose value is exactly `value`, if any. */
    method GetByValue(value: string) returns (r: Option<Record>)
      ensures r.Some? ==> r.value in rows && r.value.value == value
      ensures r.None? <==> !HasValue(value)
    {
      var i := FirstWhere(rows, ValueColumn, value);
      r := if i.Some? then Some(rows[i.value]) else None;
    }

    /** `get_by_id`: the row whose id is exactly `id`, if any. */
    method GetById(id: string) returns (r: Option<Record>)
      ensures r.Some? ==> r.value in rows && r.value.id == id
      ensures r.None? <==> !HasId(id)
    {
      var i := FirstWhere(rows, IdColumn, id);
      r := if i.Some? then Some(rows[i.value]) else None;
    }

    /**
     * `create_string`: insert a row whose id is the digest and whose columns
     * copy the properties.  The insert fails with an integrity error, and the
     * table is unchanged, when the id or the value is already present.
     */
    method CreateString(value: string, props: Properties) returns (res: Result<Record, StoreError>)
      requires Valid()
      modifies this
      ensures Valid()
      ensures res.Err? <==> old(HasId(props.sha256Hash)) || old(HasValue(value))
      ensures res.Err? ==> rows == old(rows)
      ensures res.Ok? ==> rows == old(rows) + [res.value]
      ensures res.Ok? ==> res.value == Record(props.sha256Hash, value, props.length, props.isPalindrome,
                                              props.uniqueCharacters, props.wordCount, props)
    {
      var byId := FirstWhere(rows, IdColumn, props.sha256Hash);
      var byValue := FirstWhere(rows, ValueColumn, value);
      if byId.Some? || byValue.Some? {
        res := Err(IntegrityError);
      } else {
        var r := Record(props.sha256Hash, value, props.length, props.isPalindrome,
                        props.uniqueCharacters, props.wordCount, props);
        rows := rows + [r];
        res := Ok(r);
      }
    }

    /** `delete_by_value`: remove the row with that value and report whether there was one. */
    method DeleteByValue(value: string) returns (deleted: bool)
      requires Valid()
      modifies this
      ensures Valid()
      ensures deleted <==> old(HasValue(value))
      ensures !deleted ==> rows == old(rows)
      ensures deleted ==> exists i :: 0 <= i < |old(rows)| && old(rows)[i].value == value
                                      && rows == old(rows)[..i] + old(rows)[i + 1..]
      ensures forall r :: r in rows <==> r in old(rows) && r.value != value
    {
      var i := FirstWhere(rows, ValueColumn, value);
      if i.None? {
        deleted := false;
      } else {
        RemoveAt(rows, i.value);
        rows := rows[..i.value] + rows[i.value + 1..];
        deleted := true;
      }
    }

    /** `list_filtered`: the rows satisfying every condition built from `filters`, then offset and limit. */
    method ListFiltered(filters: Filters, limit: nat, offset: nat) returns (result: seq<Record>)
      requires WellTyped(filters)
      ensures result == Paginate(Matching(rows, filters), limit, offset)
      ensures |result| <= limit
      ensures forall r :: r in result ==> r in rows && Satisfies(filters, r)
    {
      var conds := BuildConditions(filters);
      WhereIsMatching(rows, conds, filters);
      MatchingSound(rows, filters);
      result := Paginate(Where(rows, conds), limit, offset);
      assert forall r :: r in result ==> r in Matching(rows, filters);
    }
  }
}
