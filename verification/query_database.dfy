/** `scripts/QueryDatabase.py`: filtering the column catalogue
    `data/columns.json` (table name to schema fields, in file order) by
    column type, and counting the columns of each type. The file is read
    by the caller and passed in as a `Catalogue`. */
module QueryDatabase {
  import opened Wrappers
  import opened Text
  import opened Columns

  /** `COLUMN_TYPES`: the types correlations are computed for. */
  const ColumnTypes: seq<string> :=
    ["STRING", "INTEGER", "DATE", "FLOAT", "DATETIME", "TIMESTAMP", "NUMERIC", "BOOLEAN", "GEOGRAPHY"]

  /** One schema field of a table: `column['name']` and `column['type']`. */
  datatype Field = Field(name: string, columnType: string)

  /** One entry of `columns.json`: a `project:dataset.table` name and its fields. */
  datatype TableEntry = TableEntry(table: string, fields: seq<Field>)

  type Catalogue = seq<TableEntry>

  /** `ValueError` for a type outside `COLUMN_TYPES`, and the
      `UnboundLocalError` of `get_columns_exclude` when no type was given. */
  datatype Error = InvalidType(columnType: string) | UnboundColumnType

  /** Which fields a query keeps. */
  datatype Filter =
    | OfType(columnType: string)          // column['type'] == column_type
    | ValidExcept(excluded: seq<string>)  // a valid type not among `excluded`

  predicate Keeps(filter: Filter, fieldType: string)
  {
    match filter
    case OfType(t) => fieldType == t
    case ValidExcept(ex) => fieldType !in ex && fieldType in ColumnTypes
  }

  /** `table.replace(':', '.')`. */
  function Dotted(table: string): string
  {
    ReplaceChar(table, ':', '.')
  }

  /** `output[:limit]`, with Python's meaning for a negative `limit`
      (all but the last `-limit` elements). */
  function Truncate<T>(s: seq<T>, limit: int): (r: seq<T>)
    ensures |r| <= |s| && r == s[..|r|]
    ensures limit >= 0 ==> |r| == if limit < |s| then limit else |s|
    ensures limit < 0 ==> |r| == if |s| + limit > 0 then |s| + limit else 0
  {
    if limit >= 0 then s[..if limit < |s| then limit else |s|]
    else s[..if |s| + limit > 0 then |s| + limit else 0]
  }

  /** The kept fields of one table, as column records, in field order. */
  function SelectedIn(table: string, fields: seq<Field>, filter: Filter): seq<Column>
  {
    if fields == [] then []
    else
      var f := fields[|fields| - 1];
      SelectedIn(table, fields[..|fields| - 1], filter)
      + if Keeps(filter, f.columnType) then [Column(Dotted(table), f.name)] else []
  }

  /** The kept fields of the whole catalogue, table by table. */
  function Selected(cat: Catalogue, filter: Filter): seq<Column>
  {
    if cat == [] then []
    else
      var e := cat[|cat| - 1];
      Selected(cat[..|cat| - 1], filter) + SelectedIn(e.table, e.fields, filter)
  }

  lemma {:induction false} SelectedInMembers(table: string, fields: seq<Field>, filter: Filter, c: Column)
    ensures c in SelectedIn(table, fields, filter) <==>
      exists f :: f in fields && Keeps(filter, f.columnType) && c == Column(Dotted(table), f.name)
  {
    if fields != [] {
      var init := fields[..|fields| - 1];
      SelectedInMembers(table, init, filter, c);
      assert fields == init + [fields[|fields| - 1]];
    }
  }

  /** A column is selected exactly when some table has a kept field of that
      name; its table name is the dotted one and its name is copied as is. */
  lemma {:induction false} SelectedMembers(cat: Catalogue, filter: Filter, c: Column)
    ensures c in Selected(cat, filter) <==>
      exists e, f :: e in cat && f in e.fields && Keeps(filter, f.columnType) && c == Column(Dotted(e.table), f.name)
  {
    if cat != [] {
      var init := cat[..|cat| - 1];
      var e := cat[|cat| - 1];
      SelectedMembers(init, filter, c);
      SelectedInMembers(e.table, e.fields, filter, c);
      assert cat == init + [e];
    }
  }

  /** No selected table name holds a `:`. */
  lemma {:induction false} SelectedTablesDotted(cat: Catalogue, filter: Filter)
    ensures forall k :: 0 <= k < |Selected(cat, filter)| ==> ':' !in Selected(cat, filter)[k].table
  {
    forall k | 0 <= k < |Selected(cat, filter)|
      ensures ':' !in Selected(cat, filter)[k].table
    {
      var c := Selected(cat, filter)[k];
      SelectedMembers(cat, filter, c);
      var e, f :| e in cat && f in e.fields && Keeps(filter, f.columnType) && c == Column(Dotted(e.table), f.name);
    }
  }

  /** `get_columns(column_type, limit)` (the two-argument definition, which
      replaces the one-argument one). */
  method GetColumns(cat: Catalogue, columnType: string, limit: int) returns (r: Result<seq<Column>, Error>)
    ensures columnType !in ColumnTypes ==> r == Failure(InvalidType(columnType))
    ensures columnType in ColumnTypes ==> r == Success(Truncate(Selected(cat, OfType(columnType)), limit))
  {
    if columnType !in ColumnTypes {
      return Failure(InvalidType(columnType));
    }
    var filter := OfType(columnType);
    var output := [];
    for t := 0 to |cat|
      invariant output == Selected(cat[..t], filter)
    {
      assert cat[..t + 1][..t] == cat[..t];
      var entry := cat[t];
      for j := 0 to |entry.fields|
        invariant output == Selected(cat[..t], filter) + SelectedIn(entry.table, entry.fields[..j], filter)
      {
        assert entry.fields[..j + 1][..j] == entry.fields[..j];
        var column := entry.fields[j];
        if column.columnType == columnType {
          output := output + [Column(Dotted(entry.table), column.name)];
        }
      }
      assert entry.fields[..|entry.fields|] == entry.fields;
    }
    assert cat[..|cat|] == cat;
    return Success(Truncate(output, limit));
  }

  /** The first listed type outside `COLUMN_TYPES`, if any. */
  function FirstInvalid(types: seq<string>): (r: Option<string>)
    ensures r.None? <==> forall i :: 0 <= i < |types| ==> types[i] in ColumnTypes
    ensures r.Some? ==> exists i :: (0 <= i < |types| && types[i] == r.value && r.value !in ColumnTypes
      && forall a :: 0 <= a < i ==> types[a] in ColumnTypes)
  {
    if types == [] then None
    else if types[0] !in ColumnTypes then Some(types[0])
    else FirstInvalid(types[1..])
  }

  /** Whether the catalogue has at least one field. */
  predicate HasField(cat: Catalogue)
  {
    exists t :: 0 <= t < |cat| && cat[t].fields != []
  }

  /** With every type before position `i` valid and the one at `i`
      invalid, that one is the first invalid type. */
  lemma {:induction false} FirstInvalidAt(types: seq<string>, i: nat)
    requires i < |types| && types[i] !in ColumnTypes
    requires forall a :: 0 <= a < i ==> types[a] in ColumnTypes
    ensures FirstInvalid(types) == Some(types[i])
  {
    if i > 0 {
      assert types[1..][i - 1] == types[i];
      forall a | 0 <= a < i - 1 ensures types[1..][a] in ColumnTypes {
        assert types[1..][a] == types[a + 1];
      }
      FirstInvalidAt(types[1..], i - 1);
    }
  }

  /** `get_columns_exclude(column_types, limit)` as written: after
      validating every listed type, the filter at line 65 compares with the
      loop variable of line 55, so only the LAST listed type is excluded;
      with no type listed, that variable is unbound and the first field
      examined raises. */
  method GetColumnsExclude(cat: Catalogue, columnTypes: seq<string>, limit: int)
    returns (r: Result<seq<Column>, Error>)
    ensures FirstInvalid(columnTypes).Some? ==> r == Failure(InvalidType(FirstInvalid(columnTypes).value))
    ensures FirstInvalid(columnTypes).None? && columnTypes == [] ==>
      r == if HasField(cat) then Failure(UnboundColumnType) else Success([])
    ensures FirstInvalid(columnTypes).None? && columnTypes != [] ==>
      r == Success(Truncate(Selected(cat, ValidExcept([columnTypes[|columnTypes| - 1]])), limit))
  {
    var columnType: Option<string> := None;
    for i := 0 to |columnTypes|
      invariant forall a :: 0 <= a < i ==> columnTypes[a] in ColumnTypes
      invariant columnType == if i == 0 then None else Some(columnTypes[i - 1])
    {
      columnType := Some(columnTypes[i]);
      if columnTypes[i] !in ColumnTypes {
        FirstInvalidAt(columnTypes, i);
        return Failure(InvalidType(columnTypes[i]));
      }
    }
    var scanned := ScanExcept(cat, columnType);
    if scanned.Failure? {
      return Failure(scanned.error);
    }
    return Success(Truncate(scanned.value, limit));
  }

  /** Lines 57-66 of `get_columns_exclude`: the scan of every field with
      the last validated type, if there is one. */
  method ScanExcept(cat: Catalogue, columnType: Option<string>) returns (r: Result<seq<Column>, Error>)
    ensures columnType.None? ==> r == if HasField(cat) then Failure(UnboundColumnType) else Success([])
    ensures columnType.Some? ==> r == Success(Selected(cat, ValidExcept([columnType.value])))
  {
    var filter := ValidExcept(if columnType.Some? then [columnType.value] else []);
    var output := [];
    for t := 0 to |cat|
      invariant output == Selected(cat[..t], filter)
      invariant columnType.None? ==> forall a :: 0 <= a < t ==> cat[a].fields == []
    {
      assert cat[..t + 1][..t] == cat[..t];
      var entry := cat[t];
      for j := 0 to |entry.fields|
        invariant output == Selected(cat[..t], filter) + SelectedIn(entry.table, entry.fields[..j], filter)
        invariant columnType.None? ==> j == 0
      {
        assert entry.fields[..j + 1][..j] == entry.fields[..j];
        var column := entry.fields[j];
        if columnType.None? {
          return Failure(UnboundColumnType);
        }
        if column.columnType != columnType.value && column.columnType in ColumnTypes {
          output := output + [Column(Dotted(entry.table), column.name)];
        }
      }
      assert entry.fields[..|entry.fields|] == entry.fields;
    }
    assert cat[..|cat|] == cat;
    if columnType.None? {
      NoFieldsNothingSelected(cat, filter);
    }
    return Success(output);
  }

  lemma {:induction false} NoFieldsNothingSelected(cat: Catalogue, filter: Filter)
    requires forall a :: 0 <= a < |cat| ==> cat[a].fields == []
    ensures Selected(cat, filter) == []
  {
    if cat != [] {
      NoFieldsNothingSelected(cat[..|cat| - 1], filter);
    }
  }

  /** The exclusion the function's name, docstring and plural parameter
      call for: a valid type that is none of the listed ones. */
  function GetColumnsExcludeIntended(cat: Catalogue, columnTypes: seq<string>, limit: int)
    : (r: Result<seq<Column>, Error>)
    ensures r.Failure? <==> FirstInvalid(columnTypes).Some?
    ensures r.Success? ==> forall c :: c in r.value ==>
      exists e, f :: (e in cat && f in e.fields && f.columnType in ColumnTypes && f.columnType !in columnTypes
        && c == Column(Dotted(e.table), f.name))
    ensures r.Success? && limit >= |Selected(cat, ValidExcept(columnTypes))| ==>
      forall e, f :: e in cat && f in e.fields && f.columnType in ColumnTypes && f.columnType !in columnTypes ==>
        Column(Dotted(e.table), f.name) in r.value
  {
    match FirstInvalid(columnTypes)
    case Some(t) => Failure(InvalidType(t))
    case None =>
      var all := Selected(cat, ValidExcept(columnTypes));
      var out := Truncate(all, limit);
      assert forall c :: c in out ==> c in all;
      forall c | c in all
        ensures exists e, f :: (e in cat && f in e.fields && f.columnType in ColumnTypes && f.columnType !in columnTypes
          && c == Column(Dotted(e.table), f.name))
      {
        SelectedMembers(cat, ValidExcept(columnTypes), c);
      }
      forall e, f | e in cat && f in e.fields && f.columnType in ColumnTypes && f.columnType !in columnTypes
        ensures Column(Dotted(e.table), f.name) in all
      {
        SelectedMembers(cat, ValidExcept(columnTypes), Column(Dotted(e.table), f.name));
      }
      Success(out)
  }

  /** A catalogue showing the difference: one STRING column, with STRING
      and INTEGER both listed for exclusion. */
  const QuirkCatalogue: Catalogue := [TableEntry("p:d.t", [Field("name", "STRING")])]

  /** As written, a column of the first listed type is still returned;
      the intended exclusion returns nothing. */
  lemma ExcludeKeepsEarlierListedTypes()
    ensures Selected(QuirkCatalogue, ValidExcept(["INTEGER"])) == [Column("p.d.t", "name")]
    ensures GetColumnsExcludeIntended(QuirkCatalogue, ["STRING", "INTEGER"], 10000) == Success([])
  {
    assert Dotted("p:d.t") == "p.d.t";
    assert FirstInvalid(["STRING", "INTEGER"]) == None;
    assert SelectedIn("p:d.t", [], ValidExcept(["STRING", "INTEGER"])) == [];
    assert [Field("name", "STRING")][..0] == [];
    assert QuirkCatalogue[..0] == [];
  }

  /** All field types, table by table, in field order. */
  function Types(cat: Catalogue): seq<string>
  {
    if cat == [] then []
    else Types(cat[..|cat| - 1]) + FieldTypes(cat[|cat| - 1].fields)
  }

  function FieldTypes(fields: seq<Field>): (r: seq<string>)
    ensures |r| == |fields| && forall i :: 0 <= i < |fields| ==> r[i] == fields[i].columnType
  {
    seq(|fields|, i requires 0 <= i < |fields| => fields[i].columnType)
  }

  /** The count recorded for `ty` in an insertion-ordered counter. */
  function CountOf(counts: seq<(string, nat)>, ty: string): nat
  {
    if counts == [] then 0
    else (if counts[0].0 == ty then counts[0].1 else 0) + CountOf(counts[1..], ty)
  }

  /** The sum of all counts. */
  function Total(counts: seq<(string, nat)>): nat
  {
    if counts == [] then 0 else counts[0].1 + Total(counts[1..])
  }

  predicate DistinctKeys(counts: seq<(string, nat)>)
  {
    forall a, b :: 0 <= a < b < |counts| ==> counts[a].0 != counts[b].0
  }

  /** The types that have an entry. */
  function KeySet(counts: seq<(string, nat)>): set<string>
  {
    set a | 0 <= a < |counts| :: counts[a].0
  }

  /** `output[ty] += 1` on a `defaultdict(int)`: bump the entry in place, or
      append a new entry with count 1. */
  function Increment(counts: seq<(string, nat)>, ty: string): seq<(string, nat)>
  {
    if counts == [] then [(ty, 1)]
    else if counts[0].0 == ty then [(ty, counts[0].1 + 1)] + counts[1..]
    else [counts[0]] + Increment(counts[1..], ty)
  }

  /** Incrementing adds one to the count of `ty` and to the total and
      leaves every other count alone. */
  lemma {:induction false} IncrementCounts(counts: seq<(string, nat)>, ty: string)
    ensures forall x :: CountOf(Increment(counts, ty), x) == CountOf(counts, x) + if x == ty then 1 else 0
    ensures Total(Increment(counts, ty)) == Total(counts) + 1
  {
    if counts != [] && counts[0].0 != ty {
      IncrementCounts(counts[1..], ty);
      assert Increment(counts, ty)[1..] == Increment(counts[1..], ty);
    }
  }

  lemma KeySetCons(head: (string, nat), tail: seq<(string, nat)>)
    ensures KeySet([head] + tail) == {head.0} + KeySet(tail)
  {
    var r := [head] + tail;
    forall x | x in KeySet(r) ensures x in {head.0} + KeySet(tail) {
      var a :| 0 <= a < |r| && r[a].0 == x;
      if a > 0 { assert tail[a - 1].0 == x; }
    }
    forall x | x in KeySet(tail) ensures x in KeySet(r) {
      var a :| 0 <= a < |tail| && tail[a].0 == x;
      assert r[a + 1].0 == x;
    }
    assert r[0].0 in KeySet(r);
  }

  /** Incrementing adds `ty` to the keys. */
  lemma {:induction false} IncrementKeys(counts: seq<(string, nat)>, ty: string)
    ensures KeySet(Increment(counts, ty)) == KeySet(counts) + {ty}
  {
    if counts == [] {
      assert KeySet([(ty, 1)]) == {ty} by { KeySetCons((ty, 1), []); }
    } else {
      var tail := counts[1..];
      assert counts == [counts[0]] + tail;
      KeySetCons(counts[0], tail);
      if counts[0].0 == ty {
        KeySetCons((ty, counts[0].1 + 1), tail);
      } else {
        IncrementKeys(tail, ty);
        KeySetCons(counts[0], Increment(tail, ty));
      }
    }
  }

  /** Incrementing keeps the counts positive. */
  lemma {:induction false} IncrementPositive(counts: seq<(string, nat)>, ty: string)
    requires forall a :: 0 <= a < |counts| ==> counts[a].1 >= 1
    ensures forall a :: 0 <= a < |Increment(counts, ty)| ==> Increment(counts, ty)[a].1 >= 1
  {
    if counts != [] {
      var tail := counts[1..];
      forall a | 0 <= a < |tail| ensures tail[a].1 >= 1 {
        assert tail[a] == counts[a + 1];
      }
      var r := Increment(counts, ty);
      if counts[0].0 != ty {
        IncrementPositive(tail, ty);
        forall a | 1 <= a < |r| ensures r[a].1 >= 1 {
          assert r[a] == Increment(tail, ty)[a - 1];
        }
      } else {
        forall a | 1 <= a < |r| ensures r[a].1 >= 1 {
          assert r[a] == tail[a - 1];
        }
      }
    }
  }

  /** Incrementing keeps the keys distinct. */
  lemma {:induction false} IncrementDistinct(counts: seq<(string, nat)>, ty: string)
    requires DistinctKeys(counts)
    ensures DistinctKeys(Increment(counts, ty))
  {
    if counts != [] {
      var tail := counts[1..];
      var r := Increment(counts, ty);
      assert DistinctKeys(tail) by {
        forall a, b | 0 <= a < b < |tail| ensures tail[a].0 != tail[b].0 {
          assert tail[a] == counts[a + 1] && tail[b] == counts[b + 1];
        }
      }
      if counts[0].0 != ty {
        var rest := Increment(tail, ty);
        IncrementDistinct(tail, ty);
        IncrementKeys(tail, ty);
        assert r == [counts[0]] + rest;
        assert counts[0].0 !in KeySet(tail) by {
          forall a | 0 <= a < |tail| ensures tail[a].0 != counts[0].0 {
            assert tail[a] == counts[a + 1];
          }
        }
        forall a, b | 0 <= a < b < |r| ensures r[a].0 != r[b].0 {
          assert r[b] == rest[b - 1];
          if a > 0 {
            assert r[a] == rest[a - 1];
          } else {
            assert rest[b - 1].0 in KeySet(rest);
          }
        }
      } else {
        forall a, b | 0 <= a < b < |r| ensures r[a].0 != r[b].0 {
          assert r[b] == tail[b - 1] && r[b] == counts[b];
          if a > 0 { assert r[a] == counts[a]; }
        }
      }
    }
  }

  /** `counts` records, for each type, how often it occurs in `seen`. */
  ghost predicate Counted(counts: seq<(string, nat)>, seen: seq<string>)
  {
    && DistinctKeys(counts)
    && (forall a :: 0 <= a < |counts| ==> counts[a].1 >= 1)
    && (forall ty :: CountOf(counts, ty) == multiset(seen)[ty])
    && Total(counts) == |seen|
  }

  lemma CountedStep(counts: seq<(string, nat)>, seen: seq<string>, ty: string)
    requires Counted(counts, seen)
    ensures Counted(Increment(counts, ty), seen + [ty])
  {
    IncrementCounts(counts, ty);
    IncrementPositive(counts, ty);
    IncrementDistinct(counts, ty);
    assert multiset(seen + [ty]) == multiset(seen) + multiset{ty};
  }

  /** The counter after counting `seen`, one type after another. */
  function Tally(seen: seq<string>): seq<(string, nat)>
  {
    if seen == [] then [] else Increment(Tally(seen[..|seen| - 1]), seen[|seen| - 1])
  }

  /** The counter records exactly how often each type was seen. */
  lemma {:induction false} TallyCounted(seen: seq<string>)
    ensures Counted(Tally(seen), seen)
  {
    if seen != [] {
      var init := seen[..|seen| - 1];
      TallyCounted(init);
      CountedStep(Tally(init), init, seen[|seen| - 1]);
      assert init + [seen[|seen| - 1]] == seen;
    }
  }

  /** `get_all_column_types()`: for each type present, in order of first
      appearance, the number of columns of that type. */
  method GetAllColumnTypes(cat: Catalogue) returns (counts: seq<(string, nat)>)
    ensures DistinctKeys(counts)
    ensures forall a :: 0 <= a < |counts| ==> counts[a].1 >= 1
    ensures forall ty :: CountOf(counts, ty) == multiset(Types(cat))[ty]
    ensures Total(counts) == |Types(cat)|
  {
    counts := [];
    ghost var seen: seq<string> := [];
    for t := 0 to |cat|
      invariant seen == Types(cat[..t]) && counts == Tally(seen)
    {
      var entry := cat[t];
      for j := 0 to |entry.fields|
        invariant seen == Types(cat[..t]) + FieldTypes(entry.fields[..j]) && counts == Tally(seen)
      {
        var ty := entry.fields[j].columnType;
        FieldTypesSnoc(entry.fields, j);
        TallySnoc(seen, ty);
        counts := Increment(counts, ty);
        seen := seen + [ty];
      }
      TypesSnoc(cat, t);
    }
    assert cat[..|cat|] == cat;
    TallyCounted(seen);
  }

  lemma TallySnoc(seen: seq<string>, ty: string)
    ensures Tally(seen + [ty]) == Increment(Tally(seen), ty)
  {
    assert (seen + [ty])[..|seen|] == seen;
  }

  lemma FieldTypesSnoc(fields: seq<Field>, j: nat)
    requires j < |fields|
    ensures FieldTypes(fields[..j + 1]) == FieldTypes(fields[..j]) + [fields[j].columnType]
  {
  }

  lemma TypesSnoc(cat: Catalogue, t: nat)
    requires t < |cat|
    ensures Types(cat[..t + 1]) == Types(cat[..t]) + FieldTypes(cat[t].fields[..|cat[t].fields|])
  {
    assert cat[..t + 1][..t] == cat[..t];
    assert cat[t].fields[..|cat[t].fields|] == cat[t].fields;
  }
}
