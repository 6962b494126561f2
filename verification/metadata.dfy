/** `scripts/MetaData.py`: the parsing of the metadata files. A file is the
    sequence of its lines as read (each may still end in its newline); the
    REST responses are handed in as functions. */
module MetaData {
  import opened Wrappers
  import opened Text

  /** One entry of the dataset-list response; only its `id` is read. */
  datatype DatasetEntry = DatasetEntry(id: string)

  /** `get_datasets`: the ids of the listed datasets, in response order. */
  function DatasetIds(datasets: seq<DatasetEntry>): (ids: seq<string>)
    ensures |ids| == |datasets|
    ensures forall k :: 0 <= k < |datasets| ==> ids[k] == datasets[k].id
  {
    seq(|datasets|, k requires 0 <= k < |datasets| => datasets[k].id)
  }

  const Covid19Prefix: string := "bigquery-public-data:covid19"
  const GeoCensusPrefix: string := "bigquery-public-data:geo_census"

  /** Only the COVID-19 and census datasets of the public project are read. */
  predicate Wanted(line: string)
  {
    StartsWith(line, Covid19Prefix) || StartsWith(line, GeoCensusPrefix)
  }

  lemma WantedHasColon(line: string)
    requires Wanted(line)
    ensures ':' in line
  {
    assert line[20] == ':' by {
      if StartsWith(line, Covid19Prefix) {
        assert line[..|Covid19Prefix|][20] == Covid19Prefix[20];
      } else {
        assert line[..|GeoCensusPrefix|][20] == GeoCensusPrefix[20];
      }
    }
  }

  /** `dataset.split(':')[1].lstrip().rstrip()`: the text between the first
      and the second `:`, without surrounding whitespace. */
  function DatasetId(line: string): string
    requires ':' in line
  {
    SplitOnSingle(line, ':');
    Strip(SplitOn(line, ':')[1])
  }

  /** A line `project:dataset` as `get_datasets` output is saved, with its
      newline or other trailing whitespace, gives back `dataset`. */
  lemma DatasetIdOfLine(project: string, dataset: string, end: string)
    requires ':' !in project && ':' !in dataset
    requires dataset == [] || (!IsSpace(dataset[0]) && !IsSpace(dataset[|dataset| - 1]))
    requires forall i :: 0 <= i < |end| ==> IsSpace(end[i])
    ensures DatasetId(project + ":" + dataset + end) == dataset
  {
    var line := project + ":" + dataset + end;
    assert line == project + [':'] + (dataset + end);
    SplitOnAppend(project, dataset + end, ':');
    SplitOnSingle(project, ':');
    assert ':' !in dataset + end by {
      forall i | 0 <= i < |end| ensures end[i] != ':' { }
    }
    SplitOnSingle(dataset + end, ':');
    assert SplitOn(line, ':')[1] == [] + dataset + end;
    StripPadded([], dataset, end);
  }

  /** The table ids one line of the dataset file contributes. */
  function TablesOfLine(line: string, listTables: string -> seq<string>): seq<string>
  {
    if Wanted(line) then
      WantedHasColon(line);
      listTables(DatasetId(line))
    else []
  }

  /** What `contribute` gives for each line, concatenated in line order. */
  function FlatMap(lines: seq<string>, contribute: string -> seq<string>): seq<string>
  {
    if lines == [] then []
    else FlatMap(lines[..|lines| - 1], contribute) + contribute(lines[|lines| - 1])
  }

  /** The table ids of the whole file, line after line. */
  function TablesOf(lines: seq<string>, listTables: string -> seq<string>): seq<string>
  {
    FlatMap(lines, line => TablesOfLine(line, listTables))
  }

  /** `get_tables`: for each wanted line, the dataset's table ids are
      appended in response order. */
  method GetTables(lines: seq<string>, listTables: string -> seq<string>) returns (tables: seq<string>)
    ensures tables == TablesOf(lines, listTables)
  {
    tables := [];
    for n := 0 to |lines|
      invariant tables == TablesOf(lines[..n], listTables)
    {
      TablesOfSnoc(lines, n, listTables);
      var dataset := lines[n];
      if Wanted(dataset) {
        WantedHasColon(dataset);
        var datasetId := DatasetId(dataset);
        tables := tables + listTables(datasetId);
      }
    }
    assert lines[..|lines|] == lines;
  }

  lemma TablesOfSnoc(lines: seq<string>, n: nat, listTables: string -> seq<string>)
    requires n < |lines|
    ensures TablesOf(lines[..n + 1], listTables) == TablesOf(lines[..n], listTables) + TablesOfLine(lines[n], listTables)
  {
    assert lines[..n + 1][..n] == lines[..n];
  }

  /** The file's order is kept: the tables of two files read one after the
      other are those of the first, then those of the second. */
  lemma {:induction false} FlatMapAppend(a: seq<string>, b: seq<string>, contribute: string -> seq<string>)
    ensures FlatMap(a + b, contribute) == FlatMap(a, contribute) + FlatMap(b, contribute)
    decreases |b|
  {
    if b == [] {
      assert a + b == a;
    } else {
      var n := |b| - 1;
      assert (a + b)[..|a + b| - 1] == a + b[..n];
      FlatMapAppend(a, b[..n], contribute);
    }
  }

  /** An id is listed exactly when some line contributes it. */
  lemma {:induction false} FlatMapMembers(lines: seq<string>, contribute: string -> seq<string>, t: string)
    ensures t in FlatMap(lines, contribute) <==> exists k :: 0 <= k < |lines| && t in contribute(lines[k])
  {
    if lines != [] {
      var n := |lines| - 1;
      var init := lines[..n];
      FlatMapMembers(init, contribute, t);
      forall k | 0 <= k < n ensures init[k] == lines[k] { }
    }
  }

  /** A table is listed exactly when it belongs to the dataset of some line
      with a wanted prefix; the tables of a file read in two parts are those
      of the first part, then those of the second. */
  lemma TablesOfSpec(lines: seq<string>, more: seq<string>, listTables: string -> seq<string>, t: string)
    ensures t in TablesOf(lines, listTables) <==>
      exists k :: 0 <= k < |lines| && Wanted(lines[k]) && t in TablesOfLine(lines[k], listTables)
    ensures TablesOf(lines + more, listTables) == TablesOf(lines, listTables) + TablesOf(more, listTables)
  {
    FlatMapMembers(lines, line => TablesOfLine(line, listTables), t);
    FlatMapAppend(lines, more, line => TablesOfLine(line, listTables));
  }

  /** What makes `get_table_columns` raise. */
  datatype MetaError =
    | IndexError(name: string)   // no `:` in the line, so no second field
    | ValueError(name: string)   // the second field is not `dataset.table`

  /** `name.split(':')[1].split('.')` unpacked into `dataset, table`:
      `IndexError` exactly when there is no `:`, `ValueError` for any other
      failure, and on success the second field is `dataset.table`. */
  function ParseTableName(name: string): (r: Result<(string, string), MetaError>)
    ensures r.Success? ==> '.' !in r.value.0 && '.' !in r.value.1
    ensures r.Success? ==> |SplitOn(name, ':')| >= 2 && SplitOn(name, ':')[1] == r.value.0 + "." + r.value.1
    ensures r == Failure(IndexError(name)) <==> ':' !in name
    ensures r.Failure? && ':' in name ==> r == Failure(ValueError(name))
  {
    var parts := SplitOn(name, ':');
    SplitOnSingle(name, ':');
    if |parts| < 2 then Failure(IndexError(name))
    else
      var pieces := SplitOn(parts[1], '.');
      if |pieces| != 2 then Failure(ValueError(name))
      else
        JoinSplitOn(parts[1], '.');
        assert Join(pieces, ".") == pieces[0] + "." + pieces[1];
        Success((pieces[0], pieces[1]))
  }

  /** Conversely, a name whose second `:`-field is `dataset.table`, with no
      `.` in either part, parses into that pair. */
  lemma ParseTableNameOfField(name: string, dataset: string, table: string)
    requires |SplitOn(name, ':')| >= 2 && SplitOn(name, ':')[1] == dataset + "." + table
    requires '.' !in dataset && '.' !in table
    ensures ParseTableName(name) == Success((dataset, table))
  {
    assert dataset + "." + table == dataset + ['.'] + table;
    SplitOnAppend(dataset, table, '.');
    SplitOnSingle(dataset, '.');
    SplitOnSingle(table, '.');
  }

  /** A line without `:` raises `IndexError`, and one of the form
      `project:dataset.table` parses into its dataset and table. */
  lemma ParseTableNameCases(project: string, dataset: string, table: string)
    requires ':' !in project && ':' !in dataset && '.' !in dataset && ':' !in table && '.' !in table
    ensures ParseTableName(project + ":" + dataset + "." + table) == Success((dataset, table))
    ensures ParseTableName(project).Failure? && ParseTableName(project).error == IndexError(project)
  {
    SplitOnSingle(project, ':');
    var name := project + ":" + dataset + "." + table;
    var second := dataset + "." + table;
    assert name == project + [':'] + second;
    SplitOnAppend(project, second, ':');
    assert ':' !in second by {
      forall i | 0 <= i < |second| ensures second[i] != ':' {
        if i < |dataset| { assert second[i] == dataset[i]; }
        else if i > |dataset| { assert second[i] == table[i - |dataset| - 1]; }
      }
    }
    SplitOnSingle(second, ':');
    assert second == dataset + ['.'] + table;
    SplitOnAppend(dataset, table, '.');
    SplitOnSingle(dataset, '.');
    SplitOnSingle(table, '.');
  }

  /** Some entry of the association list has key `key`: `key in tables`. */
  predicate HasKey<C>(tables: seq<(string, C)>, key: string)
  {
    exists i :: 0 <= i < |tables| && tables[i].0 == key
  }

  lemma HasKeyCons<C>(tables: seq<(string, C)>, key: string)
    requires tables != []
    ensures HasKey(tables, key) <==> tables[0].0 == key || HasKey(tables[1..], key)
  {
    if HasKey(tables, key) && tables[0].0 != key {
      var i :| 0 <= i < |tables| && tables[i].0 == key;
      assert tables[1..][i - 1] == tables[i];
    }
    if HasKey(tables[1..], key) {
      var i :| 0 <= i < |tables[1..]| && tables[1..][i].0 == key;
      assert tables[i + 1] == tables[1..][i];
    }
  }

  predicate DistinctKeys<C>(tables: seq<(string, C)>)
  {
    forall a, b :: 0 <= a < b < |tables| ==> tables[a].0 != tables[b].0
  }

  /** `tables[key]` on a dict kept as its items in insertion order. */
  function Lookup<C>(tables: seq<(string, C)>, key: string): Option<C>
  {
    if tables == [] then None
    else if tables[0].0 == key then Some(tables[0].1)
    else Lookup(tables[1..], key)
  }

  /** `tables[key] = value`: a new key goes last, an existing key keeps its
      place and gets the new value. */
  function Assign<C>(tables: seq<(string, C)>, key: string, value: C): seq<(string, C)>
  {
    if tables == [] then [(key, value)]
    else if tables[0].0 == key then [(key, value)] + tables[1..]
    else [tables[0]] + Assign(tables[1..], key, value)
  }

  /** Assignment stores the value under its key and leaves every other
      key's value alone. */
  lemma {:induction false} AssignLookup<C>(tables: seq<(string, C)>, key: string, value: C, other: string)
    ensures Lookup(Assign(tables, key, value), key) == Some(value)
    ensures other != key ==> Lookup(Assign(tables, key, value), other) == Lookup(tables, other)
  {
    if tables != [] && tables[0].0 != key {
      AssignLookup(tables[1..], key, value, other);
      assert Assign(tables, key, value)[1..] == Assign(tables[1..], key, value);
    } else if tables != [] {
      assert Assign(tables, key, value)[1..] == tables[1..];
    }
  }

  /** An existing key keeps its place, and so does every other key; a new
      key goes last. */
  lemma {:induction false} AssignKeys<C>(tables: seq<(string, C)>, key: string, value: C)
    ensures HasKey(tables, key) ==>
      && |Assign(tables, key, value)| == |tables|
      && forall i :: 0 <= i < |tables| ==> Assign(tables, key, value)[i].0 == tables[i].0
    ensures !HasKey(tables, key) ==> Assign(tables, key, value) == tables + [(key, value)]
  {
    if tables != [] {
      HasKeyCons(tables, key);
      var r := Assign(tables, key, value);
      if tables[0].0 == key {
        forall i | 1 <= i < |tables| ensures r[i].0 == tables[i].0 {
          assert r[i] == tables[1..][i - 1];
        }
      } else {
        var rest := Assign(tables[1..], key, value);
        AssignKeys(tables[1..], key, value);
        assert r == [tables[0]] + rest;
        if HasKey(tables, key) {
          forall i | 1 <= i < |tables| ensures r[i].0 == tables[i].0 {
            assert r[i] == rest[i - 1] && tables[i] == tables[1..][i - 1];
          }
        } else {
          assert tables == [tables[0]] + tables[1..];
        }
      }
    }
  }

  /** Assignment keeps the keys distinct and adds exactly its own key. */
  lemma AssignDistinct<C>(tables: seq<(string, C)>, key: string, value: C, x: string)
    requires DistinctKeys(tables)
    ensures DistinctKeys(Assign(tables, key, value))
    ensures HasKey(Assign(tables, key, value), x) <==> HasKey(tables, x) || x == key
  {
    AssignKeys(tables, key, value);
    var r := Assign(tables, key, value);
    if !HasKey(tables, key) {
      forall a, b | 0 <= a < b < |r| ensures r[a].0 != r[b].0 {
        if b == |tables| {
          assert r[a] == tables[a];
        }
      }
      if HasKey(tables, x) {
        var i :| 0 <= i < |tables| && tables[i].0 == x;
        assert r[i] == tables[i];
      }
      if HasKey(r, x) && x != key {
        var i :| 0 <= i < |r| && r[i].0 == x;
        assert r[i] == tables[i];
      }
      assert r[|tables|].0 == key;
    } else {
      forall a, b | 0 <= a < b < |r| ensures r[a].0 != r[b].0 {
        assert r[a].0 == tables[a].0 && r[b].0 == tables[b].0;
      }
      if HasKey(tables, x) {
        var i :| 0 <= i < |tables| && tables[i].0 == x;
        assert r[i].0 == x;
      }
      if HasKey(r, x) {
        var i :| 0 <= i < |r| && r[i].0 == x;
        assert tables[i].0 == x;
      }
    }
  }

  /** The rest of `get_table_columns` from a dict `acc`: each line gives
      either the entry to store or the error to raise. */
  function Fold<C>(acc: seq<(string, C)>, lines: seq<string>, entry: string -> Result<(string, C), MetaError>)
    : Result<seq<(string, C)>, MetaError>
    decreases |lines|
  {
    if lines == [] then Success(acc)
    else
      match entry(lines[0])
      case Failure(e) => Failure(e)
      case Success(kv) => Fold(Assign(acc, kv.0, kv.1), lines[1..], entry)
  }

  /** Every line gives an entry. */
  predicate AllOk<C>(lines: seq<string>, entry: string -> Result<(string, C), MetaError>)
  {
    forall k :: 0 <= k < |lines| ==> entry(lines[k]).Success?
  }

  /** Some line gives an entry under `key`. */
  predicate Gives<C>(lines: seq<string>, entry: string -> Result<(string, C), MetaError>, key: string)
  {
    exists k :: 0 <= k < |lines| && entry(lines[k]).Success? && entry(lines[k]).value.0 == key
  }

  lemma GivesCons<C>(lines: seq<string>, entry: string -> Result<(string, C), MetaError>, key: string)
    requires lines != []
    ensures Gives(lines, entry, key) <==>
      (entry(lines[0]).Success? && entry(lines[0]).value.0 == key) || Gives(lines[1..], entry, key)
  {
    if Gives(lines, entry, key) {
      var k :| 0 <= k < |lines| && entry(lines[k]).Success? && entry(lines[k]).value.0 == key;
      if k > 0 { assert lines[1..][k - 1] == lines[k]; }
    }
    if Gives(lines[1..], entry, key) {
      var k :| 0 <= k < |lines[1..]| && entry(lines[1..][k]).Success? && entry(lines[1..][k]).value.0 == key;
      assert lines[k + 1] == lines[1..][k];
    }
  }

  /** The reading succeeds exactly when every line gives an entry. */
  lemma {:induction false} FoldSucceeds<C>(acc: seq<(string, C)>, lines: seq<string>, entry: string -> Result<(string, C), MetaError>)
    ensures Fold(acc, lines, entry).Success? <==> AllOk(lines, entry)
    decreases |lines|
  {
    if lines != [] && entry(lines[0]).Success? {
      var kv := entry(lines[0]).value;
      FoldSucceeds(Assign(acc, kv.0, kv.1), lines[1..], entry);
      forall k | 1 <= k < |lines| ensures lines[1..][k - 1] == lines[k] { }
    }
  }

  /** The first line that gives no entry stops the reading with its error. */
  lemma {:induction false} FoldFirstError<C>(acc: seq<(string, C)>, lines: seq<string>, entry: string -> Result<(string, C), MetaError>, k: nat)
    requires k < |lines| && entry(lines[k]).Failure? && AllOk(lines[..k], entry)
    ensures Fold(acc, lines, entry) == Failure(entry(lines[k]).error)
    decreases k
  {
    if k > 0 {
      assert lines[..k][0] == lines[0];
      var kv := entry(lines[0]).value;
      assert lines[1..][k - 1] == lines[k];
      var before := lines[..k];
      assert lines[1..][..k - 1] == before[1..];
      forall j | 0 <= j < k - 1 ensures entry(before[1..][j]).Success? {
        assert before[1..][j] == before[j + 1];
      }
      FoldFirstError(Assign(acc, kv.0, kv.1), lines[1..], entry, k - 1);
    }
  }

  /** On success the keys stay distinct, and they are those already there
      plus those the lines give. */
  lemma {:induction false} FoldKeys<C>(acc: seq<(string, C)>, lines: seq<string>, entry: string -> Result<(string, C), MetaError>, x: string)
    requires DistinctKeys(acc) && Fold(acc, lines, entry).Success?
    ensures DistinctKeys(Fold(acc, lines, entry).value)
    ensures HasKey(Fold(acc, lines, entry).value, x) <==> HasKey(acc, x) || Gives(lines, entry, x)
    decreases |lines|
  {
    if lines != [] {
      var kv := entry(lines[0]).value;
      AssignDistinct(acc, kv.0, kv.1, x);
      FoldKeys(Assign(acc, kv.0, kv.1), lines[1..], entry, x);
      GivesCons(lines, entry, x);
    }
  }

  /** A key no line gives keeps the value it had. */
  lemma {:induction false} FoldUntouched<C>(acc: seq<(string, C)>, lines: seq<string>, entry: string -> Result<(string, C), MetaError>, x: string)
    requires Fold(acc, lines, entry).Success? && !Gives(lines, entry, x)
    ensures Lookup(Fold(acc, lines, entry).value, x) == Lookup(acc, x)
    decreases |lines|
  {
    if lines != [] {
      var kv := entry(lines[0]).value;
      GivesCons(lines, entry, x);
      AssignLookup(acc, kv.0, kv.1, x);
      FoldUntouched(Assign(acc, kv.0, kv.1), lines[1..], entry, x);
    }
  }

  /** On success a key holds the value of the last line that gives it. */
  lemma {:induction false} FoldLastWins<C>(acc: seq<(string, C)>, lines: seq<string>, entry: string -> Result<(string, C), MetaError>, k: nat)
    requires Fold(acc, lines, entry).Success? && k < |lines|
    requires entry(lines[k]).Success? && !Gives(lines[k + 1..], entry, entry(lines[k]).value.0)
    ensures Lookup(Fold(acc, lines, entry).value, entry(lines[k]).value.0) == Some(entry(lines[k]).value.1)
    decreases |lines|
  {
    var kv := entry(lines[0]).value;
    var acc' := Assign(acc, kv.0, kv.1);
    AssignLookup(acc, kv.0, kv.1, kv.0);
    if k == 0 {
      assert lines[1..] == lines[k + 1..];
      FoldUntouched(acc', lines[1..], entry, kv.0);
    } else {
      assert lines[1..][k - 1] == lines[k] && lines[1..][k..] == lines[k + 1..];
      FoldLastWins(acc', lines[1..], entry, k - 1);
    }
  }

  /** What one line of the table file gives: its stripped text as the key
      and the schema fetched for its dataset and table as the value. */
  function LineEntry<C>(line: string, describe: (string, string) -> C): (r: Result<(string, C), MetaError>)
    ensures r.Success? <==> ParseTableName(Strip(line)).Success?
    ensures r.Failure? ==> r.error == ParseTableName(Strip(line)).error
    ensures r.Success? ==>
      && r.value.0 == Strip(line)
      && r.value.1 == describe(ParseTableName(Strip(line)).value.0, ParseTableName(Strip(line)).value.1)
  {
    var name := Strip(line);
    match ParseTableName(name)
    case Failure(e) => Failure(e)
    case Success(parsed) => Success((name, describe(parsed.0, parsed.1)))
  }

  /** The rest of `get_table_columns` from a dict `acc`, over `lines`. */
  function ColumnsFrom<C>(acc: seq<(string, C)>, lines: seq<string>, describe: (string, string) -> C)
    : Result<seq<(string, C)>, MetaError>
  {
    Fold(acc, lines, line => LineEntry(line, describe))
  }

  /** `get_table_columns`: each stripped line names a table whose schema
      fields are stored under that name; a malformed line raises. */
  method GetTableColumns<C>(lines: seq<string>, describe: (string, string) -> C)
    returns (r: Result<seq<(string, C)>, MetaError>)
    ensures r == ColumnsFrom([], lines, describe)
  {
    var tables := [];
    for n := 0 to |lines|
      invariant ColumnsFrom(tables, lines[n..], describe) == ColumnsFrom([], lines, describe)
    {
      assert lines[n..][0] == lines[n] && lines[n..][1..] == lines[n + 1..];
      var name := Strip(lines[n]);
      var parsed := ParseTableName(name);
      if parsed.Failure? {
        return Failure(parsed.error);
      }
      var (dataset, table) := parsed.value;
      tables := Assign(tables, name, describe(dataset, table));
    }
    return Success(tables);
  }

  /** Every line, stripped, is a well-formed `project:dataset.table`. */
  predicate AllParse(lines: seq<string>)
  {
    forall k :: 0 <= k < |lines| ==> ParseTableName(Strip(lines[k])).Success?
  }

  /** Some line of `lines`, stripped, is `name`. */
  predicate Names(lines: seq<string>, name: string)
  {
    exists k :: 0 <= k < |lines| && Strip(lines[k]) == name
  }

  lemma AllOkAllParse<C>(lines: seq<string>, describe: (string, string) -> C)
    ensures AllOk(lines, line => LineEntry(line, describe)) <==> AllParse(lines)
  {
    forall k | 0 <= k < |lines|
      ensures LineEntry(lines[k], describe).Success? <==> ParseTableName(Strip(lines[k])).Success?
    {
    }
  }

  /** `get_table_columns` fails exactly when some line is malformed, and
      then with the error of the first such line. */
  lemma TableColumnsErrors<C>(lines: seq<string>, describe: (string, string) -> C, k: nat)
    ensures ColumnsFrom([], lines, describe).Success? <==> AllParse(lines)
    ensures k < |lines| && ParseTableName(Strip(lines[k])).Failure? && AllParse(lines[..k]) ==>
      ColumnsFrom([], lines, describe) == Failure(ParseTableName(Strip(lines[k])).error)
  {
    var entry := line => LineEntry(line, describe);
    FoldSucceeds([], lines, entry);
    AllOkAllParse(lines, describe);
    if k < |lines| && ParseTableName(Strip(lines[k])).Failure? && AllParse(lines[..k]) {
      AllOkAllParse(lines[..k], describe);
      FoldFirstError([], lines, entry, k);
    }
  }

  /** On success the table names are distinct and are exactly the stripped
      lines. */
  lemma TableColumnsKeys<C>(lines: seq<string>, describe: (string, string) -> C, x: string)
    requires AllParse(lines)
    ensures ColumnsFrom([], lines, describe).Success?
    ensures DistinctKeys(ColumnsFrom([], lines, describe).value)
    ensures HasKey(ColumnsFrom([], lines, describe).value, x) <==> Names(lines, x)
  {
    var entry := line => LineEntry(line, describe);
    TableColumnsErrors(lines, describe, 0);
    FoldKeys([], lines, entry, x);
    if Names(lines, x) {
      var k :| 0 <= k < |lines| && Strip(lines[k]) == x;
      assert entry(lines[k]).Success? && entry(lines[k]).value.0 == x;
    }
    if Gives(lines, entry, x) {
      var k :| 0 <= k < |lines| && entry(lines[k]).Success? && entry(lines[k]).value.0 == x;
      assert Strip(lines[k]) == x;
    }
  }

  /** On success each name holds the schema fetched for the last line that
      strips to it: a repeated line overwrites the earlier entry. */
  lemma TableColumnsLastWins<C>(lines: seq<string>, describe: (string, string) -> C, k: nat)
    requires AllParse(lines) && k < |lines|
    requires forall k' :: k < k' < |lines| ==> Strip(lines[k']) != Strip(lines[k])
    ensures ColumnsFrom([], lines, describe).Success?
    ensures Lookup(ColumnsFrom([], lines, describe).value, Strip(lines[k]))
      == Some(describe(ParseTableName(Strip(lines[k])).value.0, ParseTableName(Strip(lines[k])).value.1))
  {
    var entry := line => LineEntry(line, describe);
    TableColumnsErrors(lines, describe, 0);
    assert entry(lines[k]).Success?;
    var later := lines[k + 1..];
    forall j | 0 <= j < |later|
      ensures !(entry(later[j]).Success? && entry(later[j]).value.0 == Strip(lines[k]))
    {
      assert later[j] == lines[k + 1 + j];
    }
    FoldLastWins([], lines, entry, k);
  }
}
