/** `scripts/ClusterColumns.py`: the list-based tokenizer and the builders
    that fetch a column's values and compute its MinHash on every call
    (no sketch files). A qualified name `table.column` given to the query
    functions is split back at its last `.`. */
module ClusterColumnsScripts {
  import opened Wrappers
  import opened Text
  import opened Columns
  import opened Sketches
  import Src = ClusterColumnsSrc

  /** The tokens one value contributes: none for `None`. */
  function PiecesOf(v: Option<string>): seq<string>
  {
    match v
    case None => []
    case Some(s) => Src.ValueTokens(s)
  }

  /** The tokens of all values, in value order, duplicates kept. */
  function TokenList(values: seq<Option<string>>): seq<string>
  {
    if values == [] then []
    else TokenList(values[..|values| - 1]) + PiecesOf(values[|values| - 1])
  }

  /** The number of pieces the values split into, summed from the front. */
  function PieceCount(values: seq<Option<string>>): nat
  {
    if values == [] then 0 else |PiecesOf(values[0])| + PieceCount(values[1..])
  }

  /** `tokenize(values)`: a list extended with the tokens of each non-`None` value. */
  method TokenizeList(values: seq<Option<string>>) returns (tokens: seq<string>)
    ensures tokens == TokenList(values)
  {
    tokens := [];
    for n := 0 to |values|
      invariant tokens == TokenList(values[..n])
    {
      assert values[..n + 1][..n] == values[..n];
      if values[n].Some? {
        tokens := tokens + Src.ValueTokens(values[n].value);
      }
    }
    assert values[..|values|] == values;
  }

  lemma {:induction false} PieceCountSnoc(values: seq<Option<string>>, v: Option<string>)
    ensures PieceCount(values + [v]) == PieceCount(values) + |PiecesOf(v)|
  {
    if values != [] {
      assert (values + [v])[1..] == values[1..] + [v];
      PieceCountSnoc(values[1..], v);
    }
  }

  /** The list holds as many tokens as the values split into pieces. */
  lemma {:induction false} TokenListLength(values: seq<Option<string>>)
    ensures |TokenList(values)| == PieceCount(values)
  {
    if values != [] {
      var init := values[..|values| - 1];
      TokenListLength(init);
      assert values == init + [values[|values| - 1]];
      PieceCountSnoc(init, values[|values| - 1]);
    }
  }

  /** Every listed token is a non-empty, whitespace-free piece. */
  lemma {:induction false} TokenListWords(values: seq<Option<string>>)
    ensures forall k :: 0 <= k < |TokenList(values)| ==> IsWord(TokenList(values)[k])
  {
    if values != [] {
      TokenListWords(values[..|values| - 1]);
    }
  }

  /** The list variant holds exactly the tokens of the set variant. */
  lemma {:induction false} TokenListMatchesTokenSet(values: seq<Option<string>>)
    ensures forall t :: t in TokenList(values) <==> t in Src.TokenSet(values)
  {
    if values != [] {
      var n := |values| - 1;
      var init := values[..n];
      TokenListMatchesTokenSet(init);
      forall t | t in Src.TokenSet(values)
        ensures t in Src.TokenSet(init) || t in PiecesOf(values[n])
      {
        var i :| 0 <= i < |values| && values[i].Some? && t in Src.ValueTokens(values[i].value);
        if i < n {
          assert init[i] == values[i];
        }
      }
      forall t | t in Src.TokenSet(init) ensures t in Src.TokenSet(values) {
        var i :| 0 <= i < n && init[i].Some? && t in Src.ValueTokens(init[i].value);
        assert values[i] == init[i];
      }
    }
  }

  /** The MinHash of a column as these scripts compute it, from all values. */
  function ColumnSketch(lib: Library, table: string, column: string): Signature
  {
    lib.sketchOf(set t | t in TokenList(lib.columnValues(table, column)))
  }

  /** The probe for a qualified name: the sketch of the column it splits into. */
  function ProbeSketch(lib: Library, name: string): Signature
  {
    var (table, column) := SplitQualified(name);
    ColumnSketch(lib, table, column)
  }

  /** Querying with a column's key probes with the very sketch the builders
      insert under that key, when the column name has no `.`. */
  lemma ProbeOfKey(lib: Library, c: Column)
    requires '.' !in c.column
    ensures ProbeSketch(lib, Key(c)) == ColumnSketch(lib, c.table, c.column)
  {
    KeyRoundTrip(c);
  }

  /** Both variants sketch a column alike when the two value suppliers
      return the same values, repeated or not. */
  lemma SketchesAgree(lib: Library, c: Column)
    requires forall v :: v in lib.columnValues(c.table, c.column) <==> v in lib.distinctValues(c)
    ensures ColumnSketch(lib, c.table, c.column) == Src.Built(lib, c)
  {
    var all := lib.columnValues(c.table, c.column);
    TokenListMatchesTokenSet(all);
    Src.TokenSetOfSameValues(all, lib.distinctValues(c));
    assert (set t | t in TokenList(all)) == Src.TokenSet(all);
  }

  /** Fetch, tokenize and hash one column (the block repeated in every builder). */
  method ColumnMinHash(lib: Library, table: string, column: string) returns (minhash: Signature)
    ensures minhash == ColumnSketch(lib, table, column)
  {
    var values := lib.columnValues(table, column);
    var tokens := TokenizeList(values);
    minhash := lib.sketchOf(set t | t in tokens);
  }

  /** The `(key, sketch)` pairs of the columns, in column order. */
  function Sketched(lib: Library, cols: seq<Column>): seq<(string, Signature)>
  {
    seq(|cols|, i requires 0 <= i < |cols| => (Key(cols[i]), ColumnSketch(lib, cols[i].table, cols[i].column)))
  }

  /** `build_lsh_forest(columns)`: one `add` per column, in column order,
      then `index()`. */
  method BuildLshForest(lib: Library, columns: seq<Column>) returns (forest: Forest)
    ensures forest.indexed && forest.numPerm == NumPerm
    ensures |forest.entries| == |columns|
    ensures forall i :: 0 <= i < |columns| ==>
      forest.entries[i] == (Key(columns[i]), ColumnSketch(lib, columns[i].table, columns[i].column))
  {
    forest := Forest(NumPerm, [], false);
    for i := 0 to |columns|
      invariant forest == Forest(NumPerm, Sketched(lib, columns[..i]), false)
    {
      var column := columns[i];
      var minhash := ColumnMinHash(lib, column.table, column.column);
      forest := forest.Add(Key(column), minhash);
    }
    assert columns[..|columns|] == columns;
    forest := forest.Index();
  }

  /** `build_minhash_lsh(columns, threshold)`: one `insert` per column, in
      column order. */
  method BuildMinHashLsh(lib: Library, columns: seq<Column>, threshold: real) returns (lsh: Lsh)
    ensures lsh.threshold == threshold && lsh.numPerm == NumPerm
    ensures |lsh.entries| == |columns|
    ensures forall i :: 0 <= i < |columns| ==>
      lsh.entries[i] == (Key(columns[i]), ColumnSketch(lib, columns[i].table, columns[i].column))
  {
    lsh := Lsh(threshold, NumPerm, []);
    for i := 0 to |columns|
      invariant lsh == Lsh(threshold, NumPerm, Sketched(lib, columns[..i]))
    {
      var column := columns[i];
      var minhash := ColumnMinHash(lib, column.table, column.column);
      lsh := lsh.Insert(Key(column), minhash);
    }
    assert columns[..|columns|] == columns;
  }

  /** `get_top_k(forest, column, k)` for a qualified name. */
  method GetTopK(lib: Library, forest: Forest, name: string, k: int) returns (keys: seq<string>)
    ensures keys == lib.forestQuery(forest, ProbeSketch(lib, name), k)
  {
    var (table, column) := SplitQualified(name);
    var minhash := ColumnMinHash(lib, table, column);
    keys := lib.forestQuery(forest, minhash, k);
  }

  /** `get_all_similar_columns(minhash_lsh, column)` for a qualified name. */
  method GetAllSimilarColumns(lib: Library, lsh: Lsh, name: string) returns (keys: seq<string>)
    ensures keys == lib.lshQuery(lsh, ProbeSketch(lib, name))
  {
    var (table, column) := SplitQualified(name);
    var minhash := ColumnMinHash(lib, table, column);
    keys := lib.lshQuery(lsh, minhash);
  }

  /** `calculate_jaccard_similarity(columns)`: one sketch per column, in
      order, then the `n` by `n` matrix of pairwise estimates. */
  method CalculateJaccardSimilarity(lib: Library, columns: seq<Column>) returns (matrix: array2<real>)
    ensures matrix.Length0 == |columns| && matrix.Length1 == |columns|
    ensures forall i, j :: 0 <= i < |columns| && 0 <= j < |columns| ==>
      matrix[i, j] == lib.jaccard(ColumnSketch(lib, columns[i].table, columns[i].column),
                                  ColumnSketch(lib, columns[j].table, columns[j].column))
  {
    var minhashList := [];
    for i := 0 to |columns|
      invariant |minhashList| == i
      invariant forall a :: 0 <= a < i ==>
        minhashList[a] == ColumnSketch(lib, columns[a].table, columns[a].column)
    {
      var minhash := ColumnMinHash(lib, columns[i].table, columns[i].column);
      minhashList := minhashList + [minhash];
    }
    matrix := JaccardMatrix(minhashList, lib.jaccard);
  }
}
