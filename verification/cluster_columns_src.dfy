/** `src/ClusterColumns.py`: the set-based tokenizer, the MinHash sketch
    store (`results/minhashes/<table>.<column>.txt`) and the three cached
    artifacts built from it (`results/forest.obj`, `results/lsh_<threshold>.obj`,
    `results/jaccard.obj`). Files are modelled as the fields of a `Store`:
    a file exists exactly when its key is present. */
module ClusterColumnsSrc {
  import opened Wrappers
  import opened Text
  import opened Columns
  import opened Sketches
  import opened Frames

  /** The tokens of one value: `value.lower().split()`. */
  function ValueTokens(v: string): seq<string>
  {
    Words(Lower(v))
  }

  /** The union, over the non-`None` values, of their tokens. */
  function TokenSet(values: seq<Option<string>>): set<string>
  {
    set i, t | 0 <= i < |values| && values[i].Some? && t in ValueTokens(values[i].value) :: t
  }

  /** `tokenize(values)`: a set updated with the tokens of each non-`None` value. */
  method Tokenize(values: seq<Option<string>>) returns (tokens: set<string>)
    ensures forall t :: t in tokens <==>
      exists i :: 0 <= i < |values| && values[i].Some? && t in ValueTokens(values[i].value)
    ensures values == [] ==> tokens == {}
  {
    tokens := {};
    for n := 0 to |values|
      invariant forall t :: t in tokens <==>
        exists i :: 0 <= i < n && values[i].Some? && t in ValueTokens(values[i].value)
    {
      match values[n]
      case None =>
      case Some(v) =>
        tokens := tokens + set t | t in ValueTokens(v);
    }
  }

  /** Every token is a non-empty, whitespace-free piece. */
  lemma TokenSetWords(values: seq<Option<string>>)
    ensures forall t :: t in TokenSet(values) ==> IsWord(t)
  {
  }

  /** The token set depends only on which values occur, so fetching the
      DISTINCT values loses no token. */
  lemma TokenSetOfSameValues(a: seq<Option<string>>, b: seq<Option<string>>)
    requires forall v :: v in a <==> v in b
    ensures TokenSet(a) == TokenSet(b)
  {
    forall t | t in TokenSet(a) ensures t in TokenSet(b) {
      var i :| 0 <= i < |a| && a[i].Some? && t in ValueTokens(a[i].value);
      assert a[i] in b;
      var j :| 0 <= j < |b| && b[j] == a[i];
    }
    forall t | t in TokenSet(b) ensures t in TokenSet(a) {
      var j :| 0 <= j < |b| && b[j].Some? && t in ValueTokens(b[j].value);
      assert b[j] in a;
      var i :| 0 <= i < |a| && a[i] == b[j];
    }
  }

  /** The signature `serialize_min_hash` writes for a column: the MinHash
      of the tokens of its distinct values. */
  function Built(lib: Library, c: Column): Signature
  {
    lib.sketchOf(TokenSet(lib.distinctValues(c)))
  }

  /** One step of `serialize_min_hash`: skip a column whose sketch exists
      unless `override`, otherwise (re)build and write it. */
  function Put(lib: Library, m: map<string, Signature>, c: Column, override: bool): map<string, Signature>
  {
    if Key(c) in m && !override then m else m[Key(c) := Built(lib, c)]
  }

  /** The sketch files after `serialize_min_hash(cols, override)`. */
  function Serialized(lib: Library, m: map<string, Signature>, cols: seq<Column>, override: bool)
    : (r: map<string, Signature>)
    ensures forall i :: 0 <= i < |cols| ==> Key(cols[i]) in r
    ensures m.Keys <= r.Keys
  {
    if cols == [] then m
    else Put(lib, Serialized(lib, m, cols[..|cols| - 1], override), cols[|cols| - 1], override)
  }

  /** The set of keys of a list of columns. */
  function KeysOf(cols: seq<Column>): set<string>
  {
    set i | 0 <= i < |cols| :: Key(cols[i])
  }

  /** Exactly the listed columns' keys are added, and no other entry changes. */
  lemma {:induction false} SerializedTouchesOnlyListed(lib: Library, m: map<string, Signature>, cols: seq<Column>, override: bool)
    ensures Serialized(lib, m, cols, override).Keys == m.Keys + KeysOf(cols)
    ensures forall k :: k in m && k !in KeysOf(cols) ==> Serialized(lib, m, cols, override)[k] == m[k]
  {
    if cols != [] {
      var init := cols[..|cols| - 1];
      SerializedTouchesOnlyListed(lib, m, init, override);
      assert KeysOf(cols) == KeysOf(init) + {Key(cols[|cols| - 1])};
    }
  }

  /** Without `override`, an existing sketch is never rewritten. */
  lemma {:induction false} SerializedKeepsExisting(lib: Library, m: map<string, Signature>, cols: seq<Column>)
    ensures forall k :: k in m ==> Serialized(lib, m, cols, false)[k] == m[k]
  {
    if cols != [] {
      SerializedKeepsExisting(lib, m, cols[..|cols| - 1]);
    }
  }

  /** Without `override`, a column whose sketch was absent gets the sketch
      of the first listed column with its key (later ones are skipped). */
  lemma {:induction false} SerializedFirstWriteWins(lib: Library, m: map<string, Signature>, cols: seq<Column>, i: nat)
    requires i < |cols| && Key(cols[i]) !in m
    requires forall a :: 0 <= a < i ==> Key(cols[a]) != Key(cols[i])
    ensures Serialized(lib, m, cols, false)[Key(cols[i])] == Built(lib, cols[i])
  {
    var init := cols[..|cols| - 1];
    if i < |cols| - 1 {
      SerializedFirstWriteWins(lib, m, init, i);
    } else {
      SerializedTouchesOnlyListed(lib, m, init, false);
      assert Key(cols[i]) !in KeysOf(init);
    }
  }

  /** With `override`, a column gets the sketch of the last listed column
      with its key, whatever was stored before. */
  lemma {:induction false} SerializedLastWriteWins(lib: Library, m: map<string, Signature>, cols: seq<Column>, i: nat)
    requires i < |cols|
    requires forall a :: i < a < |cols| ==> Key(cols[a]) != Key(cols[i])
    ensures Serialized(lib, m, cols, true)[Key(cols[i])] == Built(lib, cols[i])
  {
    if i < |cols| - 1 {
      SerializedLastWriteWins(lib, m, cols[..|cols| - 1], i);
    }
  }

  /** The `(key, stored signature)` pairs of the columns, in column order. */
  function Inserted(cols: seq<Column>, m: map<string, Signature>): (r: seq<(string, Signature)>)
    requires forall i :: 0 <= i < |cols| ==> Key(cols[i]) in m
  {
    seq(|cols|, i requires 0 <= i < |cols| => (Key(cols[i]), m[Key(cols[i])]))
  }

  /** The similarity DataFrame: labelled by the column keys in column order,
      with `jaccard(sig_i, sig_j)` at row `i`, column `j`. */
  function SimilarityFrame(lib: Library, cols: seq<Column>, m: map<string, Signature>): Frame
    requires forall i :: 0 <= i < |cols| ==> Key(cols[i]) in m
  {
    Frame(
      seq(|cols|, i requires 0 <= i < |cols| => Key(cols[i])),
      seq(|cols|, i requires 0 <= i < |cols| =>
        seq(|cols|, j requires 0 <= j < |cols| => lib.jaccard(m[Key(cols[i])], m[Key(cols[j])]))))
  }

  /** Looked up as the correlation index does (`df[col][row]`), the frame
      gives the estimate between the two columns' stored signatures. */
  lemma SimilarityFrameLookup(lib: Library, cols: seq<Column>, m: map<string, Signature>, i: nat, j: nat)
    requires forall a :: 0 <= a < |cols| ==> Key(cols[a]) in m
    requires i < |cols| && j < |cols|
    requires forall a, b :: 0 <= a < b < |cols| ==> Key(cols[a]) != Key(cols[b])
    ensures WellFormed(SimilarityFrame(lib, cols, m))
    ensures Key(cols[i]) in SimilarityFrame(lib, cols, m).labels
    ensures Key(cols[j]) in SimilarityFrame(lib, cols, m).labels
    ensures At(SimilarityFrame(lib, cols, m), Key(cols[i]), Key(cols[j]))
         == lib.jaccard(m[Key(cols[j])], m[Key(cols[i])])
  {
    var f := SimilarityFrame(lib, cols, m);
    assert f.labels[i] == Key(cols[i]) && f.labels[j] == Key(cols[j]);
    IndexOfDistinct(f.labels, i);
    IndexOfDistinct(f.labels, j);
  }

  /** The results directory: sketch files and pickled artifacts. */
  class Store {
    const lib: Library
    /** `results/minhashes/<table>.<column>.txt`, by column key. */
    var sketches: map<string, Signature>
    /** `results/forest.obj`. */
    var forestFile: Option<Forest>
    /** `results/lsh_<threshold>.obj`, one file per threshold. */
    var lshFiles: map<real, Lsh>
    /** `results/jaccard.obj`. */
    var jaccardFile: Option<Frame>

    constructor (lib: Library, sketches: map<string, Signature>, forestFile: Option<Forest>,
                 lshFiles: map<real, Lsh>, jaccardFile: Option<Frame>)
      ensures this.lib == lib && this.sketches == sketches && this.forestFile == forestFile
      ensures this.lshFiles == lshFiles && this.jaccardFile == jaccardFile
    {
      this.lib := lib;
      this.sketches := sketches;
      this.forestFile := forestFile;
      this.lshFiles := lshFiles;
      this.jaccardFile := jaccardFile;
    }

    /** `serialize_min_hash(columns, override)`. */
    method SerializeMinHash(columns: seq<Column>, override: bool)
      modifies this`sketches
      ensures sketches == Serialized(lib, old(sketches), columns, override)
    {
      for i := 0 to |columns|
        invariant sketches == Serialized(lib, old(sketches), columns[..i], override)
      {
        assert columns[..i + 1][..i] == columns[..i];
        var column := columns[i];
        if Key(column) in sketches && !override {
          continue;
        }
        var values := lib.distinctValues(column);
        var tokens := Tokenize(values);
        assert tokens == TokenSet(values);
        sketches := sketches[Key(column) := lib.sketchOf(tokens)];
      }
      assert columns[..|columns|] == columns;
    }

    /** `deserialize_minhash(column)`: build the sketch first if its file is
        missing, then read it. */
    method DeserializeMinHash(column: Column) returns (minhash: Signature)
      modifies this`sketches
      ensures sketches == Put(lib, old(sketches), column, false)
      ensures minhash == sketches[Key(column)]
      ensures Key(column) in old(sketches) ==> minhash == old(sketches)[Key(column)]
    {
      if Key(column) !in sketches {
        SerializeMinHash([column], false);
        assert [column][..0] == [];
      }
      minhash := sketches[Key(column)];
    }

    /** Reads the sketches of `columns` in order, building missing ones,
        as the loops of the three builders do. */
    method ReadSketches(columns: seq<Column>) returns (sigs: seq<Signature>)
      modifies this`sketches
      ensures sketches == Serialized(lib, old(sketches), columns, false)
      ensures |sigs| == |columns|
      ensures forall i :: 0 <= i < |columns| ==> sigs[i] == sketches[Key(columns[i])]
    {
      sigs := [];
      for i := 0 to |columns|
        invariant sketches == Serialized(lib, old(sketches), columns[..i], false)
        invariant |sigs| == i
        invariant forall a :: 0 <= a < i ==> sigs[a] == sketches[Key(columns[a])]
      {
        assert columns[..i + 1][..i] == columns[..i];
        var minhash := DeserializeMinHash(columns[i]);
        sigs := sigs + [minhash];
      }
      assert columns[..|columns|] == columns;
    }

    /** `build_lsh_forest(columns, override)`: the pickled forest unless
        `override` is set or there is none; otherwise a forest with one
        `add` per column, in column order, then `index()`, pickled. */
    method BuildLshForest(columns: seq<Column>, override: bool) returns (forest: Forest)
      modifies this`sketches, this`forestFile
      ensures !override && old(forestFile).Some? ==>
        forest == old(forestFile).value && sketches == old(sketches) && forestFile == old(forestFile)
      ensures override || old(forestFile).None? ==>
        && sketches == Serialized(lib, old(sketches), columns, false)
        && forest == Forest(NumPerm, Inserted(columns, sketches), true)
        && forestFile == Some(forest)
    {
      if override || forestFile.None? {
        forest := Forest(NumPerm, [], false);
        for i := 0 to |columns|
          invariant sketches == Serialized(lib, old(sketches), columns[..i], false)
          invariant forest == Forest(NumPerm, Inserted(columns[..i], sketches), false)
        {
          assert columns[..i + 1][..i] == columns[..i];
          var minhash := DeserializeMinHash(columns[i]);
          forest := forest.Add(Key(columns[i]), minhash);
        }
        assert columns[..|columns|] == columns;
        forest := forest.Index();
        forestFile := Some(forest);
        return;
      }
      forest := forestFile.value;
    }

    /** `build_minhash_lsh(columns, threshold, override)`: the same rule,
        with one cache slot per threshold. */
    method BuildMinHashLsh(columns: seq<Column>, threshold: real, override: bool) returns (lsh: Lsh)
      modifies this`sketches, this`lshFiles
      ensures !override && threshold in old(lshFiles) ==>
        lsh == old(lshFiles)[threshold] && sketches == old(sketches) && lshFiles == old(lshFiles)
      ensures override || threshold !in old(lshFiles) ==>
        && sketches == Serialized(lib, old(sketches), columns, false)
        && lsh == Lsh(threshold, NumPerm, Inserted(columns, sketches))
        && lshFiles == old(lshFiles)[threshold := lsh]
    {
      if override || threshold !in lshFiles {
        lsh := Lsh(threshold, NumPerm, []);
        for i := 0 to |columns|
          invariant sketches == Serialized(lib, old(sketches), columns[..i], false)
          invariant lsh == Lsh(threshold, NumPerm, Inserted(columns[..i], sketches))
          invariant lshFiles == old(lshFiles)
        {
          assert columns[..i + 1][..i] == columns[..i];
          var minhash := DeserializeMinHash(columns[i]);
          lsh := lsh.Insert(Key(columns[i]), minhash);
        }
        assert columns[..|columns|] == columns;
        lshFiles := lshFiles[threshold := lsh];
        return;
      }
      lsh := lshFiles[threshold];
    }

    /** `get_top_k(forest, column, k)`: query the forest with the column's
        stored sketch. */
    method GetTopK(forest: Forest, column: Column, k: int) returns (keys: seq<string>)
      modifies this`sketches
      ensures sketches == Put(lib, old(sketches), column, false)
      ensures keys == lib.forestQuery(forest, sketches[Key(column)], k)
    {
      var minhash := DeserializeMinHash(column);
      keys := lib.forestQuery(forest, minhash, k);
    }

    /** `get_all_similar_columns(minhash_lsh, column)`. */
    method GetAllSimilarColumns(lsh: Lsh, column: Column) returns (keys: seq<string>)
      modifies this`sketches
      ensures sketches == Put(lib, old(sketches), column, false)
      ensures keys == lib.lshQuery(lsh, sketches[Key(column)])
    {
      var minhash := DeserializeMinHash(column);
      keys := lib.lshQuery(lsh, minhash);
    }

    /** `calculate_jaccard_similarity(override)` over the given STRING
        columns: the pickled frame unless `override` is set or there is
        none; otherwise the pairwise estimates between the stored sketches,
        labelled by the column keys, pickled. */
    method CalculateJaccardSimilarity(columns: seq<Column>, override: bool) returns (df: Frame)
      modifies this`sketches, this`jaccardFile
      ensures !override && old(jaccardFile).Some? ==>
        df == old(jaccardFile).value && sketches == old(sketches) && jaccardFile == old(jaccardFile)
      ensures override || old(jaccardFile).None? ==>
        && sketches == Serialized(lib, old(sketches), columns, false)
        && df == SimilarityFrame(lib, columns, sketches)
        && jaccardFile == Some(df)
    {
      if override || jaccardFile.None? {
        var minhashList := ReadSketches(columns);
        var n := |columns|;
        var matrix := JaccardMatrix(minhashList, lib.jaccard);
        var columnNames := seq(n, i requires 0 <= i < n => Key(columns[i]));
        df := Frame(columnNames, Rows(matrix));
        ghost var expected := SimilarityFrame(lib, columns, sketches).cells;
        forall i | 0 <= i < n ensures df.cells[i] == expected[i] {
          assert |df.cells[i]| == |expected[i]|;
        }
        jaccardFile := Some(df);
        return;
      }
      df := jaccardFile.value;
    }
  }
}
