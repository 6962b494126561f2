# Correlated-columns detection, modelled in Dafny

This project models the logic that the correlated-columns detection
repository owns itself. The repository looks for correlated columns in
BigQuery public datasets. String columns are compared by MinHash estimates
of the Jaccard similarity of their token sets. The surrounding glue (the
`datasketch` library, BigQuery, the REST API, pickled result files) is
abstract here.

The modules follow the repository's files:

- `Wrappers`: `Option` and `Result`.
- `Text`: the Python string operations the code relies on:
  - `str.lower()` on ASCII;
  - `str.split()` and `str.split(sep)`, with `sep.join`;
  - `lstrip`/`rstrip`;
  - `startswith`;
  - `replace` of one character.
- `Columns`: a column record `{table, column}`, its key
  `table + "." + column`, and the split of a qualified name at its last `.`.
- `Sketches`: the `datasketch` objects, seen from outside.
  - A `Signature` is an abstract MinHash.
  - A forest or LSH is recorded as its `(key, signature)` insertions, in order.
  - The collaborators the code calls are function values of a `Library`:
    - the MinHash of a token set;
    - `jaccard`;
    - the forest and LSH queries;
    - the two column-value suppliers.
  - The file also holds the `n`-by-`n` matrix fill on an `array2`.
- `Frames`: the label-indexed square DataFrames (`f[col][row]`).
- `ClusterColumnsSrc` (`src/ClusterColumns.py`):
  - the set tokenizer;
  - the `Store` class, which holds the sketch files as a map from column key
    to signature, plus the cached forest, the cached LSH for each threshold,
    and the cached Jaccard frame;
  - the cache-or-rebuild rules of the builders.
- `ClusterColumnsScripts` (`scripts/ClusterColumns.py`): the list tokenizer,
  and the builders that sketch every column afresh.
- `QueryDatabase` (`scripts/QueryDatabase.py`): over the parsed column
  catalogue, the type validation, filtering, renaming, truncation and
  per-type counting.
- `Index` (`scripts/Index.py`): the Jaccard-before-Pearson dispatch,
  `nlargest`, and the strict threshold filter.
- `GraphicalViews` (`scripts/GraphicalViews.py`, lines 24-54 of `plot`): the
  threshold row and column selection, and the submatrix.
- `MetaData` (`scripts/MetaData.py`): the metadata line parsing, with REST
  responses passed in as functions.

Loops in the source are methods with loop invariants. Each method is proved
equal to a specification function, and the properties are proved about
those functions as lemmas.

## Model

| member | source | states |
|---|---|---|
| Text.LowerChar | src/ClusterColumns.py:28 | lower-casing one character leaves no ASCII capital and keeps whitespace as whitespace |
| Text.Lower | src/ClusterColumns.py:28 | `value.lower()` has the same length, and each character is lower-cased in place |
| Text.Words | src/ClusterColumns.py:28 | every piece of `split()` is non-empty and free of whitespace |
| Text.WordsOfJoin | scripts/ClusterColumns.py:26 | words joined by single spaces split back into exactly those words |
| Text.SplitOn | scripts/ClusterColumns.py:74 | `split(sep)` yields at least one piece, and no piece contains `sep` |
| Text.JoinSplitOn | scripts/ClusterColumns.py:74 | joining the pieces of `split(sep)` with `sep` gives the text back |
| Text.SplitOnSingle | scripts/MetaData.py:32 | a text splits into one piece exactly when it has no separator; that piece is the text |
| Text.SplitOnAppend | scripts/MetaData.py:49 | splitting `a + sep + b` splits `a` and `b` separately and concatenates the pieces |
| Text.TrimStart | scripts/MetaData.py:48 | `lstrip()` removes a whitespace prefix and leaves a suffix not starting with whitespace |
| Text.TrimEnd | scripts/MetaData.py:48 | `rstrip()` removes a whitespace suffix and leaves a prefix not ending in whitespace |
| Text.StripPadded | scripts/MetaData.py:32 | stripping a whitespace-padded text returns exactly the unpadded text |
| Text.ReplaceChar | scripts/QueryDatabase.py:45 | `replace(':', '.')` keeps the length, turns every `:` into `.`, leaves every other character as it is, and leaves no `:` |
| Columns.SplitQualifiedAtLastDot | scripts/ClusterColumns.py:74-75 | the column part has no `.`; table + `.` + column rebuilds a dotted name; a name without `.` gives `("", name)` |
| Columns.KeyRoundTrip | scripts/ClusterColumns.py:74-75 | splitting the key `table.column` of a column whose name has no `.` gives back its table and column |
| Sketches.JaccardMatrix | src/ClusterColumns.py:114-118 | the matrix is `n` by `n` and entry `(i, j)` is `jaccard(sig_i, sig_j)` |
| Sketches.Rows | src/ClusterColumns.py:119 | the frame's rows hold the matrix entries at the same positions |
| Frames.IndexOf | scripts/Index.py:45 | the position returned holds the label, and no earlier position does |
| Frames.Series | scripts/Index.py:45 | `f[col]` lists the column's value at every row label, in index order |
| ClusterColumnsSrc.Tokenize | src/ClusterColumns.py:23-29 | a token is returned iff it is a `split()` piece of some non-`None` value lower-cased; an empty input gives the empty set |
| ClusterColumnsSrc.TokenSetWords | src/ClusterColumns.py:28 | every token is non-empty and free of whitespace |
| ClusterColumnsSrc.TokenSetOfSameValues | src/ClusterColumns.py:25-28 | two value lists holding the same values, repeated or not, have the same token set |
| ClusterColumnsSrc.Serialized | src/ClusterColumns.py:139-153 | after serializing, every listed column's key has an entry, and no existing entry is removed |
| ClusterColumnsSrc.SerializedTouchesOnlyListed | src/ClusterColumns.py:139-153 | the keys afterwards are the old keys plus the listed keys; unlisted entries are unchanged |
| ClusterColumnsSrc.SerializedKeepsExisting | src/ClusterColumns.py:141-142 | without override, every existing entry is unchanged |
| ClusterColumnsSrc.SerializedFirstWriteWins | src/ClusterColumns.py:139-148 | without override, an absent key gets the sketch of its first listed column |
| ClusterColumnsSrc.SerializedLastWriteWins | src/ClusterColumns.py:139-153 | with override, each key gets the sketch of its last listed column |
| ClusterColumnsSrc.SimilarityFrameLookup | src/ClusterColumns.py:119-122 | with distinct keys, the frame is well formed, labelled by the keys, and `df[key_i][key_j]` is `jaccard(sig_j, sig_i)` |
| ClusterColumnsSrc.Store.SerializeMinHash | src/ClusterColumns.py:132-154 | the new sketch map is the old one with the skip-if-present-unless-override rule applied column by column |
| ClusterColumnsSrc.Store.DeserializeMinHash | src/ClusterColumns.py:157-168 | builds the entry only when it is absent, and returns the stored entry; a present entry is returned unchanged |
| ClusterColumnsSrc.Store.ReadSketches | src/ClusterColumns.py:111-113 | one signature per column, in order, each the stored one; missing sketches are built first |
| ClusterColumnsSrc.Store.BuildLshForest | src/ClusterColumns.py:32-52 | returns the cached forest unchanged unless override is set or none is cached; otherwise one add per column in order with its stored sketch, indexed, then cached |
| ClusterColumnsSrc.Store.BuildMinHashLsh | src/ClusterColumns.py:55-76 | the same cache-or-rebuild rule, in a cache slot of its own per threshold; other thresholds' slots are kept |
| ClusterColumnsSrc.Store.GetTopK | src/ClusterColumns.py:79-88 | queries the forest with the column's stored sketch, built first if absent |
| ClusterColumnsSrc.Store.GetAllSimilarColumns | src/ClusterColumns.py:91-99 | queries the LSH with the column's stored sketch, built first if absent |
| ClusterColumnsSrc.Store.CalculateJaccardSimilarity | src/ClusterColumns.py:102-129 | returns the cached frame unchanged unless override is set or none is cached; otherwise the key-labelled pairwise frame of the stored sketches, then cached |
| ClusterColumnsScripts.TokenizeList | scripts/ClusterColumns.py:15-27 | the list is the concatenation, in value order, of each non-`None` value's lower-cased pieces |
| ClusterColumnsScripts.TokenListLength | scripts/ClusterColumns.py:24-26 | the list length is the sum over non-`None` values of their piece counts |
| ClusterColumnsScripts.TokenListWords | scripts/ClusterColumns.py:26 | every listed token is non-empty and free of whitespace |
| ClusterColumnsScripts.TokenListMatchesTokenSet | scripts/ClusterColumns.py:21-27 | the list variant holds exactly the tokens of the set variant in `src/ClusterColumns.py` |
| ClusterColumnsScripts.ProbeOfKey | scripts/ClusterColumns.py:74-78 | querying with a column's key sketches that very column, when its name has no `.` |
| ClusterColumnsScripts.SketchesAgree | scripts/ClusterColumns.py:38-42 | when both value suppliers give the same values, the two variants compute the same sketch for a column |
| ClusterColumnsScripts.ColumnMinHash | scripts/ClusterColumns.py:38-42 | the MinHash of a column is the sketch of its tokenized values |
| ClusterColumnsScripts.BuildLshForest | scripts/ClusterColumns.py:30-45 | exactly one add per column, in column order, keyed `table.column`, then indexed |
| ClusterColumnsScripts.BuildMinHashLsh | scripts/ClusterColumns.py:48-63 | exactly one insert per column, in column order, keyed `table.column`, at the given threshold |
| ClusterColumnsScripts.GetTopK | scripts/ClusterColumns.py:66-81 | queries the forest with the sketch of the column that the qualified name splits into |
| ClusterColumnsScripts.GetAllSimilarColumns | scripts/ClusterColumns.py:84-98 | queries the LSH with the sketch of the column that the qualified name splits into |
| ClusterColumnsScripts.CalculateJaccardSimilarity | scripts/ClusterColumns.py:101-120 | an `n`-by-`n` matrix whose `(i, j)` is the jaccard of the sketches of columns `i` and `j` |
| QueryDatabase.Truncate | scripts/QueryDatabase.py:46 | `output[:limit]` is a prefix; its length is `min(limit, n)` for `limit >= 0`, and all but the last `-limit` otherwise |
| QueryDatabase.SelectedInMembers | scripts/QueryDatabase.py:43-45 | a column is selected from a table iff one of its fields passes the filter and gives that column |
| QueryDatabase.SelectedMembers | scripts/QueryDatabase.py:41-45 | a column is selected iff some table has a passing field with that name, under the table's dotted name |
| QueryDatabase.SelectedTablesDotted | scripts/QueryDatabase.py:45 | no selected table name contains `:` |
| QueryDatabase.GetColumns | scripts/QueryDatabase.py:29-46 | `ValueError` exactly for a type outside `COLUMN_TYPES`; otherwise the columns of that type in table-then-field order, truncated to `limit` |
| QueryDatabase.FirstInvalid | scripts/QueryDatabase.py:55-57 | none iff every listed type is valid; otherwise an invalid listed type |
| QueryDatabase.FirstInvalidAt | scripts/QueryDatabase.py:55-57 | the error names the first invalid type in list order |
| QueryDatabase.GetColumnsExclude | scripts/QueryDatabase.py:49-67 | `ValueError` for the first invalid type; the unbound-variable error for an empty type list when any field exists; otherwise the valid-typed columns not of the *last* listed type, truncated |
| QueryDatabase.ScanExcept | scripts/QueryDatabase.py:62-66 | with no bound type, the first field raises, and nothing is raised when there are no fields; otherwise the valid columns not of that type |
| QueryDatabase.NoFieldsNothingSelected | scripts/QueryDatabase.py:63-66 | a catalogue without fields selects nothing |
| QueryDatabase.GetColumnsExcludeIntended | scripts/QueryDatabase.py:49-67 | fails iff some listed type is invalid; every returned column has a valid type that is none of the listed types; below the limit, every column of a valid unlisted type is returned, so an empty list excludes nothing |
| QueryDatabase.ExcludeKeepsEarlierListedTypes | scripts/QueryDatabase.py:65 | for a catalogue with one STRING column and `["STRING", "INTEGER"]`, the code returns that column and the intended exclusion returns nothing |
| QueryDatabase.FieldTypes | scripts/QueryDatabase.py:79-80 | one type per field, in field order |
| QueryDatabase.IncrementCounts | scripts/QueryDatabase.py:80 | `output[t] += 1` adds one to `t`'s count only, and one to the total |
| QueryDatabase.IncrementKeys | scripts/QueryDatabase.py:80 | the keys after an increment are the old keys plus `t` |
| QueryDatabase.IncrementPositive | scripts/QueryDatabase.py:80 | every stored count stays at least one |
| QueryDatabase.IncrementDistinct | scripts/QueryDatabase.py:80 | keys stay distinct |
| QueryDatabase.CountedStep | scripts/QueryDatabase.py:78-80 | counting one more type keeps the counts equal to the occurrences seen |
| QueryDatabase.TallyCounted | scripts/QueryDatabase.py:77-80 | after a sequence of increments: distinct keys, positive counts, each type's count is its number of occurrences, and the counts sum to the number seen |
| QueryDatabase.TallySnoc | scripts/QueryDatabase.py:80 | tallying one more type is one more increment |
| QueryDatabase.GetAllColumnTypes | scripts/QueryDatabase.py:70-81 | one key per occurring type, each count equal to that type's number of columns, and the counts summing to the number of columns |
| Index.ArgMax | scripts/Index.py:45 | the chosen position is a candidate |
| Index.ArgMaxIsMax | scripts/Index.py:45 | the chosen candidate has the largest value, and no earlier candidate has the same value |
| Index.NLargest | scripts/Index.py:45 | no more rows than candidates, all of them rows of the column |
| Index.NLargestLength | scripts/Index.py:45 | `nlargest(k)` returns `min(k, n)` rows, or none for `k <= 0` |
| Index.NLargestWithin | scripts/Index.py:45 | every selected row is a candidate |
| Index.NLargestDistinct | scripts/Index.py:45 | no row is selected twice |
| Index.NLargestDescending | scripts/Index.py:45 | the selection is in non-increasing order of value |
| Index.NLargestDominates | scripts/Index.py:45 | no omitted candidate has a larger value than a selected one |
| Index.Rows | scripts/Index.py:45 | the positions `0 .. n-1` in order |
| Index.LabelsAt | scripts/Index.py:45 | `.index.values` of the selected positions: the label of each, in order |
| Index.LabelsAtPositions | scripts/Index.py:45 | labels map back to their positions; a label is listed iff its position is; distinct positions give distinct labels |
| Index.TopLabels | scripts/Index.py:45 | `min(k, n)` distinct labels (none for `k <= 0`), in non-increasing order of `f[col]`, and no omitted label has a larger value |
| Index.TopLabelsShape | scripts/Index.py:45 | the number of labels and their distinctness |
| Index.TopLabelsOrder | scripts/Index.py:45 | the labels are in non-increasing order of value |
| Index.TopLabelsDominate | scripts/Index.py:45 | no omitted label has a larger value than a listed one |
| Index.AboveIndices | scripts/Index.py:69 | exactly the positions whose value is strictly above the threshold, increasing |
| Index.LabelsAbove | scripts/Index.py:69 | a row label is returned iff `f[col][row] > threshold`, in index order |
| Index.LabelsAboveMembers | scripts/Index.py:69 | a label is listed iff its value is above the threshold |
| Index.LabelsAboveOrder | scripts/Index.py:69 | the listed labels follow the index order |
| Index.GetCorrelation | scripts/Index.py:18-27 | the Jaccard value when both names are Jaccard columns; otherwise the Pearson value when both are Pearson columns; otherwise nothing |
| Index.CorrelationPrecedence | scripts/Index.py:20-23 | the Pearson matrix cannot change a pair the Jaccard matrix holds, and its values are used only for other pairs |
| Index.GetTopK | scripts/Index.py:42-50 | nothing iff the column is in neither matrix; otherwise the top-k labels of the Jaccard column, or of the Pearson one if it is not a Jaccard column |
| Index.GetGreaterThanThreshold | scripts/Index.py:66-74 | the same precedence, returning the labels strictly above the threshold |
| GraphicalViews.VIsAt | scripts/GraphicalViews.py:30 | the positional value is `corr_mat[column_names[i]][column_names[j]]` |
| GraphicalViews.FirstRowFrom | scripts/GraphicalViews.py:29-34 | the first row from `s` on that exceeds the threshold against column `j`, or `j` if none does |
| GraphicalViews.FirstRow | scripts/GraphicalViews.py:29-34 | column `j` is met in some row's pass iff a row above it exceeds the threshold; that row is the first one |
| GraphicalViews.RowStep | scripts/GraphicalViews.py:30-32 | one inner step keeps `th_i` equal to the kept rows seen so far |
| GraphicalViews.ColumnStep | scripts/GraphicalViews.py:30-34 | one inner step keeps `th_j` equal to the columns met so far, in discovery order |
| GraphicalViews.RowsToPass | scripts/GraphicalViews.py:29-32 | a row's pass keeps `th_i` right at every column |
| GraphicalViews.ColumnsToPass | scripts/GraphicalViews.py:29-34 | a row's pass keeps `th_j` right at every column |
| GraphicalViews.UpToKeeps | scripts/GraphicalViews.py:27-34 | after the passes of rows `0 .. i-1`, `th_i` and `th_j` hold what those passes found |
| GraphicalViews.PassesDone | scripts/GraphicalViews.py:27-34 | after all passes, the two lists are exactly the kept rows and columns, in their orders |
| GraphicalViews.RowPass | scripts/GraphicalViews.py:29-34 | the inner loop computes one row's pass over the columns to its right |
| GraphicalViews.ThresholdIndices | scripts/GraphicalViews.py:27-34 | `th_i`: ascending, without repeats, exactly the rows with a later column above the threshold, each below `n-1`; `th_j`: without repeats, in discovery order, exactly the columns with an earlier row above it, each at least 1 |
| GraphicalViews.ThresholdMatrix | scripts/GraphicalViews.py:36-41 | `len(th_i)` rows of `len(th_j)` entries, with `th_mat[a][b] = v(th_i[a], th_j[b])` |
| GraphicalViews.NamesOf | scripts/GraphicalViews.py:47-50 | `col_names[a]` is `column_names[idx[a]]` |
| GraphicalViews.LabelsOfPositions | scripts/GraphicalViews.py:47-50 | with distinct labels, a label is listed iff its position was kept |
| GraphicalViews.PlotData | scripts/GraphicalViews.py:24-54 | at or below `-1.0`, the whole matrix and all labels; above it, the submatrix labelled by exactly the kept rows and columns, in their orders |
| MetaData.DatasetIds | scripts/MetaData.py:18 | the response's dataset ids, in response order |
| MetaData.WantedHasColon | scripts/MetaData.py:30-32 | a line passing the prefix filter has a `:`, so the second field exists |
| MetaData.DatasetIdOfLine | scripts/MetaData.py:32 | a saved `project:dataset` line, with its trailing newline, gives back `dataset` |
| MetaData.GetTables | scripts/MetaData.py:27-36 | the tables of the wanted lines, in line order, each line's in response order |
| MetaData.TablesOfSnoc | scripts/MetaData.py:29-35 | one more line appends exactly its own tables |
| MetaData.FlatMapAppend | scripts/MetaData.py:35 | extending over two runs of lines is extending over each in turn |
| MetaData.FlatMapMembers | scripts/MetaData.py:35 | a table is listed iff some line contributes it |
| MetaData.TablesOfSpec | scripts/MetaData.py:29-35 | a table is listed iff a line with a wanted prefix lists it for its dataset id; the tables of two files concatenate |
| MetaData.ParseTableName | scripts/MetaData.py:49-50 | `IndexError` exactly when the name has no `:`, `ValueError` for every other failure; on success the second `:`-field is `dataset.table`, and neither part contains a `.` |
| MetaData.ParseTableNameOfField | scripts/MetaData.py:49-50 | a name whose second `:`-field is `dataset.table`, with no `.` in either part, parses into that pair |
| MetaData.ParseTableNameCases | scripts/MetaData.py:49-50 | `project:dataset.table` parses to `(dataset, table)`; a name without `:` fails with an index error |
| MetaData.HasKeyCons | scripts/MetaData.py:54 | a key is present iff it is the first one or present in the rest |
| MetaData.AssignLookup | scripts/MetaData.py:54 | `tables[k] = v` makes `k` map to `v` and leaves every other key's value alone |
| MetaData.AssignKeys | scripts/MetaData.py:54 | an existing key keeps its position; a new key goes at the end |
| MetaData.AssignDistinct | scripts/MetaData.py:54 | keys stay distinct, and the keys afterwards are the old ones plus `k` |
| MetaData.GivesCons | scripts/MetaData.py:47-54 | a key is given by the lines iff by the first line or by the rest |
| MetaData.FoldSucceeds | scripts/MetaData.py:47-54 | the loop completes iff every line is accepted |
| MetaData.FoldFirstError | scripts/MetaData.py:47-54 | the error raised is the first rejected line's |
| MetaData.FoldKeys | scripts/MetaData.py:47-54 | after the loop, keys are distinct, and a key is present iff it was present before or a line gave it |
| MetaData.FoldUntouched | scripts/MetaData.py:47-54 | a key no line gives keeps its value |
| MetaData.FoldLastWins | scripts/MetaData.py:47-54 | a key ends with the value of the last line that gives it |
| MetaData.LineEntry | scripts/MetaData.py:48-54 | a line is accepted iff its stripped name parses; it is keyed by the stripped name with the description of its dataset and table |
| MetaData.GetTableColumns | scripts/MetaData.py:44-55 | the loop fills the dict line by line, as the fold over the lines specifies |
| MetaData.AllOkAllParse | scripts/MetaData.py:48-50 | every line is accepted iff every stripped line parses |
| MetaData.TableColumnsErrors | scripts/MetaData.py:47-50 | succeeds iff every stripped line parses; otherwise fails with the first malformed line's error |
| MetaData.TableColumnsKeys | scripts/MetaData.py:47-54 | one entry per distinct stripped line: keys are distinct and exactly the stripped lines |
| MetaData.TableColumnsLastWins | scripts/MetaData.py:54 | a repeated table line's last description overwrites the earlier ones |

## Left out

- The `datasketch` internals are not modelled: the hashing in
  `MinHash.update`, the `LeanMinHash` byte layout, the forest and LSH query
  algorithms, and the banding parameters. `Signature` is an abstract type.
  The forest and LSH are their insertion logs. The queries and `jaccard`
  are opaque functions. No byte round-trip, recall or accuracy is claimed.
- The MinHash update loop (`for token in tokens: minhash.update(...)`) is
  not modelled. The sketch is a function of the set of tokens fed. MinHash
  does not depend on order or repetition, so the list and set tokenizers
  can be compared.
- `str.lower()` and `str.isspace()`:
  - lower-casing covers ASCII letters only;
  - whitespace is the ASCII and Unicode separators that Python's
    `str.isspace()` accepts, as listed in `Text.IsSpace`.
- `datasketch` raises when a key is added to a forest or LSH twice. The
  insertion logs do not model this check; the keys are recorded as given.
- Floating point is not modelled:
  - correlation values are `real`;
  - NaN and ties in pandas `nlargest` are not modelled beyond first-position
    tie breaking;
  - frames are assumed to have distinct labels.
- All file I/O is left out: pickle files, sketch files, `os.path.isfile`,
  environment variables, logging and `print`. Instead:
  - the sketch files are a map in the `Store` class;
  - the pickles are `Option` or map fields.
- The REST, BigQuery and OAuth calls are left out. Their results are
  parameters: the `Library` functions, the dataset list, the `listTables`
  and `describe` functions, and the parsed catalogue. The following are not
  part of this model:
  - `scripts/RESTUtil.py`;
  - `main.py`;
  - `src/QueryDatabase.py`;
  - the value-fetching functions of `scripts/QueryDatabase.py` (lines 84 on).
- The one-argument `get_columns` at `scripts/QueryDatabase.py:14-26` is not
  modelled: the definition at line 29 replaces it.
- The `main` functions and `save_locally` are not modelled.
- `src/PearsonCorrelation.py` and `scripts/PearsonCorrelation.py` are not
  part of this model. They compute floating-point statistics over random
  samples.
- The plotting in `scripts/GraphicalViews.py` from line 56 on is matplotlib
  drawing, and is not modelled.
- ClusterColumnsSrc.Store.BuildMinHashLsh and ClusterColumnsScripts.BuildMinHashLsh
  do not model two points:
  - **Cache key.** The source names the cache file `lsh_{threshold}.obj`, by
    the threshold's printed form. The model keys the cache by the threshold's
    value. So `1` after `1.0` (or `-0.0` after `0.0`) rebuilds and writes a
    second file in the source, but returns the cached LSH in the model.
  - **Threshold range.** `MinHashLSH` raises `ValueError` for a threshold
    outside `[0, 1]`. The model builds an LSH for any real threshold.
- ClusterColumnsSrc.Store.CalculateJaccardSimilarity receives the STRING
  columns as a parameter. It does not call `get_columns('STRING')` itself.
- The distinct-value supplier is given the whole column record, as in
  `src/ClusterColumns.py:143`. What that supplier does with the record is
  not modelled.
- Metadata files are given as the sequence of their lines, each possibly
  ending in whitespace.
- `get_table_columns` stores only the schema fields. Here they are the
  abstract value `describe(dataset, table)`.
- The dict keeps insertion order; this is modelled as an association list.
- Two nested loops become a loop that calls a helper method:
  - the inner loop of the threshold selection is `RowPass`;
  - the scan of `get_columns_exclude` is `ScanExcept`.

  The order of the steps is the same as in the source.

## Findings

| source | as written | input that shows it | evidently intended | confidence | as-written member | corrected member |
|---|---|---|---|---|---|---|
| scripts/QueryDatabase.py:65 | the scan compares each field with `column_type`, the loop variable left over from the validation loop at line 55. So only the last listed type is excluded, and an empty list raises `UnboundLocalError` once any field exists | the catalogue `{"p:d.t": [{"name": "name", "type": "STRING"}]}` with `column_types = ["STRING", "INTEGER"]` returns the STRING column `p.d.t.name` | exclude every listed type, and exclude nothing for an empty list | not executed | QueryDatabase.ExcludeKeepsEarlierListedTypes | QueryDatabase.GetColumnsExcludeIntended |
