/** The parts of the `datasketch` library and of the data warehouse that the
    clustering code calls, kept abstract: a MinHash signature is an opaque
    value, and the library's hashing, querying and similarity estimate are
    functions handed in from outside. What the repository's own code does
    with them (which keys go in, in which order, with which signature) is
    modelled exactly. */
module Sketches {
  import opened Wrappers
  import opened Columns

  /** `NUM_PERM`: the permutation count of every MinHash, forest and LSH. */
  const NumPerm: nat := 128

  /** A MinHash signature (`MinHash` / `LeanMinHash`); its hash values are
      not modelled. */
  type Signature(==)

  /** A `MinHashLSHForest`, seen through what the code does to it: the
      `(key, signature)` pairs passed to `add`, in call order, and whether
      `index()` has been called since. */
  datatype Forest = Forest(numPerm: nat, entries: seq<(string, Signature)>, indexed: bool)
  {
    /** `forest.add(key, minhash)`. */
    function Add(key: string, sig: Signature): Forest
    {
      this.(entries := entries + [(key, sig)], indexed := false)
    }

    /** `forest.index()`. */
    function Index(): Forest
    {
      this.(indexed := true)
    }
  }

  /** A `MinHashLSH` for one threshold, seen through the `(key, signature)`
      pairs passed to `insert`, in call order. */
  datatype Lsh = Lsh(threshold: real, numPerm: nat, entries: seq<(string, Signature)>)
  {
    /** `minhash_lsh.insert(key, minhash)`. */
    function Insert(key: string, sig: Signature): Lsh
    {
      this.(entries := entries + [(key, sig)])
    }
  }

  /** The collaborators the core calls and cannot see into. */
  datatype Library = Library(
    /** A fresh `MinHash(num_perm=NUM_PERM)` updated with the UTF-8 bytes of
        every token; a MinHash depends only on the set of tokens fed. */
    sketchOf: set<string> -> Signature,
    /** `MinHash.jaccard`: the estimated Jaccard similarity. */
    jaccard: (Signature, Signature) -> real,
    /** `MinHashLSHForest.query(minhash, k)`. */
    forestQuery: (Forest, Signature, int) -> seq<string>,
    /** `MinHashLSH.query(minhash)`. */
    lshQuery: (Lsh, Signature) -> seq<string>,
    /** `get_distnct_column_values(column['table'], column)`: the distinct
        values of a column (it receives the whole column record). */
    distinctValues: Column -> seq<Option<string>>,
    /** `get_column_values(table, column)`: all values of a column. */
    columnValues: (string, string) -> seq<Option<string>>
  )

  /** The `n` by `n` matrix `matrix[i][j] = minhash_list[i].jaccard(minhash_list[j])`,
      filled in place after `np.zeros((n, n))`. */
  method JaccardMatrix(sigs: seq<Signature>, jaccard: (Signature, Signature) -> real)
    returns (matrix: array2<real>)
    ensures matrix.Length0 == |sigs| && matrix.Length1 == |sigs|
    ensures forall i, j :: 0 <= i < |sigs| && 0 <= j < |sigs| ==> matrix[i, j] == jaccard(sigs[i], sigs[j])
  {
    var n := |sigs|;
    matrix := new real[n, n]((i, j) => 0.0);
    for i := 0 to n
      invariant forall a, b :: 0 <= a < i && 0 <= b < n ==> matrix[a, b] == jaccard(sigs[a], sigs[b])
    {
      for j := 0 to n
        invariant forall a, b :: 0 <= a < i && 0 <= b < n ==> matrix[a, b] == jaccard(sigs[a], sigs[b])
        invariant forall b :: 0 <= b < j ==> matrix[i, b] == jaccard(sigs[i], sigs[b])
      {
        matrix[i, j] := jaccard(sigs[i], sigs[j]);
      }
    }
  }

  /** The rows of a matrix, as `pd.DataFrame(matrix)` copies them. */
  function Rows(matrix: array2<real>): (rows: seq<seq<real>>)
    reads matrix
    ensures |rows| == matrix.Length0
    ensures forall i :: 0 <= i < |rows| ==> |rows[i]| == matrix.Length1
    ensures forall i, j :: 0 <= i < matrix.Length0 && 0 <= j < matrix.Length1 ==> rows[i][j] == matrix[i, j]
  {
    seq(matrix.Length0, i requires 0 <= i < matrix.Length0 reads matrix =>
      seq(matrix.Length1, j requires 0 <= j < matrix.Length1 reads matrix => matrix[i, j]))
  }
}
