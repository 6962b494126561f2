/** Label-indexed square matrices: the pandas DataFrames pickled as
    `results/jaccard.obj` and `results/pandas_correlation.obj`, whose index
    and columns carry the same column keys. */
module Frames {

  /** `cells[r][c]` is the value at row `r`, column `c`; `labels` names both
      the rows (the index) and the columns. */
  datatype Frame = Frame(labels: seq<string>, cells: seq<seq<real>>)

  predicate Distinct(xs: seq<string>)
  {
    forall a, b :: 0 <= a < b < |xs| ==> xs[a] != xs[b]
  }

  /** A square frame whose labels are distinct, so that `f[col][row]` is a
      single number. */
  predicate WellFormed(f: Frame)
  {
    && |f.cells| == |f.labels|
    && (forall r :: 0 <= r < |f.cells| ==> |f.cells[r]| == |f.labels|)
    && Distinct(f.labels)
  }

  /** The position of the first occurrence of `x` in `xs`. */
  function IndexOf(xs: seq<string>, x: string): (k: nat)
    requires x in xs
    ensures k < |xs| && xs[k] == x
    ensures forall a :: 0 <= a < k ==> xs[a] != x
  {
    if xs[0] == x then 0 else 1 + IndexOf(xs[1..], x)
  }

  lemma IndexOfDistinct(xs: seq<string>, k: nat)
    requires Distinct(xs) && k < |xs|
    ensures IndexOf(xs, xs[k]) == k
  {
  }

  /** `f[col][row]`: the value of column `col` at row `row`. */
  function At(f: Frame, col: string, row: string): real
    requires WellFormed(f) && col in f.labels && row in f.labels
  {
    f.cells[IndexOf(f.labels, row)][IndexOf(f.labels, col)]
  }

  /** `f[col]`: column `col` as a series over the index, in index order. */
  function Series(f: Frame, col: string): (s: seq<real>)
    requires WellFormed(f) && col in f.labels
    ensures |s| == |f.labels|
    ensures forall r :: 0 <= r < |s| ==> s[r] == At(f, col, f.labels[r])
  {
    var c := IndexOf(f.labels, col);
    forall r | 0 <= r < |f.labels| ensures IndexOf(f.labels, f.labels[r]) == r {
      IndexOfDistinct(f.labels, r);
    }
    seq(|f.labels|, r requires 0 <= r < |f.labels| => f.cells[r][c])
  }
}
