/** `scripts/Index.py`: correlation lookups over the pickled Jaccard
    matrix (`results/jaccard.obj`) and Pearson matrix
    (`results/pandas_correlation.obj`), both passed in as frames. The
    Jaccard matrix is consulted first. */
module Index {
  import opened Wrappers
  import opened Frames

  predicate DistinctNats(xs: seq<nat>)
  {
    forall a, b :: 0 <= a < b < |xs| ==> xs[a] != xs[b]
  }

  /** Every row named in `rem` is below `n`. */
  predicate Bounded(rem: seq<nat>, n: nat)
  {
    forall a :: 0 <= a < |rem| ==> rem[a] < n
  }

  /** The position in `rem` of the first largest value among the rows `rem`. */
  function ArgMax(vals: seq<real>, rem: seq<nat>): (m: nat)
    requires rem != [] && Bounded(rem, |vals|)
    ensures m < |rem|
  {
    if |rem| == 1 then 0
    else
      var m' := ArgMax(vals, rem[1..]);
      if vals[rem[0]] >= vals[rem[1 + m']] then 0 else 1 + m'
  }

  /** `ArgMax` picks a largest value, and the first of them. */
  lemma {:induction false} ArgMaxIsMax(vals: seq<real>, rem: seq<nat>)
    requires rem != [] && Bounded(rem, |vals|)
    ensures forall a :: 0 <= a < |rem| ==> vals[rem[a]] <= vals[rem[ArgMax(vals, rem)]]
    ensures forall a :: 0 <= a < ArgMax(vals, rem) ==> vals[rem[a]] < vals[rem[ArgMax(vals, rem)]]
  {
    if |rem| > 1 {
      ArgMaxIsMax(vals, rem[1..]);
      var m' := ArgMax(vals, rem[1..]);
      forall a | 1 <= a < |rem| ensures vals[rem[a]] <= vals[rem[1 + m']] {
        assert rem[a] == rem[1..][a - 1];
      }
      forall a | 1 <= a < 1 + m' ensures vals[rem[a]] < vals[rem[1 + m']] {
        assert rem[a] == rem[1..][a - 1];
      }
    }
  }

  /** `rem` with position `m` taken out. */
  function Without(rem: seq<nat>, m: nat): (r: seq<nat>)
    requires m < |rem|
    ensures |r| == |rem| - 1
  {
    rem[..m] + rem[m + 1..]
  }

  /** Positions before `m` stay, later ones move down by one. */
  lemma WithoutAt(rem: seq<nat>, m: nat)
    requires m < |rem|
    ensures forall i :: 0 <= i < m ==> Without(rem, m)[i] == rem[i]
    ensures forall i :: m <= i < |rem| - 1 ==> Without(rem, m)[i] == rem[i + 1]
  {
  }

  /** `series.nlargest(k)` on the rows `rem`: the largest values first,
      equal values in index order; nothing for `k <= 0`. */
  function NLargest(vals: seq<real>, rem: seq<nat>, k: int): (r: seq<nat>)
    requires Bounded(rem, |vals|)
    ensures |r| <= |rem|
    ensures Bounded(r, |vals|)
    decreases |rem|
  {
    if k <= 0 || rem == [] then []
    else
      var m := ArgMax(vals, rem);
      WithoutAt(rem, m);
      [rem[m]] + NLargest(vals, Without(rem, m), k - 1)
  }

  /** Exactly `k` rows are returned when there are that many, all of them
      otherwise, none for `k <= 0`. */
  lemma {:induction false} NLargestLength(vals: seq<real>, rem: seq<nat>, k: int)
    requires Bounded(rem, |vals|)
    ensures |NLargest(vals, rem, k)| == if k <= 0 then 0 else if k < |rem| then k else |rem|
    decreases |rem|
  {
    if k > 0 && rem != [] {
      NLargestLength(vals, Without(rem, ArgMax(vals, rem)), k - 1);
    }
  }

  /** Every row of `r` is one of `rem`. */
  predicate Within(r: seq<nat>, rem: seq<nat>)
  {
    forall a :: 0 <= a < |r| ==> r[a] in rem
  }

  lemma WithinStep(rem: seq<nat>, m: nat, tail: seq<nat>)
    requires m < |rem| && Within(tail, Without(rem, m))
    ensures Within([rem[m]] + tail, rem)
  {
    var rest := Without(rem, m);
    WithoutAt(rem, m);
    var r := [rem[m]] + tail;
    forall a | 1 <= a < |r| ensures r[a] in rem {
      assert r[a] == tail[a - 1] && tail[a - 1] in rest;
      var i :| 0 <= i < |rest| && rest[i] == tail[a - 1];
      if i < m { assert rem[i] == r[a]; } else { assert rem[i + 1] == r[a]; }
    }
  }

  lemma {:induction false} NLargestWithin(vals: seq<real>, rem: seq<nat>, k: int)
    requires Bounded(rem, |vals|)
    ensures Within(NLargest(vals, rem, k), rem)
    decreases |rem|
  {
    if k > 0 && rem != [] {
      var m := ArgMax(vals, rem);
      NLargestWithin(vals, Without(rem, m), k - 1);
      WithinStep(rem, m, NLargest(vals, Without(rem, m), k - 1));
    }
  }

  /** Taking one position out of a repetition-free `rem` keeps it free of
      repetitions and drops exactly that row. */
  lemma RemoveAt(rem: seq<nat>, m: nat)
    requires m < |rem| && DistinctNats(rem)
    ensures DistinctNats(Without(rem, m)) && rem[m] !in Without(rem, m)
  {
    var rest := Without(rem, m);
    WithoutAt(rem, m);
    forall a, b | 0 <= a < b < |rest| ensures rest[a] != rest[b] {
      var a' := if a < m then a else a + 1;
      var b' := if b < m then b else b + 1;
      assert rest[a] == rem[a'] && rest[b] == rem[b'];
    }
    forall a | 0 <= a < |rest| ensures rest[a] != rem[m] {
      if a >= m { assert rest[a] == rem[a + 1]; }
    }
  }

  lemma DistinctStep(x: nat, tail: seq<nat>, rest: seq<nat>)
    requires DistinctNats(tail) && Within(tail, rest) && x !in rest
    ensures DistinctNats([x] + tail)
  {
    var r := [x] + tail;
    forall a, b | 0 <= a < b < |r| ensures r[a] != r[b] {
      assert r[b] == tail[b - 1] && tail[b - 1] in rest;
      if a > 0 { assert r[a] == tail[a - 1]; }
    }
  }

  /** No row is returned twice. */
  lemma {:induction false} NLargestDistinct(vals: seq<real>, rem: seq<nat>, k: int)
    requires Bounded(rem, |vals|) && DistinctNats(rem)
    ensures DistinctNats(NLargest(vals, rem, k))
    decreases |rem|
  {
    if k > 0 && rem != [] {
      var m := ArgMax(vals, rem);
      var rest := Without(rem, m);
      RemoveAt(rem, m);
      NLargestDistinct(vals, rest, k - 1);
      NLargestWithin(vals, rest, k - 1);
      DistinctStep(rem[m], NLargest(vals, rest, k - 1), rest);
    }
  }

  /** The values at rows `r` never increase. */
  predicate Descending(vals: seq<real>, r: seq<nat>)
    requires Bounded(r, |vals|)
  {
    forall a, b :: 0 <= a < b < |r| ==> vals[r[a]] >= vals[r[b]]
  }

  lemma DescendingStep(vals: seq<real>, rem: seq<nat>, m: nat, tail: seq<nat>)
    requires m < |rem| && Bounded(rem, |vals|) && Bounded(tail, |vals|)
    requires forall a :: 0 <= a < |rem| ==> vals[rem[a]] <= vals[rem[m]]
    requires Within(tail, Without(rem, m)) && Descending(vals, tail)
    ensures Bounded([rem[m]] + tail, |vals|) && Descending(vals, [rem[m]] + tail)
  {
    var rest := Without(rem, m);
    WithoutAt(rem, m);
    var r := [rem[m]] + tail;
    forall a | 0 <= a < |tail| ensures vals[tail[a]] <= vals[rem[m]] {
      assert tail[a] in rest;
      var i :| 0 <= i < |rest| && rest[i] == tail[a];
      if i < m { assert rest[i] == rem[i]; } else { assert rest[i] == rem[i + 1]; }
    }
    forall a, b | 0 <= a < b < |r| ensures vals[r[a]] >= vals[r[b]] {
      assert r[b] == tail[b - 1];
      if a > 0 { assert r[a] == tail[a - 1]; }
    }
  }

  /** Values come out in non-increasing order. */
  lemma {:induction false} NLargestDescending(vals: seq<real>, rem: seq<nat>, k: int)
    requires Bounded(rem, |vals|)
    ensures Descending(vals, NLargest(vals, rem, k))
    decreases |rem|
  {
    if k > 0 && rem != [] {
      var m := ArgMax(vals, rem);
      var rest := Without(rem, m);
      NLargestDescending(vals, rest, k - 1);
      NLargestWithin(vals, rest, k - 1);
      ArgMaxIsMax(vals, rem);
      DescendingStep(vals, rem, m, NLargest(vals, rest, k - 1));
    }
  }

  /** No row of `rem` outside `r` has a larger value than a row of `r`. */
  predicate NoneLeftLarger(vals: seq<real>, rem: seq<nat>, r: seq<nat>)
    requires Bounded(rem, |vals|) && Bounded(r, |vals|)
  {
    forall i, a :: 0 <= i < |rem| && rem[i] !in r && 0 <= a < |r| ==> vals[rem[i]] <= vals[r[a]]
  }

  lemma DominatesStep(vals: seq<real>, rem: seq<nat>, m: nat, tail: seq<nat>)
    requires m < |rem| && Bounded(rem, |vals|) && Bounded(tail, |vals|)
    requires forall a :: 0 <= a < |rem| ==> vals[rem[a]] <= vals[rem[m]]
    requires NoneLeftLarger(vals, Without(rem, m), tail)
    ensures Bounded([rem[m]] + tail, |vals|) && NoneLeftLarger(vals, rem, [rem[m]] + tail)
  {
    var rest := Without(rem, m);
    WithoutAt(rem, m);
    var r := [rem[m]] + tail;
    forall i, a | 0 <= i < |rem| && rem[i] !in r && 0 <= a < |r| ensures vals[rem[i]] <= vals[r[a]] {
      if a > 0 {
        assert r[a] == tail[a - 1];
        assert i != m;
        var i' := if i < m then i else i - 1;
        assert rest[i'] == rem[i];
        assert rem[i] !in tail;
      }
    }
  }

  /** No row left out has a larger value than any row returned. */
  lemma {:induction false} NLargestDominates(vals: seq<real>, rem: seq<nat>, k: int)
    requires Bounded(rem, |vals|)
    ensures NoneLeftLarger(vals, rem, NLargest(vals, rem, k))
    decreases |rem|
  {
    if k > 0 && rem != [] {
      var m := ArgMax(vals, rem);
      var rest := Without(rem, m);
      NLargestDominates(vals, rest, k - 1);
      ArgMaxIsMax(vals, rem);
      DominatesStep(vals, rem, m, NLargest(vals, rest, k - 1));
    }
  }

  /** The rows `0 .. n-1`. */
  function Rows(n: nat): (r: seq<nat>)
    ensures |r| == n && forall a :: 0 <= a < n ==> r[a] == a
  {
    seq(n, a requires 0 <= a < n => a)
  }

  /** The labels of rows `idx`, in the same order. */
  function LabelsAt(f: Frame, idx: seq<nat>): (r: seq<string>)
    requires forall a :: 0 <= a < |idx| ==> idx[a] < |f.labels|
    ensures |r| == |idx| && forall a :: 0 <= a < |idx| ==> r[a] == f.labels[idx[a]]
  {
    seq(|idx|, a requires 0 <= a < |idx| => f.labels[idx[a]])
  }

  /** With distinct labels, the labels of rows `idx` lead back to `idx`. */
  lemma LabelsAtPositions(f: Frame, idx: seq<nat>)
    requires WellFormed(f) && forall a :: 0 <= a < |idx| ==> idx[a] < |f.labels|
    ensures forall a :: 0 <= a < |idx| ==> IndexOf(f.labels, LabelsAt(f, idx)[a]) == idx[a]
    ensures forall i :: 0 <= i < |f.labels| ==> (f.labels[i] in LabelsAt(f, idx) <==> i in idx)
    ensures DistinctNats(idx) ==> Distinct(LabelsAt(f, idx))
  {
    var r := LabelsAt(f, idx);
    forall a | 0 <= a < |idx| ensures IndexOf(f.labels, r[a]) == idx[a] {
      IndexOfDistinct(f.labels, idx[a]);
    }
    forall i | 0 <= i < |f.labels| ensures f.labels[i] in r <==> i in idx {
      IndexOfDistinct(f.labels, i);
      if i in idx {
        var a :| 0 <= a < |idx| && idx[a] == i;
        assert r[a] == f.labels[i];
      }
    }
  }

  /** The rows chosen by `nlargest`, by position. */
  function TopRows(f: Frame, col: string, k: int): (idx: seq<nat>)
    requires WellFormed(f) && col in f.labels
    ensures forall a :: 0 <= a < |idx| ==> idx[a] < |f.labels|
  {
    NLargest(Series(f, col), Rows(|f.labels|), k)
  }

  /** `f[col].nlargest(k).index.values`. */
  function TopLabels(f: Frame, col: string, k: int): (r: seq<string>)
    requires WellFormed(f) && col in f.labels
    ensures |r| == if k <= 0 then 0 else if k < |f.labels| then k else |f.labels|
    ensures Distinct(r) && forall a :: 0 <= a < |r| ==> r[a] in f.labels
    ensures forall a, b :: 0 <= a < b < |r| ==> At(f, col, r[a]) >= At(f, col, r[b])
    ensures forall row, a :: row in f.labels && row !in r && 0 <= a < |r| ==> At(f, col, row) <= At(f, col, r[a])
  {
    TopLabelsShape(f, col, k);
    TopLabelsOrder(f, col, k);
    TopLabelsDominate(f, col, k);
    LabelsAt(f, TopRows(f, col, k))
  }

  lemma TopLabelsShape(f: Frame, col: string, k: int)
    requires WellFormed(f) && col in f.labels
    ensures var r := LabelsAt(f, TopRows(f, col, k));
      && |r| == (if k <= 0 then 0 else if k < |f.labels| then k else |f.labels|)
      && Distinct(r) && forall a :: 0 <= a < |r| ==> r[a] in f.labels
  {
    NLargestLength(Series(f, col), Rows(|f.labels|), k);
    NLargestDistinct(Series(f, col), Rows(|f.labels|), k);
    LabelsAtPositions(f, TopRows(f, col, k));
  }

  lemma TopLabelsOrder(f: Frame, col: string, k: int)
    requires WellFormed(f) && col in f.labels
    ensures var r := LabelsAt(f, TopRows(f, col, k));
      forall a, b :: 0 <= a < b < |r| ==> At(f, col, r[a]) >= At(f, col, r[b])
  {
    var vals := Series(f, col);
    var idx := TopRows(f, col, k);
    NLargestDescending(vals, Rows(|f.labels|), k);
    var r := LabelsAt(f, idx);
    forall a, b | 0 <= a < b < |r| ensures At(f, col, r[a]) >= At(f, col, r[b]) {
      assert vals[idx[a]] >= vals[idx[b]];
    }
  }

  lemma TopLabelsDominate(f: Frame, col: string, k: int)
    requires WellFormed(f) && col in f.labels
    ensures var r := LabelsAt(f, TopRows(f, col, k));
      forall row, a :: row in f.labels && row !in r && 0 <= a < |r| ==> At(f, col, row) <= At(f, col, r[a])
  {
    var vals := Series(f, col);
    var n := |f.labels|;
    var idx := TopRows(f, col, k);
    NLargestDominates(vals, Rows(n), k);
    LabelsAtPositions(f, idx);
    var r := LabelsAt(f, idx);
    forall row, a | row in f.labels && row !in r && 0 <= a < |r| ensures At(f, col, row) <= At(f, col, r[a]) {
      var i := IndexOf(f.labels, row);
      assert Rows(n)[i] == i && i !in idx;
      assert vals[i] <= vals[idx[a]];
    }
  }

  /** The rows whose value exceeds `t`, in index order. */
  function AboveIndices(vals: seq<real>, t: real): (r: seq<nat>)
    ensures forall a :: 0 <= a < |r| ==> r[a] < |vals| && vals[r[a]] > t
    ensures forall a, b :: 0 <= a < b < |r| ==> r[a] < r[b]
    ensures forall i :: 0 <= i < |vals| && vals[i] > t ==> i in r
  {
    if vals == [] then []
    else
      var n := |vals| - 1;
      AboveIndices(vals[..n], t) + if vals[n] > t then [n] else []
  }

  /** `f.index[f[col] > t].tolist()`. */
  function LabelsAbove(f: Frame, col: string, t: real): (r: seq<string>)
    requires WellFormed(f) && col in f.labels
    ensures forall row :: row in f.labels ==> (row in r <==> At(f, col, row) > t)
    ensures forall x :: x in r ==> x in f.labels
    ensures forall a, b :: 0 <= a < b < |r| ==> IndexOf(f.labels, r[a]) < IndexOf(f.labels, r[b])
  {
    LabelsAboveMembers(f, col, t);
    LabelsAboveOrder(f, col, t);
    LabelsAt(f, AboveIndices(Series(f, col), t))
  }

  lemma LabelsAboveMembers(f: Frame, col: string, t: real)
    requires WellFormed(f) && col in f.labels
    ensures var r := LabelsAt(f, AboveIndices(Series(f, col), t));
      forall row :: row in f.labels ==> (row in r <==> At(f, col, row) > t)
  {
    var vals := Series(f, col);
    var idx := AboveIndices(vals, t);
    var r := LabelsAt(f, idx);
    LabelsAtPositions(f, idx);
    forall row | row in f.labels ensures row in r <==> At(f, col, row) > t {
      var i := IndexOf(f.labels, row);
      assert f.labels[i] == row && vals[i] == At(f, col, row);
      assert row in r <==> i in idx;
    }
  }

  lemma LabelsAboveOrder(f: Frame, col: string, t: real)
    requires WellFormed(f) && col in f.labels
    ensures var r := LabelsAt(f, AboveIndices(Series(f, col), t));
      && (forall x :: x in r ==> x in f.labels)
      && (forall a, b :: 0 <= a < b < |r| ==> IndexOf(f.labels, r[a]) < IndexOf(f.labels, r[b]))
  {
    var idx := AboveIndices(Series(f, col), t);
    var r := LabelsAt(f, idx);
    LabelsAtPositions(f, idx);
    forall x | x in r ensures x in f.labels {
      var a :| 0 <= a < |r| && r[a] == x;
      assert x == f.labels[idx[a]];
    }
  }

  /** `get_correlation(col1, col2)`: the Jaccard value when both names are
      Jaccard columns, else the Pearson value when both are Pearson
      columns, else nothing. */
  function GetCorrelation(jaccard: Frame, pearson: Frame, col1: string, col2: string): (r: Option<real>)
    requires WellFormed(jaccard) && WellFormed(pearson)
    ensures r.Some? <==> (col1 in jaccard.labels && col2 in jaccard.labels)
                         || (col1 in pearson.labels && col2 in pearson.labels)
    ensures col1 in jaccard.labels && col2 in jaccard.labels ==> r == Some(At(jaccard, col1, col2))
    ensures !(col1 in jaccard.labels && col2 in jaccard.labels) && col1 in pearson.labels && col2 in pearson.labels
      ==> r == Some(At(pearson, col1, col2))
  {
    if col1 in jaccard.labels && col2 in jaccard.labels then Some(At(jaccard, col1, col2))
    else if col1 in pearson.labels && col2 in pearson.labels then Some(At(pearson, col1, col2))
    else None
  }

  /** A pair found in the Jaccard matrix never depends on the Pearson
      matrix, and a pair outside it never depends on the Jaccard values. */
  lemma CorrelationPrecedence(jaccard: Frame, jaccard': Frame, pearson: Frame, pearson': Frame, col1: string, col2: string)
    requires WellFormed(jaccard) && WellFormed(pearson) && WellFormed(jaccard') && WellFormed(pearson')
    ensures col1 in jaccard.labels && col2 in jaccard.labels ==>
      GetCorrelation(jaccard, pearson, col1, col2) == GetCorrelation(jaccard, pearson', col1, col2)
    ensures jaccard'.labels == jaccard.labels && !(col1 in jaccard.labels && col2 in jaccard.labels) ==>
      GetCorrelation(jaccard, pearson, col1, col2) == GetCorrelation(jaccard', pearson, col1, col2)
  {
  }

  /** `get_top_k(col1, k)`: from the Jaccard matrix if `col1` is one of its
      columns, else from the Pearson matrix, else nothing. */
  function GetTopK(jaccard: Frame, pearson: Frame, col1: string, k: int): (r: Option<seq<string>>)
    requires WellFormed(jaccard) && WellFormed(pearson)
    ensures r.Some? <==> col1 in jaccard.labels || col1 in pearson.labels
    ensures col1 in jaccard.labels ==> r == Some(TopLabels(jaccard, col1, k))
    ensures col1 !in jaccard.labels && col1 in pearson.labels ==> r == Some(TopLabels(pearson, col1, k))
  {
    if col1 in jaccard.labels then Some(TopLabels(jaccard, col1, k))
    else if col1 in pearson.labels then Some(TopLabels(pearson, col1, k))
    else None
  }

  /** `get_greater_than_threshold(col1, threshold)`, with the same precedence. */
  function GetGreaterThanThreshold(jaccard: Frame, pearson: Frame, col1: string, threshold: real)
    : (r: Option<seq<string>>)
    requires WellFormed(jaccard) && WellFormed(pearson)
    ensures r.Some? <==> col1 in jaccard.labels || col1 in pearson.labels
    ensures col1 in jaccard.labels ==> r == Some(LabelsAbove(jaccard, col1, threshold))
    ensures col1 !in jaccard.labels && col1 in pearson.labels ==> r == Some(LabelsAbove(pearson, col1, threshold))
  {
    if col1 in jaccard.labels then Some(LabelsAbove(jaccard, col1, threshold))
    else if col1 in pearson.labels then Some(LabelsAbove(pearson, col1, threshold))
    else None
  }
}
