/** `scripts/GraphicalViews.py`, the part of `plot` that chooses what to
    draw: with a threshold above `-1.0`, only the rows and columns that take
    part in some pair above the threshold (upper triangle, `i < j`) are
    kept; otherwise the whole matrix and every label. */
module GraphicalViews {
  import opened Frames

  /** `corr_mat[column_names[i]][column_names[j]]`: column `i` at row `j`. */
  function V(f: Frame, i: nat, j: nat): real
    requires WellFormed(f) && i < |f.labels| && j < |f.labels|
  {
    f.cells[j][i]
  }

  /** Positions and labels name the same cell. */
  lemma VIsAt(f: Frame, i: nat, j: nat)
    requires WellFormed(f) && i < |f.labels| && j < |f.labels|
    ensures V(f, i, j) == At(f, f.labels[i], f.labels[j])
  {
    IndexOfDistinct(f.labels, i);
    IndexOfDistinct(f.labels, j);
  }

  /** Row `i` is kept: some later column `j` exceeds the threshold. */
  predicate RowHit(f: Frame, t: real, i: nat)
    requires WellFormed(f) && i < |f.labels|
  {
    exists j :: i < j < |f.labels| && V(f, i, j) > t
  }

  /** Column `j` is kept: some earlier row `i` exceeds the threshold. */
  predicate ColumnHit(f: Frame, t: real, j: nat)
    requires WellFormed(f) && j < |f.labels|
  {
    exists i :: 0 <= i < j && V(f, i, j) > t
  }

  /** The first row from `s` on that exceeds the threshold against column
      `j`, or `j` itself when there is none. */
  function FirstRowFrom(f: Frame, t: real, j: nat, s: nat): (r: nat)
    requires WellFormed(f) && j < |f.labels| && s <= j
    ensures s <= r <= j
    ensures r < j ==> V(f, r, j) > t
    ensures forall i :: s <= i < r ==> V(f, i, j) <= t
    decreases j - s
  {
    if s == j then j
    else if V(f, s, j) > t then s
    else FirstRowFrom(f, t, j, s + 1)
  }

  /** The row in whose pass the loop first meets column `j`. */
  function FirstRow(f: Frame, t: real, j: nat): (r: nat)
    requires WellFormed(f) && j < |f.labels|
    ensures r <= j
    ensures r < j <==> ColumnHit(f, t, j)
    ensures r < j ==> V(f, r, j) > t
  {
    FirstRowFrom(f, t, j, 0)
  }

  /** Column `x` is met before column `y`: in an earlier row's pass, or
      further left in the same pass. */
  predicate Before(f: Frame, t: real, x: nat, y: nat)
    requires WellFormed(f) && x < |f.labels| && y < |f.labels|
  {
    FirstRow(f, t, x) < FirstRow(f, t, y) || (FirstRow(f, t, x) == FirstRow(f, t, y) && x < y)
  }

  /** The column `x` has been met by the loop once it stands at row `i`,
      column `j`. */
  predicate Met(f: Frame, t: real, x: nat, i: nat, j: nat)
    requires WellFormed(f) && x < |f.labels|
  {
    FirstRow(f, t, x) < x && (FirstRow(f, t, x) < i || (FirstRow(f, t, x) == i && x < j))
  }

  /** What `th_i` holds with the loops at row `i`, column `j`: the rows
      before `i` that are kept, in order, and `i` itself once a column
      before `j` exceeds the threshold. */
  ghost predicate RowsSoFar(f: Frame, t: real, thI: seq<nat>, i: nat, j: nat)
    requires WellFormed(f) && i < |f.labels|
  {
    RowsKept(f, t, thI, i) && RowSeen(f, t, thI, i, j)
  }

  ghost predicate RowsKept(f: Frame, t: real, thI: seq<nat>, i: nat)
    requires WellFormed(f) && i < |f.labels|
  {
    && (forall a :: 0 <= a < |thI| ==> thI[a] <= i)
    && (forall a, b :: 0 <= a < b < |thI| ==> thI[a] < thI[b])
    && (forall r :: 0 <= r < i ==> (r in thI <==> RowHit(f, t, r)))
  }

  ghost predicate RowSeen(f: Frame, t: real, thI: seq<nat>, i: nat, j: nat)
    requires WellFormed(f) && i < |f.labels|
  {
    i in thI <==> exists j' :: i < j' < j && j' < |f.labels| && V(f, i, j') > t
  }

  /** What `th_j` holds with the loops at row `i`, column `j`: each column
      met so far, once, in the order met. */
  ghost predicate ColumnsSoFar(f: Frame, t: real, thJ: seq<nat>, i: nat, j: nat)
    requires WellFormed(f)
  {
    ColumnsMet(f, t, thJ, i, j) && AllMetListed(f, t, thJ, i, j) && ColumnsOrdered(f, t, thJ)
  }

  ghost predicate ColumnsMet(f: Frame, t: real, thJ: seq<nat>, i: nat, j: nat)
    requires WellFormed(f)
  {
    forall a :: 0 <= a < |thJ| ==> thJ[a] < |f.labels| && Met(f, t, thJ[a], i, j)
  }

  ghost predicate AllMetListed(f: Frame, t: real, thJ: seq<nat>, i: nat, j: nat)
    requires WellFormed(f)
  {
    forall x :: 0 <= x < |f.labels| && Met(f, t, x, i, j) ==> x in thJ
  }

  ghost predicate ColumnsOrdered(f: Frame, t: real, thJ: seq<nat>)
    requires WellFormed(f)
  {
    forall a, b :: 0 <= a < b < |thJ| && thJ[a] < |f.labels| && thJ[b] < |f.labels| ==> Before(f, t, thJ[a], thJ[b])
  }

  lemma RowStep(f: Frame, t: real, thI: seq<nat>, i: nat, j: nat)
    requires WellFormed(f) && i < j < |f.labels| && RowsSoFar(f, t, thI, i, j)
    ensures RowsSoFar(f, t, RowsStep(f, t, thI, i, j), i, j + 1)
  {
    if V(f, i, j) > t && i !in thI {
      assert RowsStep(f, t, thI, i, j) == thI + [i];
    } else {
      assert RowsStep(f, t, thI, i, j) == thI;
    }
  }

  /** What `th_i` holds before the pass of row `i`: the kept rows before
      `i`, in order. */
  ghost predicate RowsBefore(f: Frame, t: real, thI: seq<nat>, i: nat)
    requires WellFormed(f) && i <= |f.labels|
  {
    && (forall a :: 0 <= a < |thI| ==> thI[a] < i)
    && (forall a, b :: 0 <= a < b < |thI| ==> thI[a] < thI[b])
    && (forall r :: 0 <= r < i ==> (r in thI <==> RowHit(f, t, r)))
  }

  lemma RowsEnter(f: Frame, t: real, thI: seq<nat>, i: nat)
    requires WellFormed(f) && i < |f.labels| && RowsBefore(f, t, thI, i)
    ensures RowsSoFar(f, t, thI, i, i + 1)
  {
  }

  lemma RowsLeave(f: Frame, t: real, thI: seq<nat>, i: nat)
    requires WellFormed(f) && i < |f.labels| && RowsSoFar(f, t, thI, i, |f.labels|)
    ensures RowsBefore(f, t, thI, i + 1)
  {
    assert i in thI <==> RowHit(f, t, i);
  }

  /** A column above the threshold at row `i` was met at row `i` at the latest. */
  lemma FirstRowAtMost(f: Frame, t: real, i: nat, j: nat)
    requires WellFormed(f) && i < j < |f.labels| && V(f, i, j) > t
    ensures FirstRow(f, t, j) <= i
  {
  }

  /** Appending a column met for the first time keeps the order. */
  lemma ColumnStepNew(f: Frame, t: real, thJ: seq<nat>, i: nat, j: nat)
    requires WellFormed(f) && i < j < |f.labels| && ColumnsSoFar(f, t, thJ, i, j)
    requires V(f, i, j) > t && j !in thJ
    ensures ColumnsSoFar(f, t, thJ + [j], i, j + 1)
  {
    FirstRowAtMost(f, t, i, j);
    assert !Met(f, t, j, i, j);
    assert FirstRow(f, t, j) == i;
    var thJ' := thJ + [j];
    forall a, b | 0 <= a < b < |thJ'| ensures Before(f, t, thJ'[a], thJ'[b]) {
      if b == |thJ| {
        assert thJ'[a] == thJ[a] && Met(f, t, thJ[a], i, j);
      } else {
        assert thJ'[a] == thJ[a] && thJ'[b] == thJ[b];
      }
    }
    forall a | 0 <= a < |thJ'| ensures thJ'[a] < |f.labels| && Met(f, t, thJ'[a], i, j + 1) {
      if a < |thJ| { assert thJ'[a] == thJ[a] && Met(f, t, thJ[a], i, j); }
    }
    forall x | 0 <= x < |f.labels| && Met(f, t, x, i, j + 1) ensures x in thJ' {
      if x != j { assert Met(f, t, x, i, j); }
    }
  }

  /** A column met again, or a cell not above the threshold, changes nothing. */
  lemma ColumnStepSame(f: Frame, t: real, thJ: seq<nat>, i: nat, j: nat)
    requires WellFormed(f) && i < j < |f.labels| && ColumnsSoFar(f, t, thJ, i, j)
    requires V(f, i, j) <= t || j in thJ
    ensures ColumnsSoFar(f, t, thJ, i, j + 1)
  {
    if V(f, i, j) <= t {
      assert FirstRow(f, t, j) != i;
    }
    forall x | 0 <= x < |f.labels| && Met(f, t, x, i, j + 1) ensures x in thJ {
      if x != j { assert Met(f, t, x, i, j); }
    }
    forall a | 0 <= a < |thJ| ensures Met(f, t, thJ[a], i, j + 1) {
      assert Met(f, t, thJ[a], i, j);
    }
  }

  lemma ColumnsNext(f: Frame, t: real, thJ: seq<nat>, i: nat)
    requires WellFormed(f) && i < |f.labels| && ColumnsSoFar(f, t, thJ, i, |f.labels|)
    ensures ColumnsSoFar(f, t, thJ, i + 1, i + 2)
  {
    forall x | 0 <= x < |f.labels| ensures Met(f, t, x, i, |f.labels|) <==> Met(f, t, x, i + 1, i + 2) {
    }
  }

  /** Once every row has had its pass, the columns met are the kept ones. */
  lemma ColumnsDone(f: Frame, t: real, thJ: seq<nat>)
    requires WellFormed(f) && ColumnsSoFar(f, t, thJ, |f.labels|, |f.labels| + 1)
    ensures forall a :: 0 <= a < |thJ| ==> thJ[a] < |f.labels|
    ensures forall j :: 0 <= j < |f.labels| ==> (j in thJ <==> ColumnHit(f, t, j))
    ensures forall a, b :: 0 <= a < b < |thJ| ==> Before(f, t, thJ[a], thJ[b])
  {
    forall x | 0 <= x < |f.labels| ensures Met(f, t, x, |f.labels|, |f.labels| + 1) <==> ColumnHit(f, t, x) {
    }
  }

  /** One visit of cell `(i, j)` (lines 30-34), on `th_i` and on `th_j`. */
  function RowsStep(f: Frame, t: real, thI: seq<nat>, i: nat, j: nat): seq<nat>
    requires WellFormed(f) && i < |f.labels| && j < |f.labels|
  {
    if V(f, i, j) > t && i !in thI then thI + [i] else thI
  }

  function ColumnsStep(f: Frame, t: real, thJ: seq<nat>, i: nat, j: nat): seq<nat>
    requires WellFormed(f) && i < |f.labels| && j < |f.labels|
  {
    if V(f, i, j) > t && j !in thJ then thJ + [j] else thJ
  }

  /** `th_i` in the pass of row `i` once the columns before `j` are visited,
      starting from `thI0`. */
  function RowsTo(f: Frame, t: real, thI0: seq<nat>, i: nat, j: nat): seq<nat>
    requires WellFormed(f) && i < j <= |f.labels|
    decreases j
  {
    if j == i + 1 then thI0 else RowsStep(f, t, RowsTo(f, t, thI0, i, j - 1), i, j - 1)
  }

  /** `th_j` in the pass of row `i` once the columns before `j` are visited,
      starting from `thJ0`. */
  function ColumnsTo(f: Frame, t: real, thJ0: seq<nat>, i: nat, j: nat): seq<nat>
    requires WellFormed(f) && i < j <= |f.labels|
    decreases j
  {
    if j == i + 1 then thJ0 else ColumnsStep(f, t, ColumnsTo(f, t, thJ0, i, j - 1), i, j - 1)
  }

  lemma ColumnStep(f: Frame, t: real, thJ: seq<nat>, i: nat, j: nat)
    requires WellFormed(f) && i < j < |f.labels| && ColumnsSoFar(f, t, thJ, i, j)
    ensures ColumnsSoFar(f, t, ColumnsStep(f, t, thJ, i, j), i, j + 1)
  {
    if V(f, i, j) > t && j !in thJ {
      assert ColumnsStep(f, t, thJ, i, j) == thJ + [j];
      ColumnStepNew(f, t, thJ, i, j);
    } else {
      assert ColumnsStep(f, t, thJ, i, j) == thJ;
      ColumnStepSame(f, t, thJ, i, j);
    }
  }

  lemma {:induction false} RowsToPass(f: Frame, t: real, thI0: seq<nat>, i: nat, j: nat)
    requires WellFormed(f) && i < j <= |f.labels| && RowsSoFar(f, t, thI0, i, i + 1)
    ensures RowsSoFar(f, t, RowsTo(f, t, thI0, i, j), i, j)
    decreases j
  {
    if j > i + 1 {
      var before := RowsTo(f, t, thI0, i, j - 1);
      assert RowsTo(f, t, thI0, i, j) == RowsStep(f, t, before, i, j - 1);
      RowsToPass(f, t, thI0, i, j - 1);
      RowStep(f, t, before, i, j - 1);
    }
  }

  lemma {:induction false} ColumnsToPass(f: Frame, t: real, thJ0: seq<nat>, i: nat, j: nat)
    requires WellFormed(f) && i < j <= |f.labels| && ColumnsSoFar(f, t, thJ0, i, i + 1)
    ensures ColumnsSoFar(f, t, ColumnsTo(f, t, thJ0, i, j), i, j)
    decreases j
  {
    if j > i + 1 {
      var before := ColumnsTo(f, t, thJ0, i, j - 1);
      assert ColumnsTo(f, t, thJ0, i, j) == ColumnsStep(f, t, before, i, j - 1);
      ColumnsToPass(f, t, thJ0, i, j - 1);
      ColumnStep(f, t, before, i, j - 1);
    }
  }

  /** The two loops of lines 27-34: `th_i` and `th_j`. */
  method ThresholdIndices(f: Frame, corrTh: real) returns (thI: seq<nat>, thJ: seq<nat>)
    requires WellFormed(f)
    ensures forall a :: 0 <= a < |thI| ==> thI[a] < |f.labels|
    ensures forall a, b :: 0 <= a < b < |thI| ==> thI[a] < thI[b]
    ensures forall i :: 0 <= i < |f.labels| ==> (i in thI <==> RowHit(f, corrTh, i))
    ensures forall a :: 0 <= a < |thJ| ==> thJ[a] < |f.labels|
    ensures forall j :: 0 <= j < |f.labels| ==> (j in thJ <==> ColumnHit(f, corrTh, j))
    ensures forall a, b :: 0 <= a < b < |thJ| ==> Before(f, corrTh, thJ[a], thJ[b])
    ensures forall a :: 0 <= a < |thI| ==> thI[a] + 1 < |f.labels|
    ensures forall a :: 0 <= a < |thJ| ==> 1 <= thJ[a]
  {
    thI, thJ := [], [];
    for i := 0 to |f.labels|
      invariant thI == RowsUpTo(f, corrTh, i) && thJ == ColumnsUpTo(f, corrTh, i)
    {
      thI, thJ := RowPass(f, corrTh, i, thI, thJ);
    }
    UpToKeeps(f, corrTh, |f.labels|);
    PassesDone(f, corrTh, thI, thJ);
    forall a | 0 <= a < |thI| ensures thI[a] + 1 < |f.labels| {
      assert RowHit(f, corrTh, thI[a]);
    }
    forall a | 0 <= a < |thJ| ensures 1 <= thJ[a] {
      assert ColumnHit(f, corrTh, thJ[a]);
    }
  }

  /** The inner loop of lines 30-34: the pass of row `i` over the columns
      to its right. */
  method RowPass(f: Frame, corrTh: real, i: nat, thI0: seq<nat>, thJ0: seq<nat>) returns (thI: seq<nat>, thJ: seq<nat>)
    requires WellFormed(f) && i < |f.labels|
    ensures thI == RowsTo(f, corrTh, thI0, i, |f.labels|)
    ensures thJ == ColumnsTo(f, corrTh, thJ0, i, |f.labels|)
  {
    thI, thJ := thI0, thJ0;
    for j := i + 1 to |f.labels|
      invariant thI == RowsTo(f, corrTh, thI0, i, j)
      invariant thJ == ColumnsTo(f, corrTh, thJ0, i, j)
    {
      if V(f, i, j) > corrTh {
        if i !in thI {
          thI := thI + [i];
        }
        if j !in thJ {
          thJ := thJ + [j];
        }
      }
    }
  }

  /** `th_i` and `th_j` once the passes of rows `0 .. i-1` are done. */
  function RowsUpTo(f: Frame, t: real, i: nat): seq<nat>
    requires WellFormed(f) && i <= |f.labels|
  {
    if i == 0 then [] else RowsTo(f, t, RowsUpTo(f, t, i - 1), i - 1, |f.labels|)
  }

  function ColumnsUpTo(f: Frame, t: real, i: nat): seq<nat>
    requires WellFormed(f) && i <= |f.labels|
  {
    if i == 0 then [] else ColumnsTo(f, t, ColumnsUpTo(f, t, i - 1), i - 1, |f.labels|)
  }

  /** The outer loop's invariant, row after row. */
  lemma {:induction false} UpToKeeps(f: Frame, t: real, i: nat)
    requires WellFormed(f) && i <= |f.labels|
    ensures RowsBefore(f, t, RowsUpTo(f, t, i), i)
    ensures ColumnsSoFar(f, t, ColumnsUpTo(f, t, i), i, i + 1)
  {
    if i > 0 {
      UpToKeeps(f, t, i - 1);
      PassDone(f, t, RowsUpTo(f, t, i - 1), ColumnsUpTo(f, t, i - 1), i - 1);
    }
  }

  /** After the pass of row `i` the outer loop's invariant holds for `i + 1`. */
  lemma PassDone(f: Frame, t: real, rows: seq<nat>, columns: seq<nat>, i: nat)
    requires WellFormed(f) && i < |f.labels|
    requires RowsBefore(f, t, rows, i) && ColumnsSoFar(f, t, columns, i, i + 1)
    ensures RowsBefore(f, t, RowsTo(f, t, rows, i, |f.labels|), i + 1)
    ensures ColumnsSoFar(f, t, ColumnsTo(f, t, columns, i, |f.labels|), i + 1, i + 2)
  {
    RowsEnter(f, t, rows, i);
    RowsToPass(f, t, rows, i, |f.labels|);
    ColumnsToPass(f, t, columns, i, |f.labels|);
    RowsLeave(f, t, RowsTo(f, t, rows, i, |f.labels|), i);
    ColumnsNext(f, t, ColumnsTo(f, t, columns, i, |f.labels|), i);
  }

  /** After every row's pass, `th_i` and `th_j` are what the method promises. */
  lemma PassesDone(f: Frame, t: real, thI: seq<nat>, thJ: seq<nat>)
    requires WellFormed(f)
    requires RowsBefore(f, t, thI, |f.labels|)
    requires ColumnsSoFar(f, t, thJ, |f.labels|, |f.labels| + 1)
    ensures forall a :: 0 <= a < |thI| ==> thI[a] < |f.labels|
    ensures forall a, b :: 0 <= a < b < |thI| ==> thI[a] < thI[b]
    ensures forall i :: 0 <= i < |f.labels| ==> (i in thI <==> RowHit(f, t, i))
    ensures forall a :: 0 <= a < |thJ| ==> thJ[a] < |f.labels|
    ensures forall j :: 0 <= j < |f.labels| ==> (j in thJ <==> ColumnHit(f, t, j))
    ensures forall a, b :: 0 <= a < b < |thJ| ==> Before(f, t, thJ[a], thJ[b])
  {
    ColumnsDone(f, t, thJ);
  }

  /** Lines 36-41: `th_mat`, one row per kept `i`, one entry per kept `j`. */
  method ThresholdMatrix(f: Frame, thI: seq<nat>, thJ: seq<nat>) returns (thMat: seq<seq<real>>)
    requires WellFormed(f)
    requires forall a :: 0 <= a < |thI| ==> thI[a] < |f.labels|
    requires forall b :: 0 <= b < |thJ| ==> thJ[b] < |f.labels|
    ensures |thMat| == |thI|
    ensures forall a :: 0 <= a < |thI| ==> |thMat[a]| == |thJ|
    ensures forall a, b :: 0 <= a < |thI| && 0 <= b < |thJ| ==> thMat[a][b] == V(f, thI[a], thJ[b])
  {
    thMat := [];
    for a := 0 to |thI|
      invariant |thMat| == a
      invariant forall a' :: 0 <= a' < a ==> |thMat[a']| == |thJ|
      invariant forall a', b :: 0 <= a' < a && 0 <= b < |thJ| ==> thMat[a'][b] == V(f, thI[a'], thJ[b])
    {
      var temp := [];
      for b := 0 to |thJ|
        invariant |temp| == b
        invariant forall b' :: 0 <= b' < b ==> temp[b'] == V(f, thI[a], thJ[b'])
      {
        temp := temp + [V(f, thI[a], thJ[b])];
      }
      thMat := thMat + [temp];
    }
  }

  /** Lines 47-53: the labels of the given positions, in the same order. */
  method NamesOf(f: Frame, idx: seq<nat>) returns (names: seq<string>)
    requires forall a :: 0 <= a < |idx| ==> idx[a] < |f.labels|
    ensures |names| == |idx|
    ensures forall a :: 0 <= a < |idx| ==> names[a] == f.labels[idx[a]]
  {
    names := [];
    for a := 0 to |idx|
      invariant |names| == a
      invariant forall a' :: 0 <= a' < a ==> names[a'] == f.labels[idx[a']]
    {
      names := names + [f.labels[idx[a]]];
    }
  }

  /** With distinct labels, a label is among those of `idx` exactly when
      its position is in `idx`. */
  lemma LabelsOfPositions(f: Frame, idx: seq<nat>, names: seq<string>)
    requires WellFormed(f)
    requires |names| == |idx| && forall a :: 0 <= a < |idx| ==> idx[a] < |f.labels| && names[a] == f.labels[idx[a]]
    ensures forall i :: 0 <= i < |f.labels| ==> (f.labels[i] in names <==> i in idx)
  {
    forall i | 0 <= i < |f.labels| ensures f.labels[i] in names <==> i in idx {
      if i in idx {
        var a :| 0 <= a < |idx| && idx[a] == i;
        assert names[a] == f.labels[i];
      }
      if f.labels[i] in names {
        var a :| 0 <= a < |names| && names[a] == f.labels[i];
        assert f.labels[idx[a]] == f.labels[i];
      }
    }
  }

  /** Lines 24-54 of `plot`: the matrix drawn and the labels of its rows
      (`col_names_i`) and columns (`col_names_j`). */
  method PlotData(f: Frame, corrTh: real) returns (corrMat: seq<seq<real>>, namesI: seq<string>, namesJ: seq<string>)
    requires WellFormed(f)
    ensures corrTh <= -1.0 ==> corrMat == f.cells && namesI == f.labels && namesJ == f.labels
    ensures corrTh > -1.0 ==>
      && |corrMat| == |namesI|
      && (forall a :: 0 <= a < |namesI| ==> |corrMat[a]| == |namesJ|)
      && (forall x :: x in namesI ==> x in f.labels)
      && (forall x :: x in namesJ ==> x in f.labels)
      && (forall a, b :: 0 <= a < |namesI| && 0 <= b < |namesJ| ==> corrMat[a][b] == At(f, namesI[a], namesJ[b]))
      && (forall i :: 0 <= i < |f.labels| ==> (f.labels[i] in namesI <==> RowHit(f, corrTh, i)))
      && (forall j :: 0 <= j < |f.labels| ==> (f.labels[j] in namesJ <==> ColumnHit(f, corrTh, j)))
      && (forall a, b :: 0 <= a < b < |namesI| ==> IndexOf(f.labels, namesI[a]) < IndexOf(f.labels, namesI[b]))
      && (forall a, b :: 0 <= a < b < |namesJ| ==>
            Before(f, corrTh, IndexOf(f.labels, namesJ[a]), IndexOf(f.labels, namesJ[b])))
  {
    if corrTh > -1.0 {
      var thI, thJ := ThresholdIndices(f, corrTh);
      corrMat := ThresholdMatrix(f, thI, thJ);
      namesI := NamesOf(f, thI);
      namesJ := NamesOf(f, thJ);
      forall k | 0 <= k < |f.labels| ensures IndexOf(f.labels, f.labels[k]) == k {
        IndexOfDistinct(f.labels, k);
      }
      forall a, b | 0 <= a < |thI| && 0 <= b < |thJ| ensures corrMat[a][b] == At(f, namesI[a], namesJ[b]) {
        VIsAt(f, thI[a], thJ[b]);
      }
      LabelsOfPositions(f, thI, namesI);
      LabelsOfPositions(f, thJ, namesJ);
    } else {
      corrMat, namesI, namesJ := f.cells, f.labels, f.labels;
    }
  }
}
