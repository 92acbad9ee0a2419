/** The re-cleaning step of the percentages app: an existing count matrix,
    its row labels the subitem names, has each label passed through the
    correction map, and the rows that end up with the same label are summed
    column by column (`reset_index().assign(subitem_name=...replace(...))
    .groupby("subitem_name").sum()`). With no corrections the matrix is
    left as it is. */
module Recount {
  import opened Strings
  import opened SortedLabels
  import opened Flatten
  import opened Counts

  /** Every row label after correction. */
  function Relabel(labels: seq<string>, m: map<string, string>): (r: seq<string>)
    ensures |r| == |labels|
    ensures forall i :: 0 <= i < |labels| ==> r[i] == CorrectName(labels[i], m)
    ensures forall i :: 0 <= i < |labels| && labels[i] in m ==> r[i] == m[labels[i]]
    ensures forall i :: 0 <= i < |labels| && labels[i] !in m ==> r[i] == labels[i]
  {
    seq(|labels|, i requires 0 <= i < |labels| => CorrectName(labels[i], m))
  }

  /** The sum of column `c` over the rows whose corrected label is `y`. */
  function ColumnSumWhere(labels: seq<string>, cells: seq<seq<nat>>, m: map<string, string>, y: string, c: nat): nat
    requires |labels| == |cells| && forall r :: 0 <= r < |cells| ==> c < |cells[r]|
  {
    if cells == [] then 0
    else (if CorrectName(labels[0], m) == y then cells[0][c] else 0)
         + ColumnSumWhere(labels[1..], cells[1..], m, y, c)
  }

  /** The merged matrix: one row per distinct corrected label, in ascending
      order, each the column-wise sum of the rows relabelled to it; the
      columns are kept. */
  function Merge(mat: CountMatrix, m: map<string, string>): (out: CountMatrix)
    requires Shaped(mat)
    ensures Shaped(out) && out.colLabels == mat.colLabels
    ensures StrictlySorted(out.rowLabels)
    ensures forall y :: y in out.rowLabels <==>
              exists i :: 0 <= i < |mat.rowLabels| && CorrectName(mat.rowLabels[i], m) == y
    ensures forall r, c :: 0 <= r < |out.rowLabels| && 0 <= c < |out.colLabels| ==>
              out.cells[r][c] == ColumnSumWhere(mat.rowLabels, mat.cells, m, out.rowLabels[r], c)
  {
    var labels := Relabel(mat.rowLabels, m);
    var rows := SortUnique(labels);
    assert forall y :: y in labels <==> exists i :: 0 <= i < |mat.rowLabels| && CorrectName(mat.rowLabels[i], m) == y by {
      forall y | (exists i :: 0 <= i < |mat.rowLabels| && CorrectName(mat.rowLabels[i], m) == y)
        ensures y in labels
      {
        var i :| 0 <= i < |mat.rowLabels| && CorrectName(mat.rowLabels[i], m) == y;
        assert labels[i] == y;
      }
    }
    var w := |mat.colLabels|;
    CountMatrix(rows, mat.colLabels,
      seq(|rows|, r requires 0 <= r < |rows| =>
        seq(w, c requires 0 <= c < w => ColumnSumWhere(mat.rowLabels, mat.cells, m, rows[r], c))))
  }

  /** `if corrections:` — an empty map leaves the matrix untouched. */
  function Recount(mat: CountMatrix, m: map<string, string>): (out: CountMatrix)
    requires Shaped(mat)
    ensures Shaped(out) && out.colLabels == mat.colLabels
    ensures |m| == 0 ==> out == mat
    ensures |m| != 0 ==> StrictlySorted(out.rowLabels)
    ensures |m| != 0 ==> forall y :: y in out.rowLabels <==>
              exists i :: 0 <= i < |mat.rowLabels| && CorrectName(mat.rowLabels[i], m) == y
    ensures |m| != 0 ==> forall r, c :: 0 <= r < |out.rowLabels| && 0 <= c < |out.colLabels| ==>
              out.cells[r][c] == ColumnSumWhere(mat.rowLabels, mat.cells, m, out.rowLabels[r], c)
  {
    if |m| == 0 then mat else Merge(mat, m)
  }

  // ---------------------------------------------------------------------
  // Conservation

  /** The sum of column `c` over the rows whose corrected label is one of
      `ys`. */
  function ColumnSumIn(labels: seq<string>, cells: seq<seq<nat>>, m: map<string, string>, ys: seq<string>, c: nat): nat
    requires |labels| == |cells| && forall r :: 0 <= r < |cells| ==> c < |cells[r]|
  {
    if cells == [] then 0
    else (if CorrectName(labels[0], m) in ys then cells[0][c] else 0)
         + ColumnSumIn(labels[1..], cells[1..], m, ys, c)
  }

  lemma {:induction false} SumInSplit(labels: seq<string>, cells: seq<seq<nat>>, m: map<string, string>, ys: seq<string>, c: nat)
    requires |labels| == |cells| && forall r :: 0 <= r < |cells| ==> c < |cells[r]|
    requires ys != [] && ys[0] !in ys[1..]
    ensures ColumnSumIn(labels, cells, m, ys, c)
            == ColumnSumWhere(labels, cells, m, ys[0], c) + ColumnSumIn(labels, cells, m, ys[1..], c)
  {
    if cells != [] {
      SumInSplit(labels[1..], cells[1..], m, ys, c);
      assert CorrectName(labels[0], m) in ys <==>
             CorrectName(labels[0], m) == ys[0] || CorrectName(labels[0], m) in ys[1..];
    }
  }

  lemma {:induction false} SumInAll(labels: seq<string>, cells: seq<seq<nat>>, m: map<string, string>, ys: seq<string>, c: nat)
    requires |labels| == |cells| && forall r :: 0 <= r < |cells| ==> c < |cells[r]|
    requires forall i :: 0 <= i < |labels| ==> CorrectName(labels[i], m) in ys
    ensures ColumnSumIn(labels, cells, m, ys, c) == ColumnTotal(cells, c)
  {
    if cells != [] {
      SumInAll(labels[1..], cells[1..], m, ys, c);
    }
  }

  lemma {:induction false} SumInNone(labels: seq<string>, cells: seq<seq<nat>>, m: map<string, string>, c: nat)
    requires |labels| == |cells| && forall r :: 0 <= r < |cells| ==> c < |cells[r]|
    ensures ColumnSumIn(labels, cells, m, [], c) == 0
  {
    if cells != [] {
      SumInNone(labels[1..], cells[1..], m, c);
    }
  }

  /** Rows labelled with distinct `rows`, each the sum of the input rows
      relabelled to its label, sum from the `j`-th on, in column `c`, to
      the input rows relabelled to one of those labels. */
  lemma {:induction false} MergeSuffix(labels: seq<string>, cells: seq<seq<nat>>, m: map<string, string>,
                                       rows: seq<string>, out: seq<seq<nat>>, c: nat, j: nat)
    requires |labels| == |cells| && forall r :: 0 <= r < |cells| ==> c < |cells[r]|
    requires StrictlySorted(rows) && |out| == |rows| && j <= |rows|
    requires forall r :: 0 <= r < |out| ==> c < |out[r]|
    requires forall r :: 0 <= r < |out| ==> out[r][c] == ColumnSumWhere(labels, cells, m, rows[r], c)
    ensures ColumnTotal(out[j..], c) == ColumnSumIn(labels, cells, m, rows[j..], c)
    decreases |rows| - j
  {
    if j == |rows| {
      assert out[j..] == [] && rows[j..] == [];
      SumInNone(labels, cells, m, c);
    } else {
      MergeSuffix(labels, cells, m, rows, out, c, j + 1);
      var ys := rows[j..];
      SortedIsDistinct(rows);
      assert ys[1..] == rows[j + 1..];
      assert out[j..][1..] == out[j + 1..];
      assert ys[0] !in ys[1..];
      SumInSplit(labels, cells, m, ys, c);
    }
  }

  /** Every column total is preserved by the merge. */
  lemma MergeColumnTotal(mat: CountMatrix, m: map<string, string>, c: nat)
    requires Shaped(mat) && c < |mat.colLabels|
    ensures ColumnTotal(Merge(mat, m).cells, c) == ColumnTotal(mat.cells, c)
  {
    var out := Merge(mat, m);
    MergeSuffix(mat.rowLabels, mat.cells, m, out.rowLabels, out.cells, c, 0);
    assert out.cells[0..] == out.cells && out.rowLabels[0..] == out.rowLabels;
    SumInAll(mat.rowLabels, mat.cells, m, out.rowLabels, c);
  }

  /** Re-cleaning keeps every column total, and so the grand total. */
  lemma RecountConserves(mat: CountMatrix, m: map<string, string>)
    requires Shaped(mat)
    ensures forall c :: 0 <= c < |mat.colLabels| ==>
              ColumnTotal(Recount(mat, m).cells, c) == ColumnTotal(mat.cells, c)
    ensures Total(Recount(mat, m).cells, |mat.colLabels|) == Total(mat.cells, |mat.colLabels|)
  {
    if |m| != 0 {
      forall c | 0 <= c < |mat.colLabels|
        ensures ColumnTotal(Recount(mat, m).cells, c) == ColumnTotal(mat.cells, c)
      {
        MergeColumnTotal(mat, m, c);
      }
    }
    TotalByColumns(Recount(mat, m).cells, mat.cells, |mat.colLabels|);
  }

  // ---------------------------------------------------------------------
  // Merging two rows

  lemma {:induction false} SumWhereNone(labels: seq<string>, cells: seq<seq<nat>>, m: map<string, string>, y: string, c: nat)
    requires |labels| == |cells| && forall r :: 0 <= r < |cells| ==> c < |cells[r]|
    requires forall i :: 0 <= i < |labels| ==> CorrectName(labels[i], m) != y
    ensures ColumnSumWhere(labels, cells, m, y, c) == 0
  {
    if cells != [] {
      SumWhereNone(labels[1..], cells[1..], m, y, c);
    }
  }

  lemma {:induction false} SumWhereOne(labels: seq<string>, cells: seq<seq<nat>>, m: map<string, string>, y: string, c: nat, a: nat)
    requires |labels| == |cells| && forall r :: 0 <= r < |cells| ==> c < |cells[r]|
    requires a < |labels| && CorrectName(labels[a], m) == y
    requires forall i :: 0 <= i < |labels| && i != a ==> CorrectName(labels[i], m) != y
    ensures ColumnSumWhere(labels, cells, m, y, c) == cells[a][c]
  {
    if a == 0 {
      SumWhereNone(labels[1..], cells[1..], m, y, c);
    } else {
      SumWhereOne(labels[1..], cells[1..], m, y, c, a - 1);
    }
  }

  lemma {:induction false} SumWhereTwo(labels: seq<string>, cells: seq<seq<nat>>, m: map<string, string>, y: string, c: nat, a: nat, b: nat)
    requires |labels| == |cells| && forall r :: 0 <= r < |cells| ==> c < |cells[r]|
    requires a < |labels| && b < |labels| && a != b
    requires CorrectName(labels[a], m) == y && CorrectName(labels[b], m) == y
    requires forall i :: 0 <= i < |labels| && i != a && i != b ==> CorrectName(labels[i], m) != y
    ensures ColumnSumWhere(labels, cells, m, y, c) == cells[a][c] + cells[b][c]
  {
    if a == 0 {
      SumWhereOne(labels[1..], cells[1..], m, y, c, b - 1);
    } else if b == 0 {
      SumWhereOne(labels[1..], cells[1..], m, y, c, a - 1);
    } else {
      SumWhereTwo(labels[1..], cells[1..], m, y, c, a - 1, b - 1);
    }
  }

  /** If the map sends `X` to `Y`, `Y` is not itself a key, and no other
      row is relabelled to `Y`, then the output row `Y` is input row `X`
      plus input row `Y`, column by column. */
  lemma MergeTwoRows(mat: CountMatrix, m: map<string, string>, ix: nat, iy: nat)
    requires Shaped(mat) && ix < |mat.rowLabels| && iy < |mat.rowLabels| && ix != iy
    requires mat.rowLabels[ix] in m && m[mat.rowLabels[ix]] == mat.rowLabels[iy]
    requires mat.rowLabels[iy] !in m
    requires forall i :: 0 <= i < |mat.rowLabels| && i != ix && i != iy ==>
               CorrectName(mat.rowLabels[i], m) != mat.rowLabels[iy]
    ensures mat.rowLabels[iy] in Recount(mat, m).rowLabels
    ensures forall r, c ::
              (0 <= r < |Recount(mat, m).rowLabels| && 0 <= c < |mat.colLabels|
               && Recount(mat, m).rowLabels[r] == mat.rowLabels[iy]) ==>
              Recount(mat, m).cells[r][c] == mat.cells[ix][c] + mat.cells[iy][c]
  {
    assert |m| != 0 by { assert mat.rowLabels[ix] in m; }
    var out := Merge(mat, m);
    var y := mat.rowLabels[iy];
    assert CorrectName(mat.rowLabels[iy], m) == y;
    forall r, c | 0 <= r < |out.rowLabels| && 0 <= c < |mat.colLabels| && out.rowLabels[r] == y
      ensures out.cells[r][c] == mat.cells[ix][c] + mat.cells[iy][c]
    {
      SumWhereTwo(mat.rowLabels, mat.cells, m, y, c, ix, iy);
    }
  }

  // ---------------------------------------------------------------------
  // Re-cleaning a pivot is cleaning before the pivot

  /** The group `(y, z)` after correcting names, counted through the
      uncorrected names `xs`: the sum of the groups `(x, z)` of those `x`
      in `xs` that correct to `y`. */
  function CountRelabelled(recs: seq<FlatRecord>, xs: seq<string>, m: map<string, string>, y: string, z: string): nat {
    if xs == [] then 0
    else (if CorrectName(xs[0], m) == y then CountPair(recs, xs[0], z) else 0)
         + CountRelabelled(recs, xs[1..], m, y, z)
  }

  /** A column of a grid, summed over the rows relabelled to `y`, counts
      the relabelled groups. */
  lemma {:induction false} GridSumWhere(recs: seq<FlatRecord>, xs: seq<string>, cols: seq<string>, m: map<string, string>, y: string, c: nat)
    requires c < |cols|
    ensures ColumnSumWhere(xs, Grid(recs, xs, cols), m, y, c) == CountRelabelled(recs, xs, m, y, cols[c])
  {
    if xs != [] {
      assert Grid(recs, xs, cols)[1..] == Grid(recs, xs[1..], cols);
      GridSumWhere(recs, xs[1..], cols, m, y, c);
    }
  }

  /** The contribution of one record to the relabelled groups: it counts
      once if its name is among the distinct `xs` and corrects to `y`. */
  lemma {:induction false} RelabelledHead(recs: seq<FlatRecord>, xs: seq<string>, m: map<string, string>, y: string, z: string)
    requires recs != [] && Distinct(xs)
    ensures CountRelabelled(recs, xs, m, y, z)
            == (if recs[0].name in xs && CorrectName(recs[0].name, m) == y && recs[0].rating == z then 1 else 0)
               + CountRelabelled(recs[1..], xs, m, y, z)
  {
    if xs != [] {
      RelabelledHead(recs, xs[1..], m, y, z);
      assert recs[0].name in xs <==> recs[0].name == xs[0] || recs[0].name in xs[1..];
      assert xs[0] !in xs[1..];
    }
  }

  lemma {:induction false} RelabelledEmpty(xs: seq<string>, m: map<string, string>, y: string, z: string)
    ensures CountRelabelled([], xs, m, y, z) == 0
  {
    if xs != [] { RelabelledEmpty(xs[1..], m, y, z); }
  }

  /** Counting the relabelled groups over distinct names that cover every
      record is counting the group `(y, z)` of the corrected records. */
  lemma {:induction false} RelabelledCount(recs: seq<FlatRecord>, xs: seq<string>, m: map<string, string>, y: string, z: string)
    requires Distinct(xs) && forall k :: 0 <= k < |recs| ==> recs[k].name in xs
    ensures CountRelabelled(recs, xs, m, y, z) == CountPair(Correct(recs, m), y, z)
  {
    if recs == [] {
      RelabelledEmpty(xs, m, y, z);
    } else {
      RelabelledHead(recs, xs, m, y, z);
      RelabelledCount(recs[1..], xs, m, y, z);
      assert Correct(recs, m)[1..] == Correct(recs[1..], m);
    }
  }

  /** Merging the pivot's rows yields exactly the names of the corrected
      records, as the pivot of those records lists them. */
  lemma MergedPivotLabels(recs: seq<FlatRecord>, m: map<string, string>)
    ensures Merge(Pivot(recs), m).rowLabels == Pivot(Correct(recs, m)).rowLabels
  {
    var p := Pivot(recs);
    var out := Merge(p, m);
    var q := Pivot(Correct(recs, m));
    var fixed := Correct(recs, m);
    forall y ensures y in out.rowLabels <==> y in q.rowLabels {
      if y in out.rowLabels {
        var i :| 0 <= i < |p.rowLabels| && CorrectName(p.rowLabels[i], m) == y;
        assert p.rowLabels[i] in p.rowLabels;
        var k :| 0 <= k < |recs| && recs[k].name == p.rowLabels[i];
        assert fixed[k].name == y;
      }
      if y in q.rowLabels {
        var k :| 0 <= k < |fixed| && fixed[k].name == y;
        assert recs[k].name in p.rowLabels;
        var i :| 0 <= i < |p.rowLabels| && p.rowLabels[i] == recs[k].name;
      }
    }
    SortedUnique(out.rowLabels, q.rowLabels);
  }

  /** Re-cleaning the pivot of the flat records gives the pivot of the
      corrected flat records: cleaning the count matrix afterwards with a
      map is the same as passing that map to the processor. */
  lemma RecountOfPivot(recs: seq<FlatRecord>, m: map<string, string>)
    ensures Recount(Pivot(recs), m) == Pivot(Correct(recs, m))
  {
    if |m| == 0 {
      assert m == map[];
      CorrectEmpty(recs);
    } else {
      var p := Pivot(recs);
      var out := Merge(p, m);
      var q := Pivot(Correct(recs, m));
      MergedPivotLabels(recs, m);
      assert Ratings(Correct(recs, m)) == Ratings(recs);
      SortedIsDistinct(p.rowLabels);
      forall r | 0 <= r < |out.rowLabels| ensures out.cells[r] == q.cells[r] {
        forall c | 0 <= c < |out.colLabels| ensures out.cells[r][c] == q.cells[r][c] {
          GridSumWhere(recs, p.rowLabels, p.colLabels, m, out.rowLabels[r], c);
          RelabelledCount(recs, p.rowLabels, m, out.rowLabels[r], p.colLabels[c]);
        }
      }
    }
  }
}
