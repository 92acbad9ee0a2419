/** The count pivot of `SubitemProcessor._pivot_counts`: the flat records
    grouped by (name, rating), counted, unstacked into a dense matrix with
    missing pairs 0, and sorted by name. Rows are the distinct names and
    columns the distinct ratings, both in ascending order. */
module Counts {
  import opened Wrappers
  import opened Strings
  import opened SortedLabels
  import opened Flatten

  /** A dense count table: row labels, column labels and one row of counts
      per row label. */
  datatype CountMatrix = CountMatrix(rowLabels: seq<string>, colLabels: seq<string>, cells: seq<seq<nat>>)

  /** Every row of `cells` has `width` entries. */
  predicate Rect(cells: seq<seq<nat>>, width: nat) {
    forall r :: 0 <= r < |cells| ==> |cells[r]| == width
  }

  predicate Shaped(mat: CountMatrix) {
    |mat.cells| == |mat.rowLabels| && Rect(mat.cells, |mat.colLabels|)
  }

  /** The sum of column `c`. */
  function ColumnTotal(cells: seq<seq<nat>>, c: nat): nat
    requires forall r :: 0 <= r < |cells| ==> c < |cells[r]|
  {
    if cells == [] then 0 else cells[0][c] + ColumnTotal(cells[1..], c)
  }

  /** The sum of every cell of the first `width` columns. */
  function Total(cells: seq<seq<nat>>, width: nat): nat
    requires forall r :: 0 <= r < |cells| ==> width <= |cells[r]|
  {
    if width == 0 then 0 else Total(cells, width - 1) + ColumnTotal(cells, width - 1)
  }

  /** Tables whose columns have equal totals have equal totals. */
  lemma {:induction false} TotalByColumns(a: seq<seq<nat>>, b: seq<seq<nat>>, width: nat)
    requires forall r :: 0 <= r < |a| ==> width <= |a[r]|
    requires forall r :: 0 <= r < |b| ==> width <= |b[r]|
    requires forall c :: 0 <= c < width ==> ColumnTotal(a, c) == ColumnTotal(b, c)
    ensures Total(a, width) == Total(b, width)
  {
    if width > 0 { TotalByColumns(a, b, width - 1); }
  }

  // ---------------------------------------------------------------------
  // Counting records

  function Names(recs: seq<FlatRecord>): (r: seq<string>)
    ensures |r| == |recs|
  {
    seq(|recs|, k requires 0 <= k < |recs| => recs[k].name)
  }

  function Ratings(recs: seq<FlatRecord>): (r: seq<string>)
    ensures |r| == |recs|
  {
    seq(|recs|, k requires 0 <= k < |recs| => recs[k].rating)
  }

  /** The labels of `Names` and `Ratings` are those of some record. */
  lemma NamesMembers(recs: seq<FlatRecord>)
    ensures forall x :: x in Names(recs) <==> exists k :: 0 <= k < |recs| && recs[k].name == x
    ensures forall y :: y in Ratings(recs) <==> exists k :: 0 <= k < |recs| && recs[k].rating == y
  {
    forall x ensures x in Names(recs) <==> exists k :: 0 <= k < |recs| && recs[k].name == x {
      if x in Names(recs) {
        var k :| 0 <= k < |recs| && Names(recs)[k] == x;
      }
      if exists k :: 0 <= k < |recs| && recs[k].name == x {
        var k :| 0 <= k < |recs| && recs[k].name == x;
        assert Names(recs)[k] == x;
      }
    }
    forall y ensures y in Ratings(recs) <==> exists k :: 0 <= k < |recs| && recs[k].rating == y {
      if y in Ratings(recs) {
        var k :| 0 <= k < |recs| && Ratings(recs)[k] == y;
      }
      if exists k :: 0 <= k < |recs| && recs[k].rating == y {
        var k :| 0 <= k < |recs| && recs[k].rating == y;
        assert Ratings(recs)[k] == y;
      }
    }
  }

  /** The number of records with exactly name `x` and rating `y`: the size
      of group `(x, y)`. */
  function CountPair(recs: seq<FlatRecord>, x: string, y: string): nat {
    if recs == [] then 0
    else (if recs[0].name == x && recs[0].rating == y then 1 else 0) + CountPair(recs[1..], x, y)
  }

  /** A group is counted exactly when some record has that pair, so every
      cell of the name-by-rating grid that no record has is 0. */
  lemma {:induction false} CountPairPositive(recs: seq<FlatRecord>, x: string, y: string)
    ensures CountPair(recs, x, y) > 0 <==> exists k :: 0 <= k < |recs| && recs[k].name == x && recs[k].rating == y
  {
    if recs != [] {
      CountPairPositive(recs[1..], x, y);
      if CountPair(recs[1..], x, y) > 0 {
        var k :| 0 <= k < |recs[1..]| && recs[1..][k].name == x && recs[1..][k].rating == y;
        assert recs[k + 1] == recs[1..][k];
      }
      if exists k :: 0 <= k < |recs| && recs[k].name == x && recs[k].rating == y {
        var k :| 0 <= k < |recs| && recs[k].name == x && recs[k].rating == y;
        if k > 0 { assert recs[1..][k - 1] == recs[k]; }
      }
    }
  }

  /** Group sizes add up over a concatenation. */
  lemma {:induction false} CountPairConcat(a: seq<FlatRecord>, b: seq<FlatRecord>, x: string, y: string)
    ensures CountPair(a + b, x, y) == CountPair(a, x, y) + CountPair(b, x, y)
  {
    if a == [] {
      assert a + b == b;
    } else {
      CountPairConcat(a[1..], b, x, y);
      assert (a + b)[1..] == a[1..] + b;
    }
  }

  /** Group sizes do not depend on the order of the records. */
  lemma {:induction false} CountPairPermutation(a: seq<FlatRecord>, b: seq<FlatRecord>, x: string, y: string)
    requires multiset(a) == multiset(b)
    ensures CountPair(a, x, y) == CountPair(b, x, y)
    decreases |a|
  {
    if a == [] {
      assert |multiset(b)| == 0;
    } else {
      assert a[0] in multiset(b);
      var k :| 0 <= k < |b| && b[k] == a[0];
      RemoveOne(a, b, k);
      CountPairPermutation(a[1..], b[..k] + b[k + 1..], x, y);
      CountPairRemove(b, k, x, y);
    }
  }

  /** Taking one copy of the same record out of two permutations of each
      other leaves two permutations of each other. */
  lemma RemoveOne(a: seq<FlatRecord>, b: seq<FlatRecord>, k: nat)
    requires multiset(a) == multiset(b) && a != [] && k < |b| && b[k] == a[0]
    ensures multiset(a[1..]) == multiset(b[..k] + b[k + 1..])
  {
    assert a == [a[0]] + a[1..];
    assert b == b[..k] + [b[k]] + b[k + 1..];
    assert multiset(a[1..]) == multiset(a) - multiset{a[0]};
    assert multiset(b[..k] + b[k + 1..]) == multiset(b) - multiset{b[k]};
  }

  /** Removing the record at `k` removes its contribution to its group. */
  lemma CountPairRemove(b: seq<FlatRecord>, k: nat, x: string, y: string)
    requires k < |b|
    ensures CountPair(b, x, y) == CountPair(b[..k] + b[k + 1..], x, y) + CountPair([b[k]], x, y)
  {
    CountPairConcat(b[..k], b[k + 1..], x, y);
    CountPairConcat(b[..k], [b[k]] + b[k + 1..], x, y);
    CountPairConcat([b[k]], b[k + 1..], x, y);
    assert b[..k] + ([b[k]] + b[k + 1..]) == b;
  }

  /** The count grid over the given row and column labels. */
  function Grid(recs: seq<FlatRecord>, rows: seq<string>, cols: seq<string>): (g: seq<seq<nat>>)
    ensures |g| == |rows| && Rect(g, |cols|)
  {
    seq(|rows|, r requires 0 <= r < |rows| =>
      seq(|cols|, c requires 0 <= c < |cols| => CountPair(recs, rows[r], cols[c])))
  }

  /** `flat.groupby(['subitem_name', 'subitem_rating']).size()
      .unstack(fill_value=0).sort_index()`. */
  function Pivot(recs: seq<FlatRecord>): (mat: CountMatrix)
    ensures Shaped(mat)
    ensures StrictlySorted(mat.rowLabels) && StrictlySorted(mat.colLabels)
    ensures forall x :: x in mat.rowLabels <==> exists k :: 0 <= k < |recs| && recs[k].name == x
    ensures forall y :: y in mat.colLabels <==> exists k :: 0 <= k < |recs| && recs[k].rating == y
    ensures forall r, c :: 0 <= r < |mat.rowLabels| && 0 <= c < |mat.colLabels| ==>
              mat.cells[r][c] == CountPair(recs, mat.rowLabels[r], mat.colLabels[c])
  {
    var rows := SortUnique(Names(recs));
    var cols := SortUnique(Ratings(recs));
    NamesMembers(recs);
    CountMatrix(rows, cols, Grid(recs, rows, cols))
  }

  /** No records, no groups: the corrected pivot of an empty flat table is
      the empty matrix. */
  lemma PivotOfEmpty()
    ensures Pivot([]) == CountMatrix([], [], [])
  {
    var mat := Pivot([]);
    assert mat.rowLabels == [] && mat.colLabels == [];
  }

  // ---------------------------------------------------------------------
  // The total count

  /** Records with a name among `xs` and rating `y`. */
  function CountNamedIn(recs: seq<FlatRecord>, xs: seq<string>, y: string): nat {
    if recs == [] then 0
    else (if recs[0].name in xs && recs[0].rating == y then 1 else 0) + CountNamedIn(recs[1..], xs, y)
  }

  /** Records with a rating among `ys`. */
  function CountRatedIn(recs: seq<FlatRecord>, ys: seq<string>): nat {
    if recs == [] then 0
    else (if recs[0].rating in ys then 1 else 0) + CountRatedIn(recs[1..], ys)
  }

  lemma {:induction false} NamedInSplit(recs: seq<FlatRecord>, xs: seq<string>, y: string)
    requires xs != [] && xs[0] !in xs[1..]
    ensures CountNamedIn(recs, xs, y) == CountPair(recs, xs[0], y) + CountNamedIn(recs, xs[1..], y)
  {
    if recs != [] {
      NamedInSplit(recs[1..], xs, y);
      assert recs[0].name in xs <==> recs[0].name == xs[0] || recs[0].name in xs[1..];
    }
  }

  lemma {:induction false} NamedInAll(recs: seq<FlatRecord>, xs: seq<string>, y: string)
    requires forall k :: 0 <= k < |recs| ==> recs[k].name in xs
    ensures CountNamedIn(recs, xs, y) == CountRatedIn(recs, [y])
  {
    if recs != [] {
      NamedInAll(recs[1..], xs, y);
    }
  }

  lemma {:induction false} RatedInSplit(recs: seq<FlatRecord>, ys: seq<string>, w: nat)
    requires w < |ys| && ys[w] !in ys[..w]
    ensures CountRatedIn(recs, ys[..w + 1]) == CountRatedIn(recs, ys[..w]) + CountRatedIn(recs, [ys[w]])
  {
    if recs != [] {
      RatedInSplit(recs[1..], ys, w);
      assert ys[..w + 1] == ys[..w] + [ys[w]];
      assert recs[0].rating in ys[..w + 1] <==> recs[0].rating in ys[..w] || recs[0].rating == ys[w];
    }
  }

  lemma {:induction false} RatedInAll(recs: seq<FlatRecord>, ys: seq<string>)
    requires forall k :: 0 <= k < |recs| ==> recs[k].rating in ys
    ensures CountRatedIn(recs, ys) == |recs|
  {
    if recs != [] {
      RatedInAll(recs[1..], ys);
    }
  }

  /** A column of the grid over distinct row labels sums to the records
      whose name is one of them and whose rating is that column's. */
  lemma {:induction false} GridColumn(recs: seq<FlatRecord>, rows: seq<string>, cols: seq<string>, c: nat)
    requires Distinct(rows) && c < |cols|
    ensures ColumnTotal(Grid(recs, rows, cols), c) == CountNamedIn(recs, rows, cols[c])
  {
    if rows == [] {
      assert forall k :: 0 <= k < |recs| ==> recs[k].name !in rows;
      NamedInNone(recs, rows, cols[c]);
    } else {
      assert Grid(recs, rows, cols)[1..] == Grid(recs, rows[1..], cols);
      GridColumn(recs, rows[1..], cols, c);
      assert rows[0] !in rows[1..];
      NamedInSplit(recs, rows, cols[c]);
    }
  }

  lemma {:induction false} NamedInNone(recs: seq<FlatRecord>, xs: seq<string>, y: string)
    requires forall k :: 0 <= k < |recs| ==> recs[k].name !in xs
    ensures CountNamedIn(recs, xs, y) == 0
  {
    if recs != [] {
      NamedInNone(recs[1..], xs, y);
    }
  }

  /** The first `w` columns of the pivot sum to the records whose rating is
      one of those `w` column labels. */
  lemma {:induction false} PivotPrefixTotal(recs: seq<FlatRecord>, w: nat)
    requires w <= |Pivot(recs).colLabels|
    ensures Total(Pivot(recs).cells, w) == CountRatedIn(recs, Pivot(recs).colLabels[..w])
  {
    var mat := Pivot(recs);
    if w == 0 {
      assert forall k :: 0 <= k < |recs| ==> recs[k].rating !in mat.colLabels[..0];
      RatedInNone(recs, mat.colLabels[..0]);
    } else {
      PivotPrefixTotal(recs, w - 1);
      var cols := mat.colLabels;
      SortedIsDistinct(mat.rowLabels);
      SortedIsDistinct(cols);
      assert mat.cells == Grid(recs, mat.rowLabels, cols);
      GridColumn(recs, mat.rowLabels, cols, w - 1);
      NamedInAll(recs, mat.rowLabels, cols[w - 1]);
      assert cols[w - 1] !in cols[..w - 1];
      RatedInSplit(recs, cols, w - 1);
    }
  }

  lemma {:induction false} RatedInNone(recs: seq<FlatRecord>, ys: seq<string>)
    requires forall k :: 0 <= k < |recs| ==> recs[k].rating !in ys
    ensures CountRatedIn(recs, ys) == 0
  {
    if recs != [] {
      RatedInNone(recs[1..], ys);
    }
  }

  /** The counts add up to the number of flat records: every record is in
      exactly one cell. */
  lemma PivotTotal(recs: seq<FlatRecord>)
    ensures Total(Pivot(recs).cells, |Pivot(recs).colLabels|) == |recs|
  {
    var mat := Pivot(recs);
    PivotPrefixTotal(recs, |mat.colLabels|);
    assert mat.colLabels[..|mat.colLabels|] == mat.colLabels;
    RatedInAll(recs, mat.colLabels);
  }

  /** The pivot does not depend on the order of the flat records. */
  lemma PivotOrderIndependent(a: seq<FlatRecord>, b: seq<FlatRecord>)
    requires multiset(a) == multiset(b)
    ensures Pivot(a) == Pivot(b)
  {
    var pa, pb := Pivot(a), Pivot(b);
    SameLabels(a, b);
    SortedUnique(pa.rowLabels, pb.rowLabels);
    SortedUnique(pa.colLabels, pb.colLabels);
    forall r | 0 <= r < |pa.rowLabels| ensures pa.cells[r] == pb.cells[r] {
      forall c | 0 <= c < |pa.colLabels| ensures pa.cells[r][c] == pb.cells[r][c] {
        CountPairPermutation(a, b, pa.rowLabels[r], pa.colLabels[c]);
      }
    }
  }

  /** Permutations of each other have the same names and ratings. */
  lemma SameLabels(a: seq<FlatRecord>, b: seq<FlatRecord>)
    requires multiset(a) == multiset(b)
    ensures forall x :: x in Pivot(a).rowLabels <==> x in Pivot(b).rowLabels
    ensures forall y :: y in Pivot(a).colLabels <==> y in Pivot(b).colLabels
  {
    LabelsIncluded(a, b);
    LabelsIncluded(b, a);
  }

  lemma LabelsIncluded(a: seq<FlatRecord>, b: seq<FlatRecord>)
    requires multiset(a) <= multiset(b)
    ensures forall x :: x in Pivot(a).rowLabels ==> x in Pivot(b).rowLabels
    ensures forall y :: y in Pivot(a).colLabels ==> y in Pivot(b).colLabels
  {
    forall k | 0 <= k < |a| ensures exists j :: 0 <= j < |b| && b[j] == a[k] {
      assert a[k] in multiset(b);
    }
  }

  // ---------------------------------------------------------------------
  // The pivot as written

  /** The pivot as the source computes it: a flat table built from no rows
      has no columns at all, so selecting `subitem_name` (for the
      corrections) or grouping by it raises `KeyError`. */
  function PivotAsWritten(recs: seq<FlatRecord>): (r: Result<CountMatrix, string>)
    ensures r.Failure? <==> recs == []
    ensures r.Success? ==> r.value == Pivot(recs)
  {
    if recs == [] then Failure("KeyError: 'subitem_name'") else Success(Pivot(recs))
  }

  /** A table with one row and a blank rating-list cell has no parent, so
      it flattens to no records and the pipeline as written fails on it,
      while the empty matrix is its evident result. */
  lemma PivotAsWrittenFailsOnNoParents()
    ensures var f := Frame([RatingListColumn, IdColumn, SkuColumn, LotColumn], [["", "1", "S", "L"]]);
            && WellFormed(f)
            && Flattened(f).records == []
            && PivotAsWritten(Flattened(f).records).Failure?
            && Pivot(Flattened(f).records) == CountMatrix([], [], [])
  {
    var f := Frame([RatingListColumn, IdColumn, SkuColumn, LotColumn], [["", "1", "S", "L"]]);
    assert WellFormed(f);
    assert Cell(f, 0, RatingListColumn) == "";
    NotParentAdvancesOne(f, 0);
    PivotOfEmpty();
  }
}
