/** `SubitemProcessor`: holds the raw export and the corrections, and
    fills in its flat table and count matrix when `Process` runs. The
    flattening loop updates its scan index and its output list step by
    step, as the source does, and is proved to compute `Flattened`. */
module Processor {
  import opened Wrappers
  import opened Strings
  import opened Flatten
  import opened Counts

  /** The loop's three branches: what has been collected plus what the scan
      still owes is the same after the step as before it. A blank stripped
      cell is not a parent, and the scan moves on to row `i + 1`. */
  lemma BlankStep(f: Frame, ks: seq<Step>, i: nat, rows: seq<FlatRecord>, skipped: seq<nat>)
    requires WellFormed(f) && ks == Kinds(f) && i < |f.rows| && Trim(Cell(f, i, RatingListColumn)) == ""
    ensures rows + Scan(f, ks, i + 1).records == rows + Scan(f, ks, i).records
    ensures skipped + Scan(f, ks, i + 1).skipped == skipped + Scan(f, ks, i).skipped
  {
    KindBlank(f, i);
    ScanNotParent(f, ks, i);
  }

  /** A parent without a header row is warned about, and the scan moves on
      to row `i + 1`. */
  lemma NoHeaderStep(f: Frame, ks: seq<Step>, i: nat, rows: seq<FlatRecord>, skipped: seq<nat>)
    requires WellFormed(f) && ValidKinds(f, ks) && i < |f.rows| && ks[i] == NoHeader
    ensures rows + Scan(f, ks, i + 1).records == rows + Scan(f, ks, i).records
    ensures (skipped + [i]) + Scan(f, ks, i + 1).skipped == skipped + Scan(f, ks, i).skipped
  {
    ScanNoHeader(f, ks, i);
    assert (skipped + [i]) + Scan(f, ks, i + 1).skipped == skipped + ([i] + Scan(f, ks, i + 1).skipped);
  }

  /** A parent whose next row resolved header `h` emits its block, and the
      scan moves on to row `i + 2 + n`. */
  lemma BlockStep(f: Frame, ks: seq<Step>, i: nat, n: nat, h: Header, rows: seq<FlatRecord>, skipped: seq<nat>)
    requires WellFormed(f) && ValidKinds(f, ks) && i < |f.rows| && ks[i] == Block(n, h)
    ensures i + 1 < |f.rows| && ValidHeader(f, h)
    ensures (rows + BlockRecords(f, i, n, h)) + Scan(f, ks, i + 2 + n).records == rows + Scan(f, ks, i).records
    ensures skipped + Scan(f, ks, i + 2 + n).skipped == skipped + Scan(f, ks, i).skipped
  {
    ScanBlock(f, ks, i, n, h);
    assert (rows + BlockRecords(f, i, n, h)) + Scan(f, ks, i + 2 + n).records
        == rows + (BlockRecords(f, i, n, h) + Scan(f, ks, i + 2 + n).records);
  }

  class SubitemProcessor {
    /** `df.reset_index(drop=True)`: rows are addressed by position. */
    const df: Frame
    /** `corrections or {}`. */
    const corrections: map<string, string>
    /** Unset until `Process` runs. */
    var flatDf: Option<seq<FlatRecord>>
    var counts: Option<CountMatrix>

    constructor(df: Frame, corrections: Option<map<string, string>>)
      ensures this.df == df
      ensures this.corrections == (if corrections.Some? then corrections.value else map[])
      ensures flatDf.None? && counts.None?
    {
      this.df := df;
      this.corrections := if corrections.Some? then corrections.value else map[];
      flatDf := None;
      counts := None;
    }

    /** `_flatten`: the records of every block in row order with the
        corrections applied, and the rows warned about for lacking a
        header. */
    method Flatten() returns (flat: seq<FlatRecord>, skipped: seq<nat>)
      requires WellFormed(df)
      ensures flat == Correct(Flattened(df).records, corrections)
      ensures skipped == Flattened(df).skipped
    {
      ghost var ks := Kinds(df);
      var flatRows: seq<FlatRecord> := [];
      skipped := [];
      var i: nat := 0;
      var nRows := |df.rows|;
      while i < nRows
        invariant flatRows + Scan(df, ks, i).records == Flattened(df).records
        invariant skipped + Scan(df, ks, i).skipped == Flattened(df).skipped
        decreases nRows - i
      {
        i, flatRows, skipped := FlattenStep(ks, i, flatRows, skipped);
      }
      assert flatRows + [] == flatRows && skipped + [] == skipped;
      flat := flatRows;
      if |corrections| != 0 {
        flat := Correct(flat, corrections);
      } else {
        CorrectEmpty(flat);
      }
    }

    /** One pass of the loop body at row `i`: what has been collected plus
        what the scan still owes from the next index is what was collected
        plus what was owed from `i`, and the index moves forward. */
    method FlattenStep(ghost ks: seq<Step>, i: nat, flatRows: seq<FlatRecord>, skipped: seq<nat>)
      returns (next: nat, rows: seq<FlatRecord>, warned: seq<nat>)
      requires WellFormed(df) && ks == Kinds(df) && i < |df.rows|
      ensures next > i
      ensures rows + Scan(df, ks, next).records == flatRows + Scan(df, ks, i).records
      ensures warned + Scan(df, ks, next).skipped == skipped + Scan(df, ks, i).skipped
    {
      var ratingCell := Trim(Cell(df, i, RatingListColumn));
      if ratingCell == "" {
        BlankStep(df, ks, i, flatRows, skipped);
        return i + 1, flatRows, skipped;
      }
      next, rows, warned := ParentStep(ks, i, ratingCell, flatRows, skipped);
    }

    /** The loop body at a parent row: without a header row it is warned
        about and the scan moves on by one row; otherwise its block is
        emitted and the scan moves past its children. */
    method ParentStep(ghost ks: seq<Step>, i: nat, ratingCell: string, flatRows: seq<FlatRecord>, skipped: seq<nat>)
      returns (next: nat, rows: seq<FlatRecord>, warned: seq<nat>)
      requires WellFormed(df) && ks == Kinds(df) && i < |df.rows|
      requires ratingCell == Trim(Cell(df, i, RatingListColumn)) && ratingCell != ""
      ensures next > i
      ensures ResolveHeader(df, i + 1).None? ==> next == i + 1 && rows == flatRows && warned == skipped + [i]
      ensures ResolveHeader(df, i + 1).Some? ==>
                && next == i + 2 + ExpectedChildren(ratingCell)
                && rows == flatRows + BlockRecords(df, i, ExpectedChildren(ratingCell), ResolveHeader(df, i + 1).value)
                && warned == skipped
      ensures rows + Scan(df, ks, next).records == flatRows + Scan(df, ks, i).records
      ensures warned + Scan(df, ks, next).skipped == skipped + Scan(df, ks, i).skipped
    {
      var subRatings := TrimmedPieces(Split(ratingCell, ','));
      var nSub := |subRatings|;
      var header := ResolveHeader(df, i + 1);
      if header.None? {
        KindNoHeader(df, i);
        next, rows, warned := NoHeaderEmit(ks, i, flatRows, skipped);
        return;
      }
      KindBlock(df, i, nSub, header.value);
      next, rows, warned := BlockEmit(ks, i, nSub, header.value, flatRows, skipped);
    }

    /** A parent row without a header row: it is warned about and the
        scan moves on by one row. */
    method NoHeaderEmit(ghost ks: seq<Step>, i: nat, flatRows: seq<FlatRecord>, skipped: seq<nat>)
      returns (next: nat, rows: seq<FlatRecord>, warned: seq<nat>)
      requires WellFormed(df) && ValidKinds(df, ks) && i < |df.rows| && ks[i] == NoHeader
      ensures next == i + 1 && rows == flatRows && warned == skipped + [i]
      ensures rows + Scan(df, ks, next).records == flatRows + Scan(df, ks, i).records
      ensures warned + Scan(df, ks, next).skipped == skipped + Scan(df, ks, i).skipped
    {
      NoHeaderStep(df, ks, i, flatRows, skipped);
      return i + 1, flatRows, skipped + [i];
    }

    /** A parent row with header `h` and `n` expected children: its block
        is appended and the scan resumes after the children. */
    method BlockEmit(ghost ks: seq<Step>, i: nat, n: nat, h: Header, flatRows: seq<FlatRecord>, skipped: seq<nat>)
      returns (next: nat, rows: seq<FlatRecord>, warned: seq<nat>)
      requires WellFormed(df) && ValidKinds(df, ks) && i < |df.rows| && ks[i] == Block(n, h)
      ensures i + 1 < |df.rows| && ValidHeader(df, h)
      ensures next == i + 2 + n && rows == flatRows + BlockRecords(df, i, n, h) && warned == skipped
      ensures rows + Scan(df, ks, next).records == flatRows + Scan(df, ks, i).records
      ensures warned + Scan(df, ks, next).skipped == skipped + Scan(df, ks, i).skipped
    {
      BlockStep(df, ks, i, n, h, flatRows, skipped);
      rows := AppendBlock(flatRows, i, n, h);
      return i + 2 + n, rows, skipped;
    }

    /** The inner loop over `self.df.iloc[i + 2 : i + 2 + n]`: one record per
        child row, the slice cut off at the end of the table. */
    method AppendBlock(flatRows: seq<FlatRecord>, i: nat, n: nat, h: Header) returns (r: seq<FlatRecord>)
      requires WellFormed(df) && i + 1 < |df.rows| && ValidHeader(df, h)
      ensures r == flatRows + BlockRecords(df, i, n, h)
    {
      ghost var block := BlockRecords(df, i, n, h);
      var nRows := |df.rows|;
      var stop := if i + 2 + n <= nRows then i + 2 + n else nRows;
      var child := i + 2;
      r := flatRows;
      while child < stop
        invariant i + 2 <= child <= stop
        invariant r == flatRows + block[..child - (i + 2)]
        decreases stop - child
      {
        r := r + [Record(df, i, child, h)];
        child := child + 1;
        assert block[..child - (i + 2)] == block[..child - 1 - (i + 2)] + [block[child - 1 - (i + 2)]];
      }
      assert block[..child - (i + 2)] == block;
    }

    /** `process`: flatten, then pivot, keeping both results. */
    method Process() returns (flat: seq<FlatRecord>, mat: CountMatrix)
      requires WellFormed(df)
      modifies this
      ensures flat == Correct(Flattened(df).records, corrections)
      ensures mat == Pivot(flat)
      ensures flatDf == Some(flat) && counts == Some(mat)
    {
      var skipped;
      flat, skipped := Flatten();
      flatDf := Some(flat);
      mat := Pivot(flat);
      counts := Some(mat);
    }
  }
}
