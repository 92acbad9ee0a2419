/** The flattening pass of `SubitemProcessor._flatten`, rating-cell-driven
    detection: a row whose `SubItem-Rating` cell is not blank is a parent,
    the row after it must be a header naming the `name` and `item-rating`
    columns, and the rows after that header are read by position as its
    children. This module gives the pass as functions; the processor class
    runs it as a loop proved equal to `Scan`. */
module Flatten {
  import opened Wrappers
  import opened Strings
  import opened SortedLabels

  const RatingListColumn: string := "SubItem-Rating"
  const IdColumn: string := "Unique Element-ID"
  const SkuColumn: string := "SKU"
  const LotColumn: string := "LOT"
  const NameLabel: string := "name"
  const RatingLabel: string := "item-rating"

  /** The raw export: column names and rows of string cells, every cell read
      as text and a missing cell read as the empty string. */
  datatype Frame = Frame(columns: seq<string>, rows: seq<seq<string>>)

  /** A table as the CSV reader delivers it: rectangular, with distinct
      column names, and holding the four columns the pass reads by name. */
  predicate WellFormed(f: Frame) {
    && Distinct(f.columns)
    && (forall k :: 0 <= k < |f.rows| ==> |f.rows[k]| == |f.columns|)
    && RatingListColumn in f.columns && IdColumn in f.columns
    && SkuColumn in f.columns && LotColumn in f.columns
  }

  /** The position of a named column. */
  function Column(f: Frame, colName: string): (c: nat)
    requires colName in f.columns
    ensures c < |f.columns| && f.columns[c] == colName
  {
    IndexOf(f.columns, colName).value
  }

  /** `self.df.iloc[row][colName]`. */
  function Cell(f: Frame, row: nat, colName: string): string
    requires WellFormed(f) && row < |f.rows| && colName in f.columns
  {
    f.rows[row][Column(f, colName)]
  }

  /** One output row: the parent's identifier, SKU and LOT with one child's
      name and rating. */
  datatype FlatRecord = FlatRecord(
    parentId: string, parentSku: string, parentLot: string,
    name: string, rating: string)

  // ---------------------------------------------------------------------
  // Header resolution

  /** A header-row cell as it is compared: `str(cell).strip().lower()`. */
  function Normalize(cell: string): string {
    Lower(Trim(cell))
  }

  function NormalizedRow(row: seq<string>): (r: seq<string>)
    ensures |r| == |row| && forall j :: 0 <= j < |row| ==> r[j] == Normalize(row[j])
  {
    if row == [] then [] else [Normalize(row[0])] + NormalizedRow(row[1..])
  }

  /** Column `c` is the first, in column order, whose normalized cell is `lbl`. */
  predicate FirstLabelled(row: seq<string>, lbl: string, c: nat) {
    c < |row| && Normalize(row[c]) == lbl
    && forall j :: 0 <= j < c ==> Normalize(row[j]) != lbl
  }

  predicate Unlabelled(row: seq<string>, lbl: string) {
    forall j :: 0 <= j < |row| ==> Normalize(row[j]) != lbl
  }

  /** `hdr[hdr == lbl].index[0]`, with `None` where pandas raises. */
  function FindLabel(row: seq<string>, lbl: string): (r: Option<nat>)
    ensures r.Some? ==> FirstLabelled(row, lbl, r.value)
    ensures r.None? <==> Unlabelled(row, lbl)
  {
    var r := IndexOf(NormalizedRow(row), lbl);
    assert r.None? ==> forall j :: 0 <= j < |row| ==> NormalizedRow(row)[j] != lbl;
    r
  }

  /** The positions of the child name and child rating columns. */
  datatype Header = Header(nameCol: nat, ratingCol: nat)

  predicate ValidHeader(f: Frame, h: Header) {
    h.nameCol < |f.columns| && h.ratingCol < |f.columns|
  }

  /** The `try` block: row `h` must exist and must label both columns. */
  function ResolveHeader(f: Frame, h: nat): (r: Option<Header>)
    requires WellFormed(f)
    ensures r.Some? ==> h < |f.rows| && ValidHeader(f, r.value)
  {
    if h >= |f.rows| then None
    else match (FindLabel(f.rows[h], NameLabel), FindLabel(f.rows[h], RatingLabel))
      case (Some(n), Some(r)) => Some(Header(n, r))
      case _ => None
  }

  /** A header is found exactly when row `h` exists and some cell of it
      normalizes to each label; the columns found are the first such, in
      column order. */
  lemma ResolveHeaderSpec(f: Frame, h: nat)
    requires WellFormed(f)
    ensures ResolveHeader(f, h).Some? <==>
              h < |f.rows| && !Unlabelled(f.rows[h], NameLabel) && !Unlabelled(f.rows[h], RatingLabel)
    ensures ResolveHeader(f, h).Some? ==>
              && FirstLabelled(f.rows[h], NameLabel, ResolveHeader(f, h).value.nameCol)
              && FirstLabelled(f.rows[h], RatingLabel, ResolveHeader(f, h).value.ratingCol)
  {
  }

  // ---------------------------------------------------------------------
  // One step of the scan

  /** The declared child count of a trimmed rating-list cell: the number of
      comma-separated pieces that are not blank. */
  function ExpectedChildren(trimmedCell: string): nat {
    |TrimmedPieces(Split(trimmedCell, ','))|
  }

  /** The declared count is the number of pieces of the cell that are not
      blank once stripped. */
  lemma ExpectedChildrenCount(trimmedCell: string)
    ensures ExpectedChildren(trimmedCell) == |KeptIndices(Split(trimmedCell, ','))|
  {
    TrimmedPiecesCount(Split(trimmedCell, ','));
  }

  /** What the scan finds at a row. */
  datatype Step =
    | NotParent                              // blank rating-list cell
    | NoHeader                               // a parent without a valid header row
    | Block(expected: nat, header: Header)   // a parent, its header and declared count

  function Classify(f: Frame, i: nat): (s: Step)
    requires WellFormed(f) && i < |f.rows|
    ensures s.Block? ==> i + 1 < |f.rows| && ValidHeader(f, s.header)
  {
    var cell := Trim(Cell(f, i, RatingListColumn));
    if cell == "" then NotParent
    else match ResolveHeader(f, i + 1)
      case None => NoHeader
      case Some(h) => Block(ExpectedChildren(cell), h)
  }

  /** A row is not a parent exactly when its rating-list cell is blank; a
      parent is skipped exactly when no valid header row follows it; and a
      block's declared count and header are those of its rating-list cell
      and of the row after it. */
  lemma ClassifySpec(f: Frame, i: nat)
    requires WellFormed(f) && i < |f.rows|
    ensures Classify(f, i).NotParent? <==> AllSpace(Cell(f, i, RatingListColumn))
    ensures Classify(f, i).NoHeader? <==>
              !AllSpace(Cell(f, i, RatingListColumn)) && ResolveHeader(f, i + 1).None?
    ensures Classify(f, i).Block? ==>
              && ResolveHeader(f, i + 1) == Some(Classify(f, i).header)
              && Classify(f, i).expected == ExpectedChildren(Trim(Cell(f, i, RatingListColumn)))
  {
    TrimSpec(Cell(f, i, RatingListColumn));
  }

  /** The next scan index: past the row, or past the header and the
      declared number of children. Every step makes progress. */
  function Advance(i: nat, s: Step): (j: nat)
    ensures j > i
    ensures s.Block? ==> j == i + 2 + s.expected
    ensures !s.Block? ==> j == i + 1
  {
    match s
    case NotParent => i + 1
    case NoHeader => i + 1
    case Block(n, _) => i + 2 + n
  }

  /** The number of children a block actually reads: the declared count,
      cut off only by the end of the table. */
  function ChildCount(f: Frame, i: nat, n: nat): nat
    requires i + 1 < |f.rows|
  {
    if i + 2 + n <= |f.rows| then n else |f.rows| - (i + 2)
  }

  /** The record for child row `child` of parent row `parent`. */
  function Record(f: Frame, parent: nat, child: nat, h: Header): (r: FlatRecord)
    requires WellFormed(f) && parent < |f.rows| && child < |f.rows| && ValidHeader(f, h)
  {
    FlatRecord(Cell(f, parent, IdColumn), Cell(f, parent, SkuColumn), Cell(f, parent, LotColumn),
               f.rows[child][h.nameCol], f.rows[child][h.ratingCol])
  }

  /** `self.df.iloc[i + 2 : i + 2 + n]`, one record per row. */
  function BlockRecords(f: Frame, i: nat, n: nat, h: Header): (r: seq<FlatRecord>)
    requires WellFormed(f) && i + 1 < |f.rows| && ValidHeader(f, h)
    ensures |r| == ChildCount(f, i, n)
    ensures forall k :: 0 <= k < |r| ==> i + 2 + k < |f.rows| && r[k] == Record(f, i, i + 2 + k, h)
  {
    seq(ChildCount(f, i, n), k requires 0 <= k < ChildCount(f, i, n) => Record(f, i, i + 2 + k, h))
  }

  // ---------------------------------------------------------------------
  // The whole scan

  /** What the loop finds at every row, were it to arrive there. The scan
      reads the kinds from this sequence, so that it can be reasoned about
      apart from how a single row is classified. */
  function Kinds(f: Frame): (ks: seq<Step>)
    requires WellFormed(f)
    ensures ValidKinds(f, ks)
  {
    ClassifierValid(f);
    TabulateValid(f, Classifier(f));
    Tabulate(0, |f.rows|, Classifier(f))
  }

  /** `Classify` as a total function on row indices. */
  function Classifier(f: Frame): nat -> Step
    requires WellFormed(f)
  {
    (k: nat) => if k < |f.rows| then Classify(f, k) else NotParent
  }

  /** `[g(k), g(k + 1), ..., g(n - 1)]`. */
  function Tabulate(k: nat, n: nat, g: nat -> Step): (s: seq<Step>)
    ensures |s| == if k <= n then n - k else 0
    decreases n - k
  {
    if k >= n then [] else [g(k)] + Tabulate(k + 1, n, g)
  }

  lemma {:induction false} TabulateAt(k: nat, n: nat, g: nat -> Step, j: nat)
    requires k + j < n
    ensures Tabulate(k, n, g)[j] == g(k + j)
    decreases j
  {
    if j > 0 {
      TabulateAt(k + 1, n, g, j - 1);
    }
  }

  /** Every block `Classifier(f)` reports has a header row and a valid header. */
  lemma ClassifierValid(f: Frame)
    requires WellFormed(f)
    ensures forall k: nat :: k < |f.rows| && Classifier(f)(k).Block? ==>
              k + 1 < |f.rows| && ValidHeader(f, Classifier(f)(k).header)
  {
    forall k: nat | k < |f.rows| && Classifier(f)(k).Block?
      ensures k + 1 < |f.rows| && ValidHeader(f, Classifier(f)(k).header)
    {
      assert Classifier(f)(k) == Classify(f, k);
    }
  }

  /** Tabulating a classification whose blocks are all valid gives valid kinds. */
  lemma TabulateValid(f: Frame, g: nat -> Step)
    requires forall k: nat :: k < |f.rows| && g(k).Block? ==> k + 1 < |f.rows| && ValidHeader(f, g(k).header)
    ensures ValidKinds(f, Tabulate(0, |f.rows|, g))
  {
    var ks := Tabulate(0, |f.rows|, g);
    forall k | 0 <= k < |ks| && ks[k].Block? ensures k + 1 < |f.rows| && ValidHeader(f, ks[k].header) {
      TabulateAt(0, |f.rows|, g, k);
    }
  }

  /** One kind per row, and every block has a header row and two valid
      column positions. */
  predicate ValidKinds(f: Frame, ks: seq<Step>) {
    && |ks| == |f.rows|
    && forall k :: 0 <= k < |ks| && ks[k].Block? ==> k + 1 < |f.rows| && ValidHeader(f, ks[k].header)
  }

  /** The output of the scan: the records and the warned-about rows. */
  datatype ScanResult = ScanResult(records: seq<FlatRecord>, skipped: seq<nat>)

  /** The scan from row `i` to the end of the table. */
  function Scan(f: Frame, ks: seq<Step>, i: nat): ScanResult
    requires WellFormed(f) && ValidKinds(f, ks)
    decreases |f.rows| - i
  {
    if i >= |f.rows| then ScanResult([], [])
    else
      var rest := Scan(f, ks, Advance(i, ks[i]));
      match ks[i]
      case NotParent => rest
      case NoHeader => ScanResult(rest.records, [i] + rest.skipped)
      case Block(n, h) => ScanResult(BlockRecords(f, i, n, h) + rest.records, rest.skipped)
  }

  /** What the whole loop of `_flatten` produces before corrections. */
  function Flattened(f: Frame): ScanResult
    requires WellFormed(f)
  {
    Scan(f, Kinds(f), 0)
  }

  /** The scan indices the loop visits from `i`: it starts at `i`, each visit
      moves by `Advance`, and every visit lies inside the table. */
  ghost function Visited(f: Frame, ks: seq<Step>, i: nat): (v: seq<nat>)
    requires WellFormed(f) && ValidKinds(f, ks)
    ensures forall k :: 0 <= k < |v| ==> i <= v[k] < |f.rows|
    ensures i < |f.rows| <==> v != []
    ensures v != [] ==> v[0] == i
    ensures forall k :: 0 <= k < |v| - 1 ==> v[k + 1] == Advance(v[k], ks[v[k]])
    decreases |f.rows| - i
  {
    if i >= |f.rows| then []
    else
      var j := Advance(i, ks[i]);
      var rest := Visited(f, ks, j);
      var v := [i] + rest;
      assert forall k :: 1 <= k < |v| ==> v[k] == rest[k - 1];
      assert rest != [] ==> v[1] == j;
      v
  }

  /** The number of records a visited row contributes. */
  function Emitted(f: Frame, ks: seq<Step>, i: nat): nat
    requires WellFormed(f) && ValidKinds(f, ks) && i < |f.rows|
  {
    match ks[i]
    case Block(n, _) => ChildCount(f, i, n)
    case _ => 0
  }

  ghost function EmittedTotal(f: Frame, ks: seq<Step>, v: seq<nat>): nat
    requires WellFormed(f) && ValidKinds(f, ks) && forall k :: 0 <= k < |v| ==> v[k] < |f.rows|
  {
    if v == [] then 0 else Emitted(f, ks, v[0]) + EmittedTotal(f, ks, v[1..])
  }

  /** The number of records is the sum, over the rows the scan visits, of
      what each visited block emits. */
  lemma {:induction false} ScanCount(f: Frame, ks: seq<Step>, i: nat)
    requires WellFormed(f) && ValidKinds(f, ks)
    ensures |Scan(f, ks, i).records| == EmittedTotal(f, ks, Visited(f, ks, i))
    decreases |f.rows| - i
  {
    if i < |f.rows| {
      ScanCount(f, ks, Advance(i, ks[i]));
      assert Visited(f, ks, i)[1..] == Visited(f, ks, Advance(i, ks[i]));
    }
  }

  /** Where a record came from: its parent row, its child row and the
      header that located the child's columns. */
  datatype Origin = Origin(parent: nat, child: nat, header: Header)

  ghost predicate Provenance(f: Frame, ks: seq<Step>, i: nat, o: Origin)
    requires WellFormed(f) && ValidKinds(f, ks)
  {
    && i <= o.parent < |f.rows|
    && o.parent in Visited(f, ks, i)
    && ks[o.parent].Block?
    && o.header == ks[o.parent].header
    && o.parent + 2 <= o.child < o.parent + 2 + ks[o.parent].expected
    && o.child < |f.rows|
  }

  ghost function BlockOrigins(f: Frame, i: nat, n: nat, h: Header): (r: seq<Origin>)
    requires WellFormed(f) && i + 1 < |f.rows|
    ensures |r| == ChildCount(f, i, n)
  {
    seq(ChildCount(f, i, n), k requires 0 <= k < ChildCount(f, i, n) => Origin(i, i + 2 + k, h))
  }

  /** The origins of the records of `Scan(f, ks, i)`, in output order. */
  ghost function Origins(f: Frame, ks: seq<Step>, i: nat): seq<Origin>
    requires WellFormed(f) && ValidKinds(f, ks)
    decreases |f.rows| - i
  {
    if i >= |f.rows| then []
    else
      var rest := Origins(f, ks, Advance(i, ks[i]));
      match ks[i]
      case Block(n, h) => BlockOrigins(f, i, n, h) + rest
      case _ => rest
  }

  /** There is one origin per record. */
  lemma {:induction false} OriginsLength(f: Frame, ks: seq<Step>, i: nat)
    requires WellFormed(f) && ValidKinds(f, ks)
    ensures |Origins(f, ks, i)| == |Scan(f, ks, i).records|
    decreases |f.rows| - i
  {
    if i < |f.rows| {
      OriginsLength(f, ks, Advance(i, ks[i]));
    }
  }

  /** Every record copies the identifier, SKU and LOT of a parent row and
      the name and rating of a child row at the columns that parent's header
      resolved, and the child lies within the parent's declared count. */
  lemma {:induction false} ScanProvenance(f: Frame, ks: seq<Step>, i: nat)
    requires WellFormed(f) && ValidKinds(f, ks)
    ensures |Origins(f, ks, i)| == |Scan(f, ks, i).records|
    ensures forall k :: 0 <= k < |Origins(f, ks, i)| ==>
              var o := Origins(f, ks, i)[k];
              && Provenance(f, ks, i, o)
              && Scan(f, ks, i).records[k] == Record(f, o.parent, o.child, o.header)
    decreases |f.rows| - i
  {
    OriginsLength(f, ks, i);
    if i < |f.rows| {
      var j := Advance(i, ks[i]);
      ScanProvenance(f, ks, j);
      VisitedStep(f, ks, i);
      if ks[i].Block? {
        BlockProvenance(f, ks, i, ks[i].expected, ks[i].header, j);
      }
    }
  }

  /** The step of `ScanProvenance` at a block: its own records come from
      its parent and children, and the rest from the scan after it. */
  lemma BlockProvenance(f: Frame, ks: seq<Step>, i: nat, n: nat, h: Header, j: nat)
    requires WellFormed(f) && ValidKinds(f, ks) && i < |f.rows| && ks[i] == Block(n, h) && j == i + 2 + n
    requires |Origins(f, ks, j)| == |Scan(f, ks, j).records|
    requires forall k :: 0 <= k < |Origins(f, ks, j)| ==>
               var o := Origins(f, ks, j)[k];
               && Provenance(f, ks, j, o)
               && Scan(f, ks, j).records[k] == Record(f, o.parent, o.child, o.header)
    requires forall p :: p in Visited(f, ks, j) ==> p in Visited(f, ks, i)
    requires i in Visited(f, ks, i)
    ensures forall k :: 0 <= k < |Origins(f, ks, i)| ==>
              var o := Origins(f, ks, i)[k];
              && Provenance(f, ks, i, o)
              && Scan(f, ks, i).records[k] == Record(f, o.parent, o.child, o.header)
  {
    var rest := Origins(f, ks, j);
    var b := BlockOrigins(f, i, n, h);
    var o := b + rest;
    var recs := Scan(f, ks, i).records;
    var blk := BlockRecords(f, i, n, h);
    var tail := Scan(f, ks, j).records;
    assert Advance(i, ks[i]) == j;
    assert Origins(f, ks, i) == o;
    assert recs == blk + tail;
    forall k | 0 <= k < |o|
      ensures Provenance(f, ks, i, o[k])
      ensures recs[k] == Record(f, o[k].parent, o[k].child, o[k].header)
    {
      if k >= |b| {
        assert o[k] == rest[k - |b|];
        assert recs[k] == tail[k - |b|];
      } else {
        assert o[k] == Origin(i, i + 2 + k, h);
        assert recs[k] == blk[k];
      }
    }
  }

  /** A visit lists its own start and every row the next visit lists. */
  lemma VisitedStep(f: Frame, ks: seq<Step>, i: nat)
    requires WellFormed(f) && ValidKinds(f, ks) && i < |f.rows|
    ensures i in Visited(f, ks, i)
    ensures forall p :: p in Visited(f, ks, Advance(i, ks[i])) ==> p in Visited(f, ks, i)
  {
    assert Visited(f, ks, i) == [i] + Visited(f, ks, Advance(i, ks[i]));
  }

  /** The records come out in input row order: their child rows strictly
      increase, and all lie at or after the row the scan starts from. */
  lemma {:induction false} OriginsOrdered(f: Frame, ks: seq<Step>, i: nat)
    requires WellFormed(f) && ValidKinds(f, ks)
    ensures forall k :: 0 <= k < |Origins(f, ks, i)| ==> i + 2 <= Origins(f, ks, i)[k].child < |f.rows|
    ensures forall k, l :: 0 <= k < l < |Origins(f, ks, i)| ==>
              Origins(f, ks, i)[k].child < Origins(f, ks, i)[l].child
    decreases |f.rows| - i
  {
    if i < |f.rows| {
      var j := Advance(i, ks[i]);
      OriginsOrdered(f, ks, j);
      var rest := Origins(f, ks, j);
      match ks[i]
      case NotParent =>
      case NoHeader =>
      case Block(n, h) =>
        var b := BlockOrigins(f, i, n, h);
        var o := b + rest;
        forall k | 0 <= k < |o| ensures i + 2 <= o[k].child < |f.rows| {
          if k >= |b| { assert o[k] == rest[k - |b|]; }
        }
        forall k, l | 0 <= k < l < |o| ensures o[k].child < o[l].child {
          if l >= |b| {
            assert o[l] == rest[l - |b|];
            if k >= |b| { assert o[k] == rest[k - |b|]; }
          }
        }
    }
  }

  /** There are never more records than rows from the scan start. */
  lemma {:induction false} ScanBound(f: Frame, ks: seq<Step>, i: nat)
    requires WellFormed(f) && ValidKinds(f, ks)
    ensures |Scan(f, ks, i).records| <= if i <= |f.rows| then |f.rows| - i else 0
    decreases |f.rows| - i
  {
    if i < |f.rows| {
      ScanBound(f, ks, Advance(i, ks[i]));
    }
  }

  /** Every row the scan warns about is a parent without a valid header,
      and the warnings come in row order. */
  lemma {:induction false} ScanSkipped(f: Frame, ks: seq<Step>, i: nat)
    requires WellFormed(f) && ValidKinds(f, ks)
    ensures forall k :: 0 <= k < |Scan(f, ks, i).skipped| ==>
              i <= Scan(f, ks, i).skipped[k] < |f.rows| && ks[Scan(f, ks, i).skipped[k]].NoHeader?
    ensures forall k, l :: 0 <= k < l < |Scan(f, ks, i).skipped| ==>
              Scan(f, ks, i).skipped[k] < Scan(f, ks, i).skipped[l]
    decreases |f.rows| - i
  {
    if i < |f.rows| {
      ScanSkipped(f, ks, Advance(i, ks[i]));
    }
  }

  /** The rows among `v` that are parents without a header, in order. */
  ghost function WarnedOf(f: Frame, ks: seq<Step>, v: seq<nat>): seq<nat>
    requires WellFormed(f) && ValidKinds(f, ks) && forall k :: 0 <= k < |v| ==> v[k] < |f.rows|
  {
    if v == [] then []
    else (if ks[v[0]].NoHeader? then [v[0]] else []) + WarnedOf(f, ks, v[1..])
  }

  /** The warnings are exactly the visited parents without a header. */
  lemma {:induction false} ScanWarnings(f: Frame, ks: seq<Step>, i: nat)
    requires WellFormed(f) && ValidKinds(f, ks)
    ensures Scan(f, ks, i).skipped == WarnedOf(f, ks, Visited(f, ks, i))
    decreases |f.rows| - i
  {
    if i < |f.rows| {
      ScanWarnings(f, ks, Advance(i, ks[i]));
      assert Visited(f, ks, i)[1..] == Visited(f, ks, Advance(i, ks[i]));
    }
  }

  lemma {:induction false} WarnedOfMembers(f: Frame, ks: seq<Step>, v: seq<nat>)
    requires WellFormed(f) && ValidKinds(f, ks) && forall k :: 0 <= k < |v| ==> v[k] < |f.rows|
    ensures forall k :: 0 <= k < |v| ==> (v[k] in WarnedOf(f, ks, v) <==> ks[v[k]].NoHeader?)
    ensures forall x :: x in WarnedOf(f, ks, v) ==> x in v
  {
    if v != [] {
      WarnedOfMembers(f, ks, v[1..]);
      forall k | 0 <= k < |v|
        ensures v[k] in WarnedOf(f, ks, v) <==> ks[v[k]].NoHeader?
      {
        if k > 0 { assert v[k] == v[1..][k - 1]; }
      }
      forall x | x in WarnedOf(f, ks, v) ensures x in v {
        if x != v[0] { assert x in v[1..]; }
      }
    }
  }

  /** A row the scan visits is warned about exactly when it is a parent
      without a header, and every warned-about row is a visited one. */
  lemma WarnedIffNoHeader(f: Frame, ks: seq<Step>, i: nat)
    requires WellFormed(f) && ValidKinds(f, ks)
    ensures forall k :: 0 <= k < |Visited(f, ks, i)| ==>
              (Visited(f, ks, i)[k] in Scan(f, ks, i).skipped <==> ks[Visited(f, ks, i)[k]].NoHeader?)
    ensures forall x :: x in Scan(f, ks, i).skipped ==> x in Visited(f, ks, i)
  {
    ScanWarnings(f, ks, i);
    WarnedOfMembers(f, ks, Visited(f, ks, i));
  }

  /** A row with a blank rating-list cell emits nothing and warns about
      nothing: the scan simply moves on to the next row. */
  lemma NotParentAdvancesOne(f: Frame, i: nat)
    requires WellFormed(f) && i < |f.rows| && AllSpace(Cell(f, i, RatingListColumn))
    ensures Scan(f, Kinds(f), i) == Scan(f, Kinds(f), i + 1)
  {
    ClassifySpec(f, i);
    KindAt(f, i);
  }

  /** A parent without a valid header row emits nothing; the scan warns
      about it and resumes at the very next row, which may itself be a
      parent. */
  lemma NoHeaderAdvancesOne(f: Frame, i: nat)
    requires WellFormed(f) && i < |f.rows| && !AllSpace(Cell(f, i, RatingListColumn))
    requires ResolveHeader(f, i + 1).None?
    ensures Scan(f, Kinds(f), i).records == Scan(f, Kinds(f), i + 1).records
    ensures Scan(f, Kinds(f), i).skipped == [i] + Scan(f, Kinds(f), i + 1).skipped
  {
    ClassifySpec(f, i);
    KindAt(f, i);
  }

  /** A parent with a header row of both labels is a block whose declared
      count is that of its trimmed rating-list cell. */
  lemma ClassifyBlock(f: Frame, i: nat)
    requires WellFormed(f) && i < |f.rows|
    requires Trim(Cell(f, i, RatingListColumn)) != "" && ResolveHeader(f, i + 1).Some?
    ensures Classify(f, i) == Block(ExpectedChildren(Trim(Cell(f, i, RatingListColumn))), ResolveHeader(f, i + 1).value)
  {
  }

  /** The kind the scan reads at row `i` is how row `i` classifies. */
  lemma KindAt(f: Frame, i: nat)
    requires WellFormed(f) && i < |f.rows|
    ensures Kinds(f)[i] == Classify(f, i)
  {
    TabulateAt(0, |f.rows|, Classifier(f), i);
  }

  /** The three steps of the loop, stated over the text it reads: a blank
      trimmed cell is not a parent; a parent without a header row is
      skipped; a parent with header `h` is a block of declared count `n`. */
  lemma KindBlank(f: Frame, i: nat)
    requires WellFormed(f) && i < |f.rows| && Trim(Cell(f, i, RatingListColumn)) == ""
    ensures Kinds(f)[i] == NotParent
  {
    KindAt(f, i);
  }

  lemma KindNoHeader(f: Frame, i: nat)
    requires WellFormed(f) && i < |f.rows| && Trim(Cell(f, i, RatingListColumn)) != ""
    requires ResolveHeader(f, i + 1).None?
    ensures Kinds(f)[i] == NoHeader
  {
    KindAt(f, i);
  }

  lemma KindBlock(f: Frame, i: nat, n: nat, h: Header)
    requires WellFormed(f) && i < |f.rows| && Trim(Cell(f, i, RatingListColumn)) != ""
    requires ResolveHeader(f, i + 1) == Some(h) && n == ExpectedChildren(Trim(Cell(f, i, RatingListColumn)))
    ensures Kinds(f)[i] == Block(n, h)
  {
    KindAt(f, i);
    ClassifyBlock(f, i);
  }

  /** A row that is not a parent emits nothing and warns about nothing:
      the scan moves on to the next row. */
  lemma ScanNotParent(f: Frame, ks: seq<Step>, i: nat)
    requires WellFormed(f) && ValidKinds(f, ks) && i < |f.rows| && ks[i] == NotParent
    ensures Scan(f, ks, i) == Scan(f, ks, i + 1)
  {
  }

  /** A parent without a header row emits nothing; the scan warns about it
      and resumes at the very next row, which may itself be a parent. */
  lemma ScanNoHeader(f: Frame, ks: seq<Step>, i: nat)
    requires WellFormed(f) && ValidKinds(f, ks) && i < |f.rows| && ks[i] == NoHeader
    ensures Scan(f, ks, i).records == Scan(f, ks, i + 1).records
    ensures Scan(f, ks, i).skipped == [i] + Scan(f, ks, i + 1).skipped
  {
  }

  /** A block emits its `ChildCount` records (the declared count `n`, cut
      off by the end of the table), read from the columns its header
      resolved, and the scan resumes at `i + 2 + n`, even when that lies
      inside what would be the next block. */
  lemma ScanBlock(f: Frame, ks: seq<Step>, i: nat, n: nat, h: Header)
    requires WellFormed(f) && ValidKinds(f, ks) && i < |f.rows| && ks[i] == Block(n, h)
    ensures i + 1 < |f.rows| && ValidHeader(f, h)
    ensures Scan(f, ks, i).records == BlockRecords(f, i, n, h) + Scan(f, ks, i + 2 + n).records
    ensures Scan(f, ks, i).skipped == Scan(f, ks, i + 2 + n).skipped
  {
  }

  /** The declared child count ignores blank pieces: `"Pass, ,Fail,"`
      declares two children. */
  lemma ExpectedChildrenExample()
    ensures ExpectedChildren("Pass, ,Fail,") == 2
  {
    SplitExample();
    PiecesExample();
  }

  lemma PiecesExample()
    ensures TrimmedPieces(["Pass", " ", "Fail", ""]) == ["Pass", "Fail"]
  {
    TrimExample();
  }

  lemma SplitExample()
    ensures Split("Pass, ,Fail,", ',') == ["Pass", " ", "Fail", ""]
  {
    var parts := ["Pass", " ", "Fail", ""];
    assert Join([""], ',') == "";
    assert Join(["Fail", ""], ',') == "Fail,";
    assert Join([" ", "Fail", ""], ',') == " ,Fail,";
    assert Join(parts, ',') == "Pass, ,Fail,";
    SplitJoin(parts, ',');
  }

  lemma TrimExample()
    ensures Trim("Pass") == "Pass" && Trim("Fail") == "Fail" && Trim(" ") == "" && Trim("") == ""
  {
    assert LeadingSpaces("Pass") == 0 && TrailingSpaces("Pass") == 0;
    assert LeadingSpaces("Fail") == 0 && TrailingSpaces("Fail") == 0;
    assert LeadingSpaces(" ") == 1;
  }

  /** A parent's declared child count is zero exactly when every
      comma-separated piece of its rating-list cell is blank; such a parent
      still needs a header and reads no child rows. */
  lemma ExpectedChildrenZeroIff(cell: string)
    ensures ExpectedChildren(cell) == 0 <==>
            forall k :: 0 <= k < |Split(cell, ',')| ==> AllSpace(Split(cell, ',')[k])
  {
    NoPiecesIff(Split(cell, ','));
    assert ExpectedChildren(cell) == 0 <==> TrimmedPieces(Split(cell, ',')) == [];
  }

  // ---------------------------------------------------------------------
  // Corrections

  /** A name after correction: replaced on an exact key match only. */
  function CorrectName(name: string, m: map<string, string>): string {
    if name in m then m[name] else name
  }

  /** `flat['subitem_name'].replace(corrections)`: every name is looked up
      once, and no other field changes. */
  function Correct(recs: seq<FlatRecord>, m: map<string, string>): (r: seq<FlatRecord>)
    ensures |r| == |recs|
    ensures forall k :: 0 <= k < |recs| ==>
              && r[k].parentId == recs[k].parentId && r[k].parentSku == recs[k].parentSku
              && r[k].parentLot == recs[k].parentLot && r[k].rating == recs[k].rating
              && (recs[k].name in m ==> r[k].name == m[recs[k].name])
              && (recs[k].name !in m ==> r[k].name == recs[k].name)
  {
    if recs == [] then []
    else [recs[0].(name := CorrectName(recs[0].name, m))] + Correct(recs[1..], m)
  }

  /** An empty map changes nothing. */
  lemma CorrectEmpty(recs: seq<FlatRecord>)
    ensures Correct(recs, map[]) == recs
  {
    var r := Correct(recs, map[]);
    assert forall k :: 0 <= k < |recs| ==> r[k] == recs[k];
  }

  /** Correcting twice is correcting once when no corrected name is itself
      a key. */
  lemma CorrectIdempotent(recs: seq<FlatRecord>, m: map<string, string>)
    requires forall x :: x in m ==> m[x] !in m
    ensures Correct(Correct(recs, m), m) == Correct(recs, m)
  {
    var r := Correct(recs, m);
    var rr := Correct(r, m);
    forall k | 0 <= k < |recs| ensures rr[k] == r[k] {
      assert r[k].name !in m;
    }
  }

  /** Lines 65-67 as written: with no record the flat table has no
      `subitem_name` column, so applying non-empty corrections to it fails. */
  function CorrectAsWritten(recs: seq<FlatRecord>, m: map<string, string>): (r: Result<seq<FlatRecord>, string>)
    ensures r.Failure? <==> recs == [] && |m| != 0
    ensures r.Success? ==> r.value == Correct(recs, m)
  {
    if |m| == 0 then CorrectEmpty(recs); Success(recs)
    else if recs == [] then Failure("KeyError: 'subitem_name'")
    else Success(Correct(recs, m))
  }

  /** A table whose only row has a blank rating-list cell flattens to no
      records; with any correction given, the code as written fails on it,
      while the empty list is its evident result. */
  lemma CorrectAsWrittenFailsOnNoParents()
    ensures var f := Frame([RatingListColumn, IdColumn, SkuColumn, LotColumn], [["", "1", "S", "L"]]);
            && WellFormed(f)
            && Flattened(f).records == []
            && CorrectAsWritten(Flattened(f).records, map["Actves" := "Actives"]).Failure?
            && Correct(Flattened(f).records, map["Actves" := "Actives"]) == []
  {
    var f := Frame([RatingListColumn, IdColumn, SkuColumn, LotColumn], [["", "1", "S", "L"]]);
    assert WellFormed(f);
    assert Cell(f, 0, RatingListColumn) == "";
    NotParentAdvancesOne(f, 0);
  }
}
