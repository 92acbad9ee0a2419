# Subitem flattening and counting, modelled in Dafny

This project models the core of a small pipeline for lab-test exports from
Monday.com. Each test's subitems arrive as rows baked into one flat table.

- `SubitemProcessor._flatten` (the rating-cell-driven detection policy)
  scans the table by row index:
  - a row whose trimmed `SubItem-Rating` cell is non-empty is a parent;
  - the non-blank comma-separated pieces of that cell give its declared
    child count `n`;
  - the next row must be a header row naming a `name` and an
    `item-rating` column (compared after trimming and lower-casing);
  - the `n` rows after the header are read by position as children, one
    flat record each;
  - a parent without such a header is warned about and the scan moves on
    by one row.

  A typo-correction map is then applied to the child names by exact
  whole-value replacement.
- `_pivot_counts` groups the flat records by (name, rating) into a dense
  count matrix. Missing pairs count 0, and names and ratings are sorted.
- `process` runs the two steps in order and keeps both results.
- The percentages app re-cleans an existing count matrix
  (`clean_percentage_app/app.py:43-50`). It relabels every row through a
  correction map and sums the rows that end up with the same label.

Module layout:

- `Strings` holds Python's `str.strip()` (with the `str.isspace()`
  character set), lower-casing, `str.split(',')` with its inverse `join`,
  code-point string order, and first-index lookup.
- `SortedLabels` holds sorted distinct label sequences, the row and column
  order of a pivot.
- `Flatten` holds the frame, header resolution, the per-row classification,
  the whole scan as a function `Scan`, and the corrections.
- `Counts` holds the pivot and its counting properties.
- `Recount` holds the re-cleaning merge.
- `Processor` holds the `SubitemProcessor` class. Its `Flatten` method is
  the source's `while` loop, proved to compute the corrected `Flattened`
  records and the rows warned about. The loop body is `FlattenStep`, which
  hands a parent row to `ParentStep`; that in turn hands the two outcomes
  of the header lookup to `NoHeaderEmit` and `BlockEmit`. Each keeps one
  invariant: the records and warnings collected so far, followed by what
  the scan still owes from the current index, are the whole scan.

Children are read strictly by position, as the code does. The slice
`iloc[i + 2 : i + 2 + n]` is cut off only by the end of the table, so it
can consume the next parent row. When that happens the scan resumes inside
what would have been the next block. A block is not cut at the next
parent row; the model follows the code, and `Flatten.ScanBlock` states
that the scan resumes at `i + 2 + n`.

The raw table is the string-with-`""` regime of `subitem_processor.py:97`:
every cell is text and a missing cell is the empty string. The console
warnings are modelled as the list of row indices skipped for lacking a
header.

## Model

| member | source | states |
|---|---|---|
| Strings.TrimSpec | subitem_processor.py:33 | `Strings.Trim`, the model of `strip()` at lines 33 and 44: it gives the empty string exactly when the cell is all white space; otherwise it gives the infix from the first to the last non-space character, and everything removed is white space |
| Strings.TrimIdempotent | subitem_processor.py:38 | a stripped piece is unchanged by stripping again |
| Strings.Lower | subitem_processor.py:44 | lower-casing keeps the length and maps each character by `LowerChar` |
| Strings.Split | subitem_processor.py:38 | `split(',')` yields at least one piece, every piece separator-free, and exactly one more piece than there are commas |
| Strings.JoinSplit | subitem_processor.py:38 | joining the pieces of a split with the separator gives back the cell |
| Strings.SplitJoin | subitem_processor.py:38 | splitting a join of separator-free pieces gives back the pieces |
| Strings.TrimmedPiecesExact | subitem_processor.py:38 | `Strings.TrimmedPieces`, the model of the comprehension at line 38: a string is among the kept pieces exactly when it is the non-empty stripped form of some piece |
| Strings.TrimmedPiecesCount | subitem_processor.py:38-39 | the number of kept pieces is the number of positions whose piece is not blank once stripped |
| Strings.TrimmedPiecesClean | subitem_processor.py:38 | every kept piece is non-empty and already stripped |
| Strings.NoPiecesIff | subitem_processor.py:38-39 | no piece is kept exactly when every piece is white space |
| Strings.LessTotal | subitem_processor.py:76 | code-point order on strings is total |
| Strings.LessTransitive | subitem_processor.py:76 | code-point order is transitive |
| Strings.LessIrreflexive | subitem_processor.py:76 | code-point order is strict |
| Strings.IndexOf | subitem_processor.py:45-46 | the result is the first position holding the label, and `None` exactly when the label is absent |
| SortedLabels.SortUnique | subitem_processor.py:73-76 | the result is strictly ascending and holds exactly the labels of the input |
| SortedLabels.SortedUnique | subitem_processor.py:73-76 | two strictly ascending sequences with the same labels are equal, so the sorted index is unique |
| SortedLabels.SortUniqueBySet | subitem_processor.py:73-76 | the sorted distinct labels depend only on the set of labels |
| Flatten.Column | subitem_processor.py:56-58 | a named column lookup yields a position holding that name |
| Flatten.FindLabel | subitem_processor.py:44-46 | the position found is the first, in column order, whose stripped lower-cased cell equals the label; `None` exactly when no cell does |
| Flatten.ResolveHeaderSpec | subitem_processor.py:42-51 | `Flatten.ResolveHeader`, the model of the `try` block: a header is found exactly when row `i + 1` exists and labels both `name` and `item-rating`; the columns found are the first such |
| Flatten.ClassifySpec | subitem_processor.py:33-51 | `Flatten.Classify`, the model of what one pass of the loop decides at a row: a row is not a parent exactly when its rating-list cell is all white space; a parent is skipped exactly when no header resolves; a block's count and header are those of its cell and of the next row |
| Flatten.Advance | subitem_processor.py:35-63 | every step moves the index forward: by 1 past a non-parent or a skipped parent, by `2 + n` past a block |
| Flatten.BlockRecords | subitem_processor.py:53-61 | a block yields `min(n, rows - (i + 2))` records, the `k`-th built from the parent and child row `i + 2 + k` |
| Flatten.NotParentAdvancesOne | subitem_processor.py:33-36 | a row with a blank rating-list cell emits nothing, warns about nothing, and the scan continues at the next row |
| Flatten.NoHeaderAdvancesOne | subitem_processor.py:42-51 | a parent without a valid header emits nothing, is warned about, and the scan continues at the very next row |
| Flatten.KindBlank | subitem_processor.py:33-36 | a row whose stripped rating-list cell is empty is read as not a parent |
| Flatten.KindNoHeader | subitem_processor.py:42-51 | a parent whose next row does not resolve a header is read as skipped |
| Flatten.KindBlock | subitem_processor.py:38-46 | a parent whose next row resolves header `h` is read as a block of `h` with the cell's declared count |
| Flatten.ScanNotParent | subitem_processor.py:33-36 | `Flatten.Scan` is the `while` loop of lines 31-63 as a recursive function over the row index; at a non-parent the scan's result is that of the next row |
| Flatten.ScanNoHeader | subitem_processor.py:47-51 | at a skipped parent the records are those from the next row, and the row is prepended to the warnings |
| Flatten.ScanBlock | subitem_processor.py:53-63 | at a block the records are its `BlockRecords` followed by the scan from `i + 2 + n`, even when that index lies inside the next block |
| Flatten.ScanProvenance | subitem_processor.py:53-61 | every record copies identifier, SKU and LOT from a parent row the loop visits and name and rating from a child row, at the columns that parent's header resolved, within the declared count |
| Flatten.OriginsOrdered | subitem_processor.py:53-55 | records come out in input row order: their child rows strictly increase |
| Flatten.ScanCount | subitem_processor.py:27-63 | the number of records is the sum of what the visited blocks emit |
| Flatten.ScanBound | subitem_processor.py:53-63 | there are never more records than rows |
| Flatten.ScanSkipped | subitem_processor.py:47-51 | every warned-about row is a parent without a header, in increasing row order |
| Flatten.ScanWarnings | subitem_processor.py:47-51 | the warnings are exactly the visited rows that are parents without a header, in visiting order |
| Flatten.WarnedIffNoHeader | subitem_processor.py:47-51 | a visited row is warned about if and only if it is a parent without a header, and only visited rows are warned about |
| Flatten.ExpectedChildrenCount | subitem_processor.py:38-39 | `Flatten.ExpectedChildren`, the model of `n_sub`: the declared count is the number of comma-separated pieces that are not blank once stripped |
| Flatten.ExpectedChildrenExample | subitem_processor.py:38-39 | `"Pass, ,Fail,"` declares two children |
| Flatten.ExpectedChildrenZeroIff | subitem_processor.py:38-39 | the declared count is 0 exactly when every comma-separated piece is blank |
| Flatten.Correct | subitem_processor.py:66-67 | a name is replaced by `m[name]` on an exact key match and otherwise kept; no other field and no record count changes |
| Flatten.CorrectEmpty | subitem_processor.py:18 | an empty map leaves the records identical |
| Flatten.CorrectIdempotent | subitem_processor.py:67 | correcting twice is correcting once when no target is itself a key |
| Flatten.CorrectAsWritten | subitem_processor.py:65-67 | as written, applying a non-empty map fails exactly when there are no records, because the empty table has no `subitem_name` column |
| Flatten.CorrectAsWrittenFailsOnNoParents | subitem_processor.py:65-67 | a one-row table with a blank rating-list cell flattens to nothing, and the code as written fails on it once a correction is given |
| Counts.Pivot | subitem_processor.py:70-78 | rows are the sorted distinct names and columns the sorted distinct ratings; cell (x, y) is the number of records with exactly that pair |
| Counts.CountPairPositive | subitem_processor.py:73-75 | a cell is non-zero exactly when some record has its pair, so every other cell of the grid is 0 |
| Counts.CountPairPermutation | subitem_processor.py:73-74 | group sizes do not depend on record order |
| Counts.PivotOrderIndependent | subitem_processor.py:71-77 | permuting the flat records gives the same count matrix |
| Counts.PivotTotal | subitem_processor.py:71-75 | the cells add up to the number of flat records |
| Counts.PivotOfEmpty | subitem_processor.py:71-77 | no records give the empty matrix |
| Counts.PivotAsWritten | subitem_processor.py:71-73 | as written, grouping fails exactly when there are no records; otherwise it is the pivot |
| Counts.PivotAsWrittenFailsOnNoParents | subitem_processor.py:71-73 | a one-row table with a blank rating-list cell flattens to nothing, the code as written fails on it, and its evident result is the empty matrix |
| Recount.Relabel | clean_percentage_app/app.py:47 | each label becomes `m[label]` if it is a key and otherwise stays |
| Recount.Merge | clean_percentage_app/app.py:44-50 | one row per distinct corrected label, strictly ascending; each cell is the sum of that column over the rows relabelled to the row's label; the columns are kept |
| Recount.Recount | clean_percentage_app/app.py:43-50 | an empty map returns the matrix unchanged; otherwise the result is the merge, with its rows, order and cell sums |
| Recount.MergeColumnTotal | clean_percentage_app/app.py:48-49 | the merge keeps every column total |
| Recount.RecountConserves | clean_percentage_app/app.py:43-50 | re-cleaning keeps every column total and the grand total |
| Recount.MergeTwoRows | clean_percentage_app/app.py:47-49 | if the map sends X to Y, Y is not a key, and no other row becomes Y, then output row Y is input row X plus input row Y |
| Recount.MergedPivotLabels | clean_percentage_app/app.py:48 | merging a pivot's rows yields exactly the names of the corrected records, in order |
| Recount.RecountOfPivot | clean_percentage_app/app.py:43-50 | re-cleaning the pivot of the flat records with a map is the pivot of the records corrected with that map |
| Processor.BlankStep | subitem_processor.py:33-36 | with a blank stripped cell, the records and warnings still owed by the scan are the same from `i + 1` as from `i` |
| Processor.NoHeaderStep | subitem_processor.py:42-51 | at a row classified as a parent without a header, appending `i` to the warnings and advancing by 1 keeps collected plus owed equal to before |
| Processor.BlockStep | subitem_processor.py:53-63 | at a row classified as a block, appending its records and advancing to `i + 2 + n` keeps collected plus owed equal to before, and the header row exists |
| Processor.SubitemProcessor.constructor | subitem_processor.py:17-18 | rows are kept by position; an absent map becomes the empty map; no result is set yet |
| Processor.SubitemProcessor.Flatten | subitem_processor.py:26-68 | the loop returns the whole scan's records with the corrections applied, and the rows warned about |
| Processor.SubitemProcessor.FlattenStep | subitem_processor.py:32-63 | one pass of the loop body moves the index forward and keeps collected plus owed by the scan unchanged |
| Processor.SubitemProcessor.ParentStep | subitem_processor.py:38-63 | at a parent row, the header lookup decides between warning and advancing by 1, and emitting the block and skipping its children; collected plus owed is unchanged |
| Processor.SubitemProcessor.NoHeaderEmit | subitem_processor.py:47-51 | a parent without a header adds its index to the warnings, adds no record and advances by 1 |
| Processor.SubitemProcessor.BlockEmit | subitem_processor.py:53-63 | a block adds its records to the list and the index moves past its `n` children |
| Processor.SubitemProcessor.AppendBlock | subitem_processor.py:53-61 | the inner loop appends exactly the block's records to the list |
| Processor.SubitemProcessor.Process | subitem_processor.py:80-92 | `flatDf` is set to the corrected flattened records and `counts` to their pivot, and both are returned |

## Left out

- The Streamlit UI, CSV reading and writing, and output paths are not modelled. `process` is modelled without its two CSV writes and prints.
- The console warning at `subitem_processor.py:49` is modelled as the list of skipped row indices. The prints at lines 85 and 90 are left out.
- Percentages (`subitem_processor.py:117`, `clean_percentage_app/app.py:58-63`) are left out because they are floating-point division and rounding.
- Charts are left out.
- Reading the corrections from JSON or a two-column file is left out: the map arrives already built as a string-to-string map.
- `app.py` reads the export without `dtype=str`/`fillna`, so there a blank cell is the text `nan`. Only the `""` regime is modelled.
- Processor.SubitemProcessor.Flatten: requires `WellFormed`, that is, the four named columns present, distinct column names and rectangular rows. Distinct names make `get_loc` a position. The code reads `Unique Element-ID`, `SKU` and `LOT` only when it appends a record (`subitem_processor.py:56-58`) and `SubItem-Rating` only once a row exists (line 33), so a table without these columns that emits no record, or has no rows at all, flattens without error in the code; `WellFormed` excludes those inputs too, and the `KeyError` the code raises once such a column is actually read is not modelled.
- Processor.SubitemProcessor.Flatten: returns `[]` when corrections are given and no record was emitted, where line 67 raises `KeyError` on the column-less empty frame; `Flatten.CorrectAsWritten` models that failure (see Findings).
- Strings.Lower: ASCII lower-casing only. For comparison with `name` and `item-rating` it agrees with Python's full `lower()`, since the Kelvin sign, the one non-ASCII character that lowers to an ASCII letter, maps to `k`, which neither label contains.
- Processor.SubitemProcessor.Process: uses the pivot of the evident intent for an empty flat table, where the code as written raises; see Findings.
- Recount.Recount: the count matrix read back from CSV is taken as a well-shaped matrix of naturals; row labels that pandas would parse as non-strings are not modelled.
- The identifier-driven ("all-digit id" / "Subitems" marker) detection variant is not part of these source files.

## Findings

| source | as written | input that shows it | evidently intended | confidence | as-written member | corrected member |
|---|---|---|---|---|---|---|
| subitem_processor.py:65-67 | with no records, `pd.DataFrame([])` has no columns, so `flat['subitem_name']` raises `KeyError` whenever corrections are given | a one-row table whose `SubItem-Rating` cell is blank, with corrections `{"Actves": "Actives"}` | an empty flat table, unchanged by the corrections | not executed | Flatten.CorrectAsWritten, Flatten.CorrectAsWrittenFailsOnNoParents | Flatten.Correct |
| subitem_processor.py:71-73 | with no records, `groupby(['subitem_name', 'subitem_rating'])` raises `KeyError` | a one-row table whose `SubItem-Rating` cell is blank | an empty count matrix | not executed | Counts.PivotAsWritten, Counts.PivotAsWrittenFailsOnNoParents | Counts.Pivot, Counts.PivotOfEmpty |
