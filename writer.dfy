/**
 * The row write: every resolved master column is filled from row 3 down, one row per
 * onboarding data row, either with the onboarding column's text or with "List".
 */
module Writer {
  import opened Wrappers
  import Sheet
  import opened Mapping

  /** The first master row that receives data (rows 1 and 2 hold the template's headers). */
  const OutRow: nat := 3

  /** The text written into the Listing Action column when no onboarding column matches it. */
  const ListFill: string := "List"

  /** What a column with source `src` receives in data row `i` (from 0), if anything. */
  function CellValue(src: Source, i: nat): Option<string> {
    match src
    case ListAction => Some(ListFill)
    case Column(values) => if i < |values| then Some(values[i]) else None
  }

  /**
   * Cell `k` is one the loop writes once it has finished data rows `0..rows - 1` and, in data
   * row `rows`, the columns before `cols`.
   */
  predicate Writes(sources: map<nat, Source>, usedCols: nat, rows: nat, cols: nat, k: (nat, nat)) {
    && k.0 >= OutRow
    && 1 <= k.1 <= usedCols
    && k.1 in sources
    && CellValue(sources[k.1], k.0 - OutRow).Some?
    && (k.0 - OutRow < rows || (k.0 - OutRow == rows && k.1 < cols))
  }

  /**
   * `after` is `before` with every cell the loop writes (up to data row `rows`, column
   * `cols`) set to its value, and every other cell as it was.
   */
  ghost predicate WrittenFrom(
    before: map<(nat, nat), string>, after: map<(nat, nat), string>,
    sources: map<nat, Source>, usedCols: nat, rows: nat, cols: nat)
  {
    && (forall k :: k in after <==> k in before || Writes(sources, usedCols, rows, cols, k))
    && (forall k :: k in after && Writes(sources, usedCols, rows, cols, k) ==>
          after[k] == CellValue(sources[k.1], k.0 - OutRow).value)
    && (forall k :: k in after && !Writes(sources, usedCols, rows, cols, k) ==> after[k] == before[k])
  }

  /** The cells written are fixed by the sources: two results of the same write are equal. */
  lemma WrittenDetermined(
    before: map<(nat, nat), string>, a1: map<(nat, nat), string>, a2: map<(nat, nat), string>,
    sources: map<nat, Source>, usedCols: nat, rows: nat)
    requires WrittenFrom(before, a1, sources, usedCols, rows, 1)
    requires WrittenFrom(before, a2, sources, usedCols, rows, 1)
    ensures a1 == a2
  {
  }

  /**
   * What the write leaves behind: the header rows and every column without a source are
   * untouched; a Listing Action column holds "List" in each of the first `numRows` data
   * rows; a matched column holds its onboarding value in each of them.
   */
  lemma WriteEffect(
    before: map<(nat, nat), string>, after: map<(nat, nat), string>,
    sources: map<nat, Source>, usedCols: nat, numRows: nat, k: (nat, nat))
    requires WrittenFrom(before, after, sources, usedCols, numRows, 1)
    ensures k.0 < OutRow ==> (k in after <==> k in before) && (k in before ==> after[k] == before[k])
    ensures k.1 !in sources || k.1 > usedCols ==> (k in after <==> k in before) && (k in before ==> after[k] == before[k])
    ensures k.0 >= OutRow + numRows ==> (k in after <==> k in before) && (k in before ==> after[k] == before[k])
    ensures OutRow <= k.0 < OutRow + numRows && 1 <= k.1 <= usedCols && k.1 in sources && sources[k.1].ListAction? ==>
      k in after && after[k] == ListFill
    ensures (&& OutRow <= k.0 < OutRow + numRows && 1 <= k.1 <= usedCols && k.1 in sources
             && sources[k.1].Column? && k.0 - OutRow < |sources[k.1].values|) ==>
      k in after && after[k] == sources[k.1].values[k.0 - OutRow]
  {
  }

  /** Writing the cell at data row `i`, column `c` advances the write by one cell. */
  lemma WriteStep(
    before: map<(nat, nat), string>, cells: map<(nat, nat), string>,
    sources: map<nat, Source>, usedCols: nat, i: nat, c: nat)
    requires 1 <= c <= usedCols
    requires WrittenFrom(before, cells, sources, usedCols, i, c)
    ensures c in sources && CellValue(sources[c], i).Some? ==>
      WrittenFrom(before, cells[(OutRow + i, c) := CellValue(sources[c], i).value], sources, usedCols, i, c + 1)
    ensures !(c in sources && CellValue(sources[c], i).Some?) ==>
      WrittenFrom(before, cells, sources, usedCols, i, c + 1)
  {
    var k0 := (OutRow + i, c);
    assert forall k :: k != k0 ==> (Writes(sources, usedCols, i, c + 1, k) <==> Writes(sources, usedCols, i, c, k));
  }

  /** Finishing every column of data row `i` is the same as starting data row `i + 1`. */
  lemma WriteNextRow(
    before: map<(nat, nat), string>, cells: map<(nat, nat), string>,
    sources: map<nat, Source>, usedCols: nat, i: nat)
    requires WrittenFrom(before, cells, sources, usedCols, i, usedCols + 1)
    ensures WrittenFrom(before, cells, sources, usedCols, i + 1, 1)
  {
  }

  /**
   * The body of the inner loop of the row write: write "List" or the onboarding value of data
   * row `i` into column `c`, when the column has one.
   */
  method WriteCell(ws: Sheet.Worksheet, ghost before: map<(nat, nat), string>,
                   sources: map<nat, Source>, usedCols: nat, i: nat, c: nat)
    requires ws.Valid() && 1 <= c <= usedCols <= ws.maxColumn
    requires WrittenFrom(before, ws.cells, sources, usedCols, i, c)
    modifies ws
    ensures ws.Valid() && ws.maxColumn == old(ws.maxColumn)
    ensures WrittenFrom(before, ws.cells, sources, usedCols, i, c + 1)
  {
    WriteStep(before, ws.cells, sources, usedCols, i, c);
    if c !in sources {
      return;
    }
    match sources[c] {
      case ListAction =>
        ws.Put(OutRow + i, c, ListFill);
      case Column(values) =>
        if i < |values| {
          ws.Put(OutRow + i, c, values[i]);
        }
    }
  }

  /**
   * The row write of the Generate action: for every onboarding data row `i` and every master column `c` up to
   * `usedCols` with a source, write "List" or the onboarding value into row `3 + i`.
   */
  method WriteRows(ws: Sheet.Worksheet, sources: map<nat, Source>, numRows: nat, usedCols: nat)
    requires ws.Valid() && usedCols <= ws.maxColumn
    modifies ws
    ensures ws.Valid() && ws.maxColumn == old(ws.maxColumn)
    ensures WrittenFrom(old(ws.cells), ws.cells, sources, usedCols, numRows, 1)
  {
    ghost var before := ws.cells;
    for i := 0 to numRows
      invariant ws.Valid() && ws.maxColumn == old(ws.maxColumn)
      invariant WrittenFrom(before, ws.cells, sources, usedCols, i, 1)
    {
      for c := 1 to usedCols + 1
        invariant ws.Valid() && ws.maxColumn == old(ws.maxColumn)
        invariant WrittenFrom(before, ws.cells, sources, usedCols, i, c)
      {
        WriteCell(ws, before, sources, usedCols, i, c);
      }
      WriteNextRow(before, ws.cells, sources, usedCols, i);
    }
  }
}
