/**
 * An onboarding sheet as the app holds it after `pandas` has parsed it: row 1 gives the
 * column headers, every later row is data, and every cell is text (the sheet is read with
 * `dtype=str` and missing cells are filled with "").
 */
module Frames {
  import opened Wrappers
  import Normalize

  /** A header row and the data rows below it. */
  datatype Table = Table(headers: seq<string>, rows: seq<seq<string>>)

  /** A table whose data rows all have one cell per header, as a data frame has. */
  type Frame = t: Table | forall i :: 0 <= i < |t.rows| ==> |t.rows[i]| == |t.headers|
    witness Table([], [])

  /** A row that has no cell other than "". */
  predicate IsBlankRow(row: seq<string>) {
    forall j :: 0 <= j < |row| ==> row[j] == ""
  }

  /**
   * `nonempty_rows`: the number of rows with at least one non-empty cell. An empty frame
   * (no rows or no columns) has none.
   */
  function NonemptyRows(rows: seq<seq<string>>): (n: nat)
    ensures n <= |rows|
    ensures n == 0 <==> forall i :: 0 <= i < |rows| ==> IsBlankRow(rows[i])
    ensures n == |rows| <==> forall i :: 0 <= i < |rows| ==> !IsBlankRow(rows[i])
  {
    if rows == [] then 0
    else
      var k := |rows| - 1;
      var rest := NonemptyRows(rows[..k]);
      assert forall i :: 0 <= i < k ==> rows[i] == rows[..k][i];
      if IsBlankRow(rows[k]) then rest else rest + 1
  }

  /** The positions of the rows with a non-empty cell. */
  function NonblankPositions(rows: seq<seq<string>>): set<nat> {
    set i: nat | i < |rows| && !IsBlankRow(rows[i])
  }

  /** `nonempty_rows` counts exactly the rows that have a non-empty cell. */
  lemma {:induction false} NonemptyRowsCount(rows: seq<seq<string>>)
    ensures NonemptyRows(rows) == |NonblankPositions(rows)|
    decreases |rows|
  {
    if rows != [] {
      var k := |rows| - 1;
      NonemptyRowsCount(rows[..k]);
      assert forall i :: 0 <= i < k ==> rows[i] == rows[..k][i];
      if IsBlankRow(rows[k]) {
        assert NonblankPositions(rows) == NonblankPositions(rows[..k]);
      } else {
        assert NonblankPositions(rows) == NonblankPositions(rows[..k]) + {k};
      }
    }
  }

  /** The headers with their surrounding whitespace removed, as the picker cleans them. */
  function CleanHeaders(headers: seq<string>): (r: seq<string>)
    ensures |r| == |headers|
    ensures forall j :: 0 <= j < |headers| ==> r[j] == Normalize.Strip(headers[j])
  {
    seq(|headers|, j requires 0 <= j < |headers| => Normalize.Strip(headers[j]))
  }

  /** Cleaning the headers of a frame keeps it a frame. */
  function Clean(f: Frame): (r: Frame)
    ensures r.headers == CleanHeaders(f.headers) && r.rows == f.rows
  {
    Table(CleanHeaders(f.headers), f.rows)
  }

  /**
   * The normalised headers of a frame, `{norm(c) for c in df.columns}`, for the header
   * normaliser `norm` it is given.
   */
  function HeaderSet(norm: string -> string, headers: seq<string>): set<string> {
    set j | 0 <= j < |headers| :: norm(headers[j])
  }

  /** Column `j` of the frame, one value per data row: `on_df[h]` for the header at `j`. */
  function ColumnValues(f: Frame, j: nat): (r: seq<string>)
    requires j < |f.headers|
    ensures |r| == |f.rows|
    ensures forall i :: 0 <= i < |f.rows| ==> r[i] == f.rows[i][j]
  {
    seq(|f.rows|, i requires 0 <= i < |f.rows| => f.rows[i][j])
  }
}
