/**
 * The master template's active worksheet, as far as the app touches it: a grid of cells
 * addressed by (row, column), both counted from 1, and the sheet's `max_column`.
 */
module Sheet {
  import opened Wrappers

  /** A cell value that counts as a header: neither missing nor "". */
  predicate IsFilled(v: Option<string>) {
    v.Some? && v.value != ""
  }

  class Worksheet {
    /** The cells that hold a value; a cell that is absent holds `None`. */
    var cells: map<(nat, nat), string>
    /** The right-most column the sheet has ever used, never less than 1. */
    var maxColumn: nat

    ghost predicate Valid()
      reads this
    {
      && maxColumn >= 1
      && forall k :: k in cells ==> 1 <= k.0 && 1 <= k.1 <= maxColumn
    }

    /** `ws.cell(row=row, column=col).value`. */
    function Value(row: nat, col: nat): Option<string>
      reads this
    {
      if (row, col) in cells then Some(cells[(row, col)]) else None
    }

    /** `ws.cell(row=row, column=col, value=v)`: set one cell; the sheet grows to cover it. */
    method Put(row: nat, col: nat, v: string)
      requires Valid() && row >= 1 && col >= 1
      modifies this
      ensures Valid()
      ensures cells == old(cells)[(row, col) := v]
      ensures maxColumn == Max(old(maxColumn), col)
    {
      cells := cells[(row, col) := v];
      maxColumn := Max(maxColumn, col);
    }

    /** Some header row holds a value in column `c`. */
    predicate HeaderAt(headerRows: seq<nat>, c: nat)
      reads this
    {
      exists i :: 0 <= i < |headerRows| && IsFilled(Value(headerRows[i], c))
    }

    /**
     * The scan has just seen `stop` empty columns in a row, ending at column `c`:
     * columns `c - stop + 1` to `c` hold no header.
     */
    predicate StreakEndsAt(headerRows: seq<nat>, stop: nat, c: nat)
      reads this
    {
      stop <= c && forall j :: c - stop < j <= c ==> !HeaderAt(headerRows, j)
    }

    /**
     * What `worksheet_used_cols` returns: 1 or a header column, reached before any run of
     * `max(emptyStreakStop, 1)` empty columns, with every header column to its right (up to
     * `min(max_column, hard_cap)`) lying beyond such a run.
     */
    ghost predicate IsUsedCols(headerRows: seq<nat>, hardCap: nat, emptyStreakStop: int, r: nat)
      reads this
    {
      var k := Max(emptyStreakStop, 1);
      && 1 <= r <= Max(1, Min(maxColumn, hardCap))
      && (r == 1 || HeaderAt(headerRows, r))
      && (forall s: nat :: s < r ==> !StreakEndsAt(headerRows, k, s))
      && (forall c :: r < c <= Min(maxColumn, hardCap) && HeaderAt(headerRows, c) ==>
            exists s: nat :: s < c && StreakEndsAt(headerRows, k, s))
    }

    /** The description above fixes the result: two columns that both meet it are equal. */
    lemma UsedColsDetermined(headerRows: seq<nat>, hardCap: nat, emptyStreakStop: int, r1: nat, r2: nat)
      requires IsUsedCols(headerRows, hardCap, emptyStreakStop, r1)
      requires IsUsedCols(headerRows, hardCap, emptyStreakStop, r2)
      ensures r1 == r2
    {
    }

    /**
     * `worksheet_used_cols`: scan the columns `1..min(max_column, hard_cap)`, remember the
     * last one that has a header in some header row, stop once `empty_streak_stop` empty
     * columns follow each other, and return the remembered column, or 1 when there is none.
     *
     * With `K = max(empty_streak_stop, 1)`, the result `r` is the last header column before
     * the first run of `K` empty columns: the scan reaches `r` without meeting such a run,
     * and every header column further right lies beyond one.
     */
    method UsedCols(headerRows: seq<nat>, hardCap: nat, emptyStreakStop: int) returns (r: nat)
      requires Valid()
      ensures 1 <= r <= Max(1, Min(maxColumn, hardCap))
      ensures IsUsedCols(headerRows, hardCap, emptyStreakStop, r)
    {
      var maxTry := Min(maxColumn, hardCap);
      ghost var k: nat := Max(emptyStreakStop, 1);
      var last, streak := 0, 0;
      var c := 1;
      while c <= maxTry
        invariant 1 <= c <= Max(maxTry, 0) + 1
        invariant last < c && (last == 0 || HeaderAt(headerRows, last))
        invariant streak == c - 1 - last
        invariant forall j :: last < j < c ==> !HeaderAt(headerRows, j)
        invariant forall s: nat :: s < c ==> !StreakEndsAt(headerRows, k, s)
      {
        var anyVal := false;
        var i := 0;
        while i < |headerRows|
          invariant 0 <= i <= |headerRows|
          invariant !anyVal
          invariant forall i' :: 0 <= i' < i ==> !IsFilled(Value(headerRows[i'], c))
        {
          if IsFilled(Value(headerRows[i], c)) {
            anyVal := true;
            break;
          }
          i := i + 1;
        }
        assert anyVal <==> HeaderAt(headerRows, c);
        if anyVal {
          last := c;
          streak := 0;
          assert !StreakEndsAt(headerRows, k, c) by {
            assert c - k < c <= c;
          }
        } else {
          streak := streak + 1;
          if streak >= emptyStreakStop {
            assert StreakEndsAt(headerRows, k, c);
            break;
          }
          assert !StreakEndsAt(headerRows, k, c) by {
            if k <= c {
              assert c - k < last <= c && HeaderAt(headerRows, last);
            }
          }
        }
        c := c + 1;
      }
      r := Max(last, 1);
    }

    /**
     * `master_displays`: the row-1 text of the columns `1..usedCols`, with an empty cell
     * read as "".
     */
    function Displays(usedCols: nat): (r: seq<string>)
      reads this
      ensures |r| == usedCols
      ensures forall c :: 1 <= c <= usedCols ==>
        r[c - 1] == (if Value(1, c).Some? then Value(1, c).value else "")
    {
      seq(usedCols, i requires 0 <= i < usedCols reads this =>
        if Value(1, i + 1).Some? then Value(1, i + 1).value else "")
    }
  }
}
