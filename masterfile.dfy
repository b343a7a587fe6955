/**
 * The "Generate" action of the app, from the parsed mapping to the filled master sheet: build
 * the alias table, pick the onboarding sheet, measure the master's header span, resolve every
 * master column and write the data rows.
 */
module Masterfile {
  import opened Wrappers
  import Normalize
  import Frames
  import Sheet
  import opened Mapping
  import Picker
  import Writer

  /** The header rows of the master template: display labels and internal keys. */
  const HeaderRows: seq<nat> := [1, 2]

  /** The defaults of `worksheet_used_cols` the app relies on. */
  const HardCap: nat := 512
  const EmptyStreakStop: nat := 8

  /** The app's header normaliser, `norm`, on a string. */
  function AppNorm(s: string): (r: string)
    ensures Normalize.IsNormal(r)
  {
    Normalize.Norm(Some(s))
  }

  /** What the action reports: the chosen sheet and the columns it resolved and left unmatched. */
  datatype Outcome = Outcome(
    picked: Picker.Picked,
    usedCols: nat,
    sources: map<nat, Source>,
    chosen: map<nat, Scalar>,
    unmatched: seq<string>)

  /** A matched column reads a column of the frame: one value per data row. */
  lemma SourcesCoverRows(
    norm: string -> string, table: AliasMap, f: Frames.Frame, displays: seq<string>,
    sources: map<nat, Source>, chosen: map<nat, Scalar>, c: nat)
    requires IsResolution(norm, table, f, displays, sources, chosen)
    requires c in sources && sources[c].Column?
    ensures |sources[c].values| == |f.rows|
  {
    var index := HeaderIndex(norm, f.headers);
    assert ColumnResolved(norm, table, f, index, displays, c, sources, chosen);
  }

  /**
   * The Generate action once its inputs are parsed. It fails, leaving the sheet as it
   * was, exactly when no onboarding sheet parses; otherwise it picks the best sheet, resolves
   * every master column within the header span against that sheet, and fills rows 3 onwards.
   */
  method Generate(entries: Entries, sheets: seq<Picker.SheetEntry>, ws: Sheet.Worksheet)
    returns (r: Result<Outcome>)
    requires ws.Valid()
    modifies ws
    ensures ws.Valid() && ws.maxColumn == old(ws.maxColumn)
    ensures r.Failure? <==> forall k :: 0 <= k < |sheets| ==> sheets[k].parsed.None?
    ensures r.Failure? ==> r.error == Picker.NoSheetError && ws.cells == old(ws.cells)
    ensures r.Success? ==>
      var o := r.value;
      var table := AliasTable(AppNorm, entries);
      && Picker.IsSheetOf(sheets, o.picked)
      && Picker.IsFirstMax(Picker.Scores(AppNorm, table, sheets), |sheets|, o.picked.index)
      && old(ws.IsUsedCols(HeaderRows, HardCap, EmptyStreakStop, o.usedCols))
      && IsResolution(AppNorm, table, o.picked.frame, old(ws.Displays(o.usedCols)), o.sources, o.chosen)
      && o.unmatched == UnmatchedDisplays(AppNorm, table, HeaderIndex(AppNorm, o.picked.frame.headers),
                                          old(ws.Displays(o.usedCols)))
      && Writer.WrittenFrom(old(ws.cells), ws.cells, o.sources, o.usedCols, |o.picked.frame.rows|, 1)
  {
    var table := BuildAliasTable(AppNorm, entries);
    var best := Picker.PickBest(AppNorm, table, sheets);
    if best.Failure? {
      return Failure(best.error);
    }
    var picked := best.value;
    var usedCols := ws.UsedCols(HeaderRows, HardCap, EmptyStreakStop);
    var displays := ws.Displays(usedCols);
    var sources, chosen, unmatched := ResolveColumns(AppNorm, table, picked.frame, displays);
    Writer.WriteRows(ws, sources, |picked.frame.rows|, usedCols);
    r := Success(Outcome(picked, usedCols, sources, chosen, unmatched));
  }
}
