/**
 * `pick_best_onboarding_sheet`: every sheet of the onboarding workbook that parses is scored
 * by how many master keys find one of their aliases among its headers, with a tie-breaker
 * for holding data, and the first sheet with the highest score wins.
 *
 * Like the mapping rules, the picker is stated for the header normaliser `norm` it is given.
 */
module Picker {
  import opened Wrappers
  import opened Frames
  import opened Mapping

  /** One sheet of the workbook: its name and its parsed frame, or `None` when parsing failed. */
  datatype SheetEntry = SheetEntry(name: string, parsed: Option<Frame>)

  /** The chosen sheet: its cleaned frame, its name and its position in the workbook. */
  datatype Picked = Picked(frame: Frame, name: string, index: nat)

  /** The error raised when no sheet could be parsed. */
  const NoSheetError: string := "No readable sheet found in onboarding workbook."

  /** `any(norm(a) in header_set for a in aliases)`. */
  predicate KeyMatches(norm: string -> string, aliases: seq<Scalar>, headerSet: set<string>) {
    exists a :: a in aliases && NormScalar(norm, a) in headerSet
  }

  /** The master keys of which some alias is among the headers. */
  function MatchedKeys(norm: string -> string, table: AliasMap, headerSet: set<string>): set<string> {
    MatchedAmong(norm, table, headerSet, table.Keys)
  }

  /** The keys among `keys` that are in the table and have an alias among the headers. */
  function MatchedAmong(norm: string -> string, table: AliasMap, headerSet: set<string>, keys: set<string>): set<string> {
    set k | k in keys && k in table && KeyMatches(norm, table[k], headerSet)
  }

  /** Looking at one more key adds it to the matched keys exactly when it matches. */
  lemma MatchedAmongStep(norm: string -> string, table: AliasMap, headerSet: set<string>, keys: set<string>, k: string)
    requires k in table && k !in keys
    ensures |MatchedAmong(norm, table, headerSet, keys + {k})|
      == |MatchedAmong(norm, table, headerSet, keys)| + (if KeyMatches(norm, table[k], headerSet) then 1 else 0)
  {
    var before := MatchedAmong(norm, table, headerSet, keys);
    if KeyMatches(norm, table[k], headerSet) {
      assert MatchedAmong(norm, table, headerSet, keys + {k}) == before + {k};
    } else {
      assert MatchedAmong(norm, table, headerSet, keys + {k}) == before;
    }
  }

  /** A subset is no larger than its superset. */
  lemma SubsetCard<T>(a: set<T>, b: set<T>)
    requires a <= b
    ensures |a| <= |b|
  {
    assert b == a + (b - a);
  }

  /** No more keys match than the table has. */
  lemma MatchedKeysBound(norm: string -> string, table: AliasMap, headerSet: set<string>)
    ensures |MatchedKeys(norm, table, headerSet)| <= |table|
  {
    SubsetCard(MatchedKeys(norm, table, headerSet), table.Keys);
  }

  /**
   * The counting loop of `pick_best_onboarding_sheet`: count the master keys that find an alias among the headers, one key at a
   * time.
   */
  method CountMatches(norm: string -> string, table: AliasMap, headerSet: set<string>) returns (m: nat)
    ensures m == |MatchedKeys(norm, table, headerSet)|
  {
    m := 0;
    var todo := table.Keys;
    ghost var done: set<string> := {};
    while todo != {}
      invariant todo + done == table.Keys && todo !! done
      invariant m == |MatchedAmong(norm, table, headerSet, done)|
      decreases |todo|
    {
      var k :| k in todo;
      MatchedAmongStep(norm, table, headerSet, done, k);
      if KeyMatches(norm, table[k], headerSet) {
        m := m + 1;
      }
      todo := todo - {k};
      done := done + {k};
    }
  }

  /** The number of master keys the frame's headers match. */
  function Matches(norm: string -> string, table: AliasMap, f: Frame): nat {
    |MatchedKeys(norm, table, HeaderSet(norm, f.headers))|
  }

  /**
   * The score of a cleaned frame, scaled by 100 so it is an integer: 100 for every matched
   * master key, plus 1 when the frame has a non-empty data row. Lemma `ScoreOrder` shows it
   * ranks frames exactly as `matches + min(rows, 1) * 0.01` does.
   */
  function Score(norm: string -> string, table: AliasMap, f: Frame): nat {
    100 * Matches(norm, table, f) + Min(NonemptyRows(f.rows), 1)
  }

  /** A frame holds data when one of its data rows has a non-empty cell. */
  predicate HasData(f: Frame) {
    exists i :: 0 <= i < |f.rows| && !IsBlankRow(f.rows[i])
  }

  /**
   * Scores compare first by matched keys and then by holding data, and never exceed 100 per
   * table entry plus 1.
   */
  lemma ScoreRanks(norm: string -> string, table: AliasMap, f: Frame, g: Frame)
    ensures Score(norm, table, f) <= 100 * |table| + 1
    ensures Score(norm, table, f) > Score(norm, table, g) <==>
      || Matches(norm, table, f) > Matches(norm, table, g)
      || (Matches(norm, table, f) == Matches(norm, table, g) && HasData(f) && !HasData(g))
  {
    MatchedKeysBound(norm, table, HeaderSet(norm, f.headers));
    assert Min(NonemptyRows(f.rows), 1) == (if HasData(f) then 1 else 0);
    assert Min(NonemptyRows(g.rows), 1) == (if HasData(g) then 1 else 0);
  }

  /**
   * The integer score orders two sheets as the app's score `matches + min(rows, 1) * 0.01`
   * does, read as exact reals.
   */
  lemma ScoreOrder(m1: nat, rows1: nat, m2: nat, rows2: nat)
    ensures (m1 as real + Min(rows1, 1) as real * 0.01 > m2 as real + Min(rows2, 1) as real * 0.01)
      <==> 100 * m1 + Min(rows1, 1) > 100 * m2 + Min(rows2, 1)
  {
  }

  /** The score `pick_best_onboarding_sheet` gives one cleaned sheet. */
  method ScoreFrame(norm: string -> string, table: AliasMap, df: Frame) returns (score: nat)
    ensures score == Score(norm, table, df)
  {
    var headerSet := HeaderSet(norm, df.headers);
    var matches := CountMatches(norm, table, headerSet);
    var rows := NonemptyRows(df.rows);
    score := 100 * matches + Min(rows, 1);
  }

  /** The score of a sheet that parsed, after its headers are cleaned. */
  function SheetScore(norm: string -> string, table: AliasMap, e: SheetEntry): nat
    requires e.parsed.Some?
  {
    Score(norm, table, Clean(e.parsed.value))
  }

  /**
   * The score of every sheet in workbook order, with -1, the picker's starting best score,
   * for a sheet that did not parse.
   */
  function Scores(norm: string -> string, table: AliasMap, sheets: seq<SheetEntry>): (r: seq<int>)
    ensures |r| == |sheets|
    decreases |sheets|
  {
    if sheets == [] then []
    else
      var n := |sheets| - 1;
      Scores(norm, table, sheets[..n])
        + [if sheets[n].parsed.Some? then SheetScore(norm, table, sheets[n]) else -1]
  }

  /** `Scores` holds one score per sheet: the sheet's score when it parsed, -1 otherwise. */
  lemma {:induction false} ScoresAt(norm: string -> string, table: AliasMap, sheets: seq<SheetEntry>, k: nat)
    requires k < |sheets|
    ensures Scores(norm, table, sheets)[k] == if sheets[k].parsed.Some? then SheetScore(norm, table, sheets[k]) else -1
    decreases |sheets|
  {
    var n := |sheets| - 1;
    if k < n {
      ScoresAt(norm, table, sheets[..n], k);
      assert sheets[..n][k] == sheets[k];
    }
  }

  /** The scores of one more sheet extend the scores of the sheets before it. */
  lemma ScoresSnoc(norm: string -> string, table: AliasMap, sheets: seq<SheetEntry>, n: nat)
    requires n < |sheets|
    ensures Scores(norm, table, sheets[..n + 1]) == Scores(norm, table, sheets[..n])
      + [if sheets[n].parsed.Some? then SheetScore(norm, table, sheets[n]) else -1]
  {
    assert sheets[..n + 1][..n] == sheets[..n];
  }

  /**
   * Among the first `n` scores, the one at `i` is a highest one, no lower than -1 is, and
   * it comes before every other score as high.
   */
  predicate IsFirstMax(scores: seq<int>, n: nat, i: nat)
    requires n <= |scores|
  {
    && i < n
    && scores[i] >= 0
    && (forall k :: 0 <= k < n ==> scores[k] <= scores[i])
    && (forall k :: 0 <= k < i ==> scores[k] < scores[i])
  }

  /** The first highest score is unique: the highest score, earliest among ties, fixes it. */
  lemma FirstMaxUnique(scores: seq<int>, i: nat, j: nat)
    requires IsFirstMax(scores, |scores|, i) && IsFirstMax(scores, |scores|, j)
    ensures i == j
  {
  }

  /** A score no higher than the best so far keeps the best where it is. */
  lemma FirstMaxExtend(scores: seq<int>, x: int, i: nat)
    requires IsFirstMax(scores, |scores|, i) && x <= scores[i]
    ensures IsFirstMax(scores + [x], |scores| + 1, i)
  {
  }

  /** A score above every earlier one becomes the best. */
  lemma FirstMaxNew(scores: seq<int>, x: int)
    requires x >= 0 && forall k :: 0 <= k < |scores| ==> scores[k] < x
    ensures IsFirstMax(scores + [x], |scores| + 1, |scores|)
  {
  }

  /** The sheet `p` came from `sheets`: it parsed, and `p` holds its name and its cleaned frame. */
  predicate IsSheetOf(sheets: seq<SheetEntry>, p: Picked) {
    && p.index < |sheets|
    && sheets[p.index].parsed.Some?
    && p.name == sheets[p.index].name
    && p.frame == Clean(sheets[p.index].parsed.value)
  }

  /**
   * The picker's state after the first `n` sheets, whose scores are `scores`: no sheet is
   * chosen exactly when none of them parsed, and otherwise the chosen sheet is the first
   * with the highest score, which `bestScore` holds.
   */
  predicate Picking(sheets: seq<SheetEntry>, scores: seq<int>, n: nat, best: Option<Picked>, bestScore: int)
    requires n <= |sheets| && |scores| == n
  {
    && (best.None? <==> forall k :: 0 <= k < n ==> sheets[k].parsed.None?)
    && (best.None? ==> bestScore == -1 && forall k :: 0 <= k < n ==> scores[k] == -1)
    && (best.Some? ==>
          && IsSheetOf(sheets, best.value)
          && IsFirstMax(scores, n, best.value.index)
          && bestScore == scores[best.value.index])
  }

  /** A sheet that did not parse changes nothing. */
  lemma PickSkip(sheets: seq<SheetEntry>, scores: seq<int>, n: nat, best: Option<Picked>, bestScore: int)
    requires n < |sheets| && |scores| == n && sheets[n].parsed.None?
    requires Picking(sheets, scores, n, best, bestScore)
    ensures Picking(sheets, scores + [-1], n + 1, best, bestScore)
  {
    if best.Some? {
      FirstMaxExtend(scores, -1, best.value.index);
    }
  }

  /** A parsed sheet that scores no higher than the best keeps the best. */
  lemma PickKeep(sheets: seq<SheetEntry>, scores: seq<int>, n: nat, best: Option<Picked>, bestScore: int, score: nat)
    requires n < |sheets| && |scores| == n && sheets[n].parsed.Some? && score <= bestScore
    requires Picking(sheets, scores, n, best, bestScore)
    ensures Picking(sheets, scores + [score], n + 1, best, bestScore)
  {
    FirstMaxExtend(scores, score, best.value.index);
  }

  /** A parsed sheet that scores higher than the best becomes the best. */
  lemma PickNew(sheets: seq<SheetEntry>, scores: seq<int>, n: nat, best: Option<Picked>, bestScore: int, score: nat)
    requires n < |sheets| && |scores| == n && sheets[n].parsed.Some? && score > bestScore
    requires Picking(sheets, scores, n, best, bestScore)
    ensures Picking(sheets, scores + [score], n + 1,
                    Some(Picked(Clean(sheets[n].parsed.value), sheets[n].name, n)), score)
  {
    FirstMaxNew(scores, score);
  }

  /**
   * `pick_best_onboarding_sheet`: score every sheet that parses and keep the first one with the highest
   * score; fail when no sheet parses.
   */
  method PickBest(norm: string -> string, table: AliasMap, sheets: seq<SheetEntry>) returns (r: Result<Picked>)
    ensures r.Failure? <==> forall k :: 0 <= k < |sheets| ==> sheets[k].parsed.None?
    ensures r.Failure? ==> r.error == NoSheetError
    ensures r.Success? ==> IsSheetOf(sheets, r.value)
    ensures r.Success? ==> IsFirstMax(Scores(norm, table, sheets), |sheets|, r.value.index)
  {
    ghost var scores: seq<int> := [];
    var best: Option<Picked> := None;
    var bestScore: int := -1;
    for n := 0 to |sheets|
      invariant scores == Scores(norm, table, sheets[..n])
      invariant Picking(sheets, scores, n, best, bestScore)
    {
      var sheet := sheets[n];
      ScoresSnoc(norm, table, sheets, n);
      if sheet.parsed.None? {
        PickSkip(sheets, scores, n, best, bestScore);
        scores := scores + [-1];
        continue;
      }
      var df := Clean(sheet.parsed.value);
      var score := ScoreFrame(norm, table, df);
      if score > bestScore {
        PickNew(sheets, scores, n, best, bestScore, score);
        best := Some(Picked(df, sheet.name, n));
        bestScore := score;
      } else {
        PickKeep(sheets, scores, n, best, bestScore, score);
      }
      scores := scores + [score];
    }
    assert sheets[..|sheets|] == sheets;
    if best.None? {
      return Failure(NoSheetError);
    }
    return Success(best.value);
  }
}
