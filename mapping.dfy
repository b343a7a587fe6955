/**
 * The header mapping: the user's JSON mapping turned into ordered alias lists keyed by the
 * normalised master header, the index of the onboarding headers, and the resolution of
 * every master column to the onboarding column that fills it.
 *
 * Every rule here is stated for the header normaliser `norm` it is given, so its
 * properties hold whatever the normaliser does. The main action passes in the app's own
 * `norm` (module Normalize).
 */
module Mapping {
  import opened Wrappers
  import Frames

  // ---------------------------------------------------------------------------
  // The mapping as parsed from JSON
  // ---------------------------------------------------------------------------

  /** A JSON value in an alias position: null, a string, or any other value by its `str()` text. */
  datatype Scalar = Null | Str(s: string) | Other(text: string)

  /** A mapping value: a list of aliases, or a single alias. */
  datatype MappingValue = List(items: seq<Scalar>) | Single(item: Scalar)

  /** `norm(a)` of an alias; `norm(None)` is "". */
  function NormScalar(norm: string -> string, a: Scalar): string {
    match a
    case Null => ""
    case Str(s) => norm(s)
    case Other(t) => norm(t)
  }

  /** The aliases the user gave: the list itself, or the single value as a one-element list. */
  function Given(v: MappingValue): seq<Scalar> {
    if v.List? then v.items else [v.item]
  }

  /**
   * The alias list of one mapping entry: the user's aliases in the user's order, with the
   * master key itself added as the last fallback when it is not already among them.
   */
  function AliasList(key: string, v: MappingValue): seq<Scalar> {
    var aliases := Given(v);
    if Str(key) in aliases then aliases else aliases + [Str(key)]
  }

  /**
   * An alias list starts with the user's aliases in the user's order, holds the master key,
   * and is one longer than the user's list exactly when the key was missing from it.
   */
  lemma AliasListKeepsOrder(key: string, v: MappingValue)
    ensures var r := AliasList(key, v);
      && |Given(v)| <= |r| <= |Given(v)| + 1 && r[..|Given(v)|] == Given(v)
      && Str(key) in r
      && (|r| == |Given(v)| <==> Str(key) in Given(v))
  {
    var r := AliasList(key, v);
    if Str(key) !in Given(v) {
      assert r[|Given(v)|] == Str(key);
    }
  }

  /** A parsed mapping: its entries in document order, each a master key and its value. */
  type Entries = seq<(string, MappingValue)>

  /** The alias table: normalised master key to alias list. */
  type AliasMap = map<string, seq<Scalar>>

  /**
   * `mapping_aliases_by_master`: every entry stored under its normalised key, a later entry
   * replacing an earlier one whose key normalises the same way.
   */
  function AliasTable(norm: string -> string, entries: Entries): AliasMap
    decreases |entries|
  {
    if entries == [] then map[]
    else
      var n := |entries| - 1;
      AliasTable(norm, entries[..n])[norm(entries[n].0) := AliasList(entries[n].0, entries[n].1)]
  }

  /** The table has a key for exactly the normalised master keys of the mapping. */
  lemma {:induction false} AliasTableKeys(norm: string -> string, entries: Entries, k: string)
    ensures k in AliasTable(norm, entries) <==> exists i :: 0 <= i < |entries| && norm(entries[i].0) == k
    decreases |entries|
  {
    if entries != [] {
      var n := |entries| - 1;
      var pre := entries[..n];
      AliasTableKeys(norm, pre, k);
      if exists i :: 0 <= i < n && norm(pre[i].0) == k {
        var i :| 0 <= i < n && norm(pre[i].0) == k;
        assert entries[i] == pre[i];
      }
      if exists i :: 0 <= i < |entries| && norm(entries[i].0) == k {
        var i :| 0 <= i < |entries| && norm(entries[i].0) == k;
        if i < n {
          assert pre[i] == entries[i];
        }
      }
    }
  }

  /** Under each normalised key the table keeps the alias list of the LAST entry with that key. */
  lemma {:induction false} AliasTableLastWins(norm: string -> string, entries: Entries, i: nat)
    requires i < |entries|
    requires forall j :: i < j < |entries| ==> norm(entries[j].0) != norm(entries[i].0)
    ensures norm(entries[i].0) in AliasTable(norm, entries)
    ensures AliasTable(norm, entries)[norm(entries[i].0)] == AliasList(entries[i].0, entries[i].1)
    decreases |entries|
  {
    var n := |entries| - 1;
    if i < n {
      var pre := entries[..n];
      assert pre[i] == entries[i];
      forall j | i < j < |pre|
        ensures norm(pre[j].0) != norm(pre[i].0)
      {
        assert pre[j] == entries[j];
      }
      AliasTableLastWins(norm, pre, i);
    }
  }

  /** The loop of the Generate action that fills `mapping_aliases_by_master`. */
  method BuildAliasTable(norm: string -> string, entries: Entries) returns (t: AliasMap)
    ensures t == AliasTable(norm, entries)
  {
    t := map[];
    for i := 0 to |entries|
      invariant t == AliasTable(norm, entries[..i])
    {
      var (k, v) := entries[i];
      var aliases := if v.List? then v.items else [v.item];
      if Str(k) !in aliases {
        aliases := aliases + [Str(k)];
      }
      t := t[norm(k) := aliases];
      assert entries[..i + 1][..i] == entries[..i];
    }
    assert entries[..|entries|] == entries;
  }

  // ---------------------------------------------------------------------------
  // The onboarding header index
  // ---------------------------------------------------------------------------

  /** The header index: normalised onboarding header to the position of its column. */
  type HeaderMap = map<string, nat>

  /**
   * `series_by_alias`: each normalised onboarding header mapped to the position of its
   * column. It is built by a dict comprehension, so among headers that normalise alike the
   * last one wins.
   */
  function HeaderIndex(norm: string -> string, headers: seq<string>): (m: HeaderMap)
    ensures forall h :: h in m ==> m[h] < |headers|
    decreases |headers|
  {
    if headers == [] then map[]
    else
      var n := |headers| - 1;
      HeaderIndex(norm, headers[..n])[norm(headers[n]) := n]
  }

  /** The index has a key for exactly the normalised onboarding headers. */
  lemma {:induction false} HeaderIndexKeys(norm: string -> string, headers: seq<string>, h: string)
    ensures h in HeaderIndex(norm, headers) <==> exists j :: 0 <= j < |headers| && norm(headers[j]) == h
    decreases |headers|
  {
    if headers != [] {
      var n := |headers| - 1;
      var pre := headers[..n];
      HeaderIndexKeys(norm, pre, h);
      if exists j :: 0 <= j < n && norm(pre[j]) == h {
        var j :| 0 <= j < n && norm(pre[j]) == h;
        assert headers[j] == pre[j];
      }
      if exists j :: 0 <= j < |headers| && norm(headers[j]) == h {
        var j :| 0 <= j < |headers| && norm(headers[j]) == h;
        if j < n {
          assert pre[j] == headers[j];
        }
      }
    }
  }

  /**
   * Under each key the index holds the position of the LAST header with that normal form:
   * that header normalises to the key, and no header after it does.
   */
  lemma {:induction false} HeaderIndexLastWins(norm: string -> string, headers: seq<string>, h: string)
    requires h in HeaderIndex(norm, headers)
    ensures norm(headers[HeaderIndex(norm, headers)[h]]) == h
    ensures forall j :: HeaderIndex(norm, headers)[h] < j < |headers| ==> norm(headers[j]) != h
    decreases |headers|
  {
    var n := |headers| - 1;
    var pre := headers[..n];
    if norm(headers[n]) != h {
      HeaderIndexLastWins(norm, pre, h);
      var k := HeaderIndex(norm, pre)[h];
      assert headers[k] == pre[k];
      forall j | k < j < n
        ensures norm(headers[j]) != h
      {
        assert headers[j] == pre[j];
      }
    }
  }

  // ---------------------------------------------------------------------------
  // Column resolution
  // ---------------------------------------------------------------------------

  /** The display of the master column that is filled with "List" when nothing matches it. */
  const ListingActionDisplay: string := "Listing Action (List or Unlist)"

  /** The alias list for a master display: the table's entry, or the display itself. */
  function AliasesFor(norm: string -> string, table: AliasMap, disp: string): seq<Scalar> {
    var d := norm(disp);
    if d in table then table[d] else [Str(disp)]
  }

  predicate Hits(norm: string -> string, a: Scalar, index: HeaderMap) {
    NormScalar(norm, a) in index
  }

  /** The position of the first alias whose normal form is an onboarding header. */
  function FirstHit(norm: string -> string, aliases: seq<Scalar>, index: HeaderMap): (r: Option<nat>)
    ensures r.Some? ==> r.value < |aliases| && Hits(norm, aliases[r.value], index)
    ensures r.Some? ==> forall j :: 0 <= j < r.value ==> !Hits(norm, aliases[j], index)
    ensures r.None? <==> forall j :: 0 <= j < |aliases| ==> !Hits(norm, aliases[j], index)
    decreases |aliases|
  {
    if aliases == [] then None
    else if Hits(norm, aliases[0], index) then Some(0)
    else
      match FirstHit(norm, aliases[1..], index)
      case None => None
      case Some(i) => Some(i + 1)
  }

  /** The loop over a column's aliases, in priority order, that stops at the first hit. */
  method FindAlias(norm: string -> string, aliases: seq<Scalar>, index: HeaderMap) returns (r: Option<nat>)
    ensures r == FirstHit(norm, aliases, index)
  {
    var i := 0;
    while i < |aliases|
      invariant 0 <= i <= |aliases|
      invariant forall j :: 0 <= j < i ==> !Hits(norm, aliases[j], index)
    {
      if NormScalar(norm, aliases[i]) in index {
        return Some(i);
      }
      i := i + 1;
    }
    return None;
  }

  /** How one master column is filled. */
  datatype Resolution =
    | Skipped                              // the display normalises to ""
    | Matched(alias: Scalar, column: nat)  // the onboarding column at `column`, found through `alias`
    | FillList                             // the Listing Action column: "List" in every row
    | Unmatched                            // left blank and reported

  /**
   * The resolution of one master column: skip an empty display, else take the first alias
   * that names an onboarding header, else fill the Listing Action column with "List", else
   * report the column as unmatched.
   */
  function Resolve(norm: string -> string, table: AliasMap, index: HeaderMap, disp: string): Resolution {
    var d := norm(disp);
    if d == "" then Skipped
    else
      var aliases := AliasesFor(norm, table, disp);
      match FirstHit(norm, aliases, index)
      case Some(i) => Matched(aliases[i], index[NormScalar(norm, aliases[i])])
      case None => if d == norm(ListingActionDisplay) then FillList else Unmatched
  }

  /**
   * The four outcomes of `Resolve`: an empty display is skipped; otherwise the column is
   * matched through the first alias, in priority order, whose normal form names an
   * onboarding header, and reads the column that header maps to; with no such alias the
   * Listing Action column is filled with "List" and any other column is unmatched.
   */
  lemma ResolveCases(norm: string -> string, table: AliasMap, index: HeaderMap, disp: string)
    ensures var r := Resolve(norm, table, index, disp);
      && (r.Skipped? <==> norm(disp) == "")
      && (r.Matched? <==> norm(disp) != "" && exists a :: a in AliasesFor(norm, table, disp) && Hits(norm, a, index))
      && (r.Matched? ==>
            var aliases := AliasesFor(norm, table, disp);
            exists i :: 0 <= i < |aliases| && aliases[i] == r.alias && Hits(norm, r.alias, index)
              && r.column == index[NormScalar(norm, r.alias)]
              && forall j :: 0 <= j < i ==> !Hits(norm, aliases[j], index))
      && (r.FillList? <==>
            && norm(disp) != ""
            && (forall a :: a in AliasesFor(norm, table, disp) ==> !Hits(norm, a, index))
            && norm(disp) == norm(ListingActionDisplay))
      && (r.Unmatched? <==>
            && norm(disp) != ""
            && (forall a :: a in AliasesFor(norm, table, disp) ==> !Hits(norm, a, index))
            && norm(disp) != norm(ListingActionDisplay))
  {
    var aliases := AliasesFor(norm, table, disp);
    var h := FirstHit(norm, aliases, index);
    if h.None? {
      assert forall a :: a in aliases ==> !Hits(norm, a, index);
    }
  }

  /** A master column whose key has no entry in the table falls back to its own display text. */
  lemma ResolveWithoutEntry(norm: string -> string, table: AliasMap, index: HeaderMap, disp: string)
    requires norm(disp) != "" && norm(disp) !in table
    ensures norm(disp) in index ==> Resolve(norm, table, index, disp) == Matched(Str(disp), index[norm(disp)])
    ensures norm(disp) !in index ==> !Resolve(norm, table, index, disp).Matched?
  {
    assert AliasesFor(norm, table, disp) == [Str(disp)];
  }

  /** The body of the loop over the master columns, for one display. */
  method ResolveOne(norm: string -> string, table: AliasMap, index: HeaderMap, listingKey: string, disp: string)
    returns (r: Resolution)
    requires listingKey == norm(ListingActionDisplay)
    ensures r == Resolve(norm, table, index, disp)
  {
    var dispNorm := norm(disp);
    if dispNorm == "" {
      return Skipped;
    }
    var aliases := if dispNorm in table then table[dispNorm] else [Str(disp)];
    var hit := FindAlias(norm, aliases, index);
    if hit.Some? {
      var a := aliases[hit.value];
      r := Matched(a, index[NormScalar(norm, a)]);
    } else if dispNorm == listingKey {
      r := FillList;
    } else {
      r := Unmatched;
    }
  }

  /** What a resolved master column reads from: an onboarding column, or the "List" fill. */
  datatype Source = Column(values: seq<string>) | ListAction

  /**
   * `master_to_source` and `chosen_alias` at column `c` (counted from 1): the column has a
   * source exactly when its display resolves to an onboarding column or to the "List" fill,
   * and an alias exactly when it resolves to an onboarding column.
   */
  ghost predicate ColumnResolved(
    norm: string -> string, table: AliasMap, f: Frames.Frame, index: HeaderMap, displays: seq<string>, c: nat,
    sources: map<nat, Source>, chosen: map<nat, Scalar>)
    requires 1 <= c <= |displays|
  {
    var r := Resolve(norm, table, index, displays[c - 1]);
    && (c in sources <==> HasSource(r))
    && (c in chosen <==> r.Matched?)
    && (c in sources ==> sources[c] == SourceOf(r, f))
    && (c in chosen ==> chosen[c] == r.alias)
  }

  /** Whether column `c` is resolved depends only on the entries at `c`. */
  lemma ColumnResolvedLocal(
    norm: string -> string, table: AliasMap, f: Frames.Frame, index: HeaderMap, displays: seq<string>, c: nat,
    s1: map<nat, Source>, ch1: map<nat, Scalar>, s2: map<nat, Source>, ch2: map<nat, Scalar>)
    requires 1 <= c <= |displays|
    requires (c in s1 <==> c in s2) && (c in s1 ==> s1[c] == s2[c])
    requires (c in ch1 <==> c in ch2) && (c in ch1 ==> ch1[c] == ch2[c])
    requires ColumnResolved(norm, table, f, index, displays, c, s1, ch1)
    ensures ColumnResolved(norm, table, f, index, displays, c, s2, ch2)
  {
  }

  /** The columns before `c` are resolved, and no other column has an entry. */
  ghost predicate ResolvedBefore(
    norm: string -> string, table: AliasMap, f: Frames.Frame, index: HeaderMap, displays: seq<string>, c: nat,
    sources: map<nat, Source>, chosen: map<nat, Scalar>)
    requires c <= |displays| + 1
  {
    && (forall c' :: c' in sources ==> 1 <= c' < c)
    && (forall c' :: c' in chosen ==> 1 <= c' < c)
    && (forall c' :: 1 <= c' < c ==> ColumnResolved(norm, table, f, index, displays, c', sources, chosen))
  }

  /** Recording the resolution of column `c` extends the resolved columns by one. */
  lemma ResolvedStep(
    norm: string -> string, table: AliasMap, f: Frames.Frame, index: HeaderMap, displays: seq<string>, c: nat, r: Resolution,
    s0: map<nat, Source>, ch0: map<nat, Scalar>, s1: map<nat, Source>, ch1: map<nat, Scalar>)
    requires 1 <= c <= |displays|
    requires r == Resolve(norm, table, index, displays[c - 1])
    requires s1 == if HasSource(r) then s0[c := SourceOf(r, f)] else s0
    requires ch1 == if r.Matched? then ch0[c := r.alias] else ch0
    requires ResolvedBefore(norm, table, f, index, displays, c, s0, ch0)
    ensures ResolvedBefore(norm, table, f, index, displays, c + 1, s1, ch1)
  {
    forall c' | 1 <= c' <= c
      ensures ColumnResolved(norm, table, f, index, displays, c', s1, ch1)
    {
      if c' < c {
        ColumnResolvedLocal(norm, table, f, index, displays, c', s0, ch0, s1, ch1);
      }
    }
  }

  /** Every master column `1..|displays|` is resolved, and no other column has an entry. */
  ghost predicate IsResolution(
    norm: string -> string, table: AliasMap, f: Frames.Frame, displays: seq<string>,
    sources: map<nat, Source>, chosen: map<nat, Scalar>)
  {
    var index := HeaderIndex(norm, f.headers);
    && (forall c :: c in sources ==> 1 <= c <= |displays|)
    && (forall c :: c in chosen ==> 1 <= c <= |displays|)
    && (forall c :: 1 <= c <= |displays| ==> ColumnResolved(norm, table, f, index, displays, c, sources, chosen))
  }

  /** A resolution that gives its column something to write. */
  predicate HasSource(r: Resolution) {
    r.Matched? || r.FillList?
  }

  /** The source a resolution gives its column: the matched onboarding column, or the "List" fill. */
  function SourceOf(r: Resolution, f: Frames.Frame): Source {
    if r.Matched? && r.column < |f.headers| then Column(Frames.ColumnValues(f, r.column)) else ListAction
  }

  /**
   * In a resolution a matched column always reads an onboarding column, the one its chosen
   * alias names, and never gets the "List" fill.
   */
  lemma MatchReadsColumn(
    norm: string -> string, table: AliasMap, f: Frames.Frame, displays: seq<string>,
    sources: map<nat, Source>, chosen: map<nat, Scalar>, c: nat)
    requires IsResolution(norm, table, f, displays, sources, chosen)
    requires c in chosen
    ensures NormScalar(norm, chosen[c]) in HeaderIndex(norm, f.headers)
    ensures HeaderIndex(norm, f.headers)[NormScalar(norm, chosen[c])] < |f.headers|
    ensures c in sources
      && sources[c] == Column(Frames.ColumnValues(f, HeaderIndex(norm, f.headers)[NormScalar(norm, chosen[c])]))
  {
    var index := HeaderIndex(norm, f.headers);
    assert ColumnResolved(norm, table, f, index, displays, c, sources, chosen);
    ResolveCases(norm, table, index, displays[c - 1]);
  }

  /** The displays left unmatched, in column order. */
  function UnmatchedDisplays(norm: string -> string, table: AliasMap, index: HeaderMap, displays: seq<string>): seq<string>
    decreases |displays|
  {
    if displays == [] then []
    else
      var n := |displays| - 1;
      UnmatchedDisplays(norm, table, index, displays[..n])
        + (if Resolve(norm, table, index, displays[n]).Unmatched? then [displays[n]] else [])
  }

  /** `unmatched` lists exactly the displays of the columns that resolve to `Unmatched`, at most one per column. */
  lemma {:induction false} UnmatchedDisplaysMembers(
    norm: string -> string, table: AliasMap, index: HeaderMap, displays: seq<string>)
    ensures var r := UnmatchedDisplays(norm, table, index, displays);
      && |r| <= |displays|
      && forall s :: s in r <==>
           exists c :: 0 <= c < |displays| && displays[c] == s && Resolve(norm, table, index, displays[c]).Unmatched?
    decreases |displays|
  {
    if displays != [] {
      var n := |displays| - 1;
      UnmatchedDisplaysMembers(norm, table, index, displays[..n]);
      assert forall c :: 0 <= c < n ==> displays[..n][c] == displays[c];
    }
  }

  /** The unmatched displays among the first `c` columns extend those among the first `c - 1`. */
  lemma UnmatchedStep(norm: string -> string, table: AliasMap, index: HeaderMap, displays: seq<string>, c: nat)
    requires 1 <= c <= |displays|
    ensures UnmatchedDisplays(norm, table, index, displays[..c])
      == UnmatchedDisplays(norm, table, index, displays[..c - 1])
         + (if Resolve(norm, table, index, displays[c - 1]).Unmatched? then [displays[c - 1]] else [])
  {
    assert displays[..c][..c - 1] == displays[..c - 1];
  }

  /**
   * The loop over the master columns of the Generate action: resolve every master column,
   * filling `master_to_source`, `chosen_alias` and `unmatched`.
   */
  method ResolveColumns(norm: string -> string, table: AliasMap, f: Frames.Frame, displays: seq<string>)
    returns (sources: map<nat, Source>, chosen: map<nat, Scalar>, unmatched: seq<string>)
    ensures IsResolution(norm, table, f, displays, sources, chosen)
    ensures unmatched == UnmatchedDisplays(norm, table, HeaderIndex(norm, f.headers), displays)
  {
    var index := HeaderIndex(norm, f.headers);
    var listingKey := norm(ListingActionDisplay);
    sources, chosen, unmatched := map[], map[], [];
    for c := 1 to |displays| + 1
      invariant ResolvedBefore(norm, table, f, index, displays, c, sources, chosen)
      invariant unmatched == UnmatchedDisplays(norm, table, index, displays[..c - 1])
    {
      var disp := displays[c - 1];
      ghost var s0, ch0 := sources, chosen;
      var r := ResolveOne(norm, table, index, listingKey, disp);
      if HasSource(r) {
        sources := sources[c := SourceOf(r, f)];
      }
      if r.Matched? {
        chosen := chosen[c := r.alias];
      } else if r.Unmatched? {
        unmatched := unmatched + [disp];
      }
      ResolvedStep(norm, table, f, index, displays, c, r, s0, ch0, sources, chosen);
      UnmatchedStep(norm, table, index, displays, c);
    }
    assert displays[..|displays|] == displays;
  }
}
