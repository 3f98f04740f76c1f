/** DS2 of `traigent_schema/certification/dataset_record_verifier.py`. */
module DatasetComposition {
  // The declared composition is recomputed from the item set's own leaves.  Digests are injective
  // symbols.

  import opened Outcomes
  import opened Sorting

  const MAX_CELLS: nat := 40
  const MAX_LEAF_LIST: nat := 65536

  /** A role digest: one constructor per domain, over the sorted leaves. */
  datatype Digest =
    | CellRoot(leaves: seq<Text>)
    | ItemSetRoot(leaves: seq<Text>)
    | LeafListDigest(leaves: seq<Text>)
    | OtherDigest(bytes: Text)

  datatype CellKey = CellKey(category: Text, stratum: Text)

  datatype Entry = Entry(leaf: Text, key: CellKey)

  datatype Cell = Cell(key: CellKey, itemCount: int, root: Digest)

  datatype Composition = Composition(cells: seq<Cell>, populatedCellCount: int)

  datatype Identity = Identity(itemCount: int, itemSetRoot: Digest)

  datatype Failure =
    | StratumPartitionMismatch
    | CellCountMismatch
    | CellRootMismatch
    | LeafListShape

  function Leaves(entries: seq<Entry>): seq<Text> {
    seq(|entries|, i requires 0 <= i < |entries| => entries[i].leaf)
  }

  /** The leaves tagged with this cell, in the order given. */
  function LeavesOf(entries: seq<Entry>, key: CellKey): (r: seq<Text>)
    ensures forall x :: x in r <==> Entry(x, key) in entries
  {
    if entries == [] then []
    else
      var last := entries[|entries| - 1];
      assert entries == entries[..|entries| - 1] + [last];
      LeavesOf(entries[..|entries| - 1], key) + if last.key == key then [last.leaf] else []
  }

  function SumCounts(cells: seq<Cell>): int {
    if cells == [] then 0 else SumCounts(cells[..|cells| - 1]) + cells[|cells| - 1].itemCount
  }

  ghost predicate DistinctKeys(cells: seq<Cell>) {
    forall i, j :: 0 <= i < j < |cells| ==> cells[i].key != cells[j].key
  }

  // ----- the declared partition

  ghost predicate PartitionDeclared(identity: Identity, c: Composition) {
    && |c.cells| <= MAX_CELLS
    && DistinctKeys(c.cells)
    && (forall i :: 0 <= i < |c.cells| ==> c.cells[i].itemCount >= 1)
    && SumCounts(c.cells) == identity.itemCount
    && c.populatedCellCount == |c.cells|
  }

  /** `_check_declared_partition`. */
  method CheckDeclaredPartition(identity: Identity, c: Composition) returns (failure: Option<Failure>)
    ensures failure == if PartitionDeclared(identity, c) then None else Some(StratumPartitionMismatch)
  {
    var cells := c.cells;
    if |cells| > MAX_CELLS {
      return Some(StratumPartitionMismatch);
    }
    var seen: set<CellKey> := {};
    var total := 0;
    for i := 0 to |cells|
      invariant seen == set j | 0 <= j < i :: cells[j].key
      invariant DistinctKeys(cells[..i]) && total == SumCounts(cells[..i])
      invariant forall j :: 0 <= j < i ==> cells[j].itemCount >= 1
    {
      assert cells[..i + 1][..i] == cells[..i];
      if cells[i].key in seen {
        ghost var j :| 0 <= j < i && cells[j].key == cells[i].key;
        return Some(StratumPartitionMismatch);
      }
      seen := seen + {cells[i].key};
      if cells[i].itemCount < 1 {
        return Some(StratumPartitionMismatch);
      }
      total := total + cells[i].itemCount;
    }
    assert cells[..|cells|] == cells;
    if total != identity.itemCount || c.populatedCellCount != |cells| {
      return Some(StratumPartitionMismatch);
    }
    failure := None;
  }

  /** The uniqueness test of `_check_leaf_list_entry`: `len(set(leaves)) != len(leaves)`. */
  method CheckLeavesUnique(leaves: seq<Text>) returns (failure: Option<Failure>)
    ensures failure == if Distinct(leaves) then None else Some(LeafListShape)
  {
    var unique := set x | x in leaves;
    SetSizeTellsRepeats(leaves);
    failure := if |unique| != |leaves| then Some(LeafListShape) else None;
  }

  lemma {:induction false} SetSizeTellsRepeats<T>(s: seq<T>)
    ensures |set x | x in s| <= |s|
    ensures |set x | x in s| == |s| <==> Distinct(s)
    decreases |s|
  {
    if s != [] {
      var init, last := s[..|s| - 1], s[|s| - 1];
      SetSizeTellsRepeats(init);
      assert s == init + [last];
      assert (set x | x in s) == (set x | x in init) + {last};
      if last in init {
        assert (set x | x in s) == (set x | x in init);
        var i :| 0 <= i < |init| && init[i] == last;
        assert s[i] == s[|s| - 1];
      } else {
        assert Distinct(s) ==> Distinct(init) by {
          forall i, j | Distinct(s) && 0 <= i < j < |init| ensures init[i] != init[j] {
            assert s[i] != s[j];
          }
        }
      }
    }
  }

  // ----- the recomputed cells

  ghost predicate CellMatches(entries: seq<Entry>, cell: Cell) {
    var leaves := LeavesOf(entries, cell.key);
    |leaves| == cell.itemCount && CellRoot(Sort(leaves, LexLeq)) == cell.root
  }

  ghost predicate HasCell(cells: seq<Cell>, key: CellKey) {
    exists i :: 0 <= i < |cells| && cells[i].key == key
  }

  ghost predicate AllCellsMatch(entries: seq<Entry>, cells: seq<Cell>) {
    forall i :: 0 <= i < |cells| ==> CellMatches(entries, cells[i])
  }

  /** Every leaf is in a declared cell, and cells and item set have the declared roots. */
  ghost predicate CellsRecomputed(identity: Identity, c: Composition, entries: seq<Entry>) {
    && AllCellsMatch(entries, c.cells)
    && (forall e :: e in entries ==> HasCell(c.cells, e.key))
    && ItemSetRoot(Sort(Leaves(entries), LexLeq)) == identity.itemSetRoot
  }

  function Tags(entries: seq<Entry>): set<CellKey> {
    set e | e in entries :: e.key
  }

  /** byCell holds every tag's leaves. */
  ghost predicate Grouped(byCell: map<CellKey, seq<Text>>, entries: seq<Entry>) {
    && byCell.Keys == Tags(entries)
    && forall k :: LeavesOf(entries, k) == if k in byCell then byCell[k] else []
  }

  lemma GroupedGrows(byCell: map<CellKey, seq<Text>>, entries: seq<Entry>, e: Entry)
    requires Grouped(byCell, entries)
    ensures Grouped(byCell[e.key := (if e.key in byCell then byCell[e.key] else []) + [e.leaf]], entries + [e])
  {
    TagsSnoc(entries, e);
    hide LeavesOf, Tags;
    var leaves := if e.key in byCell then byCell[e.key] else [];
    forall k ensures LeavesOf(entries + [e], k) == if k in byCell[e.key := leaves + [e.leaf]] then byCell[e.key := leaves + [e.leaf]][k] else [] {
      LeavesOfSnoc(entries, e, k);
    }
  }

  lemma NothingGrouped(entries: seq<Entry>)
    ensures Leaves(entries[..0]) == [] && Grouped(map[], entries[..0])
  {
  }

  lemma LeavesSnoc(entries: seq<Entry>, e: Entry)
    ensures Leaves(entries + [e]) == Leaves(entries) + [e.leaf]
  {
  }

  lemma TagsSnoc(entries: seq<Entry>, e: Entry)
    ensures Tags(entries + [e]) == Tags(entries) + {e.key}
  {
  }

  lemma LeavesOfSnoc(entries: seq<Entry>, e: Entry, k: CellKey)
    ensures LeavesOf(entries + [e], k) == LeavesOf(entries, k) + if e.key == k then [e.leaf] else []
  {
    assert (entries + [e])[..|entries|] == entries;
  }

  /** `by_cell`: the leaves by cell. */
  method GroupByCell(entries: seq<Entry>) returns (byCell: map<CellKey, seq<Text>>, all: seq<Text>)
    ensures all == Leaves(entries) && Grouped(byCell, entries)
  {
    hide Grouped, Leaves;
    byCell, all := map[], [];
    NothingGrouped(entries);
    for i := 0 to |entries|
      invariant all == Leaves(entries[..i]) && Grouped(byCell, entries[..i])
    {
      var e := entries[i];
      assert entries[..i + 1] == entries[..i] + [e];
      GroupedGrows(byCell, entries[..i], e);
      LeavesSnoc(entries[..i], e);
      all := all + [e.leaf];
      byCell := byCell[e.key := (if e.key in byCell then byCell[e.key] else []) + [e.leaf]];
    }
    assert entries[..|entries|] == entries;
  }

  /** The loop over the declared cells. */
  method CheckEachCell(cells: seq<Cell>, byCell: map<CellKey, seq<Text>>, ghost entries: seq<Entry>)
    returns (failure: Option<Failure>, declared: set<CellKey>)
    requires Grouped(byCell, entries)
    ensures failure.None? <==> AllCellsMatch(entries, cells)
    ensures failure == Some(CellCountMismatch) <==> CountFailsFirst(entries, cells)
    ensures failure in {None, Some(CellCountMismatch), Some(CellRootMismatch)}
    ensures failure.None? ==> forall k :: k in declared <==> HasCell(cells, k)
  {
    hide Grouped, CellMatches, Sort, MiscountsCell, CountFailsFirst;
    declared := {};
    for i := 0 to |cells|
      invariant forall j :: 0 <= j < i ==> CellMatches(entries, cells[j])
      invariant declared == set j | 0 <= j < i :: cells[j].key
    {
      var cell := cells[i];
      var leaves := if cell.key in byCell then byCell[cell.key] else [];
      MatchesItsLeaves(byCell, entries, cell, leaves);
      FirstMismatch(entries, cells, i);
      if |leaves| != cell.itemCount {
        return Some(CellCountMismatch), {};
      }
      if CellRoot(Sort(leaves, LexLeq)) != cell.root {
        return Some(CellRootMismatch), {};
      }
      declared := declared + {cell.key};
    }
    NoneMismatches(entries, cells);
    failure := None;
  }

  /** The first cell that does not match has the wrong number of leaves. */
  ghost predicate CountFailsFirst(entries: seq<Entry>, cells: seq<Cell>) {
    exists i :: 0 <= i < |cells| && AllCellsMatch(entries, cells[..i]) && MiscountsCell(entries, cells[i])
  }

  ghost predicate MiscountsCell(entries: seq<Entry>, cell: Cell) {
    |LeavesOf(entries, cell.key)| != cell.itemCount
  }

  lemma FirstMismatch(entries: seq<Entry>, cells: seq<Cell>, i: nat)
    requires i < |cells| && forall j :: 0 <= j < i ==> CellMatches(entries, cells[j])
    ensures MiscountsCell(entries, cells[i]) ==> CountFailsFirst(entries, cells)
    ensures !CellMatches(entries, cells[i]) && !MiscountsCell(entries, cells[i]) ==> !CountFailsFirst(entries, cells)
  {
    hide LeavesOf, Sort;
    assert AllCellsMatch(entries, cells[..i]);
    if k :| 0 <= k < |cells| && AllCellsMatch(entries, cells[..k]) && MiscountsCell(entries, cells[k]) {
      assert k > i ==> CellMatches(entries, cells[..k][i]);
      assert k < i ==> CellMatches(entries, cells[k]);
    }
  }

  lemma NoneMismatches(entries: seq<Entry>, cells: seq<Cell>)
    requires AllCellsMatch(entries, cells)
    ensures !CountFailsFirst(entries, cells)
  {
    hide LeavesOf, Sort;
    forall k | 0 <= k < |cells| ensures !MiscountsCell(entries, cells[k]) {
      assert CellMatches(entries, cells[k]);
    }
  }

  lemma MatchesItsLeaves(byCell: map<CellKey, seq<Text>>, entries: seq<Entry>, cell: Cell, leaves: seq<Text>)
    requires Grouped(byCell, entries) && leaves == if cell.key in byCell then byCell[cell.key] else []
    ensures CellMatches(entries, cell) <==> |leaves| == cell.itemCount && CellRoot(Sort(leaves, LexLeq)) == cell.root
    ensures MiscountsCell(entries, cell) <==> |leaves| != cell.itemCount
  {
    hide LeavesOf, Sort;
  }

  /** `_check_cell_roots`: true exactly when there are leaves and everything is recomputed, or the first mismatch. */
  method CheckCellRoots(identity: Identity, c: Composition, entries: Option<seq<Entry>>) returns (r: Result<bool, Failure>)
    ensures r == Ok(false) <==> entries.None? || entries.value == []
    ensures r == Ok(true) <==> entries.Some? && entries.value != [] && CellsRecomputed(identity, c, entries.value)
    ensures r == Err(CellCountMismatch) <==>
              entries.Some? && entries.value != [] && CountFailsFirst(entries.value, c.cells)
    ensures r.Err? ==> r.error in {CellCountMismatch, CellRootMismatch}
  {
    if entries.None? || entries.value == [] {
      return Ok(false);
    }
    var byCell, all := GroupByCell(entries.value);
    hide LeavesOf, Leaves, Tags, AllCellsMatch, HasCell, CellMatches, CountFailsFirst;
    var failure, declared := CheckEachCell(c.cells, byCell, entries.value);
    if failure.Some? {
      return Err(failure.value);
    }
    UndeclaredCells(entries.value, c.cells, declared);
    if byCell.Keys - declared != {} {
      return Err(CellRootMismatch);
    }
    if ItemSetRoot(Sort(all, LexLeq)) != identity.itemSetRoot {
      return Err(CellRootMismatch);
    }
    r := Ok(true);
  }

  lemma UndeclaredCells(entries: seq<Entry>, cells: seq<Cell>, declared: set<CellKey>)
    requires forall k :: k in declared <==> HasCell(cells, k)
    ensures Tags(entries) - declared == {} <==> forall e :: e in entries ==> HasCell(cells, e.key)
  {
    hide HasCell;
    if Tags(entries) - declared == {} {
      forall e | e in entries ensures HasCell(cells, e.key) {
        assert e.key !in Tags(entries) - declared;
      }
    } else {
      var k :| k in Tags(entries) - declared;
    }
  }

  datatype Basis = ClientDeclared | IssuerVerified | Abstained

  /** Shape, partition and roots together, as `_verify` runs them for DS2. */
  method DeriveDs2(identity: Identity, c: Composition, entries: Option<seq<Entry>>) returns (r: Result<Basis, Failure>)
    ensures r == Ok(IssuerVerified) <==>
            && entries.Some? && 0 < |entries.value| <= MAX_LEAF_LIST
            && Distinct(Leaves(entries.value)) && PartitionDeclared(identity, c) && CellsRecomputed(identity, c, entries.value)
    ensures r == Ok(ClientDeclared) <==>
            && PartitionDeclared(identity, c)
            && (entries.None? || (Distinct(Leaves(entries.value)) && (entries.value == [] || |entries.value| > MAX_LEAF_LIST)))
    ensures r == Err(LeafListShape) <==> entries.Some? && !Distinct(Leaves(entries.value))
    ensures r == Err(StratumPartitionMismatch) <==>
            (entries.Some? ==> Distinct(Leaves(entries.value))) && !PartitionDeclared(identity, c)
    ensures r == Err(CellCountMismatch) ==> entries.Some? && CountFailsFirst(entries.value, c.cells)
    ensures r != Ok(Abstained)
  {
    if entries.Some? {
      var shape := CheckLeavesUnique(Leaves(entries.value));
      if shape.Some? {
        return Err(shape.value);
      }
    }
    var partition := CheckDeclaredPartition(identity, c);
    if partition.Some? {
      return Err(partition.value);
    }
    if entries.Some? && |entries.value| > MAX_LEAF_LIST {
      return Ok(ClientDeclared);
    }
    var recomputed := CheckCellRoots(identity, c, entries);
    if recomputed.Err? {
      return Err(recomputed.error);
    }
    r := Ok(if recomputed.value then IssuerVerified else ClientDeclared);
  }

  // ----- what the upgrade means

  /** Leaves falling into the first n cells. */
  ghost function CoveredCount(entries: seq<Entry>, cells: seq<Cell>): nat {
    if cells == [] then 0
    else CoveredCount(entries, cells[..|cells| - 1]) + |LeavesOf(entries, cells[|cells| - 1].key)|
  }

  /** Adding one leaf adds one to the cell it is tagged with, if that is among the cells. */
  lemma {:induction false} CoveredGrows(entries: seq<Entry>, e: Entry, cells: seq<Cell>)
    requires DistinctKeys(cells)
    ensures CoveredCount(entries + [e], cells) == CoveredCount(entries, cells) + if HasCell(cells, e.key) then 1 else 0
    decreases |cells|
  {
    if cells != [] {
      var init, last := cells[..|cells| - 1], cells[|cells| - 1];
      CoveredGrows(entries, e, init);
      assert (entries + [e])[..|entries|] == entries;
      assert HasCell(cells, e.key) <==> HasCell(init, e.key) || last.key == e.key by {
        if last.key == e.key {
          assert cells[|cells| - 1].key == e.key;
        }
        if HasCell(init, e.key) {
          var i :| 0 <= i < |init| && init[i].key == e.key;
          assert cells[i].key == e.key;
        }
      }
    }
  }

  /** Distinct cells that cover every leaf count each leaf once. */
  lemma {:induction false} CellsCountLeaves(entries: seq<Entry>, cells: seq<Cell>)
    requires DistinctKeys(cells) && forall e :: e in entries ==> HasCell(cells, e.key)
    ensures CoveredCount(entries, cells) == |entries|
    decreases |entries|
  {
    if entries == [] {
      NoLeavesNoCount(cells);
    } else {
      var init, last := entries[..|entries| - 1], entries[|entries| - 1];
      assert entries == init + [last];
      CellsCountLeaves(init, cells);
      CoveredGrows(init, last, cells);
    }
  }

  lemma {:induction false} NoLeavesNoCount(cells: seq<Cell>)
    ensures CoveredCount([], cells) == 0
  {
    if cells != [] {
      NoLeavesNoCount(cells[..|cells| - 1]);
    }
  }

  lemma {:induction false} DeclaredCountsCover(entries: seq<Entry>, cells: seq<Cell>)
    requires forall i :: 0 <= i < |cells| ==> CellMatches(entries, cells[i])
    ensures CoveredCount(entries, cells) == SumCounts(cells)
    decreases |cells|
  {
    if cells != [] {
      DeclaredCountsCover(entries, cells[..|cells| - 1]);
      assert CellMatches(entries, cells[|cells| - 1]);
    }
  }

  /**
   DS2 verified means: exactly item_count distinct leaves, each in exactly one declared cell, and
   each cell holding exactly its declared number of them.  No check counts the leaves as a whole;
   the total follows from the partition.
   */
  lemma Ds2VerifiedMeans(identity: Identity, c: Composition, entries: seq<Entry>)
    requires Distinct(Leaves(entries)) && PartitionDeclared(identity, c) && CellsRecomputed(identity, c, entries)
    ensures |entries| == identity.itemCount
    ensures |set x | x in Leaves(entries)| == identity.itemCount
    ensures forall e :: e in entries ==>
              exists i :: 0 <= i < |c.cells| && c.cells[i].key == e.key
                          && forall j :: 0 <= j < |c.cells| && c.cells[j].key == e.key ==> j == i
    ensures forall i :: 0 <= i < |c.cells| ==> |LeavesOf(entries, c.cells[i].key)| == c.cells[i].itemCount
  {
    hide LeavesOf, Leaves, CellMatches, Sort, SumCounts, CoveredCount, Distinct, HasCell;
    CellsCountLeaves(entries, c.cells);
    DeclaredCountsCover(entries, c.cells);
    SetSizeTellsRepeats(Leaves(entries));
    assert |Leaves(entries)| == |entries| by {
      SameLength(entries);
    }
    forall e | e in entries
      ensures exists i :: 0 <= i < |c.cells| && c.cells[i].key == e.key
                          && forall j :: 0 <= j < |c.cells| && c.cells[j].key == e.key ==> j == i
    {
      OneCellFor(c.cells, e.key);
    }
    forall i | 0 <= i < |c.cells| ensures |LeavesOf(entries, c.cells[i].key)| == c.cells[i].itemCount {
      MatchingCellCounts(entries, c.cells[i]);
    }
  }

  /** A root over exactly these leaves, listed in code-point order. */
  ghost predicate IsSortedListing(sorted: seq<Text>, leaves: seq<Text>) {
    && multiset(sorted) == multiset(leaves)
    && forall i, j :: 0 <= i < j < |sorted| ==> sorted[i] == sorted[j] || Precedes(sorted[i], sorted[j])
  }

  lemma SortLists(leaves: seq<Text>)
    ensures IsSortedListing(Sort(leaves, LexLeq), leaves)
  {
    hide LexLeq, Precedes;
    var sorted := Sort(leaves, LexLeq);
    LexIsTotalOrder();
    SortIsSorted(leaves, LexLeq);
    forall i, j | 0 <= i < j < |sorted| ensures sorted[i] == sorted[j] || Precedes(sorted[i], sorted[j]) {
      LexLeqIffPrecedes(sorted[i], sorted[j]);
    }
  }

  /** DS2 verified means: the signed roots are those of the supplied leaves, as a whole and cell by cell. */
  lemma Ds2RootsAreOfLeaves(identity: Identity, c: Composition, entries: seq<Entry>)
    requires CellsRecomputed(identity, c, entries)
    ensures identity.itemSetRoot.ItemSetRoot? && IsSortedListing(identity.itemSetRoot.leaves, Leaves(entries))
    ensures forall i :: 0 <= i < |c.cells| ==>
              c.cells[i].root.CellRoot? && IsSortedListing(c.cells[i].root.leaves, LeavesOf(entries, c.cells[i].key))
  {
    hide LexLeq, Precedes, LeavesOf, Leaves, Sort, IsSortedListing;
    SortLists(Leaves(entries));
    forall i | 0 <= i < |c.cells|
      ensures c.cells[i].root.CellRoot? && IsSortedListing(c.cells[i].root.leaves, LeavesOf(entries, c.cells[i].key))
    {
      assert CellMatches(entries, c.cells[i]);
      SortLists(LeavesOf(entries, c.cells[i].key));
    }
  }

  /** A sorted listing is the sorted list. */
  lemma SortedListingIsSort(sorted: seq<Text>, leaves: seq<Text>)
    ensures IsSortedListing(sorted, leaves) <==> sorted == Sort(leaves, LexLeq)
  {
    hide LexLeq, Precedes;
    SortLists(leaves);
    if IsSortedListing(sorted, leaves) {
      LexIsTotalOrder();
      SortIsSorted(leaves, LexLeq);
      forall i, j | 0 <= i < j < |sorted| ensures LexLeq(sorted[i], sorted[j]) {
        LexLeqIffPrecedes(sorted[i], sorted[j]);
      }
      SortedIsUnique(sorted, Sort(leaves, LexLeq), LexLeq);
    }
  }

  /** What the signed declarations must say of these leaves. */
  ghost predicate DeclaresLeaves(identity: Identity, c: Composition, entries: seq<Entry>) {
    && identity.itemCount == |entries|
    && identity.itemSetRoot.ItemSetRoot? && IsSortedListing(identity.itemSetRoot.leaves, Leaves(entries))
    && |c.cells| <= 40 && c.populatedCellCount == |c.cells| && DistinctKeys(c.cells)
    && (forall e :: e in entries ==> HasCell(c.cells, e.key))
    && forall i :: 0 <= i < |c.cells| ==> DeclaresCell(entries, c.cells[i])
  }

  ghost predicate DeclaresCell(entries: seq<Entry>, cell: Cell) {
    && cell.itemCount == |LeavesOf(entries, cell.key)| >= 1
    && cell.root.CellRoot? && IsSortedListing(cell.root.leaves, LeavesOf(entries, cell.key))
  }

  /** The checks behind a DS2 upgrade pass exactly when every declaration is true of the leaves. */
  lemma Ds2VerifiedIff(identity: Identity, c: Composition, entries: seq<Entry>)
    ensures PartitionDeclared(identity, c) && CellsRecomputed(identity, c, entries) <==> DeclaresLeaves(identity, c, entries)
  {
    hide LeavesOf, Leaves, Sort, IsSortedListing, CoveredCount, SumCounts, DistinctKeys, HasCell, LexLeq;
    if identity.itemSetRoot.ItemSetRoot? {
      SortedListingIsSort(identity.itemSetRoot.leaves, Leaves(entries));
    }
    forall i | 0 <= i < |c.cells|
      ensures DeclaresCell(entries, c.cells[i]) <==> CellMatches(entries, c.cells[i]) && c.cells[i].itemCount >= 1
    {
      if c.cells[i].root.CellRoot? {
        SortedListingIsSort(c.cells[i].root.leaves, LeavesOf(entries, c.cells[i].key));
      }
    }
    hide CellMatches;
    if DistinctKeys(c.cells) && AllCellsMatch(entries, c.cells) && forall e :: e in entries ==> HasCell(c.cells, e.key) {
      CellsCountLeaves(entries, c.cells);
      DeclaredCountsCover(entries, c.cells);
    }
  }

  lemma OneCellFor(cells: seq<Cell>, key: CellKey)
    requires HasCell(cells, key) && DistinctKeys(cells)
    ensures exists i :: 0 <= i < |cells| && cells[i].key == key
                        && forall j :: 0 <= j < |cells| && cells[j].key == key ==> j == i
  {
    var i :| 0 <= i < |cells| && cells[i].key == key;
  }

  lemma SameLength(entries: seq<Entry>)
    ensures |Leaves(entries)| == |entries|
  {
  }

  lemma MatchingCellCounts(entries: seq<Entry>, cell: Cell)
    requires CellMatches(entries, cell)
    ensures |LeavesOf(entries, cell.key)| == cell.itemCount
  {
  }

  lemma SameCellSameLeaves(cell: Cell, a: seq<Entry>, b: seq<Entry>, e: Entry)
    requires CellMatches(a, cell) && CellMatches(b, cell) && e.key == cell.key && e in a
    ensures e in b
  {
    hide LexLeq;
    var x, y := LeavesOf(a, cell.key), LeavesOf(b, cell.key);
    assert multiset(x) == multiset(Sort(x, LexLeq)) == multiset(Sort(y, LexLeq)) == multiset(y);
    assert Entry(e.leaf, cell.key) == e;
    assert e.leaf in multiset(y);
  }

  lemma DistinctLeavesDistinctEntries(entries: seq<Entry>)
    requires Distinct(Leaves(entries))
    ensures Distinct(entries)
  {
    forall i, j | 0 <= i < j < |entries| ensures entries[i] != entries[j] {
      assert Leaves(entries)[i] != Leaves(entries)[j];
    }
  }

  /** The signed composition pins the item set: two lists that verify hold the same tagged leaves. */
  lemma Ds2LeavesAreUnique(identity: Identity, c: Composition, a: seq<Entry>, b: seq<Entry>)
    requires Distinct(Leaves(a)) && CellsRecomputed(identity, c, a)
    requires Distinct(Leaves(b)) && CellsRecomputed(identity, c, b)
    ensures multiset(a) == multiset(b)
  {
    hide CellsRecomputed, Distinct, Leaves;
    forall e ensures e in a <==> e in b {
      if e in a {
        SharedLeaf(identity, c, a, b, e);
      }
      if e in b {
        SharedLeaf(identity, c, b, a, e);
      }
    }
    DistinctLeavesDistinctEntries(a);
    DistinctLeavesDistinctEntries(b);
    DistinctMultiset(a);
    DistinctMultiset(b);
    assert (set x | x in a) == (set x | x in b);
  }

  lemma SharedLeaf(identity: Identity, c: Composition, a: seq<Entry>, b: seq<Entry>, e: Entry)
    requires CellsRecomputed(identity, c, a) && CellsRecomputed(identity, c, b) && e in a
    ensures e in b
  {
    hide CellMatches, Sort;
    var i :| 0 <= i < |c.cells| && c.cells[i].key == e.key;
    SameCellSameLeaves(c.cells[i], a, b, e);
  }
}
