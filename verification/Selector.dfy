// Building the selector, and what it selects.
module Selector {
  import opened Layout
  import opened Partitions
  import opened Demux
  import RobinHood
  import HashMap

  /** is_partition_spanning_entire_eraseblock */
  predicate WholeEraseblocks(mtd: Mtd, p: Partition) {
    p.pages.start == 0 && Add64(p.pages.start, p.pages.length) == mtd.pagesPerSector
  }

  /** is_partition_spanning_entire_mtd */
  predicate WholeMtd(mtd: Mtd, p: Partition) {
    && p.eraseblocks.start == 0 && Add64(p.eraseblocks.start, p.eraseblocks.length) == mtd.sectors
    && p.pages.start == 0 && Add64(p.pages.start, p.pages.length) == mtd.pagesPerSector
  }

  /** All partitions lie on the device, and have a pipeline. */
  predicate Usable(mtd: Mtd, ps: seq<Partition>) {
    AllInBounds(mtd, ps) && Named(ps)
  }

  predicate AllChecked(mtd: Mtd, ps: seq<Partition>) {
    forall i :: 0 <= i < |ps| ==> Checked(mtd, ps[i])
  }

  // The table of eraseblocks.

  predicate AllWhole(mtd: Mtd, ps: seq<Partition>) {
    forall i :: 0 <= i < |ps| ==> WholeEraseblocks(mtd, ps[i])
  }

  lemma WholeMeansAllPages(mtd: Mtd, p: Partition, e: nat, g: nat)
    requires ValidMtd(mtd) && InBounds(mtd, p) && WholeEraseblocks(mtd, p) && g < mtd.pagesPerSector
    ensures Contains(p, e, g) <==> Within(p.eraseblocks, e)
  {
  }

  /** With whole eraseblocks only, all pages of an eraseblock have the same owner. */
  lemma {:induction false} SameOwner(mtd: Mtd, ps: seq<Partition>, n: nat, e: nat, g: nat)
    requires ValidMtd(mtd) && Usable(mtd, ps) && AllWhole(mtd, ps) && n <= |ps| && g < mtd.pagesPerSector
    ensures Owner(ps, n, e, g) == Owner(ps, n, e, 0)
    ensures Owned(ps, n, e, g) <==> Owned(ps, n, e, 0)
  {
    hide Owned, Contains;
    if n == 0 {
      assert !Owned(ps, 0, e, g) && !Owned(ps, 0, e, 0) by { NothingOwned(ps, e); }
    } else {
      SameOwner(mtd, ps, n - 1, e, g);
      WholeMeansAllPages(mtd, ps[n - 1], e, g);
      WholeMeansAllPages(mtd, ps[n - 1], e, 0);
      OwnedNext(ps, n, e, g);
      OwnedNext(ps, n, e, 0);
    }
  }

  lemma NothingOwned(ps: seq<Partition>, e: nat)
    ensures forall g: nat :: !Owned(ps, 0, e, g)
  {
  }

  lemma OwnedNext(ps: seq<Partition>, n: nat, e: nat, g: nat)
    requires 0 < n <= |ps|
    ensures Owned(ps, n, e, g) <==> Owned(ps, n - 1, e, g) || Contains(ps[n - 1], e, g)
  {
  }

  ghost predicate BlockTable(mtd: Mtd, t: seq<nat>, ps: seq<Partition>, n: nat)
    requires n <= |ps|
  {
    |t| == mtd.sectors && forall e: nat :: e < mtd.sectors ==> t[e] == Owner(ps, n, e, 0)
  }

  predicate FreeBlocks(t: seq<nat>, p: Partition) {
    forall e :: p.eraseblocks.start <= e < End(p.eraseblocks) && e < |t| ==> t[e] == AUTOMATIC_NACK_PIPELINE_INDEX
  }

  /** set_partition_pipeline_on_array_per_eraseblock */
  method MarkBlocks(mtd: Mtd, arr: array<nat>, p: Partition) returns (ok: bool)
    requires InBounds(mtd, p) && arr.Length == mtd.sectors
    modifies arr
    ensures ok <==> FreeBlocks(old(arr[..]), p)
    ensures ok ==> forall e :: 0 <= e < mtd.sectors ==>
      arr[e] == if Within(p.eraseblocks, e) then p.pipeline else old(arr[e])
  {
    for e := p.eraseblocks.start to End(p.eraseblocks)
      invariant forall k :: p.eraseblocks.start <= k < e ==> old(arr[k]) == AUTOMATIC_NACK_PIPELINE_INDEX
      invariant forall k :: 0 <= k < mtd.sectors ==>
        arr[k] == if p.eraseblocks.start <= k < e then p.pipeline else old(arr[k])
    {
      if arr[e] != AUTOMATIC_NACK_PIPELINE_INDEX {
        assert old(arr[..])[e] != AUTOMATIC_NACK_PIPELINE_INDEX;
        return false;
      }
      arr[e] := p.pipeline;
    }
    return true;
  }

  ghost predicate DisjointBelow(ps: seq<Partition>, n: nat)
    requires n <= |ps|
  {
    forall i, j :: 0 <= i < j < n ==> NoSharedPage(ps[i], ps[j])
  }

  ghost predicate ApartFrom(ps: seq<Partition>, n: nat)
    requires n < |ps|
  {
    forall i :: 0 <= i < n ==> NoSharedPage(ps[i], ps[n])
  }

  lemma OneMoreApart(ps: seq<Partition>, n: nat)
    requires n < |ps| && DisjointBelow(ps, n)
    ensures DisjointBelow(ps, n + 1) <==> ApartFrom(ps, n)
    ensures !ApartFrom(ps, n) ==> !Disjoint(ps)
  {
    hide NoSharedPage;
  }

  lemma NobodyElse(ps: seq<Partition>, n: nat, e: nat, g: nat)
    requires n < |ps| && ApartFrom(ps, n) && Contains(ps[n], e, g)
    ensures !Owned(ps, n, e, g)
  {
    forall i | 0 <= i < n
      ensures !Contains(ps[i], e, g)
    {
      assert NoSharedPage(ps[i], ps[n]);
    }
  }

  lemma BlocksApart(mtd: Mtd, ps: seq<Partition>, n: nat, t: seq<nat>)
    requires ValidMtd(mtd) && Usable(mtd, ps) && AllWhole(mtd, ps) && n < |ps| && BlockTable(mtd, t, ps, n)
    ensures FreeBlocks(t, ps[n]) <==> ApartFrom(ps, n)
  {
    hide Owner, Owned;
    if FreeBlocks(t, ps[n]) {
      forall i, e: nat, g: nat | 0 <= i < n
        ensures !(Contains(ps[i], e, g) && Contains(ps[n], e, g))
      {
        if Contains(ps[i], e, g) && Contains(ps[n], e, g) {
          SharedBlock(mtd, ps, i, n, e, g);
          assert false;
        }
      }
    }
    if ApartFrom(ps, n) {
      forall e: nat | ps[n].eraseblocks.start <= e < End(ps[n].eraseblocks) && e < |t|
        ensures t[e] == AUTOMATIC_NACK_PIPELINE_INDEX
      {
        WholeMeansAllPages(mtd, ps[n], e, 0);
        NobodyElse(ps, n, e, 0);
        assert t[e] == Owner(ps, n, e, 0);
      }
    }
  }

  lemma SharedBlock(mtd: Mtd, ps: seq<Partition>, i: nat, n: nat, e: nat, g: nat)
    requires ValidMtd(mtd) && Usable(mtd, ps) && AllWhole(mtd, ps) && i < n < |ps|
    requires Contains(ps[i], e, g) && Contains(ps[n], e, g)
    ensures e < mtd.sectors && Owner(ps, n, e, 0) != AUTOMATIC_NACK_PIPELINE_INDEX
  {
    WholeMeansAllPages(mtd, ps[i], e, 0);
    assert Owned(ps, n, e, 0);
    OwnedIsNonzero(ps, n, e, 0);
  }

  lemma MarkedBlocks(mtd: Mtd, ps: seq<Partition>, n: nat, was: seq<nat>, t: seq<nat>)
    requires ValidMtd(mtd) && Usable(mtd, ps) && AllWhole(mtd, ps) && n < |ps|
    requires BlockTable(mtd, was, ps, n) && ApartFrom(ps, n) && |t| == |was|
    requires forall e :: 0 <= e < |t| ==> t[e] == if Within(ps[n].eraseblocks, e) then ps[n].pipeline else was[e]
    ensures BlockTable(mtd, t, ps, n + 1)
  {
    hide ApartFrom;
    forall e: nat | e < mtd.sectors
      ensures t[e] == Owner(ps, n + 1, e, 0)
    {
      WholeMeansAllPages(mtd, ps[n], e, 0);
      if Contains(ps[n], e, 0) { NobodyElse(ps, n, e, 0); }
    }
  }

  /** initialize_pipeline_selector_per_eraseblock */
  method FillBlocks(mtd: Mtd, ps: seq<Partition>) returns (ok: bool, arr: seq<nat>)
    requires ValidMtd(mtd) && Usable(mtd, ps) && AllWhole(mtd, ps)
    ensures ok <==> Disjoint(ps)
    ensures ok ==> BlockTable(mtd, arr, ps, |ps|)
  {
    hide ApartFrom, InBounds, NoSharedPage, FreeBlocks;
    var entries := new nat[mtd.sectors](_ => AUTOMATIC_NACK_PIPELINE_INDEX);
    for i := 0 to |ps|
      invariant BlockTable(mtd, entries[..], ps, i) && DisjointBelow(ps, i)
    {
      ghost var was := entries[..];
      BlocksApart(mtd, ps, i, was);
      OneMoreApart(ps, i);
      ok := MarkBlocks(mtd, entries, ps[i]);
      if !ok {
        return false, [];
      }
      MarkedBlocks(mtd, ps, i, was, entries[..]);
    }
    return true, entries[..];
  }

  // The selector.

  datatype Select = Single(pipeline: nat) | PerEraseblock(arr: seq<nat>) | PerPage(arr: seq<nat>, stride: nat)

  /** `OutsideTable`: an entry past the end of the table would be written; the code does not look. */
  datatype Selection =
    Selecting(select: Select) | OverlappingPartitionRanges | MultiplicationWouldOverflow | OutsideTable

  /** The select functions; a table is only asked for pages it has an entry for. */
  function Selected(select: Select, e: nat, g: nat): (pipeline: nat)
    requires select.PerEraseblock? ==> e < |select.arr|
    requires select.PerPage? ==> Cell(select.stride, e, g) < |select.arr|
  {
    match select
    case Single(pipeline) => pipeline
    case PerEraseblock(arr) => arr[e]
    case PerPage(arr, stride) => arr[Cell(stride, e, g)]
  }

  predicate Answers(select: Select, e: nat, g: nat) {
    match select
    case Single(_) => true
    case PerEraseblock(arr) => e < |arr|
    case PerPage(arr, stride) => Cell(stride, e, g) < |arr|
  }

  /** The selector gives every page of the device to the partition it lies in, or to the automatic NACK. */
  ghost predicate Serves(mtd: Mtd, ps: seq<Partition>, select: Select) {
    forall e: nat, g: nat :: e < mtd.sectors && g < mtd.pagesPerSector ==>
      Answers(select, e, g) && Selected(select, e, g) == Owner(ps, |ps|, e, g)
  }

  predicate TableTooLarge(mtd: Mtd) {
    mtd.pagesPerSector * mtd.sectors > 0xFFFF_FFFF_FFFF_FFFF
  }

  /** No table is needed. */
  predicate OneForAll(mtd: Mtd, ps: seq<Partition>) {
    |ps| == 1 && WholeMtd(mtd, ps[0])
  }

  /** When a selector is built. */
  ghost predicate Selectable(mtd: Mtd, ps: seq<Partition>) {
    if AllWhole(mtd, ps) then Disjoint(ps)
    else !TableTooLarge(mtd) && AllFitTable(mtd, ps) && EntriesApart(mtd, ps)
  }

  /** What it then is. */
  ghost predicate SelectorOf(mtd: Mtd, ps: seq<Partition>, select: Select) {
    match select
    case Single(pipeline) => OneForAll(mtd, ps) && pipeline == ps[0].pipeline
    case PerEraseblock(arr) => AllWhole(mtd, ps) && !OneForAll(mtd, ps) && BlockTable(mtd, arr, ps, |ps|)
    case PerPage(arr, stride) => !AllWhole(mtd, ps) && stride == mtd.pagesPerSector && Claimed(mtd, arr, ps, |ps|)
  }

  /** Whole eraseblocks end where they should. */
  lemma WholeIsOnDevice(mtd: Mtd, ps: seq<Partition>)
    requires ValidMtd(mtd) && AllChecked(mtd, ps)
    ensures OneForAll(mtd, ps) ==> AllWhole(mtd, ps)
    ensures AllWhole(mtd, ps) ==> AllInBounds(mtd, ps)
  {
  }

  /** A partition of whole eraseblocks has all their pages. */
  lemma WholeMeans(mtd: Mtd, ps: seq<Partition>)
    requires ValidMtd(mtd) && AllChecked(mtd, ps)
    ensures forall i :: 0 <= i < |ps| ==>
      (WholeEraseblocks(mtd, ps[i]) <==> ps[i].pages == Range(0, mtd.pagesPerSector))
    ensures forall i :: 0 <= i < |ps| ==> (WholeMtd(mtd, ps[i]) <==>
      ps[i].eraseblocks == Range(0, mtd.sectors) && ps[i].pages == Range(0, mtd.pagesPerSector))
  {
  }

  /** On the device only the size of the table and shared pages can stand in the way. */
  lemma SelectableOnDevice(mtd: Mtd, ps: seq<Partition>)
    requires AllInBounds(mtd, ps)
    ensures Selectable(mtd, ps) <==>
      && Disjoint(ps)
      && (AllWhole(mtd, ps) || mtd.pagesPerSector * mtd.sectors <= 0xFFFF_FFFF_FFFF_FFFF)
  {
    hide Disjoint, EntriesApart;
    ApartOnDevice(mtd, ps);
  }

  /** initialize_pipeline_selector; `ps` are the partitions in the order of the scan. */
  method Initialize(mtd: Mtd, ps: seq<Partition>) returns (r: Selection)
    requires ValidMtd(mtd) && AllChecked(mtd, ps) && Named(ps) && ps != []
    ensures r.Selecting? <==> Selectable(mtd, ps)
    ensures r.Selecting? ==> SelectorOf(mtd, ps, r.select)
    ensures r.Selecting? ==> (Serves(mtd, ps, r.select) <==> AllInBounds(mtd, ps))
    ensures r.MultiplicationWouldOverflow? <==>
      && (exists i :: 0 <= i < |ps| && ps[i].pages != Range(0, mtd.pagesPerSector))
      && mtd.pagesPerSector * mtd.sectors > 0xFFFF_FFFF_FFFF_FFFF
    ensures r.Selecting? && r.select.Single? <==>
      |ps| == 1 && ps[0].eraseblocks == Range(0, mtd.sectors) && ps[0].pages == Range(0, mtd.pagesPerSector)
    ensures r.Selecting? && r.select.PerPage? ==>
      exists i :: 0 <= i < |ps| && ps[i].pages != Range(0, mtd.pagesPerSector)
    ensures r.Selecting? && r.select.PerEraseblock? ==>
      forall i :: 0 <= i < |ps| ==> ps[i].pages == Range(0, mtd.pagesPerSector)
    ensures r.OverlappingPartitionRanges? ==>
      if AllWhole(mtd, ps) then !Disjoint(ps) else !EntriesApart(mtd, ps)
    ensures r.OutsideTable? ==> !AllWhole(mtd, ps) && !AllFitTable(mtd, ps)
  {
    hide Owner, Disjoint, Claimed, EntriesApart, AllFitTable, BlockTable, Serves, InBounds, Checked, WholeMtd,
         WholeEraseblocks;
    WholeIsOnDevice(mtd, ps);
    WholeMeans(mtd, ps);
    if |ps| == 1 && WholeMtd(mtd, ps[0]) {
      SingleServes(mtd, ps);
      return Selecting(Single(ps[0].pipeline));
    }
    var whole := true;
    for i := 0 to |ps|
      invariant whole <==> forall j :: 0 <= j < i ==> WholeEraseblocks(mtd, ps[j])
    {
      whole := whole && WholeEraseblocks(mtd, ps[i]);
    }
    if !whole {
      if TableTooLarge(mtd) {
        return MultiplicationWouldOverflow;
      }
      var mark, arr := FillPages(mtd, ps);
      match mark
      case Taken => return OverlappingPartitionRanges;
      case Outside => return OutsideTable;
      case Done =>
        PagesServe(mtd, ps, arr);
        return Selecting(PerPage(arr, mtd.pagesPerSector));
    }
    var ok, arr := FillBlocks(mtd, ps);
    if !ok {
      return OverlappingPartitionRanges;
    }
    BlocksServe(mtd, ps, arr);
    return Selecting(PerEraseblock(arr));
  }

  lemma SingleServes(mtd: Mtd, ps: seq<Partition>)
    requires ValidMtd(mtd) && Usable(mtd, ps) && OneForAll(mtd, ps)
    ensures Disjoint(ps) && Serves(mtd, ps, Single(ps[0].pipeline))
  {
    forall e: nat, g: nat | e < mtd.sectors && g < mtd.pagesPerSector
      ensures Owner(ps, 1, e, g) == ps[0].pipeline
    {
      assert Contains(ps[0], e, g);
    }
  }

  lemma BlocksServe(mtd: Mtd, ps: seq<Partition>, arr: seq<nat>)
    requires ValidMtd(mtd) && Usable(mtd, ps) && AllWhole(mtd, ps) && BlockTable(mtd, arr, ps, |ps|)
    ensures Serves(mtd, ps, PerEraseblock(arr))
  {
    hide Owner;
    forall e: nat, g: nat | e < mtd.sectors && g < mtd.pagesPerSector
      ensures arr[e] == Owner(ps, |ps|, e, g)
    {
      SameOwner(mtd, ps, |ps|, e, g);
    }
  }

  lemma TableServes(mtd: Mtd, ps: seq<Partition>, arr: seq<nat>)
    requires PageTable(mtd, arr, ps, |ps|)
    ensures Serves(mtd, ps, PerPage(arr, mtd.pagesPerSector))
  {
  }

  lemma SplitPage(n: nat, x: nat) returns (q: nat, g: nat)
    requires 0 < n <= x
    ensures x == n * q + g && g < n && q > 0
  {
    q, g := x / n, x % n;
  }

  /** The last page of a partition that leaves its eraseblock has the entry of a page that the partition
      does not contain. */
  lemma Spills(mtd: Mtd, p: Partition) returns (e: nat, g: nat)
    requires ValidMtd(mtd) && Checked(mtd, p) && FitsTable(mtd, p) && !InBounds(mtd, p)
    ensures e < mtd.sectors && g < mtd.pagesPerSector && !Contains(p, e, g)
    ensures IsCell(mtd, p, Cell(mtd.pagesPerSector, e, g))
  {
    hide Cell;
    var n, last, x := mtd.pagesPerSector, End(p.eraseblocks) - 1, End(p.pages) - 1;
    var q: nat;
    q, g := SplitPage(n, x);
    e := last + q;
    BeyondEraseblock(n, last, q, g);
    assert Contains(p, last, x);
    if e >= mtd.sectors { RowIsBeyond(n, mtd.sectors, e, g); }
  }

  lemma RowIsBeyond(stride: nat, sectors: nat, e: nat, g: nat)
    requires e >= sectors
    ensures Cell(stride, e, g) >= sectors * stride
  {
    if e > sectors { RowsApart(stride, sectors, e); }
  }

  /** A filled table serves the device if and only if no partition leaves its eraseblocks: the last page
      of one that does claims the entry of a page that no partition contains. */
  lemma PagesServe(mtd: Mtd, ps: seq<Partition>, arr: seq<nat>)
    requires ValidMtd(mtd) && AllChecked(mtd, ps) && Named(ps)
    requires AllFitTable(mtd, ps) && EntriesApart(mtd, ps) && Claimed(mtd, arr, ps, |ps|)
    ensures Serves(mtd, ps, PerPage(arr, mtd.pagesPerSector)) <==> AllInBounds(mtd, ps)
  {
    hide Cell, InBounds, Checked, FitsTable, IsCell, SelfApart, PageTable, Owner;
    if AllInBounds(mtd, ps) {
      ClaimedServes(mtd, arr, ps);
      TableServes(mtd, ps, arr);
    } else {
      var i: nat :| i < |ps| && !InBounds(mtd, ps[i]);
      var e, g := Spills(mtd, ps[i]);
      var k := Cell(mtd.pagesPerSector, e, g);
      CellInTable(mtd.pagesPerSector, mtd.sectors, e, g);
      forall j | 0 <= j < |ps|
        ensures !Contains(ps[j], e, g)
      {
        if j != i { NotShared(mtd, ps, i, j, k); }
        if Contains(ps[j], e, g) { HasCell(mtd, ps[j], e, g); }
      }
      OwnedIsNonzero(ps, |ps|, e, g);
      assert arr[k] == ps[i].pipeline;
    }
  }

  lemma NotShared(mtd: Mtd, ps: seq<Partition>, i: nat, j: nat, k: nat)
    requires CellsApart(mtd, ps, |ps|) && i < |ps| && j < |ps| && i != j && IsCell(mtd, ps[i], k)
    ensures !IsCell(mtd, ps[j], k)
  {
    hide IsCell;
    assert NoSharedCell(mtd, ps[if i < j then i else j], ps[if i < j then j else i]);
  }

  lemma HasCell(mtd: Mtd, p: Partition, e: nat, g: nat)
    requires Contains(p, e, g)
    ensures IsCell(mtd, p, Cell(mtd.pagesPerSector, e, g))
  {
  }

  /** Where more than one strategy applies, they agree on every page: the entry of its eraseblock is
      that of the page, and both are the one pipeline if a partition covers the device. */
  lemma StrategiesAgree(mtd: Mtd, ps: seq<Partition>, blocks: seq<nat>, pages: seq<nat>, e: nat, g: nat)
    requires ValidMtd(mtd) && Usable(mtd, ps) && AllWhole(mtd, ps) && e < mtd.sectors && g < mtd.pagesPerSector
    requires BlockTable(mtd, blocks, ps, |ps|) && PageTable(mtd, pages, ps, |ps|)
    ensures var byBlock, byPage := PerEraseblock(blocks), PerPage(pages, mtd.pagesPerSector);
      && Answers(byBlock, e, g) && Answers(byPage, e, g)
      && Selected(byBlock, e, g) == Selected(byPage, e, g)
      && (OneForAll(mtd, ps) ==> Selected(byPage, e, g) == Selected(Single(ps[0].pipeline), e, g))
  {
    hide Owner, PageTable, BlockTable;
    BlocksServe(mtd, ps, blocks);
    TableServes(mtd, ps, pages);
    if OneForAll(mtd, ps) { SingleServes(mtd, ps); }
  }

  // The unique partition, in whatever order a scan finds it.

  /** `ps` lists the partitions in `all`, each once. */
  ghost predicate Scan(ps: seq<Partition>, all: set<Partition>) {
    (forall p :: p in ps <==> p in all) && forall i, j :: 0 <= i < j < |ps| ==> ps[i] != ps[j]
  }

  function Values(items: seq<RobinHood.Item<string, Partition>>): (ps: seq<Partition>)
    ensures |ps| == |items|
  {
    seq(|items|, (i: nat) requires i < |items| => items[i].value)
  }

  /** The order in which the hash map of the partitions is scanned is such a list. */
  lemma HashMapScans(t: RobinHood.Table<string, Partition>, m: map<string, RobinHood.Item<string, Partition>>)
    requires RobinHood.DistinctKeys(t) && RobinHood.Represents(t, m)
    requires forall name :: name in m ==> m[name].value.name == name
    ensures Scan(Values(HashMap.Items(t, 0)), set name | name in m :: m[name].value)
  {
    HashMap.EachItemOnce(t, m);
    var items, all := HashMap.Items(t, 0), set name | name in m :: m[name].value;
    var ps := Values(items);
    forall p
      ensures p in ps <==> p in all
    {
      if p in ps {
        var i :| 0 <= i < |ps| && ps[i] == p;
        assert items[i] in items;
      }
      if p in all {
        var name :| name in m && m[name].value == p;
        var i :| 0 <= i < |items| && items[i] == m[name];
        assert ps[i] == p;
      }
    }
    forall i, j | 0 <= i < j < |ps|
      ensures ps[i] != ps[j]
    {
      assert items[i] in items && items[j] in items;
    }
  }

  ghost predicate AllDisjoint(all: set<Partition>) {
    forall p, q :: p in all && q in all && p != q ==> NoSharedPage(p, q)
  }

  lemma DisjointInAnyOrder(ps: seq<Partition>, all: set<Partition>)
    requires Scan(ps, all)
    ensures Disjoint(ps) <==> AllDisjoint(all)
  {
    if Disjoint(ps) {
      forall p, q | p in all && q in all && p != q
        ensures NoSharedPage(p, q)
      {
        assert p in ps && q in ps;
        var i :| 0 <= i < |ps| && ps[i] == p;
        var j :| 0 <= j < |ps| && ps[j] == q;
        assert NoSharedPage(ps[if i < j then i else j], ps[if i < j then j else i]);
      }
    }
    if AllDisjoint(all) {
      forall i, j | 0 <= i < j < |ps|
        ensures NoSharedPage(ps[i], ps[j])
      {
        assert ps[i] in ps && ps[j] in ps;
      }
    }
  }

  /** The owner of a page is the pipeline of the one partition that contains it. */
  lemma OwnerIsUnique(ps: seq<Partition>, all: set<Partition>, e: nat, g: nat)
    requires Scan(ps, all) && AllDisjoint(all)
    ensures forall p :: p in all && Contains(p, e, g) ==> Owner(ps, |ps|, e, g) == p.pipeline
    ensures (forall p :: p in all ==> !Contains(p, e, g)) ==> Owner(ps, |ps|, e, g) == AUTOMATIC_NACK_PIPELINE_INDEX
  {
    forall p | p in all && Contains(p, e, g)
      ensures Owner(ps, |ps|, e, g) == p.pipeline
    {
      assert p in ps;
      assert Owned(ps, |ps|, e, g);
      var i :| 0 <= i < |ps| && Contains(ps[i], e, g) && Owner(ps, |ps|, e, g) == ps[i].pipeline;
      assert ps[i] in ps;
      assert ps[i] == p || NoSharedPage(ps[i], p);
    }
    if forall p :: p in all ==> !Contains(p, e, g) {
      forall i | 0 <= i < |ps|
        ensures !Contains(ps[i], e, g)
      {
        assert ps[i] in ps;
      }
    }
  }

  lemma SameOwnerInAnyOrder(ps: seq<Partition>, qs: seq<Partition>, all: set<Partition>, e: nat, g: nat)
    requires Scan(ps, all) && Scan(qs, all) && AllDisjoint(all)
    ensures Owner(ps, |ps|, e, g) == Owner(qs, |qs|, e, g)
  {
    hide Owner, Scan, Contains;
    OwnerIsUnique(ps, all, e, g);
    OwnerIsUnique(qs, all, e, g);
  }

  /** Whatever holds of all elements of one list, or of all pairs, holds of those of the other. */
  lemma SameElements(mtd: Mtd, ps: seq<Partition>, qs: seq<Partition>, all: set<Partition>)
    requires Scan(ps, all) && Scan(qs, all)
    ensures |ps| == |qs|
    ensures AllWhole(mtd, ps) ==> AllWhole(mtd, qs)
    ensures AllInBounds(mtd, ps) ==> AllInBounds(mtd, qs)
    ensures AllFitTable(mtd, ps) ==> AllFitTable(mtd, qs)
    ensures EntriesApart(mtd, ps) ==> EntriesApart(mtd, qs)
  {
    hide WholeEraseblocks, InBounds, FitsTable, SelfApart, NoSharedCell;
    SameLength(ps, all);
    SameLength(qs, all);
    forall j | 0 <= j < |qs|
      ensures qs[j] in ps
    {
      assert qs[j] in qs;
    }
    if EntriesApart(mtd, ps) {
      forall i, j | 0 <= i < j < |qs|
        ensures NoSharedCell(mtd, qs[i], qs[j])
      {
        var i': nat :| i' < |ps| && ps[i'] == qs[i];
        var j': nat :| j' < |ps| && ps[j'] == qs[j];
        SharedBoth(mtd, qs[i], qs[j]);
      }
    }
  }

  lemma SharedBoth(mtd: Mtd, p: Partition, q: Partition)
    ensures NoSharedCell(mtd, p, q) <==> NoSharedCell(mtd, q, p)
  {
    hide IsCell;
  }

  lemma {:induction false} SameLength(ps: seq<Partition>, all: set<Partition>)
    requires Scan(ps, all)
    ensures |ps| == |all|
  {
    if ps == [] {
      assert all == {};
    } else {
      var p, rest := ps[|ps| - 1], ps[..|ps| - 1];
      forall q
        ensures q in rest <==> q in all - {p}
      {
        assert q in ps <==> q in rest || q == p;
      }
      SameLength(rest, all - {p});
      assert p in ps;
    }
  }

  lemma SameTable(mtd: Mtd, ps: seq<Partition>, qs: seq<Partition>, all: set<Partition>, s: seq<nat>, t: seq<nat>,
                  k: nat)
    requires Scan(ps, all) && Scan(qs, all) && Claimed(mtd, s, ps, |ps|) && Claimed(mtd, t, qs, |qs|) && k < |s|
    ensures k < |t| && s[k] == t[k]
  {
    hide IsCell;
    if i: nat :| i < |ps| && IsCell(mtd, ps[i], k) {
      assert ps[i] in ps;
      assert ps[i] in qs;
      var j: nat :| j < |qs| && qs[j] == ps[i];
    } else {
      assert Unclaimed(mtd, ps, |ps|, k);
      forall j | 0 <= j < |qs|
        ensures !IsCell(mtd, qs[j], k)
      {
        assert qs[j] in qs;
        assert qs[j] in ps;
      }
      assert Unclaimed(mtd, qs, |qs|, k);
    }
  }

  lemma SelectableInAnyOrder(mtd: Mtd, all: set<Partition>, ps: seq<Partition>, qs: seq<Partition>)
    requires Scan(ps, all) && Scan(qs, all)
    ensures Selectable(mtd, ps) <==> Selectable(mtd, qs)
  {
    hide AllWhole, Disjoint, AllDisjoint, EntriesApart, AllFitTable, Scan;
    SameElements(mtd, ps, qs, all);
    SameElements(mtd, qs, ps, all);
    DisjointInAnyOrder(ps, all);
    DisjointInAnyOrder(qs, all);
  }

  lemma WholeServes(mtd: Mtd, ps: seq<Partition>, s: Select)
    requires ValidMtd(mtd) && AllChecked(mtd, ps) && Named(ps) && AllWhole(mtd, ps) && SelectorOf(mtd, ps, s)
    ensures Serves(mtd, ps, s)
  {
    hide Serves, BlockTable;
    WholeIsOnDevice(mtd, ps);
    match s
    case Single(pipeline) => SingleServes(mtd, ps);
    case PerEraseblock(arr) => BlocksServe(mtd, ps, arr);
  }

  /** Neither whether a selector is built nor any selection depends on the order of the scan, wherever
      the partitions lie. */
  lemma OrderDoesNotMatter(mtd: Mtd, all: set<Partition>, ps: seq<Partition>, qs: seq<Partition>,
                           s: Select, t: Select, e: nat, g: nat)
    requires ValidMtd(mtd) && Scan(ps, all) && Scan(qs, all) && e < mtd.sectors && g < mtd.pagesPerSector
    requires AllChecked(mtd, ps) && Named(ps) && AllChecked(mtd, qs) && Named(qs)
    ensures Selectable(mtd, ps) <==> Selectable(mtd, qs)
    ensures Selectable(mtd, ps) && SelectorOf(mtd, ps, s) && SelectorOf(mtd, qs, t) ==>
      Answers(s, e, g) && Answers(t, e, g) && Selected(s, e, g) == Selected(t, e, g)
  {
    hide Owner, Disjoint, AllDisjoint, Scan, Cell, Claimed, Checked, WholeEraseblocks, BlockTable, EntriesApart,
         AllFitTable;
    SelectableInAnyOrder(mtd, all, ps, qs);
    SameElements(mtd, ps, qs, all);
    SameElements(mtd, qs, ps, all);
    if Selectable(mtd, ps) && SelectorOf(mtd, ps, s) && SelectorOf(mtd, qs, t) {
      WholeIsOnDevice(mtd, ps);
      WholeIsOnDevice(mtd, qs);
      if AllWhole(mtd, ps) {
        WholeServes(mtd, ps, s);
        WholeServes(mtd, qs, t);
        DisjointInAnyOrder(ps, all);
        SameOwnerInAnyOrder(ps, qs, all, e, g);
      } else {
        CellInTable(mtd.pagesPerSector, mtd.sectors, e, g);
        TableSize(mtd, ps, s);
        SameTable(mtd, ps, qs, all, s.arr, t.arr, Cell(mtd.pagesPerSector, e, g));
      }
    }
  }

  lemma TableSize(mtd: Mtd, ps: seq<Partition>, s: Select)
    requires SelectorOf(mtd, ps, s) && s.PerPage?
    ensures |s.arr| == mtd.sectors * mtd.pagesPerSector
  {
  }
}
