// Selecting the pipeline of a page: one pipeline for all, a table by eraseblock, or a table by page.
module Demux {
  import opened Layout
  import opened Partitions

  const AUTOMATIC_NACK_PIPELINE_INDEX: nat := 0

  predicate Within(r: Range, k: nat) {
    r.start <= k < End(r)
  }

  predicate Contains(p: Partition, e: nat, g: nat) {
    Within(p.eraseblocks, e) && Within(p.pages, g)
  }

  // What is meant: the pipeline of the partition that contains the page.

  predicate Owned(ps: seq<Partition>, n: nat, e: nat, g: nat)
    requires n <= |ps|
  {
    exists i :: 0 <= i < n && Contains(ps[i], e, g)
  }

  /** The pipeline of the first of `n` partitions that contains the page, or the automatic NACK. */
  function Owner(ps: seq<Partition>, n: nat, e: nat, g: nat): (pipeline: nat)
    requires n <= |ps|
    ensures !Owned(ps, n, e, g) ==> pipeline == AUTOMATIC_NACK_PIPELINE_INDEX
    ensures Owned(ps, n, e, g) ==> exists i :: 0 <= i < n && Contains(ps[i], e, g) && pipeline == ps[i].pipeline
  {
    if n == 0 then AUTOMATIC_NACK_PIPELINE_INDEX
    else if Owned(ps, n - 1, e, g) then Owner(ps, n - 1, e, g)
    else if Contains(ps[n - 1], e, g) then ps[n - 1].pipeline
    else AUTOMATIC_NACK_PIPELINE_INDEX
  }

  /** No page lies in two partitions. */
  ghost predicate NoSharedPage(p: Partition, q: Partition) {
    forall e: nat, g: nat :: !(Contains(p, e, g) && Contains(q, e, g))
  }

  ghost predicate Disjoint(ps: seq<Partition>) {
    forall i, j :: 0 <= i < j < |ps| ==> NoSharedPage(ps[i], ps[j])
  }

  // The table of pages: one row of `stride` entries for each eraseblock.

  function Cell(stride: nat, e: nat, g: nat): nat {
    stride * e + g
  }

  lemma {:induction false} RowsApart(stride: nat, e: nat, e': nat)
    requires e < e'
    ensures stride * e + stride <= stride * e'
  {
    if e + 1 < e' { RowsApart(stride, e, e' - 1); }
    assert stride * e' == stride * (e' - 1) + stride;
  }

  lemma CellInTable(stride: nat, sectors: nat, e: nat, g: nat)
    requires e < sectors && g < stride
    ensures Cell(stride, e, g) < sectors * stride
  {
    RowsApart(stride, e, sectors);
  }

  /** No two pages share an entry. */
  lemma CellsDiffer(stride: nat, e: nat, g: nat, e': nat, g': nat)
    requires g < stride && g' < stride && Cell(stride, e, g) == Cell(stride, e', g')
    ensures e == e' && g == g'
  {
    if e < e' { RowsApart(stride, e, e'); }
    if e' < e { RowsApart(stride, e', e); }
  }

  /** A page `q` eraseblocks beyond its own has the entry of a page there. */
  lemma BeyondEraseblock(stride: nat, e: nat, q: nat, g: nat)
    ensures Cell(stride, e, stride * q + g) == Cell(stride, e + q, g)
  {
    assert stride * (e + q) == stride * e + stride * q;
  }

  lemma CellsGrow(stride: nat, e: nat, g: nat, e': nat, g': nat)
    requires e <= e' && g <= g'
    ensures Cell(stride, e, g) <= Cell(stride, e', g')
  {
    if e < e' { RowsApart(stride, e, e'); }
  }

  // Which entries a partition has.

  /** Entry `k` is one of `p`. */
  ghost predicate IsCell(mtd: Mtd, p: Partition, k: nat) {
    exists e: nat, g: nat :: Contains(p, e, g) && Cell(mtd.pagesPerSector, e, g) == k
  }

  /** All pages of the partition have an entry in the table, be it that of another page. */
  ghost predicate FitsTable(mtd: Mtd, p: Partition) {
    forall e: nat, g: nat :: Contains(p, e, g) ==>
      Cell(mtd.pagesPerSector, e, g) < mtd.sectors * mtd.pagesPerSector
  }

  /** The last page of the partition has one. */
  predicate InTable(mtd: Mtd, p: Partition)
    requires 0 < p.eraseblocks.length && 0 < p.pages.length
  {
    Cell(mtd.pagesPerSector, End(p.eraseblocks) - 1, End(p.pages) - 1) < mtd.sectors * mtd.pagesPerSector
  }

  /** Looking at the last page, as a caller could, tells whether all entries are in the table. */
  lemma InTableExactly(mtd: Mtd, p: Partition)
    requires 0 < p.eraseblocks.length && 0 < p.pages.length
    ensures FitsTable(mtd, p) <==> InTable(mtd, p)
  {
    hide Cell;
    var e', g' := End(p.eraseblocks) - 1, End(p.pages) - 1;
    assert Contains(p, e', g');
    forall e: nat, g: nat | InTable(mtd, p) && Contains(p, e, g)
      ensures Cell(mtd.pagesPerSector, e, g) < mtd.sectors * mtd.pagesPerSector
    {
      CellsGrow(mtd.pagesPerSector, e, g, e', g');
    }
  }

  /** The same for what the range checks accept: they leave the start of the pages alone. */
  lemma AcceptedInTable(mtd: Mtd, p: Partition)
    requires ValidMtd(mtd) && ParsedPartition(p) && RangeAccepted(mtd, p)
    ensures Checked(mtd, Fixed(mtd, p))
    ensures FitsTable(mtd, Fixed(mtd, p)) <==> InTable(mtd, Fixed(mtd, p))
  {
    RangeCheckExactly(mtd, p);
    InTableExactly(mtd, Fixed(mtd, p));
  }

  /** One page of one eraseblock is accepted, and its entry would be the first one past the table. */
  lemma EntryPastTable()
    ensures var mtd, p := Mtd(1024, 64), Partition("a", 1, Range(0, 1), Range(65536, 1));
      && ParsedPartition(p) && RangeAccepted(mtd, p) && Fixed(mtd, p) == p && Contains(p, 0, 65536)
      && Cell(64, 0, 65536) == mtd.sectors * mtd.pagesPerSector && !InTable(mtd, p)
  {
  }

  /** No two pages of the partition have the same entry. */
  ghost predicate SelfApart(mtd: Mtd, p: Partition) {
    forall e: nat, g: nat, e': nat, g': nat ::
      (Contains(p, e, g) && Contains(p, e', g')
       && Cell(mtd.pagesPerSector, e, g) == Cell(mtd.pagesPerSector, e', g')) ==> e == e' && g == g'
  }

  ghost predicate NoSharedCell(mtd: Mtd, p: Partition, q: Partition) {
    forall k: nat :: !(IsCell(mtd, p, k) && IsCell(mtd, q, k))
  }

  /** No two of the first `n` partitions have an entry in common. */
  ghost predicate CellsApart(mtd: Mtd, ps: seq<Partition>, n: nat)
    requires n <= |ps|
  {
    forall i, j :: 0 <= i < j < n ==> NoSharedCell(mtd, ps[i], ps[j])
  }

  /** Every page of every partition has an entry of its own. */
  ghost predicate EntriesApart(mtd: Mtd, ps: seq<Partition>) {
    (forall i :: 0 <= i < |ps| ==> SelfApart(mtd, ps[i])) && CellsApart(mtd, ps, |ps|)
  }

  ghost predicate AllFitTable(mtd: Mtd, ps: seq<Partition>) {
    forall i :: 0 <= i < |ps| ==> FitsTable(mtd, ps[i])
  }

  predicate Named(ps: seq<Partition>) {
    forall i :: 0 <= i < |ps| ==> ps[i].pipeline != AUTOMATIC_NACK_PIPELINE_INDEX
  }

  /** All partitions lie on the device. */
  predicate AllInBounds(mtd: Mtd, ps: seq<Partition>) {
    forall i :: 0 <= i < |ps| ==> InBounds(mtd, ps[i])
  }

  // Marking one partition.

  /** A write past the table is where the model stops. */
  datatype Mark = Done | Taken | Outside

  /** Pages of `p` in the eraseblocks before `e`, and those of `e` before page `g`. */
  predicate Reached(p: Partition, e: nat, g: nat, e': nat, g': nat) {
    Contains(p, e', g') && (e' < e || (e' == e && g' < g))
  }

  ghost predicate ReachedCell(mtd: Mtd, p: Partition, e: nat, g: nat, k: nat) {
    exists e': nat, g': nat :: Reached(p, e, g, e', g') && Cell(mtd.pagesPerSector, e', g') == k
  }

  /** Table `t` is table `was` with the entries reached, which were free, set to the pipeline of `p`. */
  ghost predicate Marking(mtd: Mtd, was: seq<nat>, t: seq<nat>, p: Partition, e: nat, g: nat) {
    && |t| == |was|
    && (forall k: nat :: ReachedCell(mtd, p, e, g, k) ==>
          k < |t| && t[k] == p.pipeline && was[k] == AUTOMATIC_NACK_PIPELINE_INDEX)
    && (forall k: nat :: k < |t| && !ReachedCell(mtd, p, e, g, k) ==> t[k] == was[k])
  }

  /** The pages reached have different entries. */
  ghost predicate ReachedApart(mtd: Mtd, p: Partition, e: nat, g: nat) {
    forall e1: nat, g1: nat, e2: nat, g2: nat ::
      (Reached(p, e, g, e1, g1) && Reached(p, e, g, e2, g2)
       && Cell(mtd.pagesPerSector, e1, g1) == Cell(mtd.pagesPerSector, e2, g2)) ==> e1 == e2 && g1 == g2
  }

  ghost predicate Marked(mtd: Mtd, was: seq<nat>, t: seq<nat>, p: Partition) {
    && |t| == |was|
    && (forall k: nat :: IsCell(mtd, p, k) ==>
          k < |t| && t[k] == p.pipeline && was[k] == AUTOMATIC_NACK_PIPELINE_INDEX)
    && (forall k: nat :: k < |t| && !IsCell(mtd, p, k) ==> t[k] == was[k])
  }

  /** No entry of the partition has a pipeline yet. */
  ghost predicate Free(mtd: Mtd, t: seq<nat>, p: Partition) {
    forall k: nat :: k < |t| && IsCell(mtd, p, k) ==> t[k] == AUTOMATIC_NACK_PIPELINE_INDEX
  }

  lemma ReachedNext(mtd: Mtd, p: Partition, e: nat, g: nat, k: nat)
    requires Contains(p, e, g)
    ensures ReachedCell(mtd, p, e, g + 1, k)
      <==> ReachedCell(mtd, p, e, g, k) || k == Cell(mtd.pagesPerSector, e, g)
  {
    hide Cell;
    if ReachedCell(mtd, p, e, g, k) {
      var e': nat, g': nat :| Reached(p, e, g, e', g') && Cell(mtd.pagesPerSector, e', g') == k;
      assert Reached(p, e, g + 1, e', g');
    }
    if k == Cell(mtd.pagesPerSector, e, g) {
      assert Reached(p, e, g + 1, e, g);
    }
    if ReachedCell(mtd, p, e, g + 1, k) {
      var e': nat, g': nat :| Reached(p, e, g + 1, e', g') && Cell(mtd.pagesPerSector, e', g') == k;
      assert (e' == e && g' == g) || Reached(p, e, g, e', g');
    }
  }

  lemma MarkingNext(mtd: Mtd, was: seq<nat>, t: seq<nat>, p: Partition, e: nat, g: nat)
    requires Contains(p, e, g) && Marking(mtd, was, t, p, e, g) && Cell(mtd.pagesPerSector, e, g) < |t|
    requires t[Cell(mtd.pagesPerSector, e, g)] == AUTOMATIC_NACK_PIPELINE_INDEX != p.pipeline
    ensures Marking(mtd, was, t[Cell(mtd.pagesPerSector, e, g) := p.pipeline], p, e, g + 1)
    ensures !ReachedCell(mtd, p, e, g, Cell(mtd.pagesPerSector, e, g))
  {
    hide Cell, ReachedCell;
    forall k: nat
      ensures ReachedCell(mtd, p, e, g + 1, k)
        <==> ReachedCell(mtd, p, e, g, k) || k == Cell(mtd.pagesPerSector, e, g)
    {
      ReachedNext(mtd, p, e, g, k);
    }
  }

  lemma ApartNext(mtd: Mtd, p: Partition, e: nat, g: nat)
    requires ReachedApart(mtd, p, e, g) && !ReachedCell(mtd, p, e, g, Cell(mtd.pagesPerSector, e, g))
    ensures ReachedApart(mtd, p, e, g + 1)
  {
    hide Cell;
    assert forall e': nat, g': nat ::
      Reached(p, e, g + 1, e', g') ==> (e' == e && g' == g) || Reached(p, e, g, e', g');
  }

  /** An entry that is taken was taken before this partition, or by another of its pages. */
  lemma Blocked(mtd: Mtd, was: seq<nat>, t: seq<nat>, p: Partition, e: nat, g: nat)
    requires Contains(p, e, g) && Marking(mtd, was, t, p, e, g) && Cell(mtd.pagesPerSector, e, g) < |t|
    requires t[Cell(mtd.pagesPerSector, e, g)] != AUTOMATIC_NACK_PIPELINE_INDEX
    ensures !Free(mtd, was, p) || !SelfApart(mtd, p)
  {
    hide Cell;
    var k := Cell(mtd.pagesPerSector, e, g);
    assert IsCell(mtd, p, k);
    if ReachedCell(mtd, p, e, g, k) {
      var e': nat, g': nat :| Reached(p, e, g, e', g') && Cell(mtd.pagesPerSector, e', g') == k;
    }
  }

  /** The end of a row is the start of the next. */
  lemma RowDone(mtd: Mtd, was: seq<nat>, t: seq<nat>, p: Partition, e: nat)
    requires Marking(mtd, was, t, p, e, End(p.pages)) && ReachedApart(mtd, p, e, End(p.pages))
    ensures Marking(mtd, was, t, p, e + 1, p.pages.start) && ReachedApart(mtd, p, e + 1, p.pages.start)
  {
    hide Cell;
    assert forall e': nat, g': nat ::
      Reached(p, e, End(p.pages), e', g') <==> Reached(p, e + 1, p.pages.start, e', g');
    assert forall k: nat ::
      ReachedCell(mtd, p, e, End(p.pages), k) <==> ReachedCell(mtd, p, e + 1, p.pages.start, k);
  }

  lemma MarkingStarts(mtd: Mtd, t: seq<nat>, p: Partition)
    ensures Marking(mtd, t, t, p, p.eraseblocks.start, p.pages.start)
    ensures ReachedApart(mtd, p, p.eraseblocks.start, p.pages.start)
  {
  }

  lemma MarkingDone(mtd: Mtd, was: seq<nat>, t: seq<nat>, p: Partition)
    requires Marking(mtd, was, t, p, End(p.eraseblocks), p.pages.start)
    requires ReachedApart(mtd, p, End(p.eraseblocks), p.pages.start)
    ensures Marked(mtd, was, t, p) && Free(mtd, was, p) && SelfApart(mtd, p)
    ensures |t| == mtd.sectors * mtd.pagesPerSector ==> FitsTable(mtd, p)
  {
    hide Cell;
    assert forall e: nat, g: nat ::
      Reached(p, End(p.eraseblocks), p.pages.start, e, g) <==> Contains(p, e, g);
    assert forall k: nat ::
      ReachedCell(mtd, p, End(p.eraseblocks), p.pages.start, k) <==> IsCell(mtd, p, k);
    forall e: nat, g: nat | Contains(p, e, g)
      ensures Cell(mtd.pagesPerSector, e, g) < |t|
    {
      assert IsCell(mtd, p, Cell(mtd.pagesPerSector, e, g));
    }
  }

  /** set_partition_pipeline_on_array_per_page */
  method MarkPages(mtd: Mtd, arr: array<nat>, p: Partition) returns (r: Mark)
    requires p.pipeline != AUTOMATIC_NACK_PIPELINE_INDEX && arr.Length == mtd.sectors * mtd.pagesPerSector
    modifies arr
    ensures r.Done? <==> FitsTable(mtd, p) && Free(mtd, old(arr[..]), p) && SelfApart(mtd, p)
    ensures r.Done? ==> Marked(mtd, old(arr[..]), arr[..], p)
    ensures r.Taken? ==> !(Free(mtd, old(arr[..]), p) && SelfApart(mtd, p))
    ensures r.Outside? ==> !FitsTable(mtd, p)
  {
    hide Cell, Marking, Marked, Free, ReachedApart, SelfApart;
    ghost var was := arr[..];
    MarkingStarts(mtd, was, p);
    for e := p.eraseblocks.start to End(p.eraseblocks)
      invariant Marking(mtd, was, arr[..], p, e, p.pages.start) && ReachedApart(mtd, p, e, p.pages.start)
    {
      for g := p.pages.start to End(p.pages)
        invariant Marking(mtd, was, arr[..], p, e, g) && ReachedApart(mtd, p, e, g)
      {
        ghost var t := arr[..];
        var idx := Cell(mtd.pagesPerSector, e, g);
        assert Contains(p, e, g);
        if idx >= arr.Length {
          return Outside;
        }
        if arr[idx] != AUTOMATIC_NACK_PIPELINE_INDEX {
          Blocked(mtd, was, t, p, e, g);
          return Taken;
        }
        MarkingNext(mtd, was, t, p, e, g);
        ApartNext(mtd, p, e, g);
        arr[idx] := p.pipeline;
        assert arr[..] == t[idx := p.pipeline];
      }
      RowDone(mtd, was, arr[..], p, e);
    }
    MarkingDone(mtd, was, arr[..], p);
    return Done;
  }

  // All partitions, one after the other.

  /** Every entry of one of the first `n` partitions holds its pipeline, and all others hold none. */
  ghost predicate Claimed(mtd: Mtd, t: seq<nat>, ps: seq<Partition>, n: nat)
    requires n <= |ps|
  {
    && |t| == mtd.sectors * mtd.pagesPerSector
    && (forall i: nat, k: nat {:trigger IsCell(mtd, ps[i], k)} ::
          i < n && IsCell(mtd, ps[i], k) ==> k < |t| && t[k] == ps[i].pipeline)
    && (forall k: nat :: k < |t| && Unclaimed(mtd, ps, n, k) ==> t[k] == AUTOMATIC_NACK_PIPELINE_INDEX)
  }

  ghost predicate Unclaimed(mtd: Mtd, ps: seq<Partition>, n: nat, k: nat)
    requires n <= |ps|
  {
    forall i :: 0 <= i < n ==> !IsCell(mtd, ps[i], k)
  }

  lemma ClaimNext(mtd: Mtd, ps: seq<Partition>, n: nat, was: seq<nat>, t: seq<nat>)
    requires n < |ps| && Claimed(mtd, was, ps, n) && Marked(mtd, was, t, ps[n]) && Named(ps)
    ensures Claimed(mtd, t, ps, n + 1)
  {
    hide IsCell;
    forall i: nat, k: nat | i < n + 1 && IsCell(mtd, ps[i], k)
      ensures k < |t| && t[k] == ps[i].pipeline
    {
      assert i < n ==> was[k] == ps[i].pipeline;
    }
    forall k: nat | k < |t| && Unclaimed(mtd, ps, n + 1, k)
      ensures t[k] == AUTOMATIC_NACK_PIPELINE_INDEX
    {
      assert !IsCell(mtd, ps[n], k) && Unclaimed(mtd, ps, n, k);
    }
  }

  /** A partition finds its entries free exactly when it shares none with the partitions before it. */
  lemma FreeMeansApart(mtd: Mtd, ps: seq<Partition>, n: nat, t: seq<nat>)
    requires Named(ps) && n < |ps| && Claimed(mtd, t, ps, n) && CellsApart(mtd, ps, n)
    ensures Free(mtd, t, ps[n]) <==> CellsApart(mtd, ps, n + 1)
  {
    hide IsCell;
    if Free(mtd, t, ps[n]) {
      forall i, k: nat | 0 <= i < n
        ensures !(IsCell(mtd, ps[i], k) && IsCell(mtd, ps[n], k))
      {
      }
    }
    if CellsApart(mtd, ps, n + 1) {
      forall k: nat | k < |t| && IsCell(mtd, ps[n], k)
        ensures t[k] == AUTOMATIC_NACK_PIPELINE_INDEX
      {
        assert Unclaimed(mtd, ps, n, k) by {
          forall i | 0 <= i < n
            ensures !IsCell(mtd, ps[i], k)
          {
            assert NoSharedCell(mtd, ps[i], ps[n]);
          }
        }
      }
    }
  }

  lemma FewerApart(mtd: Mtd, ps: seq<Partition>, n: nat)
    requires n <= |ps| && !CellsApart(mtd, ps, n)
    ensures !CellsApart(mtd, ps, |ps|)
  {
    hide NoSharedCell;
  }

  /** initialize_pipeline_selector_per_page, for the partitions in the order of the scan. */
  method FillPages(mtd: Mtd, ps: seq<Partition>) returns (r: Mark, arr: seq<nat>)
    requires Named(ps)
    ensures r.Done? <==> AllFitTable(mtd, ps) && EntriesApart(mtd, ps)
    ensures r.Taken? ==> !EntriesApart(mtd, ps)
    ensures r.Outside? ==> !AllFitTable(mtd, ps)
    ensures r.Done? ==> Claimed(mtd, arr, ps, |ps|)
  {
    hide Claimed, CellsApart, Free, Marked, FitsTable, SelfApart;
    var entries := new nat[mtd.sectors * mtd.pagesPerSector](_ => AUTOMATIC_NACK_PIPELINE_INDEX);
    NothingClaimed(mtd, entries[..], ps);
    for i := 0 to |ps|
      invariant Claimed(mtd, entries[..], ps, i) && CellsApart(mtd, ps, i)
      invariant forall j :: 0 <= j < i ==> FitsTable(mtd, ps[j]) && SelfApart(mtd, ps[j])
    {
      ghost var was := entries[..];
      FreeMeansApart(mtd, ps, i, was);
      r := MarkPages(mtd, entries, ps[i]);
      if r != Done {
        if r.Taken? && !CellsApart(mtd, ps, i + 1) { FewerApart(mtd, ps, i + 1); }
        return r, [];
      }
      ClaimNext(mtd, ps, i, was, entries[..]);
    }
    return Done, entries[..];
  }

  lemma NothingClaimed(mtd: Mtd, t: seq<nat>, ps: seq<Partition>)
    requires |t| == mtd.sectors * mtd.pagesPerSector
    requires forall k :: 0 <= k < |t| ==> t[k] == AUTOMATIC_NACK_PIPELINE_INDEX
    ensures Claimed(mtd, t, ps, 0) && CellsApart(mtd, ps, 0)
  {
  }

  // Partitions on the device.

  /** On the device, a page's entry belongs to the partitions that contain the page. */
  lemma CellOnDevice(mtd: Mtd, p: Partition, e: nat, g: nat)
    requires InBounds(mtd, p) && g < mtd.pagesPerSector
    ensures IsCell(mtd, p, Cell(mtd.pagesPerSector, e, g)) <==> Contains(p, e, g)
  {
    hide Cell;
    if IsCell(mtd, p, Cell(mtd.pagesPerSector, e, g)) {
      var e': nat, g': nat :|
        Contains(p, e', g') && Cell(mtd.pagesPerSector, e', g') == Cell(mtd.pagesPerSector, e, g);
      CellsDiffer(mtd.pagesPerSector, e, g, e', g');
    }
  }

  lemma FitsOnDevice(mtd: Mtd, p: Partition)
    requires InBounds(mtd, p)
    ensures FitsTable(mtd, p) && SelfApart(mtd, p)
  {
    hide Cell;
    forall e: nat, g: nat | Contains(p, e, g)
      ensures Cell(mtd.pagesPerSector, e, g) < mtd.sectors * mtd.pagesPerSector
    {
      CellInTable(mtd.pagesPerSector, mtd.sectors, e, g);
    }
    forall e: nat, g: nat, e': nat, g': nat | Contains(p, e, g) && Contains(p, e', g')
      && Cell(mtd.pagesPerSector, e, g) == Cell(mtd.pagesPerSector, e', g')
      ensures e == e' && g == g'
    {
      CellsDiffer(mtd.pagesPerSector, e, g, e', g');
    }
  }

  lemma SharedOnDevice(mtd: Mtd, p: Partition, q: Partition)
    requires InBounds(mtd, p) && InBounds(mtd, q)
    ensures NoSharedCell(mtd, p, q) <==> NoSharedPage(p, q)
  {
    hide Cell;
    if NoSharedCell(mtd, p, q) {
      forall e: nat, g: nat
        ensures !(Contains(p, e, g) && Contains(q, e, g))
      {
        if Contains(p, e, g) && Contains(q, e, g) {
          CellOnDevice(mtd, p, e, g);
          CellOnDevice(mtd, q, e, g);
        }
      }
    }
    if NoSharedPage(p, q) {
      forall k: nat
        ensures !(IsCell(mtd, p, k) && IsCell(mtd, q, k))
      {
        if IsCell(mtd, p, k) {
          var e: nat, g: nat :| Contains(p, e, g) && Cell(mtd.pagesPerSector, e, g) == k;
          CellOnDevice(mtd, q, e, g);
        }
      }
    }
  }

  /** On the device, pages have entries of their own exactly when no page lies in two partitions. */
  lemma ApartOnDevice(mtd: Mtd, ps: seq<Partition>)
    requires AllInBounds(mtd, ps)
    ensures AllFitTable(mtd, ps) && (EntriesApart(mtd, ps) <==> Disjoint(ps))
  {
    hide FitsTable, SelfApart, NoSharedCell, NoSharedPage;
    forall i | 0 <= i < |ps|
      ensures FitsTable(mtd, ps[i]) && SelfApart(mtd, ps[i])
    {
      FitsOnDevice(mtd, ps[i]);
    }
    forall i, j | 0 <= i < j < |ps|
      ensures NoSharedCell(mtd, ps[i], ps[j]) <==> NoSharedPage(ps[i], ps[j])
    {
      SharedOnDevice(mtd, ps[i], ps[j]);
    }
  }

  /** Every page of the device has the entry its owner gives it. */
  ghost predicate PageTable(mtd: Mtd, t: seq<nat>, ps: seq<Partition>, n: nat)
    requires n <= |ps|
  {
    && |t| == mtd.sectors * mtd.pagesPerSector
    && forall e: nat, g: nat :: e < mtd.sectors && g < mtd.pagesPerSector ==>
         && Cell(mtd.pagesPerSector, e, g) < |t|
         && t[Cell(mtd.pagesPerSector, e, g)] == Owner(ps, n, e, g)
  }

  lemma ClaimedServes(mtd: Mtd, t: seq<nat>, ps: seq<Partition>)
    requires Claimed(mtd, t, ps, |ps|) && AllInBounds(mtd, ps)
    ensures PageTable(mtd, t, ps, |ps|)
  {
    hide Cell, IsCell;
    forall e: nat, g: nat | e < mtd.sectors && g < mtd.pagesPerSector
      ensures Cell(mtd.pagesPerSector, e, g) < |t|
      ensures t[Cell(mtd.pagesPerSector, e, g)] == Owner(ps, |ps|, e, g)
    {
      CellInTable(mtd.pagesPerSector, mtd.sectors, e, g);
      forall i | 0 <= i < |ps|
        ensures IsCell(mtd, ps[i], Cell(mtd.pagesPerSector, e, g)) <==> Contains(ps[i], e, g)
      {
        CellOnDevice(mtd, ps[i], e, g);
      }
      assert !Owned(ps, |ps|, e, g) ==> Unclaimed(mtd, ps, |ps|, Cell(mtd.pagesPerSector, e, g));
    }
  }

  lemma OwnedIsNonzero(ps: seq<Partition>, n: nat, e: nat, g: nat)
    requires Named(ps) && n <= |ps|
    ensures Owner(ps, n, e, g) != AUTOMATIC_NACK_PIPELINE_INDEX <==> Owned(ps, n, e, g)
  {
  }
}
