// Partitions of the device: reading them from the configuration, and checking their ranges.
module Partitions {
  import opened Wrappers
  import opened Layout

  const U64_MAX: nat := 0xFFFF_FFFF_FFFF_FFFF

  datatype Mtd = Mtd(sectors: nat, pagesPerSector: nat)

  predicate ValidMtd(mtd: Mtd) {
    0 < mtd.sectors <= U64_MAX && 0 < mtd.pagesPerSector <= U64_MAX
  }

  /** A partition: the index of its pipeline, and its rectangle of eraseblocks and pages. */
  datatype Partition = Partition(name: string, pipeline: nat, eraseblocks: Range, pages: Range)

  datatype CfgPartition = CfgPartition(name: string, pipeline: string, eraseblocks: Range, pages: Range)

  datatype PartitionError = PipelineNotFound | AdditionWouldOverflow | HasExistingEntry

  datatype Added = Added(partitions: seq<Partition>) | NotAdded(error: PartitionError)

  /** A range in a configuration, or the range that stands for one that is left out. */
  predicate Parsed(r: Range) {
    Configured(r) || r == Range(0, U64_MAX)
  }

  /** addition_u64_would_overflow */
  predicate WouldOverflow(r: Range) {
    r.start > U64_MAX - r.length
  }

  lemma ParsedFits(r: Range)
    requires Parsed(r)
    ensures !WouldOverflow(r)
  {
  }

  // Reading the configuration. One record is reused for all partitions, and the overflow checks look
  // at it before it gets the ranges of the next one.

  /** The ranges the record holds when partition `n` is read; `rest` are those it holds at first. */
  function Leftover(cfg: seq<CfgPartition>, rest: (Range, Range), n: nat): (Range, Range)
    requires n <= |cfg|
  {
    if n == 0 then rest else (cfg[n - 1].eraseblocks, cfg[n - 1].pages)
  }

  predicate NameTaken(cfg: seq<CfgPartition>, n: nat)
    requires n < |cfg|
  {
    exists j :: 0 <= j < n && cfg[j].name == cfg[n].name
  }

  /** Why partition `n` is refused, if it is. */
  function RefusalAt(cfg: seq<CfgPartition>, pipelines: map<string, nat>, rest: (Range, Range), n: nat)
    : Option<PartitionError>
    requires n < |cfg|
  {
    if cfg[n].pipeline !in pipelines then Some(PipelineNotFound)
    else if WouldOverflow(Leftover(cfg, rest, n).0) || WouldOverflow(Leftover(cfg, rest, n).1)
      then Some(AdditionWouldOverflow)
    else if NameTaken(cfg, n) then Some(HasExistingEntry)
    else None
  }

  /** The record that is looked at when a partition is read does not end past 64 bits. */
  predicate RecordsFit(cfg: seq<CfgPartition>, rest: (Range, Range)) {
    && (cfg != [] ==> rest.0.start + rest.0.length <= 0xFFFF_FFFF_FFFF_FFFF
                      && rest.1.start + rest.1.length <= 0xFFFF_FFFF_FFFF_FFFF)
    && forall i :: 0 <= i < |cfg| - 1 ==>
         && cfg[i].eraseblocks.start + cfg[i].eraseblocks.length <= 0xFFFF_FFFF_FFFF_FFFF
         && cfg[i].pages.start + cfg[i].pages.length <= 0xFFFF_FFFF_FFFF_FFFF
  }

  lemma RecordsFitExactly(cfg: seq<CfgPartition>, rest: (Range, Range))
    ensures RecordsFit(cfg, rest) <==> forall i :: 0 <= i < |cfg| ==>
      !WouldOverflow(Leftover(cfg, rest, i).0) && !WouldOverflow(Leftover(cfg, rest, i).1)
  {
    if forall i :: 0 <= i < |cfg| ==>
        !WouldOverflow(Leftover(cfg, rest, i).0) && !WouldOverflow(Leftover(cfg, rest, i).1) {
      forall i | 0 <= i < |cfg| - 1
        ensures cfg[i].eraseblocks.start + cfg[i].eraseblocks.length <= U64_MAX
        ensures cfg[i].pages.start + cfg[i].pages.length <= U64_MAX
      {
        assert !WouldOverflow(Leftover(cfg, rest, i + 1).0) && !WouldOverflow(Leftover(cfg, rest, i + 1).1);
      }
      if cfg != [] { assert !WouldOverflow(Leftover(cfg, rest, 0).0); }
    }
  }

  /** Nothing is refused exactly when every pipeline that is named exists, no two partitions have the same
      name, and no record that is looked at ends past 64 bits. */
  lemma NothingRefusedExactly(cfg: seq<CfgPartition>, pipelines: map<string, nat>, rest: (Range, Range))
    ensures (forall i :: 0 <= i < |cfg| ==> RefusalAt(cfg, pipelines, rest, i) == None)
      <==> (forall i :: 0 <= i < |cfg| ==> cfg[i].pipeline in pipelines)
           && (forall i, j :: 0 <= i < j < |cfg| ==> cfg[i].name != cfg[j].name) && RecordsFit(cfg, rest)
  {
    hide WouldOverflow, Leftover, RecordsFit;
    RecordsFitExactly(cfg, rest);
    if forall i :: 0 <= i < |cfg| ==> RefusalAt(cfg, pipelines, rest, i) == None {
      forall i, j | 0 <= i < j < |cfg|
        ensures cfg[i].name != cfg[j].name
      {
        assert RefusalAt(cfg, pipelines, rest, j) == None;
      }
      forall i | 0 <= i < |cfg|
        ensures cfg[i].pipeline in pipelines
        ensures !WouldOverflow(Leftover(cfg, rest, i).0) && !WouldOverflow(Leftover(cfg, rest, i).1)
      {
        assert RefusalAt(cfg, pipelines, rest, i) == None;
      }
    }
  }

  lemma WhyRefused(cfg: seq<CfgPartition>, pipelines: map<string, nat>, rest: (Range, Range), n: nat)
    requires n < |cfg|
    ensures RefusalAt(cfg, pipelines, rest, n) == Some(PipelineNotFound) <==> cfg[n].pipeline !in pipelines
    ensures RefusalAt(cfg, pipelines, rest, n) == Some(AdditionWouldOverflow) <==>
      && cfg[n].pipeline in pipelines
      && (WouldOverflow(Leftover(cfg, rest, n).0) || WouldOverflow(Leftover(cfg, rest, n).1))
    ensures RefusalAt(cfg, pipelines, rest, n) == Some(HasExistingEntry) ==>
      exists j :: 0 <= j < n && cfg[j].name == cfg[n].name
    ensures RefusalAt(cfg, pipelines, rest, n) == Some(AdditionWouldOverflow) ==> !RecordsFit(cfg, rest)
  {
    if RefusalAt(cfg, pipelines, rest, n) == Some(AdditionWouldOverflow) {
      assert WouldOverflow(Leftover(cfg, rest, n).0) || WouldOverflow(Leftover(cfg, rest, n).1);
      RecordsFitExactly(cfg, rest);
    }
  }

  predicate IsPartition(cfg: CfgPartition, pipelines: map<string, nat>, p: Partition) {
    cfg.pipeline in pipelines && p == Partition(cfg.name, pipelines[cfg.pipeline], cfg.eraseblocks, cfg.pages)
  }

  /** add_partitions_to_scheme_from_cfg_config */
  method AddPartitions(cfg: seq<CfgPartition>, pipelines: map<string, nat>, rest: (Range, Range)) returns (r: Added)
    ensures r.Added? <==>
      && (forall i :: 0 <= i < |cfg| ==> cfg[i].pipeline in pipelines)
      && (forall i, j :: 0 <= i < j < |cfg| ==> cfg[i].name != cfg[j].name) && RecordsFit(cfg, rest)
    ensures r.Added? ==>
      && |r.partitions| == |cfg| && forall i :: 0 <= i < |cfg| ==>
        r.partitions[i] == Partition(cfg[i].name, pipelines[cfg[i].pipeline], cfg[i].eraseblocks, cfg[i].pages)
    ensures r == NotAdded(PipelineNotFound) ==> exists i :: 0 <= i < |cfg| && cfg[i].pipeline !in pipelines
    ensures r == NotAdded(HasExistingEntry) ==> exists i, j :: 0 <= i < j < |cfg| && cfg[i].name == cfg[j].name
    ensures r == NotAdded(AdditionWouldOverflow) ==> !RecordsFit(cfg, rest)
    ensures r.NotAdded? ==> exists i ::
      && 0 <= i < |cfg| && RefusalAt(cfg, pipelines, rest, i) == Some(r.error)
      && forall j :: 0 <= j < i ==> RefusalAt(cfg, pipelines, rest, j) == None
  {
    hide WouldOverflow, RecordsFit;
    NothingRefusedExactly(cfg, pipelines, rest);
    var eraseblocks, pages := rest.0, rest.1;
    var names: set<string> := {};
    var ps: seq<Partition> := [];
    for i := 0 to |cfg|
      invariant (eraseblocks, pages) == Leftover(cfg, rest, i)
      invariant names == set j | 0 <= j < i :: cfg[j].name
      invariant |ps| == i && forall j :: 0 <= j < i ==> IsPartition(cfg[j], pipelines, ps[j])
      invariant forall j :: 0 <= j < i ==> RefusalAt(cfg, pipelines, rest, j) == None
    {
      if cfg[i].pipeline !in pipelines {
        assert RefusalAt(cfg, pipelines, rest, i) == Some(PipelineNotFound);
        WhyRefused(cfg, pipelines, rest, i);
        return NotAdded(PipelineNotFound);
      }
      if WouldOverflow(eraseblocks) {
        assert RefusalAt(cfg, pipelines, rest, i) == Some(AdditionWouldOverflow);
        WhyRefused(cfg, pipelines, rest, i);
        return NotAdded(AdditionWouldOverflow);
      }
      eraseblocks := cfg[i].eraseblocks;
      if WouldOverflow(pages) {
        assert RefusalAt(cfg, pipelines, rest, i) == Some(AdditionWouldOverflow);
        WhyRefused(cfg, pipelines, rest, i);
        return NotAdded(AdditionWouldOverflow);
      }
      pages := cfg[i].pages;
      if cfg[i].name in names {
        assert RefusalAt(cfg, pipelines, rest, i) == Some(HasExistingEntry);
        WhyRefused(cfg, pipelines, rest, i);
        return NotAdded(HasExistingEntry);
      }
      names := names + {cfg[i].name};
      ps := ps + [Partition(cfg[i].name, pipelines[cfg[i].pipeline], eraseblocks, pages)];
    }
    return Added(ps);
  }

  /** Parsed ranges never overflow, and still a configuration is refused for overflow exactly when what
      the record happened to hold before the first partition does. */
  lemma RefusedForOverflow(cfg: seq<CfgPartition>, pipelines: map<string, nat>, rest: (Range, Range))
    requires |cfg| > 0 && cfg[0].pipeline in pipelines
    requires forall i :: 0 <= i < |cfg| ==> Parsed(cfg[i].eraseblocks) && Parsed(cfg[i].pages)
    ensures (exists i :: 0 <= i < |cfg| && RefusalAt(cfg, pipelines, rest, i) == Some(AdditionWouldOverflow))
      <==> WouldOverflow(rest.0) || WouldOverflow(rest.1)
  {
    assert RefusalAt(cfg, pipelines, rest, 0) == Some(AdditionWouldOverflow) <==>
      WouldOverflow(rest.0) || WouldOverflow(rest.1);
    forall i | 0 < i < |cfg|
      ensures RefusalAt(cfg, pipelines, rest, i) != Some(AdditionWouldOverflow)
    {
      ParsedFits(cfg[i - 1].eraseblocks);
      ParsedFits(cfg[i - 1].pages);
    }
  }

  /** A partition of one page, and a record that happens to hold a range that ends past 64 bits. */
  lemma LeftoverRefuses()
    ensures var cfg, rest := [CfgPartition("a", "p", Range(0, 1), Range(0, 1))], (Range(1, U64_MAX), Range(0, 0));
      && Parsed(cfg[0].eraseblocks) && Parsed(cfg[0].pages)
      && RefusalAt(cfg, map["p" := 1], rest, 0) == Some(AdditionWouldOverflow)
      && RefusalAt(cfg, map["p" := 1], (Range(0, 0), Range(0, 0)), 0) == None
  {
  }

  // Checking the ranges.

  function Sub64(a: nat, b: nat): nat {
    (a - b) % TWO64
  }

  /** A length that is left out reaches to the end of the device. */
  function FixLength(r: Range, end: nat): Range {
    if r.length == U64_MAX then Range(r.start, Sub64(end, r.start)) else r
  }

  function Fixed(mtd: Mtd, p: Partition): Partition {
    p.(eraseblocks := FixLength(p.eraseblocks, mtd.sectors), pages := FixLength(p.pages, mtd.pagesPerSector))
  }

  /** partition_range_fix_iter: whether the partition is accepted; its ranges become those of `Fixed`.
      The first sum takes the start of the eraseblocks and the length of the pages. */
  predicate RangeAccepted(mtd: Mtd, p: Partition) {
    && p.eraseblocks.length != 0 && p.pages.length != 0
    && var f := Fixed(mtd, p);
       && Add64(f.eraseblocks.start, f.pages.length) <= mtd.sectors
       && Add64(f.eraseblocks.start, f.eraseblocks.length) <= mtd.sectors
  }

  /** The partition lies on the device and is not empty. */
  predicate InBounds(mtd: Mtd, p: Partition) {
    && 0 < p.eraseblocks.length && End(p.eraseblocks) <= mtd.sectors
    && 0 < p.pages.length && End(p.pages) <= mtd.pagesPerSector
  }

  /** What the range checks leave: neither range is empty or too long for 64 bits, and the eraseblocks
      are on the device. */
  predicate Checked(mtd: Mtd, p: Partition) {
    && 0 < p.eraseblocks.length && End(p.eraseblocks) <= mtd.sectors
    && 0 < p.pages.length <= U64_MAX
  }

  /** validate_partitions_range_limits, for the partitions in the order of the scan. */
  method FixPartitions(mtd: Mtd, ps: seq<Partition>) returns (ok: bool, fixed: seq<Partition>)
    ensures ok <==> forall i :: 0 <= i < |ps| ==> RangeAccepted(mtd, ps[i])
    ensures ok ==> |fixed| == |ps| && forall i :: 0 <= i < |ps| ==> fixed[i] == Fixed(mtd, ps[i])
  {
    fixed := [];
    for i := 0 to |ps|
      invariant |fixed| == i && forall j :: 0 <= j < i ==> RangeAccepted(mtd, ps[j]) && fixed[j] == Fixed(mtd, ps[j])
    {
      if !RangeAccepted(mtd, ps[i]) {
        return false, fixed;
      }
      fixed := fixed + [Fixed(mtd, ps[i])];
    }
    return true, fixed;
  }

  predicate ParsedPartition(p: Partition) {
    Parsed(p.eraseblocks) && Parsed(p.pages)
  }

  /** An accepted partition lies on the device exactly when its pages end inside an eraseblock, which
      is not checked; a partition that lies on the device is accepted exactly when the start of its
      eraseblocks plus the number of its pages is at most the number of eraseblocks. */
  lemma RangeCheckExactly(mtd: Mtd, p: Partition)
    requires ValidMtd(mtd) && ParsedPartition(p)
    ensures RangeAccepted(mtd, p) <==>
      && p.eraseblocks.length != 0 && p.pages.length != 0
      && var blocks := if p.eraseblocks.length == 0xFFFF_FFFF_FFFF_FFFF then mtd.sectors else p.eraseblocks.length;
         var pages := if p.pages.length == 0xFFFF_FFFF_FFFF_FFFF then mtd.pagesPerSector else p.pages.length;
         && (p.eraseblocks.start + pages) % 0x1_0000_0000_0000_0000 <= mtd.sectors
         && p.eraseblocks.start + blocks <= mtd.sectors
    ensures RangeAccepted(mtd, p) ==> Fixed(mtd, p) == p.(
      eraseblocks := if p.eraseblocks.length == 0xFFFF_FFFF_FFFF_FFFF then Range(0, mtd.sectors) else p.eraseblocks,
      pages := if p.pages.length == 0xFFFF_FFFF_FFFF_FFFF then Range(0, mtd.pagesPerSector) else p.pages)
    ensures RangeAccepted(mtd, p) ==> (InBounds(mtd, Fixed(mtd, p)) <==> End(Fixed(mtd, p).pages) <= mtd.pagesPerSector)
    ensures RangeAccepted(mtd, p) ==> Checked(mtd, Fixed(mtd, p))
    ensures InBounds(mtd, Fixed(mtd, p)) ==>
      (RangeAccepted(mtd, p) <==> p.eraseblocks.length != 0 && p.pages.length != 0
                                  && Add64(p.eraseblocks.start, Fixed(mtd, p).pages.length) <= mtd.sectors)
  {
    FixedLength(p.eraseblocks, mtd.sectors);
    FixedLength(p.pages, mtd.pagesPerSector);
  }

  lemma FixedLength(r: Range, end: nat)
    requires Parsed(r) && end <= U64_MAX
    ensures FixLength(r, end) == if r.length == U64_MAX then Range(0, end) else r
    ensures Configured(FixLength(r, end)) || FixLength(r, end) == Range(0, end)
  {
  }

  /** A hundred pages in eraseblocks of 64 are accepted. */
  lemma PagesBeyondEraseblock()
    ensures var mtd, p := Mtd(1024, 64), Partition("a", 1, Range(0, 1), Range(0, 100));
      ParsedPartition(p) && RangeAccepted(mtd, p) && !InBounds(mtd, Fixed(mtd, p))
  {
  }

  /** One partition for the whole of a device with four eraseblocks of 64 pages is refused. */
  lemma WholeDeviceRefused()
    ensures var mtd, p := Mtd(4, 64), Partition("a", 1, Range(0, U64_MAX), Range(0, U64_MAX));
      ParsedPartition(p) && !RangeAccepted(mtd, p) && InBounds(mtd, Fixed(mtd, p))
  {
  }
}
