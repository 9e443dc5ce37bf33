// The shipped configuration as a whole, on a device of 1024 eraseblocks with 64 pages each.
module NandScheme {
  import opened Bits
  import opened Spans
  import opened Layout
  import opened PageCopy
  import opened Partitions
  import opened Demux
  import opened Selector
  import opened Pipelines
  import opened Requests
  import opened RoundTrip
  import opened RequestBytes
  import opened EndToEnd
  import opened Creation
  import opened Schemes
  import opened SchemeBuilder
  import opened DeviceRuns
  import opened SpanPointers
  import opened NandFlash
  import NandBbmPages
  import NandOtherPages
  import SipHash

  const MTD := Mtd(1024, 64)

  const PARTITIONS_CFG := [
    CfgPartition("main_image_pages_with_bbm", "main_image_bbm_pages", Range(0, 1024), Range(0, 1)),
    CfgPartition("main_image_pages_without_bbm", "main_image_non_bbm_pages", Range(0, 1024), Range(1, 63))]

  const PIPELINES_CFG := [
    CfgNamed("main_image_bbm_pages", NandBbmPages.CFG), CfgNamed("main_image_non_bbm_pages", NandOtherPages.CFG)]

  const CFG := CfgScheme(PIPELINES_CFG, PARTITIONS_CFG)

  /** The first page of every eraseblock, and the others. */
  const PARTITIONS := [
    Partition("main_image_pages_with_bbm", 1, Range(0, 1024), Range(0, 1)),
    Partition("main_image_pages_without_bbm", 2, Range(0, 1024), Range(1, 63))]

  const PIPELINES := [AutomaticNack(GEOMETRY.pageSize), NandBbmPages.PIPELINE, NandOtherPages.PIPELINE]

  lemma PartitionsAreSelectable()
    ensures ValidMtd(MTD) && AllChecked(MTD, PARTITIONS) && Named(PARTITIONS) && AllInBounds(MTD, PARTITIONS)
    ensures Disjoint(PARTITIONS) && Selectable(MTD, PARTITIONS)
  {
    SelectableOnDevice(MTD, PARTITIONS);
  }

  lemma NumbersAre()
    ensures Numbers(PIPELINES_CFG, 2) == map["main_image_bbm_pages" := 1, "main_image_non_bbm_pages" := 2]
  {
    assert Numbers(PIPELINES_CFG, 0) == map[];
    assert Numbers(PIPELINES_CFG, 1) == map["main_image_bbm_pages" := 1];
  }

  lemma PartitionsAre()
    ensures PartitionsOf(MTD, CFG) == PARTITIONS && AllParsed(PARTITIONS_CFG)
    ensures AllAccepted(MTD, Configure(PARTITIONS_CFG, Numbers(PIPELINES_CFG, 2)))
  {
    hide Numbers;
    NumbersAre();
  }

  lemma RefusedForLeftover(rest: (Range, Range))
    ensures Addable(PARTITIONS_CFG, Numbers(PIPELINES_CFG, 2), rest)
      <==> rest.0.start + rest.0.length <= 0xFFFF_FFFF_FFFF_FFFF
           && rest.1.start + rest.1.length <= 0xFFFF_FFFF_FFFF_FFFF
  {
    hide Numbers;
    NumbersAre();
  }

  /** The names of the spans of both pipelines stay in their buckets. */
  predicate AllStayPut(h: string -> nat) {
    SpansStay(NandBbmPages.CFG.parts, h) && SpansStay(NandOtherPages.CFG.parts, h)
  }

  lemma CodecsAreValid()
    ensures AllCodecsValid(PIPELINES_CFG)
  {
    NandBbmPages.CodecsAreAccepted([]);
    NandOtherPages.CodecsAreAccepted([]);
  }

  lemma AcceptableExactly(qsort: seq<Part> -> seq<Part>, h: string -> nat)
    requires AllCodecsValid(PIPELINES_CFG) && forall parts :: SortOf(parts, qsort(parts))
    ensures PipelinesAcceptable(GEOMETRY.pageSize, PIPELINES_CFG, qsort, h) <==> AllStayPut(h)
  {
    hide ValidCodecs, Creatable, SortOf, SpansStay;
    NandBbmPages.CreatableExactly(qsort, h);
    NandOtherPages.CreatableExactly(qsort, h);
    assert AllCreatable(GEOMETRY.pageSize, PIPELINES_CFG, qsort, h, 2)
      <==> Creatable(GEOMETRY.pageSize, PIPELINES_CFG[0].pipeline, qsort, h)
           && Creatable(GEOMETRY.pageSize, PIPELINES_CFG[1].pipeline, qsort, h);
  }

  lemma PipelinesAre(qsort: seq<Part> -> seq<Part>, scheme: Scheme)
    requires AllCodecsValid(PIPELINES_CFG) && forall parts :: SortOf(parts, qsort(parts))
    requires SchemeOf(GEOMETRY, MTD, CFG, qsort, scheme)
    ensures scheme.pipelines == PIPELINES
  {
    hide ValidCodecs, CreatedBy, SortOf;
    var bbm, other := PIPELINES_CFG[0].pipeline, PIPELINES_CFG[1].pipeline;
    assert CreatedBy(bbm, qsort(Placed(bbm.parts)), scheme.pipelines[1..][0]);
    assert CreatedBy(other, qsort(Placed(other.parts)), scheme.pipelines[1..][1]);
    NandBbmPages.CreatedExactly(qsort, scheme.pipelines[1]);
    NandOtherPages.CreatedExactly(qsort, scheme.pipelines[2]);
  }

  /** The scheme is built, whatever sort is used and in whatever order the partitions are scanned, unless
      a name leaves its bucket or the record of the first partition happens to hold a range that ends
      past 64 bits; and it serves every page of the device. */
  method BuildConfigured(qsort: seq<Part> -> seq<Part>, rest: (Range, Range), h: string -> nat) returns (r: Building)
    requires forall parts :: SortOf(parts, qsort(parts))
    ensures r.BuiltScheme? <==>
      && AllStayPut(h)
      && rest.0.start + rest.0.length <= 0xFFFF_FFFF_FFFF_FFFF && rest.1.start + rest.1.length <= 0xFFFF_FFFF_FFFF_FFFF
    ensures r.BuiltScheme? ==>
      r.scheme.mtd == MTD && Serves(MTD, PARTITIONS, r.scheme.select) && r.scheme.pipelines == PIPELINES
  {
    hide Serves, Selectable, SelectorOf, Disjoint, SortOf, PipelinesAcceptable, AllStayPut, AllAccepted, Addable,
         AllInBounds, AllCodecsValid, AllParsed, PartitionsOf, Named, AllChecked, Scan, Configure;
    CodecsAreValid();
    PartitionsAre();
    PartitionsAreSelectable();
    RefusedForLeftover(rest);
    AcceptableExactly(qsort, h);
    ghost var scan;
    r, scan := Build(GEOMETRY, MTD, CFG, rest, qsort, h);
    if r.BuiltScheme? { PipelinesAre(qsort, r.scheme); }
  }

  /** Under the hash that the code uses no name leaves its bucket. */
  lemma ShippedNamesStay()
    ensures AllStayPut(SipHash.SpanHash)
  {
    hide SpansStay;
    NandBbmPages.NamesStay();
    NandOtherPages.NamesStay();
  }

  function ProtectionOf(g: nat): Protection {
    if g == 0 then NandBbmPages.PROTECTION else NandOtherPages.PROTECTION
  }

  function PipelineOfPage(g: nat): Pipeline {
    if g == 0 then NandBbmPages.PIPELINE else NandOtherPages.PIPELINE
  }

  lemma {:induction false} PipelineIndex(scheme: Scheme, e: nat, g: nat)
    requires scheme.mtd == MTD && Serves(MTD, PARTITIONS, scheme.select) && scheme.pipelines == PIPELINES
    requires e < 1024 && g < 64
    ensures Serviceable(scheme, e, g, 3) && PipelineAt(scheme, e, g) == if g == 0 then 1 else 2
  {
    hide Serves, Disjoint;
    PartitionsAreSelectable();
    GoesToOwner(scheme, PARTITIONS, if g == 0 then 0 else 1, e, g);
  }

  lemma PageHasPipeline(scheme: Scheme, e: nat, g: nat)
    requires scheme.mtd == MTD && Serves(MTD, PARTITIONS, scheme.select) && e < 1024 && g < 64
    requires scheme.pipelines == PIPELINES
    ensures Serviceable(scheme, e, g, 3) && scheme.pipelines[PipelineAt(scheme, e, g)] == PipelineOfPage(g)
  {
    hide Serves;
    PipelineIndex(scheme, e, g);
  }

  /** Where out-of-band byte `o` of page `g` of an eraseblock lies. */
  function PlaceOf(g: nat, o: nat): nat {
    if g == 0 then 2050 + o else if o < 50 then 2048 + o else 2052 + o
  }

  /** The out-of-band bytes behind the codes come back, if they are not damaged. */
  ghost predicate OobBack(g: nat, page: seq<Byte>, write: Request, stored: seq<Byte>, r: seq<Byte>, read: Request,
                          out: seq<Byte>)
    requires |page| == |stored| == |r| == |out| == 2112 && write.ooblen <= if g == 0 then 48 else 60
  {
    forall o: nat :: 24 <= o < write.ooblen && o < read.ooblen && r[PlaceOf(g, o)] == stored[PlaceOf(g, o)] ==>
      out[2048 + o] == page[2048 + o]
  }

  lemma PlacesAre(g: nat, page: seq<Byte>, write: Request, stored: seq<Byte>, r: seq<Byte>, read: Request,
                  out: seq<Byte>)
    requires |page| == |stored| == |r| == |out| == 2112 && write.ooblen <= if g == 0 then 48 else 60
    requires g == 0 ==> OobComesBack(NandBbmPages.OobPlace, page, write, stored, r, read, out)
    requires g != 0 ==> OobComesBack(NandOtherPages.OobPlace, page, write, stored, r, read, out)
    ensures OobBack(g, page, write, stored, r, read, out)
  {
    forall o: nat | 24 <= o < write.ooblen && o < read.ooblen && r[PlaceOf(g, o)] == stored[PlaceOf(g, o)]
      ensures out[2048 + o] == page[2048 + o]
    {
      assert if g == 0 then NandBbmPages.OobPlace(o) == PlaceOf(g, o) else NandOtherPages.OobPlace(o) == PlaceOf(g, o);
    }
  }

  lemma EitherSurvives(g: nat, m: Memory, page: seq<Byte>, write: Request, n: Memory, r: seq<Byte>, read: Request)
    requires FitsLayout(PipelineOfPage(g).layout, m) && FitsLayout(PipelineOfPage(g).layout, n)
    requires |page| == GEOMETRY.pageSize && |r| == GEOMETRY.pageSize
    requires Fitting(write, 48) && Fitting(read, 48) && read.datalen == write.datalen
    ensures var p := PipelineOfPage(g);
      WriteReady(GEOMETRY, p, m, write) && ReadReady(GEOMETRY, p, n, read)
    ensures var p := PipelineOfPage(g);
      OneFlipEach(p.layout, ProtectionOf(g), WriteOutcome(GEOMETRY, p, m, page, write, false).2, r) ==>
      && ReadOutcome(GEOMETRY, p, n, r, read, false).0 == Acked(read.datalen, read.ooblen)
      && ReadOutcome(GEOMETRY, p, n, r, read, false).2[..read.datalen] == page[..write.datalen]
      && OobBack(g, page, write, WriteOutcome(GEOMETRY, p, m, page, write, false).2, r, read,
                 ReadOutcome(GEOMETRY, p, n, r, read, false).2)
  {
    hide WriteReady, ReadReady, WriteOutcome, ReadOutcome, OneFlipEach, FitsLayout, OobComesBack, OobBack;
    var p := PipelineOfPage(g);
    if g == 0 {
      NandBbmPages.PageSurvives(m, page, write, n, r, read);
    } else {
      NandOtherPages.PageSurvives(m, page, write, n, r, read);
    }
    var stored := WriteOutcome(GEOMETRY, p, m, page, write, false).2;
    if OneFlipEach(p.layout, ProtectionOf(g), stored, r) {
      PlacesAre(g, page, write, stored, r, read, ReadOutcome(GEOMETRY, p, n, r, read, false).2);
    }
  }

  /** On a little-endian host, data written to any page of the device comes back from it, if of the bytes
      that hold a block of 256 bytes and its code at most one has a flipped bit. */
  lemma EveryPageSurvives(scheme: Scheme, e: nat, g: nat, m: Memory, page: seq<Byte>, write: Request,
                          n: Memory, r: seq<Byte>, read: Request)
    requires scheme.mtd == MTD && Serves(MTD, PARTITIONS, scheme.select) && e < 1024 && g < 64
    requires scheme.pipelines == PIPELINES
    requires FitsLayout(PipelineOfPage(g).layout, m) && FitsLayout(PipelineOfPage(g).layout, n)
    requires |page| == GEOMETRY.pageSize && |r| == GEOMETRY.pageSize
    requires Fitting(write, 48) && Fitting(read, 48) && read.datalen == write.datalen
    ensures Serviceable(scheme, e, g, 3)
    ensures var p := scheme.pipelines[PipelineAt(scheme, e, g)];
      && WriteReady(GEOMETRY, p, m, write) && ReadReady(GEOMETRY, p, n, read)
      && (OneFlipEach(p.layout, ProtectionOf(g), WriteOutcome(GEOMETRY, p, m, page, write, false).2, r) ==>
          && ReadOutcome(GEOMETRY, p, n, r, read, false).0 == Acked(read.datalen, read.ooblen)
          && ReadOutcome(GEOMETRY, p, n, r, read, false).2[..read.datalen] == page[..write.datalen]
          && OobBack(g, page, write, WriteOutcome(GEOMETRY, p, m, page, write, false).2, r, read,
                     ReadOutcome(GEOMETRY, p, n, r, read, false).2))
  {
    hide OobBack, Serves, WriteReady, ReadReady, WriteOutcome, ReadOutcome, OneFlipEach, FitsLayout, PipelineOfPage,
         ProtectionOf;
    PageHasPipeline(scheme, e, g);
    EitherSurvives(g, m, page, write, n, r, read);
  }

  // Runs of the device.

  function SetupOf(scheme: Scheme): Setup {
    Setup(GEOMETRY, scheme, [Guard(NandBbmPages.PROTECTION, 0), Guard(NandBbmPages.PROTECTION, 0),
                             Guard(NandOtherPages.PROTECTION, 0)], false)
  }

  lemma {:induction false} PageIsGuarded(scheme: Scheme, spans: seq<seq<Memory>>, write: Event)
    requires scheme.mtd == MTD && Serves(MTD, PARTITIONS, scheme.select) && scheme.pipelines == PIPELINES
    requires write.Writes? && Possible(SetupOf(scheme), spans, write)
    ensures Guarded(SetupOf(scheme), write.at, write.req)
  {
    hide Serves, Guards, ValidLayout, WriteFits;
    var a, s := write.at, SetupOf(scheme);
    PageHasPipeline(scheme, a.e, a.g);
    PipelineIndex(scheme, a.e, a.g);
    var m := SpansFor(s, spans, write.worker, a);
    RequestFits(a.g, m, write.req);
    if a.g == 0 {
      NandBbmPages.PipelineGuards(write.req, Request(write.req.datalen, 0));
    } else {
      NandOtherPages.PipelineGuards(write.req, Request(write.req.datalen, 0));
    }
  }

  lemma {:induction false} RequestFits(g: nat, m: Memory, write: Request)
    requires WriteReady(GEOMETRY, PipelineOfPage(g), m, write)
    ensures write.datalen <= 2048 && write.ooblen <= if g == 0 then 48 else 60
  {
    hide ValidLayout, WriteFits;
  }

  lemma {:induction false} OobOfRun(scheme: Scheme, write: Event, stored: seq<Byte>, r: seq<Byte>, read: Request,
                                    out: seq<Byte>)
    requires scheme.mtd == MTD && Serves(MTD, PARTITIONS, scheme.select) && scheme.pipelines == PIPELINES
    requires OnDevice(SetupOf(scheme), write.at) && write.Writes?
    requires OobReturns(GEOMETRY, PipelineFor(SetupOf(scheme), write.at), write.page, write.req, stored, r, read, out)
    requires write.req.ooblen <= if write.at.g == 0 then 48 else 60
    ensures |write.page| == |stored| == |r| == |out| == 2112
    ensures OobBack(write.at.g, write.page, write.req, stored, r, read, out)
  {
    hide Serves, PassesThrough, OobReturns, OobBack, OobComesBack;
    var g := write.at.g;
    assert |write.page| == |stored| == |r| == |out| == 2112 by { OobLengths(scheme, write, stored, r, read, out); }
    PipelineIndex(scheme, write.at.e, g);
    var p := PipelineFor(SetupOf(scheme), write.at);
    assert p == PipelineOfPage(g);
    forall o: nat | 24 <= o < write.req.ooblen && o < read.ooblen
      ensures g == 0 ==>
        && NandBbmPages.OobPlace(o) < GEOMETRY.pageSize
        && PassesThrough(p, write.req, read, NandBbmPages.OobPlace(o), o)
      ensures g != 0 ==>
        && NandOtherPages.OobPlace(o) < GEOMETRY.pageSize
        && PassesThrough(p, write.req, read, NandOtherPages.OobPlace(o), o)
    {
      if g == 0 { NandBbmPages.OobPasses(write.req, read, o); } else { NandOtherPages.OobPasses(write.req, read, o); }
    }
    if g == 0 {
      BehindTheCodes(p, NandBbmPages.OobPlace, write.page, write.req, stored, r, read, out);
    } else {
      BehindTheCodes(p, NandOtherPages.OobPlace, write.page, write.req, stored, r, read, out);
    }
    PlacesAre(g, write.page, write.req, stored, r, read, out);
  }

  lemma {:induction false} OobLengths(scheme: Scheme, write: Event, stored: seq<Byte>, r: seq<Byte>, read: Request,
                                      out: seq<Byte>)
    requires OnDevice(SetupOf(scheme), write.at) && write.Writes?
    requires OobReturns(GEOMETRY, PipelineFor(SetupOf(scheme), write.at), write.page, write.req, stored, r, read, out)
    ensures |write.page| == |stored| == |r| == |out| == 2112
  {
  }

  lemma {:induction false} WriteFitsSpan(scheme: Scheme, spans: seq<seq<Memory>>, write: Event)
    requires scheme.mtd == MTD && Serves(MTD, PARTITIONS, scheme.select) && scheme.pipelines == PIPELINES
    requires write.Writes? && Possible(SetupOf(scheme), spans, write)
    ensures OnDevice(SetupOf(scheme), write.at)
    ensures write.req.ooblen <= if write.at.g == 0 then 48 else 60
  {
    hide Serves, WriteReady;
    PipelineIndex(scheme, write.at.e, write.at.g);
    RequestFits(write.at.g, SpansFor(SetupOf(scheme), spans, write.worker, write.at), write.req);
  }

  /** With the shipped configuration, on a little-endian host: in every run of writes, reads and damage,
      to any pages and by any workers, in which no block and its code ever have more than one flipped
      bit, every read returns the data last written to its page, and the undamaged out-of-band bytes
      behind the codes. */
  lemma {:induction false} EveryRunKeepsData(scheme: Scheme, st: State, run: seq<Event>, k: nat)
    requires scheme.mtd == MTD && Serves(MTD, PARTITIONS, scheme.select) && scheme.pipelines == PIPELINES
    requires ValidState(SetupOf(scheme), st) && AllPossible(SetupOf(scheme), st.spans, run)
    requires Gentle(SetupOf(scheme), st, run)
    requires k < |run| && run[k].Reads? && LastWrite(run, k, run[k].at).Some?
    ensures Returns(Answer(SetupOf(scheme), st, run, k), run[k].req, run[LastWrite(run, k, run[k].at).value])
    ensures OobOfLastWrite(scheme, st, run, k)
  {
    hide Serves, Guarded, Gentle, ValidState, Possible, Answer, SetupOf, OobReturns, OobBack, OnDevice;
    var s, a, j := SetupOf(scheme), run[k].at, LastWrite(run, k, run[k].at).value;
    assert s.geo == GEOMETRY by { SetupIs(scheme); }
    PageIsGuarded(scheme, st.spans, run[j]);
    ReadsReturnLastWrites(s, st, run, k);
    WriteFitsSpan(scheme, st.spans, run[j]);
    PageThere(s, StateAfter(s, st, run, j + 1), a);
    PageThere(s, StateAfter(s, st, run, k), a);
    OobOfRun(scheme, run[j], StateAfter(s, st, run, j + 1).raw[a], StateAfter(s, st, run, k).raw[a], run[k].req,
             Answer(s, st, run, k).value.1);
  }

  lemma SetupIs(scheme: Scheme)
    ensures SetupOf(scheme).geo == GEOMETRY
  {
  }

  /** The answer to event `k` has the undamaged out-of-band bytes behind the codes of the last write. */
  ghost predicate OobOfLastWrite(scheme: Scheme, st: State, run: seq<Event>, k: nat)
    requires ValidState(SetupOf(scheme), st) && AllPossible(SetupOf(scheme), st.spans, run)
    requires k < |run| && run[k].Reads? && LastWrite(run, k, run[k].at).Some?
  {
    var s, a, j := SetupOf(scheme), run[k].at, LastWrite(run, k, run[k].at).value;
    && a in StateAfter(s, st, run, j + 1).raw && a in StateAfter(s, st, run, k).raw && Answer(s, st, run, k).Some?
    && var stored, r := StateAfter(s, st, run, j + 1).raw[a], StateAfter(s, st, run, k).raw[a];
       var out := Answer(s, st, run, k).value.1;
       && |run[j].page| == |stored| == |r| == |out| == 2112 && run[j].req.ooblen <= (if a.g == 0 then 48 else 60)
       && OobBack(a.g, run[j].page, run[j].req, stored, r, run[k].req, out)
  }
}
