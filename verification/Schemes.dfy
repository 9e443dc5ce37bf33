// A scheme: the pipelines, the selector that picks one by eraseblock and page, and requests to a page.
module Schemes {
  import opened Wrappers
  import opened Bits
  import opened Spans
  import opened Layout
  import opened PageCopy
  import opened Partitions
  import opened Demux
  import opened Selector
  import opened Pipelines
  import opened Requests
  import opened RoundTrip
  import opened RequestBytes
  import opened EndToEnd
  import Queues

  datatype Scheme = Scheme(mtd: Mtd, select: Select, pipelines: seq<Pipeline>)

  /** The pipeline at index 0: one span for the whole page, and codecs that never acknowledge. */
  function AutomaticNack(pageSize: nat): Pipeline {
    var all := SpanRange(0, Range(0, 0));
    Pipeline(PageLayout([Part(0, 0, Range(0, pageSize), Range(0, pageSize))], [pageSize]), Mapping(0, 0), None,
             [ReadContext(NackCodec, all, Some(all))], [WriteContext(NackCodec, all, None)])
  }

  predicate HasPipelines(scheme: Scheme, ps: seq<Partition>) {
    scheme.pipelines != [] && forall i :: 0 <= i < |ps| ==> ps[i].pipeline < |scheme.pipelines|
  }

  /** select_pipeline, for a page of the device. */
  function PipelineAt(scheme: Scheme, e: nat, g: nat): (index: nat)
    requires Answers(scheme.select, e, g)
  {
    Selected(scheme.select, e, g)
  }

  /** The page is on the device, and its pipeline has spans. */
  predicate Serviceable(scheme: Scheme, e: nat, g: nat, spans: nat) {
    && e < scheme.mtd.sectors && g < scheme.mtd.pagesPerSector && Answers(scheme.select, e, g)
    && PipelineAt(scheme, e, g) < |scheme.pipelines| == spans
  }

  /** write_process, from the choice of the pipeline on. */
  method Write(geo: Geometry, scheme: Scheme, spans: seq<seq<array<Byte>>>, page: array<Byte>, e: nat, g: nat,
               req: Request, bigHost: bool) returns (reply: Reply)
    requires Serviceable(scheme, e, g, |spans|)
    requires var bufs, p := spans[PipelineAt(scheme, e, g)], scheme.pipelines[PipelineAt(scheme, e, g)];
      Distinct(bufs) && page !in bufs && page.Length == geo.pageSize && WriteReady(geo, p, View(bufs), req)
    modifies spans[PipelineAt(scheme, e, g)], page
    ensures var bufs, p := spans[PipelineAt(scheme, e, g)], scheme.pipelines[PipelineAt(scheme, e, g)];
      (reply, View(bufs), page[..]) == WriteOutcome(geo, p, old(View(bufs)), old(page[..]), req, bigHost)
  {
    var index := PipelineAt(scheme, e, g);
    reply := Queues.WriteProcess(geo, scheme.pipelines[index], spans[index], page, req, bigHost);
  }

  /** read_process, from the choice of the pipeline on. */
  method Read(geo: Geometry, scheme: Scheme, spans: seq<seq<array<Byte>>>, page: array<Byte>, e: nat, g: nat,
              req: Request, bigHost: bool) returns (reply: Reply)
    requires Serviceable(scheme, e, g, |spans|)
    requires var bufs, p := spans[PipelineAt(scheme, e, g)], scheme.pipelines[PipelineAt(scheme, e, g)];
      Distinct(bufs) && page !in bufs && page.Length == geo.pageSize && ReadReady(geo, p, View(bufs), req)
    modifies spans[PipelineAt(scheme, e, g)], page
    ensures var bufs, p := spans[PipelineAt(scheme, e, g)], scheme.pipelines[PipelineAt(scheme, e, g)];
      (reply, View(bufs), page[..]) == ReadOutcome(geo, p, old(View(bufs)), old(page[..]), req, bigHost)
  {
    var index := PipelineAt(scheme, e, g);
    reply := Queues.ReadProcess(geo, scheme.pipelines[index], spans[index], page, req, bigHost);
  }

  lemma OnlyOwner(ps: seq<Partition>, k: nat, e: nat, g: nat)
    requires Disjoint(ps) && k < |ps| && Contains(ps[k], e, g)
    ensures forall i :: 0 <= i < |ps| && i != k ==> !Contains(ps[i], e, g)
  {
    forall i | 0 <= i < |ps| && i != k
      ensures !Contains(ps[i], e, g)
    {
      assert if i < k then NoSharedPage(ps[i], ps[k]) else NoSharedPage(ps[k], ps[i]);
    }
  }

  /** Requests to a page of partition `k` go through the pipeline of `k`. */
  lemma GoesToOwner(scheme: Scheme, ps: seq<Partition>, k: nat, e: nat, g: nat)
    requires Serves(scheme.mtd, ps, scheme.select) && Disjoint(ps) && HasPipelines(scheme, ps)
    requires k < |ps| && Contains(ps[k], e, g) && e < scheme.mtd.sectors && g < scheme.mtd.pagesPerSector
    ensures Serviceable(scheme, e, g, |scheme.pipelines|) && PipelineAt(scheme, e, g) == ps[k].pipeline
  {
    assert Owned(ps, |ps|, e, g);
    var i :| 0 <= i < |ps| && Contains(ps[i], e, g) && Owner(ps, |ps|, e, g) == ps[i].pipeline;
    OnlyOwner(ps, k, e, g);
  }

  /** Requests to a page of no partition go to the automatic NACK. */
  lemma GoesToNack(scheme: Scheme, ps: seq<Partition>, e: nat, g: nat)
    requires Serves(scheme.mtd, ps, scheme.select) && HasPipelines(scheme, ps)
    requires !Owned(ps, |ps|, e, g) && e < scheme.mtd.sectors && g < scheme.mtd.pagesPerSector
    ensures Serviceable(scheme, e, g, |scheme.pipelines|) && PipelineAt(scheme, e, g) == AUTOMATIC_NACK_PIPELINE_INDEX
  {
    hide Owner;
  }

  lemma NackIsReady(geo: Geometry, m: Memory, req: Request)
    requires ValidRequest(geo, req) && HasLengths(m, [geo.pageSize])
    ensures WriteReady(geo, AutomaticNack(geo.pageSize), m, req) && ReadReady(geo, AutomaticNack(geo.pageSize), m, req)
  {
    var layout := AutomaticNack(geo.pageSize).layout;
    assert SpanLength(layout.parts, 0, 0) == 0 && SpanLength(layout.parts, 1, 0) == geo.pageSize;
  }

  /** A page in no partition: whatever the request, it is answered with an error, and the page stays. */
  lemma UnownedPageIsRefused(geo: Geometry, scheme: Scheme, ps: seq<Partition>, e: nat, g: nat, m: Memory,
                             page: seq<Byte>, req: Request, bigHost: bool)
    requires Serves(scheme.mtd, ps, scheme.select) && HasPipelines(scheme, ps)
    requires scheme.pipelines[0] == AutomaticNack(geo.pageSize)
    requires !Owned(ps, |ps|, e, g) && e < scheme.mtd.sectors && g < scheme.mtd.pagesPerSector
    requires ValidRequest(geo, req) && HasLengths(m, [geo.pageSize]) && |page| == geo.pageSize
    ensures Serviceable(scheme, e, g, |scheme.pipelines|)
    ensures var p := scheme.pipelines[PipelineAt(scheme, e, g)];
      && WriteReady(geo, p, m, req) && ReadReady(geo, p, m, req)
      && WriteOutcome(geo, p, m, page, req, bigHost) == (Nacked(5), m, page)
      && ReadOutcome(geo, p, m, page, req, bigHost).0 == Nacked(-1)
      && ReadOutcome(geo, p, m, page, req, bigHost).2 == page
  {
    hide Serves, Owned, Extracted, ValidLayout, FitsLayout;
    GoesToNack(scheme, ps, e, g);
    NackIsReady(geo, m, req);
    var p := AutomaticNack(geo.pageSize);
    NackNeverReads(p, Extracted(p.layout, page, m), bigHost);
  }

  lemma NackNeverReads(p: Pipeline, e: Memory, bigHost: bool)
    requires |p.readCodecs| == 1 && p.readCodecs[0].codec == NackCodec && ReadChainFits(p.readCodecs, e)
    ensures !ReadChain(p.readCodecs, e, bigHost, 1).0
  {
    assert ReadChain(p.readCodecs, e, bigHost, 0) == (true, e);
  }

  /** A page of a partition whose pipeline guards its data: what is written to it comes back from it, if
      no decoded step has more than one flipped bit and the data that no step protects is not damaged; and
      so do the out-of-band bytes that no codec touches and no damage hits. */
  lemma DataSurvivesAt(geo: Geometry, scheme: Scheme, ps: seq<Partition>, k: nat, e: nat, g: nat, x: Protection, h: nat,
                       m: Memory, page: seq<Byte>, write: Request, n: Memory, r: seq<Byte>, read: Request,
                       bigHost: bool)
    requires Serves(scheme.mtd, ps, scheme.select) && Disjoint(ps) && HasPipelines(scheme, ps)
    requires k < |ps| && Contains(ps[k], e, g) && e < scheme.mtd.sectors && g < scheme.mtd.pagesPerSector
    requires var p := scheme.pipelines[ps[k].pipeline];
      && WriteReady(geo, p, m, write) && |page| == geo.pageSize && ReadReady(geo, p, n, read) && |r| == geo.pageSize
      && Guards(p, x, h, write, read, bigHost)
    requires var p := scheme.pipelines[ps[k].pipeline];
      var stored := WriteOutcome(geo, p, m, page, write, bigHost).2;
      && OneFlipEach(p.layout, x, stored, r)
      && BareDataUnharmed(p.layout, x, stored, r, p.readSpans.dataSpan, write.datalen)
    ensures Serviceable(scheme, e, g, |scheme.pipelines|) && PipelineAt(scheme, e, g) == ps[k].pipeline
    ensures var p := scheme.pipelines[PipelineAt(scheme, e, g)];
      && WriteOutcome(geo, p, m, page, write, bigHost).0 == Acked(geo.pageSize - geo.oobSize, geo.oobSize)
      && ReadOutcome(geo, p, n, r, read, bigHost).0 == Acked(read.datalen, read.ooblen)
      && ReadOutcome(geo, p, n, r, read, bigHost).2[..read.datalen] == page[..write.datalen]
      && OobReturns(geo, p, page, write, WriteOutcome(geo, p, m, page, write, bigHost).2, r, read,
                    ReadOutcome(geo, p, n, r, read, bigHost).2)
  {
    hide WriteOutcome, ReadOutcome, WriteReady, ReadReady, Guards, OneFlipEach, BareDataUnharmed, Serves, Disjoint,
         Contains, OobReturns;
    GoesToOwner(scheme, ps, k, e, g);
    DataSurvives(geo, scheme.pipelines[ps[k].pipeline], x, h, m, page, write, n, r, read, bigHost);
  }
}
