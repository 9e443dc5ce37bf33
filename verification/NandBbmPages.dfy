// The shipped pipeline "main_image_bbm_pages": data, bad-block marker, codes, and spare bytes.
module NandBbmPages {
  import opened Wrappers
  import opened Bits
  import opened Spans
  import opened Layout
  import opened LayoutProperties
  import opened SpanPointers
  import opened PageCopy
  import opened HammingCode
  import opened Pipelines
  import opened Creation
  import opened Requests
  import opened RoundTrip
  import opened RequestBytes
  import opened EndToEnd
  import opened NandFlash
  import SipHash

  const CFG := CfgPipeline(
    [CfgPart(Range(0, 2048), "data"), CfgPart(Range(2048, 2), "bbm"),
     CfgPart(Range(2050, 48), "oob"), CfgPart(Range(2098, 14), "user_oob")],
    MAPPING, Some(MAPPING), [DECODER], [ENCODER, CfgWriteCodec(MemsetCodec(0xFF), CfgSpan("bbm", Range(0, 2)), None)])

  const PARTS := [
    Part(0, 0, Range(0, 2048), Range(0, 2048)),
    Part(1, 1, Range(2048, 2), Range(0, 2)),
    Part(2, 2, Range(2050, 48), Range(0, 48)),
    Part(3, 3, Range(2098, 14), Range(0, 14))]

  const LAYOUT := PageLayout(PARTS, [2048, 2, 48, 14])

  const ENCODE := WriteContext(HammingCodec(HAMMING), SpanRange(2, Range(0, 24)), Some(SpanRange(0, Range(0, 2048))))
  const FILL := WriteContext(MemsetCodec(0xFF), SpanRange(1, Range(0, 2)), None)
  const DECODE := ReadContext(HammingCodec(HAMMING), SpanRange(0, Range(0, 2048)), Some(SpanRange(2, Range(0, 24))))

  const PIPELINE := Pipeline(LAYOUT, Mapping(0, 2), Some(Mapping(0, 2)), [DECODE], [ENCODE, FILL])

  const PROTECTION := Protection(HAMMING, 0, 0, 2048, 2, 0, 24)

  // The pipeline is what its configuration creates.

  const NAMES := map["data" := 0, "bbm" := 1, "oob" := 2, "user_oob" := 3]

  lemma NamesAre()
    ensures Names(CFG.parts, 0) == map[]
    ensures Names(CFG.parts, 1) == map["data" := 0]
    ensures Names(CFG.parts, 2) == map["data" := 0, "bbm" := 1]
    ensures Names(CFG.parts, 3) == map["data" := 0, "bbm" := 1, "oob" := 2]
    ensures Names(CFG.parts, 4) == NAMES
  {
  }

  lemma PartsArePlaced()
    ensures Placed(CFG.parts) == PARTS
  {
    hide Names;
    NamesAre();
    var placed := Placed(CFG.parts);
    assert placed[0] == PARTS[0] && placed[1] == PARTS[1];
    assert placed[2] == PARTS[2] && placed[3] == PARTS[3];
  }

  lemma FirstParts(s: nat)
    ensures SpanLength(PARTS, 0, s) == 0
    ensures SpanLength(PARTS, 1, s) == if s == 0 then 2048 else 0
    ensures SpanLength(PARTS, 2, s) == if s == 0 then 2048 else if s == 1 then 2 else 0
    ensures SpanLength(PARTS, 3, s) == if s == 0 then 2048 else if s == 1 then 2 else if s == 2 then 48 else 0
    ensures SpanLength(PARTS, 4, s)
         == if s == 0 then 2048 else if s == 1 then 2 else if s == 2 then 48 else if s == 3 then 14 else 0
  {
  }

  lemma LayoutIsBuilt(layout: PageLayout)
    requires BuiltFrom(CFG.parts, PARTS, layout)
    ensures layout == LAYOUT
  {
    NamesAre();
    FirstParts(0); FirstParts(1); FirstParts(2); FirstParts(3);
    assert |layout.totals| == 4;
    assert layout.totals == LAYOUT.totals;
    assert layout.parts == PARTS;
  }

  lemma LayoutIsFine()
    ensures LayoutFine(CFG.parts, PARTS)
  {
    hide HasEmptyName;
    PartsArePlaced();
    NoNameIsEmpty();
    assert FirstError(GEOMETRY.pageSize, CFG.parts, 4) == None;
  }

  lemma NoNameIsEmpty()
    ensures !HasEmptyName(CFG.parts)
  {
    assert !AllEmpty(CFG.parts, CFG.parts[0].span) && !AllEmpty(CFG.parts, CFG.parts[1].span);
    assert !AllEmpty(CFG.parts, CFG.parts[2].span) && !AllEmpty(CFG.parts, CFG.parts[3].span);
  }

  lemma CodecsAreAccepted(totals: seq<nat>)
    ensures ValidCodecs(CFG) && PartsAcceptable(CFG, SpanMap(NamesOf(CFG), totals))
  {
    NamesAre();
  }

  lemma PipelineIsCreated(p: Pipeline)
    requires ValidCodecs(CFG) && CreatedBy(CFG, PARTS, p)
    ensures p == PIPELINE
  {
    NamesAre();
    LayoutIsBuilt(p.layout);
    assert p.readCodecs == [DECODE];
    assert p.writeCodecs == [ENCODE, FILL];
  }

  lemma CreatableExactly(qsort: seq<Part> -> seq<Part>, h: string -> nat)
    requires forall parts :: SortOf(parts, qsort(parts))
    ensures FirstError(GEOMETRY.pageSize, CFG.parts, |CFG.parts|) == None && AdjacentApart(qsort(Placed(CFG.parts)))
    ensures ValidCodecs(CFG) && (Creatable(GEOMETRY.pageSize, CFG, qsort, h) <==> SpansStay(CFG.parts, h))
  {
    hide PartsAcceptable, LayoutFine, Creatable, SortOf, SpansStay;
    LayoutIsFine();
    CodecsAreAccepted([]);
    CreatableWhenStaying(CFG, PARTS, qsort, h);
  }

  lemma CreatedExactly(qsort: seq<Part> -> seq<Part>, p: Pipeline)
    requires forall parts :: SortOf(parts, qsort(parts))
    requires ValidCodecs(CFG) && CreatedBy(CFG, qsort(Placed(CFG.parts)), p)
    ensures p == PIPELINE
  {
    hide PartsAcceptable, LayoutFine, CreatedBy, SortOf;
    LayoutIsFine();
    CodecsAreAccepted([]);
    CreatableWhenStaying(CFG, PARTS, qsort, _ => 0);
    PipelineIsCreated(p);
  }

  /** Whatever sort is used, the configuration creates the pipeline exactly when its names stay. */
  method CreateConfigured(qsort: seq<Part> -> seq<Part>, h: string -> nat) returns (r: Creating)
    requires forall parts :: SortOf(parts, qsort(parts))
    ensures r == if SpansStay(CFG.parts, h) then Created(PIPELINE) else NotCreated(LayoutStrayed)
  {
    hide PartsAcceptable, Creatable, CreatedBy, SortOf, SpansStay, AdjacentApart, FirstError;
    CreatableExactly(qsort, h);
    r := Create(GEOMETRY.pageSize, CFG, qsort, h);
    if r.Created? { CreatedExactly(qsort, r.pipeline); }
  }

  /** Under the hash that the code uses they do. */
  lemma {:induction false} NamesStay()
    ensures SpansStay(CFG.parts, SipHash.SpanHash)
  {
    hide SipHash.Sip, Spread, Settled;
    var names := ["data", "bbm", "oob", "user_oob"];
    NamesListed();
    SipHash.ShippedHomes();
    ApartSettle(SipHash.SpanHash, names);
  }

  lemma {:induction false} NamesListed()
    ensures NameList(CFG.parts, |CFG.parts|) == ["data", "bbm", "oob", "user_oob"]
  {
    assert NameList(CFG.parts, 0) == [];
    assert NameList(CFG.parts, 1) == ["data"];
    assert NameList(CFG.parts, 2) == ["data", "bbm"];
    assert NameList(CFG.parts, 3) == ["data", "bbm", "oob"];
  }

  // What the pipeline does.

  lemma LayoutIsValid()
    ensures ValidLayout(LAYOUT, GEOMETRY.pageSize)
  {
    forall s | 0 <= s < 4
      ensures LAYOUT.totals[s] == SpanLength(PARTS, 4, s)
    {
      FirstParts(s);
    }
    FirstParts(0); FirstParts(1); FirstParts(2); FirstParts(3);
  }

  lemma ChainsFit(m: Memory)
    requires FitsLayout(LAYOUT, m)
    ensures WriteFits(ENCODE, m) && WriteFits(FILL, m) && ReadFits(DECODE, m)
  {
    assert |m| == 4 && |m[0]| == 2048 && |m[1]| == 2 && |m[2]| == 48;
  }

  lemma PipelineIsReady(m: Memory, req: Request)
    requires FitsLayout(LAYOUT, m) && Fitting(req, 48)
    ensures WriteReady(GEOMETRY, PIPELINE, m, req) && ReadReady(GEOMETRY, PIPELINE, m, req)
  {
    hide WriteFits, ReadFits, ValidLayout;
    LayoutIsValid();
    ChainsFit(m);
    assert |m| == 4 && |m[0]| == 2048 && |m[2]| == 48;
  }

  /** A request that asks for all 64 out-of-band bytes of a page does not fit: its span has 48. */
  lemma FullRequestDoesNotFit(m: Memory)
    requires FitsLayout(LAYOUT, m)
    ensures ValidRequest(GEOMETRY, Request(2048, 64)) && !MappingFits(Mapping(0, 2), m, Request(2048, 64))
  {
  }

  lemma PipelineGuards(write: Request, read: Request)
    requires read.datalen == write.datalen <= 2048 && write.ooblen <= 48
    ensures Guards(PIPELINE, PROTECTION, 0, write, read, false)
  {
    assert SetsElsewhere(FILL, PROTECTION, 0, write.datalen);
    assert PIPELINE.writeCodecs[1] == FILL && PIPELINE.writeCodecs[0] == ENCODE;
  }

  /** Where byte `o` of the out-of-band span lies on the page. */
  function OobPlace(o: nat): nat {
    2050 + o
  }

  lemma OobPasses(write: Request, read: Request, o: nat)
    requires 24 <= o < write.ooblen && o < read.ooblen && o < 48
    ensures PassesThrough(PIPELINE, write, read, OobPlace(o), o) && OobPlace(o) < GEOMETRY.pageSize
  {
    hide PassesThrough, NoneSets, NoneRepairs;
    var j := 2;
    assert Carries(LAYOUT.parts[j], OobPlace(o), 2, o);
    NoCodecTouches(o);
    MapsPass(write, read, OobPlace(o), o);
  }

  lemma MapsPass(write: Request, read: Request, q: nat, o: nat)
    requires o < write.ooblen && o < read.ooblen && Maps(LAYOUT, q, 2, o)
    requires NoneSets(PIPELINE.writeCodecs, 0, 2, o) && NoneRepairs(PIPELINE.readCodecs, 2, o)
    ensures PassesThrough(PIPELINE, write, read, q, o)
  {
    hide Maps, NoneSets, NoneRepairs;
  }

  lemma NoCodecTouches(o: nat)
    requires 24 <= o
    ensures NoneSets(PIPELINE.writeCodecs, 0, 2, o) && NoneRepairs(PIPELINE.readCodecs, 2, o)
  {
  }

  /** Every write is acknowledged. */
  lemma WriteIsAcknowledged(m: Memory, page: seq<Byte>, write: Request)
    requires WriteReady(GEOMETRY, PIPELINE, m, write) && |page| == GEOMETRY.pageSize
    ensures WriteOutcome(GEOMETRY, PIPELINE, m, page, write, false).0 == Acked(2048, 64)
  {
    hide WriteOutcome, WriteReady;
    WriteVerdict(GEOMETRY, PIPELINE, m, page, write, false);
    assert Agrees(PIPELINE.writeCodecs[0]);
  }

  lemma DataIsAlone(o: nat)
    requires o < 2048
    ensures Maps(LAYOUT, o, 0, o) && NoneSets(PIPELINE.writeCodecs, 0, 0, o)
  {
    assert Carries(LAYOUT.parts[0], o, 0, o);
  }

  lemma OobIsAlone(o: nat)
    requires 24 <= o < 48
    ensures Maps(LAYOUT, OobPlace(o), 2, o) && NoneSets(PIPELINE.writeCodecs, 0, 2, o)
    ensures OobPlace(o) < GEOMETRY.pageSize
  {
    hide Maps, NoneSets;
    OobPasses(Request(0, 48), Request(0, 48), o);
    PassedMeans(Request(0, 48), Request(0, 48), OobPlace(o), o);
  }

  lemma PassedMeans(write: Request, read: Request, q: nat, o: nat)
    requires PassesThrough(PIPELINE, write, read, q, o)
    ensures Maps(LAYOUT, q, 2, o) && NoneSets(PIPELINE.writeCodecs, 0, 2, o)
  {
  }

  /** What a write stores: the data, a marker that says good, and the out-of-band bytes behind the codes. */
  lemma StoredPage(m: Memory, page: seq<Byte>, write: Request)
    requires FitsLayout(LAYOUT, m) && |page| == GEOMETRY.pageSize && Fitting(write, 48)
    ensures WriteReady(GEOMETRY, PIPELINE, m, write)
    ensures WriteOutcome(GEOMETRY, PIPELINE, m, page, write, false).0 == Acked(2048, 64)
    ensures var stored := WriteOutcome(GEOMETRY, PIPELINE, m, page, write, false).2;
      && (forall i :: 0 <= i < write.datalen ==> stored[i] == page[i])
      && (forall o: nat :: 24 <= o < write.ooblen ==>
            OobPlace(o) < 2112 && stored[OobPlace(o)] == page[2048 + o])
    ensures var stored := WriteOutcome(GEOMETRY, PIPELINE, m, page, write, false).2;
      stored[2048] == 0xFF && stored[2049] == 0xFF
  {
    hide WriteOutcome, WriteReady, ReadReady, NoneSets, Maps, OobPlace;
    PipelineIsReady(m, write);
    WriteIsAcknowledged(m, page, write);
    forall i | 0 <= i < write.datalen
      ensures WriteOutcome(GEOMETRY, PIPELINE, m, page, write, false).2[i] == page[i]
    {
      DataIsAlone(i);
      RequestedByte(GEOMETRY, PIPELINE, m, page, write, false, i, 0, i);
    }
    forall o: nat | 24 <= o < write.ooblen
      ensures OobPlace(o) < 2112
      ensures WriteOutcome(GEOMETRY, PIPELINE, m, page, write, false).2[OobPlace(o)] == page[2048 + o]
    {
      OobIsAlone(o);
      RequestedByte(GEOMETRY, PIPELINE, m, page, write, false, OobPlace(o), 2, o);
    }
    MarkerIsFilled(0); MarkerIsFilled(1);
    FilledByte(GEOMETRY, PIPELINE, m, page, write, false, 1, 0xFF, 2048, 0);
    FilledByte(GEOMETRY, PIPELINE, m, page, write, false, 1, 0xFF, 2049, 1);
  }

  lemma MarkerIsFilled(o: nat)
    requires o < 2
    ensures Maps(LAYOUT, 2048 + o, 1, o) && NoneSets(PIPELINE.writeCodecs, 2, 1, o)
  {
    assert Carries(LAYOUT.parts[1], 2048 + o, 1, o);
  }

  /** And its codes: those of the eight blocks as they are stored. */
  lemma StoredCodes(m: Memory, page: seq<Byte>, write: Request, k: nat)
    requires WriteReady(GEOMETRY, PIPELINE, m, write) && |page| == GEOMETRY.pageSize && k < 8
    ensures var stored := WriteOutcome(GEOMETRY, PIPELINE, m, page, write, false).2;
      stored[2050 + 3 * k..2050 + 3 * k + 3] == Ecc(stored[256 * k..256 * k + 256], false, false)
  {
    hide WriteOutcome, WriteReady, NoneSetsRange, Ecc, Maps;
    WriteIsAcknowledged(m, page, write);
    BlocksAreAlone(k);
    EncodedBytes(GEOMETRY, PIPELINE, m, page, write, false, 0, HAMMING, k);
    var w := WriteOutcome(GEOMETRY, PIPELINE, m, page, write, false);
    forall o: nat | 256 * k <= o < 256 * k + 256
      ensures w.1[0][o] == w.2[o]
    {
      DataIsAlone(o);
      StoredByte(GEOMETRY, PIPELINE, m, page, write, false, o);
    }
    forall o: nat | 3 * k <= o < 3 * k + 3
      ensures w.1[2][o] == w.2[2050 + o]
    {
      CodePlace(o);
      StoredByte(GEOMETRY, PIPELINE, m, page, write, false, 2050 + o);
    }
    SameSlice(w.1[0], w.2, 256 * k, 0, 256);
    SameSlice(w.1[2], w.2, 3 * k, 2050, 3);
  }

  lemma CodePlace(o: nat)
    requires o < 24
    ensures Maps(LAYOUT, 2050 + o, 2, o)
  {
    assert Carries(LAYOUT.parts[2], 2050 + o, 2, o);
  }

  lemma BlocksAreAlone(k: nat)
    requires k < 8
    ensures NoneSetsRange(PIPELINE.writeCodecs, 0, 0, 256 * k, 256)
    ensures NoneSetsRange(PIPELINE.writeCodecs, 1, 2, 3 * k, 3)
  {
  }

  /** On a little-endian host, whatever data of up to a page is written comes back, if of the bytes
      that hold a block of 256 bytes and its code at most one has a flipped bit; and so does every
      undamaged out-of-band byte behind the codes. */
  lemma PageSurvives(m: Memory, page: seq<Byte>, write: Request, n: Memory, r: seq<Byte>, read: Request)
    requires FitsLayout(LAYOUT, m) && FitsLayout(LAYOUT, n)
    requires |page| == GEOMETRY.pageSize && |r| == GEOMETRY.pageSize
    requires Fitting(write, 48) && Fitting(read, 48) && read.datalen == write.datalen
    ensures WriteReady(GEOMETRY, PIPELINE, m, write) && ReadReady(GEOMETRY, PIPELINE, n, read)
    ensures var stored := WriteOutcome(GEOMETRY, PIPELINE, m, page, write, false).2;
      OneFlipEach(LAYOUT, PROTECTION, stored, r) ==>
        && ReadOutcome(GEOMETRY, PIPELINE, n, r, read, false).0 == Acked(read.datalen, read.ooblen)
        && ReadOutcome(GEOMETRY, PIPELINE, n, r, read, false).2[..read.datalen] == page[..write.datalen]
        && OobComesBack(OobPlace, page, write, stored, r, read, ReadOutcome(GEOMETRY, PIPELINE, n, r, read, false).2)
  {
    hide WriteReady, ReadReady, WriteOutcome, ReadOutcome, OneFlipEach, Guards, OobReturns, OobComesBack, PassesThrough,
         OobPlace;
    PipelineIsReady(m, write);
    PipelineIsReady(n, read);
    PipelineGuards(write, read);
    Survives(PIPELINE, PROTECTION, m, page, write, n, r, read);
    var stored := WriteOutcome(GEOMETRY, PIPELINE, m, page, write, false).2;
    if OneFlipEach(LAYOUT, PROTECTION, stored, r) {
      forall o: nat | 24 <= o < write.ooblen && o < read.ooblen
        ensures OobPlace(o) < GEOMETRY.pageSize && PassesThrough(PIPELINE, write, read, OobPlace(o), o)
      {
        OobPasses(write, read, o);
      }
      BehindTheCodes(PIPELINE, OobPlace, page, write, stored, r, read,
                     ReadOutcome(GEOMETRY, PIPELINE, n, r, read, false).2);
    }
  }
}
