// Byte by byte: what a write stores on the page, and what a read returns of it.
module RequestBytes {
  import opened Bits
  import opened Spans
  import opened Layout
  import opened LayoutProperties
  import opened PageCopy
  import opened HammingCode
  import opened HammingCodec
  import opened HammingChannel
  import opened Pipelines
  import opened Requests
  import opened Queues

  // The write chain.

  /** The codec of a write chain writes byte `o` of the span. */
  predicate Sets(ctx: WriteContext, span: nat, o: nat)
    requires ValidCodec(ctx.codec)
  {
    && span == ctx.dest.span && ctx.dest.range.start <= o
    && match ctx.codec
       case MemsetCodec(_) => o < ctx.dest.range.start + ctx.dest.range.length
       case HammingCodec(c) =>
         ctx.src.Some? && o < ctx.dest.range.start + 3 * DivRoundUp(ctx.src.value.range.length, c.stepSize)
       case NackCodec => false
  }

  /** No codec from the `lo`th on writes the byte. */
  predicate NoneSets(ctxs: seq<WriteContext>, lo: nat, span: nat, o: nat) {
    forall j :: lo <= j < |ctxs| ==> ValidCodec(ctxs[j].codec) && !Sets(ctxs[j], span, o)
  }

  lemma StepSets(ctx: WriteContext, m: Memory, bigHost: bool, span: nat, o: nat)
    requires WriteFits(ctx, m) && span < |m| && o < |m[span]| && !Sets(ctx, span, o)
    ensures WriteStep(ctx, m, bigHost).1[span][o] == m[span][o]
  {
    hide Encoded, Room, Put;
    match ctx.codec
    case HammingCodec(c) =>
      if EnoughOob(ctx.src.value.range.length, c.stepSize, ctx.dest.range.length) {
        var n := DivRoundUp(ctx.src.value.range.length, c.stepSize);
        EncodeStaysIn(m, c, c.bigEndian != bigHost, ctx.src.value.span, ctx.src.value.range.start,
                      ctx.dest.span, ctx.dest.range.start, n);
      }
    case MemsetCodec(pattern) =>
      StoreOutside(m, ctx.dest.span, ctx.dest.range.start, seq(ctx.dest.range.length, _ => pattern));
    case NackCodec =>
  }

  /** A byte that no codec from the `k`th on writes is what the first `k` codecs left. */
  lemma {:induction false} ChainSets(ctxs: seq<WriteContext>, m: Memory, bigHost: bool, k: nat, n: nat, span: nat,
                                     o: nat)
    requires WriteChainFits(ctxs, m) && k <= n <= |ctxs| && span < |m| && o < |m[span]| && NoneSets(ctxs, k, span, o)
    ensures WriteChain(ctxs, m, bigHost, n).1[span][o] == WriteChain(ctxs, m, bigHost, k).1[span][o]
  {
    hide WriteStep, WriteFits, Sets;
    if k < n {
      ChainSets(ctxs, m, bigHost, k, n - 1, span, o);
      if WriteChain(ctxs, m, bigHost, n - 1).0 {
        WriteNext(ctxs, m, bigHost, n - 1);
        StepSets(ctxs[n - 1], WriteChain(ctxs, m, bigHost, n - 1).1, bigHost, span, o);
      }
    }
  }

  /** A chain that acknowledges has got past every codec. */
  lemma {:induction false} ChainPasses(ctxs: seq<WriteContext>, m: Memory, bigHost: bool, k: nat, n: nat)
    requires WriteChainFits(ctxs, m) && k <= n <= |ctxs| && WriteChain(ctxs, m, bigHost, n).0
    ensures WriteChain(ctxs, m, bigHost, k).0
  {
    hide WriteStep;
    if k < n { ChainPasses(ctxs, m, bigHost, k, n - 1); }
  }

  /** The page of an acknowledged write is composed of the spans after it. */
  lemma StoredIs(geo: Geometry, p: Pipeline, m: Memory, page: seq<Byte>, req: Request, bigHost: bool)
    requires WriteReady(geo, p, m, req) && |page| == geo.pageSize
    requires WriteOutcome(geo, p, m, page, req, bigHost).0.Acked?
    ensures p.writeSpans.Some? && WriteResult(geo, p, m, page, req, bigHost).0
    ensures WriteOutcome(geo, p, m, page, req, bigHost).1 == WriteResult(geo, p, m, page, req, bigHost).1
    ensures FitsLayout(p.layout, WriteResult(geo, p, m, page, req, bigHost).1)
    ensures WriteOutcome(geo, p, m, page, req, bigHost).2
         == Composed(p.layout, WriteResult(geo, p, m, page, req, bigHost).1, geo.pageSize)
  {
    hide ValidLayout, FitsLayout, WriteChain, Taken, Composed, WriteFits;
    FitsKept(m, WriteResult(geo, p, m, page, req, bigHost).1);
  }

  /** Every byte of the stored page that maps to a span byte is the byte in the span; the others are 0xFF. */
  lemma StoredByte(geo: Geometry, p: Pipeline, m: Memory, page: seq<Byte>, req: Request, bigHost: bool, q: nat)
    requires WriteReady(geo, p, m, req) && |page| == geo.pageSize && q < geo.pageSize
    requires WriteOutcome(geo, p, m, page, req, bigHost).0.Acked?
    ensures var w := WriteOutcome(geo, p, m, page, req, bigHost);
      && |w.2| == geo.pageSize
      && (forall span: nat, o: nat :: Maps(p.layout, q, span, o) ==>
            span < |w.1| && o < |w.1[span]| && w.2[q] == w.1[span][o])
      && ((forall span: nat, o: nat :: !Maps(p.layout, q, span, o)) ==> w.2[q] == 0xFF)
  {
    hide WriteOutcome, WriteResult, ValidLayout, FitsLayout, Composed;
    StoredIs(geo, p, m, page, req, bigHost);
    CompositionIsMap(p.layout, WriteOutcome(geo, p, m, page, req, bigHost).1, geo.pageSize, q);
    if CoveredBelow(p.layout, |p.layout.parts|, q) { CoveredMaps(p.layout, q); }
  }

  lemma CoveredMaps(layout: PageLayout, q: nat)
    requires CoveredBelow(layout, |layout.parts|, q)
    ensures exists span: nat, o: nat :: Maps(layout, q, span, o)
  {
    var i: nat :| i < |layout.parts| && HasByte(layout.parts[i].inPage, q);
    var part := layout.parts[i];
    assert Carries(part, q, part.spanIdx, part.inSpan.start + (q - part.inPage.start));
    assert Maps(layout, q, part.spanIdx, part.inSpan.start + (q - part.inPage.start));
  }

  /** A byte that a memset writes, and no later codec, is its pattern. */
  lemma FilledByte(geo: Geometry, p: Pipeline, m: Memory, page: seq<Byte>, req: Request, bigHost: bool, i: nat,
                   pattern: Byte, q: nat, o: nat)
    requires WriteReady(geo, p, m, req) && |page| == geo.pageSize && i < |p.writeCodecs|
    requires WriteOutcome(geo, p, m, page, req, bigHost).0.Acked?
    requires var ctx := p.writeCodecs[i];
      && ctx.codec == MemsetCodec(pattern) && Maps(p.layout, q, ctx.dest.span, o) && q < geo.pageSize
      && ctx.dest.range.start <= o < ctx.dest.range.start + ctx.dest.range.length
      && NoneSets(p.writeCodecs, i + 1, ctx.dest.span, o)
    ensures WriteOutcome(geo, p, m, page, req, bigHost).2[q] == pattern
  {
    hide WriteOutcome, WriteStep, WriteFits, ValidLayout, FitsLayout, Taken, Maps, WriteChain, MappingFits, NoneSets;
    StoredByte(geo, p, m, page, req, bigHost, q);
    StoredIs(geo, p, m, page, req, bigHost);
    var t, ctxs, ctx := Taken(p.writeSpans.value, m, page, geo, req), p.writeCodecs, p.writeCodecs[i];
    FitsKept(m, t);
    ChainPasses(ctxs, t, bigHost, i, |ctxs|);
    WriteNext(ctxs, t, bigHost, i);
    var n := WriteChain(ctxs, t, bigHost, i).1;
    FillSets(ctx, n, bigHost, o);
    ChainSets(ctxs, t, bigHost, i + 1, |ctxs|, ctx.dest.span, o);
  }

  lemma FillSets(ctx: WriteContext, m: Memory, bigHost: bool, o: nat)
    requires WriteFits(ctx, m) && ctx.codec.MemsetCodec?
    requires ctx.dest.range.start <= o < ctx.dest.range.start + ctx.dest.range.length
    ensures ctx.dest.span < |m| && o < |m[ctx.dest.span]|
    ensures WriteStep(ctx, m, bigHost).1[ctx.dest.span][o] == ctx.codec.pattern
  {
  }

  /** A byte that no codec writes is the byte of the request, or what the span held before. */
  lemma RequestedByte(geo: Geometry, p: Pipeline, m: Memory, page: seq<Byte>, req: Request, bigHost: bool, q: nat,
                      span: nat, o: nat)
    requires WriteReady(geo, p, m, req) && |page| == geo.pageSize
    requires WriteOutcome(geo, p, m, page, req, bigHost).0.Acked?
    requires q < geo.pageSize && Maps(p.layout, q, span, o) && NoneSets(p.writeCodecs, 0, span, o)
    ensures p.writeSpans.Some? && span < |m| && o < |m[span]|
    ensures WriteOutcome(geo, p, m, page, req, bigHost).2[q]
         == if span == p.writeSpans.value.oobSpan && o < req.ooblen then page[geo.pageSize - geo.oobSize + o]
            else if span == p.writeSpans.value.dataSpan && o < req.datalen then page[o]
            else m[span][o]
  {
    hide WriteOutcome, WriteStep, WriteFits, ValidLayout, FitsLayout, Taken, Maps, WriteChain, NoneSets;
    StoredByte(geo, p, m, page, req, bigHost, q);
    StoredIs(geo, p, m, page, req, bigHost);
    var t, ctxs := Taken(p.writeSpans.value, m, page, geo, req), p.writeCodecs;
    FitsKept(m, t);
    ChainSets(ctxs, t, bigHost, 0, |ctxs|, span, o);
    ChainStarts(ctxs, t, bigHost);
    TakenByte(p.writeSpans.value, m, page, geo, req, span, o);
  }

  lemma ChainStarts(ctxs: seq<WriteContext>, m: Memory, bigHost: bool)
    requires WriteChainFits(ctxs, m)
    ensures WriteChain(ctxs, m, bigHost, 0) == (true, m)
  {
  }

  lemma TakenByte(mapping: Mapping, m: Memory, page: seq<Byte>, geo: Geometry, req: Request, span: nat, o: nat)
    requires ValidRequest(geo, req) && |page| == geo.pageSize && MappingFits(mapping, m, req)
    requires span < |m| && o < |m[span]|
    ensures Taken(mapping, m, page, geo, req)[span][o]
         == if span == mapping.oobSpan && o < req.ooblen then page[geo.pageSize - geo.oobSize + o]
            else if span == mapping.dataSpan && o < req.datalen then page[o]
            else m[span][o]
  {
  }

  /** No codec from the `lo`th on writes a byte of the range. */
  predicate NoneSetsRange(ctxs: seq<WriteContext>, lo: nat, span: nat, off: nat, len: nat) {
    forall o :: off <= o < off + len ==> NoneSets(ctxs, lo, span, o)
  }

  lemma {:induction false} ChainSetsRange(ctxs: seq<WriteContext>, m: Memory, bigHost: bool, k: nat, n: nat, span: nat,
                                          off: nat, len: nat)
    requires WriteChainFits(ctxs, m) && k <= n <= |ctxs| && InSpan(m, span, off, len)
    requires NoneSetsRange(ctxs, k, span, off, len)
    ensures Fetch(WriteChain(ctxs, m, bigHost, n).1, span, off, len)
         == Fetch(WriteChain(ctxs, m, bigHost, k).1, span, off, len)
  {
    hide WriteChain, WriteFits, NoneSets;
    forall o | off <= o < off + len
      ensures WriteChain(ctxs, m, bigHost, n).1[span][o] == WriteChain(ctxs, m, bigHost, k).1[span][o]
    {
      ChainSets(ctxs, m, bigHost, k, n, span, o);
    }
  }

  /** The code of a block that neither its encoder nor a later codec writes, if no later codec writes the
      code, is the code of the block as it is stored. */
  lemma EncodedBytes(geo: Geometry, p: Pipeline, m: Memory, page: seq<Byte>, req: Request, bigHost: bool, i: nat,
                     c: Config, k: nat)
    requires WriteReady(geo, p, m, req) && |page| == geo.pageSize && i < |p.writeCodecs|
    requires WriteOutcome(geo, p, m, page, req, bigHost).0.Acked?
    requires var ctx := p.writeCodecs[i];
      && ctx.codec == HammingCodec(c) && ValidConfig(c) && ctx.src.Some?
      && k < DivRoundUp(ctx.src.value.range.length, c.stepSize)
      && NoneSetsRange(p.writeCodecs, i, ctx.src.value.span, ctx.src.value.range.start + Blocks(c, k), c.stepSize)
      && NoneSetsRange(p.writeCodecs, i + 1, ctx.dest.span, ctx.dest.range.start + 3 * k, 3)
    ensures var ctx := p.writeCodecs[i];
      ProtectedAt(WriteOutcome(geo, p, m, page, req, bigHost).1, c, c.bigEndian != bigHost, ctx.src.value.span,
                  ctx.src.value.range.start, ctx.dest.span, ctx.dest.range.start, k)
  {
    hide WriteOutcome, WriteStep, WriteFits, ValidLayout, FitsLayout, Taken, WriteChain, MappingFits, NoneSetsRange,
         Ecc, Fetch, Blocks;
    StoredIs(geo, p, m, page, req, bigHost);
    var t, ctxs, ctx := Taken(p.writeSpans.value, m, page, geo, req), p.writeCodecs, p.writeCodecs[i];
    FitsKept(m, t);
    ChainPasses(ctxs, t, bigHost, i, |ctxs|);
    ChainPasses(ctxs, t, bigHost, i + 1, |ctxs|);
    WriteNext(ctxs, t, bigHost, i);
    var n := WriteChain(ctxs, t, bigHost, i).1;
    EncoderSets(ctxs, i, n, bigHost, c, k);
    LaterRange(ctxs, i, i + 1, ctx.src.value.span, ctx.src.value.range.start + Blocks(c, k), c.stepSize);
    ChainSetsRange(ctxs, t, bigHost, i + 1, |ctxs|, ctx.src.value.span, ctx.src.value.range.start + Blocks(c, k),
                   c.stepSize);
    ChainSetsRange(ctxs, t, bigHost, i + 1, |ctxs|, ctx.dest.span, ctx.dest.range.start + 3 * k, 3);
  }

  lemma LaterRange(ctxs: seq<WriteContext>, i: nat, j: nat, span: nat, off: nat, len: nat)
    requires NoneSetsRange(ctxs, i, span, off, len) && i <= j
    ensures NoneSetsRange(ctxs, j, span, off, len)
  {
    hide Sets, ValidCodec;
    forall o | off <= o < off + len
      ensures NoneSets(ctxs, j, span, o)
    {
      assert NoneSets(ctxs, i, span, o);
    }
  }

  lemma EncoderSets(ctxs: seq<WriteContext>, i: nat, m: Memory, bigHost: bool, c: Config, k: nat)
    requires i < |ctxs| && ctxs[i].codec == HammingCodec(c) && WriteFits(ctxs[i], m) && ValidConfig(c)
    requires WriteStep(ctxs[i], m, bigHost).0 && k < DivRoundUp(ctxs[i].src.value.range.length, c.stepSize)
    requires NoneSetsRange(ctxs, i, ctxs[i].src.value.span, ctxs[i].src.value.range.start + Blocks(c, k), c.stepSize)
    ensures var ctx := ctxs[i];
      && InSpan(m, ctx.src.value.span, ctx.src.value.range.start + Blocks(c, k), c.stepSize)
      && InSpan(m, ctx.dest.span, ctx.dest.range.start + 3 * k, 3)
      && ProtectedAt(WriteStep(ctx, m, bigHost).1, c, c.bigEndian != bigHost, ctx.src.value.span,
                     ctx.src.value.range.start, ctx.dest.span, ctx.dest.range.start, k)
  {
    hide Encoded, Ecc, Fetch, Room, Blocks;
    var src, dest := ctxs[i].src.value, ctxs[i].dest;
    var n := DivRoundUp(src.range.length, c.stepSize);
    var off := src.range.start + Blocks(c, k);
    RoomForStep(m, c, src.span, src.range.start, dest.span, dest.range.start, k, n);
    var o := if off < dest.range.start then dest.range.start else off;
    if o < off + c.stepSize {
      assert NoneSets(ctxs, i, src.span, o);
    }
    EncodesBlock(m, c, c.bigEndian != bigHost, src.span, src.range.start, dest.span, dest.range.start, k, n);
    RoomKept(m, WriteStep(ctxs[i], m, bigHost).1, c, src.span, src.range.start, dest.span, dest.range.start, n);
  }

  // The answer to a write.

  /** The codec acknowledges a write: it is not the one that never does, and has room for its codes. */
  predicate Agrees(ctx: WriteContext)
    requires ValidCodec(ctx.codec)
  {
    match ctx.codec
    case HammingCodec(c) => ctx.src.Some? &&
      3 * DivRoundUp(ctx.src.value.range.length, c.stepSize) <= ctx.dest.range.length
    case MemsetCodec(_) => true
    case NackCodec => false
  }

  lemma {:induction false} ChainAgrees(ctxs: seq<WriteContext>, m: Memory, bigHost: bool, n: nat)
    requires WriteChainFits(ctxs, m) && n <= |ctxs|
    ensures WriteChain(ctxs, m, bigHost, n).0
      <==> forall i :: 0 <= i < n ==> ValidCodec(ctxs[i].codec) && Agrees(ctxs[i])
  {
    hide WriteStep, WriteFits, Agrees, ValidCodec;
    if n > 0 {
      ChainAgrees(ctxs, m, bigHost, n - 1);
      StepAgrees(ctxs[n - 1], m, m, bigHost);
      if WriteChain(ctxs, m, bigHost, n - 1).0 {
        WriteNext(ctxs, m, bigHost, n - 1);
        StepAgrees(ctxs[n - 1], m, WriteChain(ctxs, m, bigHost, n - 1).1, bigHost);
      }
    }
  }

  lemma StepAgrees(ctx: WriteContext, m: Memory, n: Memory, bigHost: bool)
    requires WriteFits(ctx, m) && WriteFits(ctx, n)
    ensures ValidCodec(ctx.codec) && (WriteStep(ctx, n, bigHost).0 <==> Agrees(ctx))
  {
    hide Encoded, Room;
  }

  /** A write is acknowledged exactly when its pipeline can write and every codec of it agrees; otherwise
      the page is left alone. */
  lemma WriteVerdict(geo: Geometry, p: Pipeline, m: Memory, page: seq<Byte>, req: Request, bigHost: bool)
    requires WriteReady(geo, p, m, req) && |page| == geo.pageSize
    ensures forall i :: 0 <= i < |p.writeCodecs| ==> ValidCodec(p.writeCodecs[i].codec)
    ensures var w := WriteOutcome(geo, p, m, page, req, bigHost);
      && (p.writeSpans.None? ==> w.0 == Nacked(5))
      && (p.writeSpans.Some? && (forall i :: 0 <= i < |p.writeCodecs| ==> Agrees(p.writeCodecs[i])) ==>
            w.0 == Acked(geo.pageSize - geo.oobSize, geo.oobSize))
      && (p.writeSpans.Some? && (exists i :: 0 <= i < |p.writeCodecs| && !Agrees(p.writeCodecs[i])) ==>
            w.0 == Nacked(-1))
      && (w.0.Nacked? ==> w.2 == page)
  {
    hide WriteStep, WriteFits, ValidLayout, FitsLayout, Taken, WriteChain, MappingFits, Agrees, Composed;
    assert forall i :: 0 <= i < |p.writeCodecs| ==> WriteFits(p.writeCodecs[i], m);
    FitsAreValid(m);
    if p.writeSpans.Some? {
      var t := Taken(p.writeSpans.value, m, page, geo, req);
      FitsKept(m, t);
      ChainAgrees(p.writeCodecs, t, bigHost, |p.writeCodecs|);
    }
  }

  lemma FitsAreValid(m: Memory)
    ensures forall ctx: WriteContext :: WriteFits(ctx, m) ==> ValidCodec(ctx.codec)
  {
  }

  // Reads.

  /** The codec of a read chain may change byte `o` of the span. */
  predicate Repairs(ctx: ReadContext, span: nat, o: nat) {
    ctx.codec.HammingCodec? && span == ctx.data.span
    && ctx.data.range.start <= o < ctx.data.range.start + Blocks(ctx.codec.config, ctx.codec.config.steps)
  }

  predicate NoneRepairs(ctxs: seq<ReadContext>, span: nat, o: nat) {
    forall j :: 0 <= j < |ctxs| ==> !Repairs(ctxs[j], span, o)
  }

  lemma StepRepairs(ctx: ReadContext, m: Memory, bigHost: bool, span: nat, o: nat)
    requires ReadFits(ctx, m) && span < |m| && o < |m[span]| && !Repairs(ctx, span, o)
    ensures ReadStep(ctx, m, bigHost).1[span][o] == m[span][o]
  {
    hide Decoded, Room, Blocks;
    match ctx.codec
    case HammingCodec(c) =>
      if EnoughOob(ctx.data.range.length, c.stepSize, ctx.oob.value.range.length) {
        DecodeStaysIn(m, c, c.bigEndian != bigHost, ctx.data.span, ctx.data.range.start, ctx.oob.value.span,
                      ctx.oob.value.range.start, c.steps);
      }
    case _ =>
  }

  lemma {:induction false} ChainRepairs(ctxs: seq<ReadContext>, m: Memory, bigHost: bool, n: nat, span: nat, o: nat)
    requires ReadChainFits(ctxs, m) && n <= |ctxs| && span < |m| && o < |m[span]| && NoneRepairs(ctxs, span, o)
    ensures ReadChain(ctxs, m, bigHost, n).1[span][o] == m[span][o]
  {
    hide ReadStep, ReadFits, Repairs;
    if n > 0 {
      ChainRepairs(ctxs, m, bigHost, n - 1, span, o);
      if ReadChain(ctxs, m, bigHost, n - 1).0 {
        ReadNext(ctxs, m, bigHost, n - 1);
        StepRepairs(ctxs[n - 1], ReadChain(ctxs, m, bigHost, n - 1).1, bigHost, span, o);
      }
    }
  }

  /** A span byte that no codec repairs is, after a read, the byte of the page that maps to it. */
  lemma ReadByte(geo: Geometry, p: Pipeline, m: Memory, page: seq<Byte>, req: Request, bigHost: bool, q: nat,
                 span: nat, o: nat)
    requires ReadReady(geo, p, m, req) && |page| == geo.pageSize
    requires Maps(p.layout, q, span, o) && NoneRepairs(p.readCodecs, span, o)
    ensures var r := ReadOutcome(geo, p, m, page, req, bigHost).1;
      q < |page| && span < |r| && o < |r[span]| && r[span][o] == page[q]
  {
    hide ReadStep, ReadFits, ValidLayout, FitsLayout, Extracted, Maps, ReadChain, MappingFits, NoneRepairs;
    var e := Extracted(p.layout, page, m);
    FitsKept(m, e);
    ExtractionIsMap(p.layout, page, m, q, span, o);
    ChainRepairs(p.readCodecs, e, bigHost, |p.readCodecs|, span, o);
  }

  /** No pipeline with a codec that cannot read acknowledges one. */
  lemma ReadNeedsDecoders(geo: Geometry, p: Pipeline, m: Memory, page: seq<Byte>, req: Request, bigHost: bool, i: nat)
    requires ReadReady(geo, p, m, req) && |page| == geo.pageSize && i < |p.readCodecs|
    requires ReadOutcome(geo, p, m, page, req, bigHost).0.Acked?
    ensures ValidCodec(p.readCodecs[i].codec) && CanAgree(p.readCodecs[i])
  {
    hide ReadStep, ReadFits, ValidLayout, FitsLayout, Extracted, ReadChain, MappingFits, CanAgree, ValidCodec;
    var e := Extracted(p.layout, page, m);
    FitsKept(m, e);
    ReadsAgree(p.readCodecs, e, bigHost, |p.readCodecs|, i);
  }

  /** An acknowledged read returns the starts of its two spans as they are after the read chain, each at
      its place in the page, and zeros between and behind; a refused one leaves the page alone. */
  lemma ReadReturns(geo: Geometry, p: Pipeline, m: Memory, page: seq<Byte>, req: Request, bigHost: bool)
    requires ReadReady(geo, p, m, req) && |page| == geo.pageSize
    ensures var r := ReadOutcome(geo, p, m, page, req, bigHost);
      && p.readSpans.dataSpan < |r.1| && req.datalen <= |r.1[p.readSpans.dataSpan]|
      && p.readSpans.oobSpan < |r.1| && req.ooblen <= |r.1[p.readSpans.oobSpan]|
      && req.datalen <= geo.pageSize - geo.oobSize && req.ooblen <= geo.oobSize && |r.2| == geo.pageSize
      && (r.0.Acked? ==>
            && r.0 == Acked(req.datalen, req.ooblen)
            && (forall i :: 0 <= i < req.datalen ==> r.2[i] == r.1[p.readSpans.dataSpan][i])
            && (forall i :: req.datalen <= i < geo.pageSize - geo.oobSize ==> r.2[i] == 0)
            && (forall i :: geo.pageSize - geo.oobSize <= i < geo.pageSize - geo.oobSize + req.ooblen ==>
                  r.2[i] == r.1[p.readSpans.oobSpan][i - (geo.pageSize - geo.oobSize)])
            && (forall i :: geo.pageSize - geo.oobSize + req.ooblen <= i < geo.pageSize ==> r.2[i] == 0))
      && (r.0.Nacked? ==> r.0 == Nacked(-1) && r.2 == page)
  {
    hide ReadStep, ReadFits, ValidLayout, FitsLayout, Extracted, ReadChain;
    FitsKept(m, ReadResult(geo, p, m, page, req, bigHost).1);
  }

  /** The codec can acknowledge a read: it decodes, and has room for the codes of its range. */
  predicate CanAgree(ctx: ReadContext)
    requires ValidCodec(ctx.codec)
  {
    ctx.codec.HammingCodec? && ctx.oob.Some?
    && 3 * DivRoundUp(ctx.data.range.length, ctx.codec.config.stepSize) <= ctx.oob.value.range.length
  }

  /** A read is acknowledged only if all its codecs can, and then every one of them has decoded. */
  lemma {:induction false} ReadsAgree(ctxs: seq<ReadContext>, m: Memory, bigHost: bool, n: nat, i: nat)
    requires ReadChainFits(ctxs, m) && i < n <= |ctxs| && ReadChain(ctxs, m, bigHost, n).0
    ensures ValidCodec(ctxs[i].codec) && CanAgree(ctxs[i])
  {
    hide ReadStep, ReadFits, CanAgree, ValidCodec;
    if ReadChain(ctxs, m, bigHost, n - 1).0 {
      ReadNext(ctxs, m, bigHost, n - 1);
      AgreesToRead(ctxs[n - 1], ReadChain(ctxs, m, bigHost, n - 1).1, bigHost);
      if i < n - 1 { ReadsAgree(ctxs, m, bigHost, n - 1, i); }
    }
  }

  lemma AgreesToRead(ctx: ReadContext, m: Memory, bigHost: bool)
    requires ReadFits(ctx, m) && ReadStep(ctx, m, bigHost).0
    ensures ValidCodec(ctx.codec) && CanAgree(ctx)
  {
    hide Decoded, Room;
  }

  // A write and a read.

  /** Out-of-band byte `o` of a request goes to byte `q` of the page and comes back from there: no codec
      sets it, and none repairs it. */
  ghost predicate PassesThrough(p: Pipeline, write: Request, read: Request, q: nat, o: nat) {
    && p.writeSpans.Some? && p.readSpans.oobSpan == p.writeSpans.value.oobSpan
    && o < write.ooblen && o < read.ooblen && Maps(p.layout, q, p.readSpans.oobSpan, o)
    && NoneSets(p.writeCodecs, 0, p.readSpans.oobSpan, o) && NoneRepairs(p.readCodecs, p.readSpans.oobSpan, o)
  }

  /** An out-of-band byte that no codec touches comes back, if it is not damaged on the page. */
  lemma OobSurvives(geo: Geometry, p: Pipeline, m: Memory, page: seq<Byte>, write: Request, n: Memory, r: seq<Byte>,
                    read: Request, bigHost: bool, q: nat, o: nat)
    requires WriteReady(geo, p, m, write) && |page| == geo.pageSize
    requires ReadReady(geo, p, n, read) && |r| == geo.pageSize
    requires WriteOutcome(geo, p, m, page, write, bigHost).0.Acked?
    requires ReadOutcome(geo, p, n, r, read, bigHost).0.Acked?
    requires PassesThrough(p, write, read, q, o) && q < geo.pageSize
    requires r[q] == WriteOutcome(geo, p, m, page, write, bigHost).2[q]
    ensures write.ooblen <= geo.oobSize && read.ooblen <= geo.oobSize <= geo.pageSize
    ensures ReadOutcome(geo, p, n, r, read, bigHost).2[geo.pageSize - geo.oobSize + o]
         == page[geo.pageSize - geo.oobSize + o]
  {
    hide WriteOutcome, ReadOutcome, ValidLayout, FitsLayout, WriteChainFits, ReadChainFits, MappingFits, Maps, NoneSets,
         NoneRepairs;
    RequestedByte(geo, p, m, page, write, bigHost, q, p.readSpans.oobSpan, o);
    ReadByte(geo, p, n, r, read, bigHost, q, p.readSpans.oobSpan, o);
    ReadReturns(geo, p, n, r, read, bigHost);
  }

  /** Of a page that was stored and is now `r`, a read whose result is `out` returns the out-of-band bytes
      of the write that no codec touches and no damage hits. */
  ghost predicate OobReturns(geo: Geometry, p: Pipeline, page: seq<Byte>, write: Request, stored: seq<Byte>,
                             r: seq<Byte>, read: Request, out: seq<Byte>) {
    && geo.oobSize <= geo.pageSize == |page| == |stored| == |r| == |out|
    && write.ooblen <= geo.oobSize && read.ooblen <= geo.oobSize
    && forall q: nat, o: nat :: PassesThrough(p, write, read, q, o) && q < geo.pageSize && r[q] == stored[q] ==>
         out[geo.pageSize - geo.oobSize + o] == page[geo.pageSize - geo.oobSize + o]
  }

  lemma AllOobSurvives(geo: Geometry, p: Pipeline, m: Memory, page: seq<Byte>, write: Request, n: Memory, r: seq<Byte>,
                       read: Request, bigHost: bool)
    requires WriteReady(geo, p, m, write) && |page| == geo.pageSize
    requires ReadReady(geo, p, n, read) && |r| == geo.pageSize
    requires WriteOutcome(geo, p, m, page, write, bigHost).0.Acked?
    requires ReadOutcome(geo, p, n, r, read, bigHost).0.Acked?
    ensures OobReturns(geo, p, page, write, WriteOutcome(geo, p, m, page, write, bigHost).2, r, read,
                       ReadOutcome(geo, p, n, r, read, bigHost).2)
  {
    hide WriteOutcome, ReadOutcome, WriteReady, ReadReady, PassesThrough;
    var stored, out := WriteOutcome(geo, p, m, page, write, bigHost).2, ReadOutcome(geo, p, n, r, read, bigHost).2;
    PassedAreFew(p, write, read);
    OobFits(geo, p, m, write, n, read);
    forall q: nat, o: nat | PassesThrough(p, write, read, q, o) && q < geo.pageSize && r[q] == stored[q]
      ensures out[geo.pageSize - geo.oobSize + o] == page[geo.pageSize - geo.oobSize + o]
    {
      OobSurvives(geo, p, m, page, write, n, r, read, bigHost, q, o);
    }
  }

  lemma OobFits(geo: Geometry, p: Pipeline, m: Memory, write: Request, n: Memory, read: Request)
    requires WriteReady(geo, p, m, write) && ReadReady(geo, p, n, read)
    ensures write.ooblen <= geo.oobSize && read.ooblen <= geo.oobSize <= geo.pageSize
  {
  }

  lemma PassedAreFew(p: Pipeline, write: Request, read: Request)
    ensures forall q: nat, o: nat :: PassesThrough(p, write, read, q, o) ==> o < write.ooblen && o < read.ooblen
  {
  }
}
