// Serving a request: write_process and read_process on the span buffers and the raw page.
module Requests {
  import opened Wrappers
  import opened Bits
  import opened Spans
  import opened Layout
  import opened PageCopy
  import opened HammingCodec
  import opened Pipelines

  /** The raw page ends with the out-of-band bytes. */
  datatype Geometry = Geometry(pageSize: nat, oobSize: nat)

  datatype Request = Request(datalen: nat, ooblen: nat)

  datatype Reply = Acked(dataRetlen: nat, oobRetlen: nat) | Nacked(errno: int)

  const EIO: int := 5
  const CODEC_ERRNO: int := -1

  predicate ValidRequest(geo: Geometry, req: Request) {
    && geo.oobSize <= geo.pageSize
    && req.datalen <= geo.pageSize - geo.oobSize && req.ooblen <= geo.oobSize
  }

  /** The bytes of the request fit the spans they map to. */
  predicate MappingFits(mapping: Mapping, m: Memory, req: Request) {
    InSpan(m, mapping.dataSpan, 0, req.datalen) && InSpan(m, mapping.oobSpan, 0, req.ooblen)
  }

  /** Every request that the assertions on its header admit fits its spans exactly when the spans are as
      long as the data and the out-of-band part of a page, which the setup of a mapping could compare. */
  lemma RequestsFitExactly(geo: Geometry, mapping: Mapping, m: Memory)
    requires geo.oobSize <= geo.pageSize && mapping.dataSpan < |m| && mapping.oobSpan < |m|
    ensures (forall req :: ValidRequest(geo, req) ==> MappingFits(mapping, m, req))
      <==> geo.pageSize - geo.oobSize <= |m[mapping.dataSpan]| && geo.oobSize <= |m[mapping.oobSpan]|
  {
    assert ValidRequest(geo, Request(geo.pageSize - geo.oobSize, geo.oobSize));
  }

  // Codecs.

  /** The bytes a codec of the read chain works on are inside the spans. */
  predicate ReadFits(ctx: ReadContext, m: Memory) {
    ValidCodec(ctx.codec) && CanRead(ctx.codec) &&
    match ctx.codec
    case HammingCodec(c) =>
      && ctx.oob.Some?
      && ctx.data.span < |m| && ctx.oob.value.span < |m|
      && (EnoughOob(ctx.data.range.length, c.stepSize, ctx.oob.value.range.length) ==>
            Room(m, c, ctx.data.span, ctx.data.range.start, ctx.oob.value.span, ctx.oob.value.range.start, c.steps))
    case MemsetCodec(_) => false
    case NackCodec => true
  }

  predicate WriteFits(ctx: WriteContext, m: Memory) {
    && ValidCodec(ctx.codec)
    && InSpan(m, ctx.dest.span, ctx.dest.range.start, ctx.dest.range.length)
    && match ctx.codec
       case HammingCodec(c) =>
         && ctx.src.Some? && ctx.src.value.span < |m|
         && (EnoughOob(ctx.src.value.range.length, c.stepSize, ctx.dest.range.length) ==>
               Room(m, c, ctx.src.value.span, ctx.src.value.range.start, ctx.dest.span, ctx.dest.range.start,
                    DivRoundUp(ctx.src.value.range.length, c.stepSize)))
       case MemsetCodec(_) => true
       case NackCodec => true
  }

  // From the configuration to codecs that stay inside their spans.

  /** An accepted decoder whose ranges lie in their spans, and whose steps fit the data range, stays
      inside the spans. */
  lemma AcceptedReadFits(spans: SpanMap, codec: Codec, data: CfgSpan, oob: Option<CfgSpan>, m: Memory)
    requires ValidSpanMap(spans) && ValidCodec(codec) && ReadAcceptable(spans, codec, data, oob)
    requires HasLengths(m, spans.totals) && InItsSpan(spans, data)
    requires NeedsSecondSpan(codec) ==> InItsSpan(spans, oob.value)
    requires codec.HammingCodec? ==> Blocks(codec.config, codec.config.steps) <= data.range.length
    ensures ReadFits(ReadContextOf(spans, codec, data, oob), m)
  {
    if codec.HammingCodec? {
      var c := codec.config;
      WholeBlocks(c, data.range.length);
      CheckBoundsCodes(data.range.length, c.stepSize, oob.value.range.length, c.steps);
    }
  }

  /** An accepted encoder whose ranges lie in their spans, and whose source is a whole number of steps,
      stays inside the spans. */
  lemma AcceptedWriteFits(spans: SpanMap, codec: Codec, dest: CfgSpan, src: Option<CfgSpan>, m: Memory)
    requires ValidSpanMap(spans) && ValidCodec(codec) && WriteAcceptable(spans, codec, dest, src)
    requires HasLengths(m, spans.totals) && InItsSpan(spans, dest)
    requires NeedsSecondSpan(codec) ==> InItsSpan(spans, src.value)
    requires codec.HammingCodec? ==> src.value.range.length % codec.config.stepSize == 0
    ensures WriteFits(WriteContextOf(spans, codec, dest, src), m)
  {
    if codec.HammingCodec? {
      var c, n := codec.config, DivRoundUp(src.value.range.length, codec.config.stepSize);
      WholeBlocks(c, src.value.range.length);
      CheckBoundsCodes(src.value.range.length, c.stepSize, dest.range.length, n);
    }
  }

  // Exactly when they do, whatever the lengths of the spans.

  /** An accepted decoder, on spans that hold its ranges. */
  predicate ReadPlaced(spans: SpanMap, m: Memory, codec: Codec, data: CfgSpan, oob: CfgSpan)
    requires ValidCodec(codec)
  {
    && ValidSpanMap(spans) && HasLengths(m, spans.totals) && ReadAcceptable(spans, codec, data, Some(oob))
    && InItsSpan(spans, data) && InItsSpan(spans, oob)
  }

  ghost predicate ReadStaysInside(codec: Codec, data: CfgSpan, oob: CfgSpan)
    requires ValidCodec(codec)
  {
    forall spans, m :: ReadPlaced(spans, m, codec, data, oob) ==>
      ReadFits(ReadContextOf(spans, codec, data, Some(oob)), m)
  }

  predicate WritePlaced(spans: SpanMap, m: Memory, codec: Codec, dest: CfgSpan, src: CfgSpan)
    requires ValidCodec(codec)
  {
    && ValidSpanMap(spans) && HasLengths(m, spans.totals) && WriteAcceptable(spans, codec, dest, Some(src))
    && InItsSpan(spans, dest) && InItsSpan(spans, src)
  }

  ghost predicate WriteStaysInside(codec: Codec, dest: CfgSpan, src: CfgSpan)
    requires ValidCodec(codec)
  {
    forall spans, m :: WritePlaced(spans, m, codec, dest, src) ==>
      WriteFits(WriteContextOf(spans, codec, dest, Some(src)), m)
  }

  /** Where the shortest span that holds both ranges ends. */
  function LastEnd(a: Range, b: Range): nat {
    if End(a) < End(b) then End(b) else End(a)
  }

  /** The shortest spans that hold two ranges. */
  function Shortest(a: CfgSpan, b: CfgSpan): (spans: SpanMap)
    ensures ValidSpanMap(spans) && InItsSpan(spans, a) && InItsSpan(spans, b)
    ensures a.name != b.name ==>
      spans.names[a.name] == 0 && spans.names[b.name] == 1 && spans.totals == [End(a.range), End(b.range)]
    ensures a.name == b.name ==> spans.names[a.name] == 0 && spans.totals == [LastEnd(a.range, b.range)]
  {
    if a.name == b.name then SpanMap(map[a.name := 0], [LastEnd(a.range, b.range)])
    else SpanMap(map[a.name := 0, b.name := 1], [End(a.range), End(b.range)])
  }

  function Zeros(totals: seq<nat>): (m: Memory)
    ensures HasLengths(m, totals)
  {
    seq(|totals|, (s: nat) requires s < |totals| => seq(totals[s], _ => 0))
  }

  /** The configured steps stay within the ranges, or, in one span, within the end of the later range. */
  predicate StepsFit(c: Config, data: CfgSpan, oob: CfgSpan) {
    if data.name != oob.name then Blocks(c, c.steps) <= data.range.length
    else
      && data.range.start + Blocks(c, c.steps) <= LastEnd(data.range, oob.range)
      && oob.range.start + 3 * c.steps <= LastEnd(data.range, oob.range)
  }

  /** A decoder whose ranges have lengths it accepts stays inside all spans that hold them exactly when
      its steps fit. */
  lemma ReadFitsExactly(c: Config, data: CfgSpan, oob: CfgSpan)
    requires ValidConfig(c) && EnoughOob(data.range.length, c.stepSize, oob.range.length)
    ensures ReadStaysInside(HammingCodec(c), data, oob) <==> StepsFit(c, data, oob)
  {
    hide EnoughOob, Blocks, ValidConfig, HasLengths;
    var codec, spans := HammingCodec(c), Shortest(data, oob);
    if ReadStaysInside(codec, data, oob) {
      assert ReadPlaced(spans, Zeros(spans.totals), codec, data, oob);
      assert ReadFits(ReadContextOf(spans, codec, data, Some(oob)), Zeros(spans.totals));
      EndsOf(Zeros(spans.totals), spans.totals);
    }
    if StepsFit(c, data, oob) {
      forall spans, m | ReadPlaced(spans, m, codec, data, oob)
        ensures ReadFits(ReadContextOf(spans, codec, data, Some(oob)), m)
      {
        EndsOf(m, spans.totals);
        if data.name != oob.name { AcceptedReadFits(spans, codec, data, Some(oob), m); }
      }
    }
  }

  lemma EndsOf(m: Memory, totals: seq<nat>)
    requires HasLengths(m, totals)
    ensures |m| == |totals| && forall s :: 0 <= s < |m| ==> |m[s]| == totals[s]
  {
  }

  /** The source is a whole number of steps, or, in one span, its last block ends before the later range
      does. */
  predicate SourceFits(c: Config, dest: CfgSpan, src: CfgSpan)
    requires ValidConfig(c)
  {
    if dest.name != src.name then src.range.length % c.stepSize == 0
    else src.range.start + Blocks(c, DivRoundUp(src.range.length, c.stepSize)) <= LastEnd(dest.range, src.range)
  }

  /** The same for an encoder. */
  lemma WriteFitsExactly(c: Config, dest: CfgSpan, src: CfgSpan)
    requires ValidConfig(c) && EnoughOob(src.range.length, c.stepSize, dest.range.length)
    ensures WriteStaysInside(HammingCodec(c), dest, src) <==> SourceFits(c, dest, src)
  {
    hide Blocks, HasLengths;
    var codec, spans, n := HammingCodec(c), Shortest(dest, src), DivRoundUp(src.range.length, c.stepSize);
    WholeBlocks(c, src.range.length);
    CheckBoundsCodes(src.range.length, c.stepSize, dest.range.length, n);
    if WriteStaysInside(codec, dest, src) {
      assert WritePlaced(spans, Zeros(spans.totals), codec, dest, src);
      assert WriteFits(WriteContextOf(spans, codec, dest, Some(src)), Zeros(spans.totals));
      EndsOf(Zeros(spans.totals), spans.totals);
    }
    if SourceFits(c, dest, src) {
      forall spans, m | WritePlaced(spans, m, codec, dest, src)
        ensures WriteFits(WriteContextOf(spans, codec, dest, Some(src)), m)
      {
        EndsOf(m, spans.totals);
        if dest.name != src.name { AcceptedWriteFits(spans, codec, dest, Some(src), m); }
      }
    }
  }

  /** A codec of eight steps on one block and its code: both ranges lie in their spans, and decoding runs
      off the end of both. */
  lemma StepsLeaveSpans(m: Memory)
    requires HasLengths(m, [256, 3])
    ensures var spans := SpanMap(map["data" := 0, "ecc" := 1], [256, 3]);
      var codec := HammingCodec(Config(256, 8, false, false));
      var data, ecc := CfgSpan("data", Range(0, 256)), CfgSpan("ecc", Range(0, 3));
      && ValidSpanMap(spans) && ValidCodec(codec) && InItsSpan(spans, data) && InItsSpan(spans, ecc)
      && ReadAcceptable(spans, codec, data, Some(ecc)) && !ReadFits(ReadContextOf(spans, codec, data, Some(ecc)), m)
  {
  }

  /** A source of a hundred bytes: encoding reads the rest of its block past the end of the span. */
  lemma PartialBlockLeavesSpan(m: Memory)
    requires HasLengths(m, [100, 3])
    ensures var spans := SpanMap(map["data" := 0, "ecc" := 1], [100, 3]);
      var codec := HammingCodec(Config(256, 1, false, false));
      var data, ecc := CfgSpan("data", Range(0, 100)), CfgSpan("ecc", Range(0, 3));
      && ValidSpanMap(spans) && ValidCodec(codec) && InItsSpan(spans, data) && InItsSpan(spans, ecc)
      && WriteAcceptable(spans, codec, ecc, Some(data)) && !WriteFits(WriteContextOf(spans, codec, ecc, Some(data)), m)
  {
  }

  lemma FitsKept(m: Memory, n: Memory)
    requires SameShape(m, n)
    ensures forall ctx: ReadContext :: ReadFits(ctx, m) ==> ReadFits(ctx, n)
    ensures forall ctx: WriteContext :: WriteFits(ctx, m) ==> WriteFits(ctx, n)
    ensures forall layout :: FitsLayout(layout, m) ==> FitsLayout(layout, n)
    ensures forall mapping, req :: MappingFits(mapping, m, req) ==> MappingFits(mapping, n, req)
  {
  }

  lemma ShapeTrans(m: Memory, n: Memory, p: Memory)
    requires SameShape(m, n) && SameShape(n, p)
    ensures SameShape(m, p) && SameShape(n, m)
  {
  }

  /** One codec of the read chain: whether it acknowledges, and the spans it leaves. */
  function ReadStep(ctx: ReadContext, m: Memory, bigHost: bool): (r: (bool, Memory))
    requires ReadFits(ctx, m)
    ensures SameShape(m, r.1)
  {
    match ctx.codec
    case HammingCodec(c) =>
      if EnoughOob(ctx.data.range.length, c.stepSize, ctx.oob.value.range.length)
      then Decoded(m, c, c.bigEndian != bigHost, ctx.data.span, ctx.data.range.start, ctx.oob.value.span,
                   ctx.oob.value.range.start, c.steps)
      else (false, m)
    case _ => (false, m)
  }

  function WriteStep(ctx: WriteContext, m: Memory, bigHost: bool): (r: (bool, Memory))
    requires WriteFits(ctx, m)
    ensures SameShape(m, r.1)
  {
    match ctx.codec
    case HammingCodec(c) =>
      if EnoughOob(ctx.src.value.range.length, c.stepSize, ctx.dest.range.length)
      then (true, Encoded(m, c, c.bigEndian != bigHost, ctx.src.value.span, ctx.src.value.range.start,
                          ctx.dest.span, ctx.dest.range.start, DivRoundUp(ctx.src.value.range.length, c.stepSize)))
      else (false, m)
    case MemsetCodec(pattern) =>
      (true, Store(m, ctx.dest.span, ctx.dest.range.start, seq(ctx.dest.range.length, _ => pattern)))
    case NackCodec => (false, m)
  }

  predicate ReadChainFits(ctxs: seq<ReadContext>, m: Memory) {
    forall i :: 0 <= i < |ctxs| ==> ReadFits(ctxs[i], m)
  }

  predicate WriteChainFits(ctxs: seq<WriteContext>, m: Memory) {
    forall i :: 0 <= i < |ctxs| ==> WriteFits(ctxs[i], m)
  }

  /** After the first `n` codecs, or after the first one that does not acknowledge. */
  function ReadChain(ctxs: seq<ReadContext>, m: Memory, bigHost: bool, n: nat): (r: (bool, Memory))
    requires ReadChainFits(ctxs, m) && n <= |ctxs|
    ensures SameShape(m, r.1)
  {
    if n == 0 then (true, m)
    else
      var p := ReadChain(ctxs, m, bigHost, n - 1);
      FitsKept(m, p.1);
      if !p.0 then p else ReadStep(ctxs[n - 1], p.1, bigHost)
  }

  function WriteChain(ctxs: seq<WriteContext>, m: Memory, bigHost: bool, n: nat): (r: (bool, Memory))
    requires WriteChainFits(ctxs, m) && n <= |ctxs|
    ensures SameShape(m, r.1)
  {
    if n == 0 then (true, m)
    else
      var p := WriteChain(ctxs, m, bigHost, n - 1);
      FitsKept(m, p.1);
      if !p.0 then p else WriteStep(ctxs[n - 1], p.1, bigHost)
  }

  // Requests, as functions.

  /** The spans after the bytes of a write request are copied into them. */
  function Taken(mapping: Mapping, m: Memory, page: seq<Byte>, geo: Geometry, req: Request): (r: Memory)
    requires ValidRequest(geo, req) && |page| == geo.pageSize && MappingFits(mapping, m, req)
    ensures SameShape(m, r)
  {
    var oobOffset := geo.pageSize - geo.oobSize;
    Store(Store(m, mapping.dataSpan, 0, page[..req.datalen]), mapping.oobSpan, 0,
        page[oobOffset..oobOffset + req.ooblen])
  }

  /** The page returned for a read request. */
  function Given(mapping: Mapping, m: Memory, geo: Geometry, req: Request): (page: seq<Byte>)
    requires ValidRequest(geo, req) && MappingFits(mapping, m, req)
    ensures |page| == geo.pageSize
  {
    var oobOffset := geo.pageSize - geo.oobSize;
    Put(Put(seq(geo.pageSize, _ => 0), 0, Fetch(m, mapping.dataSpan, 0, req.datalen)),
        oobOffset, Fetch(m, mapping.oobSpan, 0, req.ooblen))
  }

  predicate ReadReady(geo: Geometry, p: Pipeline, m: Memory, req: Request) {
    && ValidRequest(geo, req) && ValidLayout(p.layout, geo.pageSize) && FitsLayout(p.layout, m)
    && ReadChainFits(p.readCodecs, m) && MappingFits(p.readSpans, m, req)
  }

  predicate WriteReady(geo: Geometry, p: Pipeline, m: Memory, req: Request) {
    && ValidRequest(geo, req) && ValidLayout(p.layout, geo.pageSize) && FitsLayout(p.layout, m)
    && WriteChainFits(p.writeCodecs, m) && (p.writeSpans.Some? ==> MappingFits(p.writeSpans.value, m, req))
  }

  /** The spans after the read chain, and whether all of it acknowledges. */
  function ReadResult(geo: Geometry, p: Pipeline, m: Memory, page: seq<Byte>, req: Request, bigHost: bool)
    : (r: (bool, Memory))
    requires ReadReady(geo, p, m, req) && |page| == geo.pageSize
    ensures SameShape(m, r.1)
  {
    var e := Extracted(p.layout, page, m);
    FitsKept(m, e);
    var r := ReadChain(p.readCodecs, e, bigHost, |p.readCodecs|);
    ShapeTrans(m, e, r.1);
    r
  }

  function WriteResult(geo: Geometry, p: Pipeline, m: Memory, page: seq<Byte>, req: Request, bigHost: bool)
    : (r: (bool, Memory))
    requires WriteReady(geo, p, m, req) && |page| == geo.pageSize && p.writeSpans.Some?
    ensures SameShape(m, r.1)
  {
    var t := Taken(p.writeSpans.value, m, page, geo, req);
    FitsKept(m, t);
    var r := WriteChain(p.writeCodecs, t, bigHost, |p.writeCodecs|);
    ShapeTrans(m, t, r.1);
    r
  }

  /** Answer, spans and page of a read. */
  function ReadOutcome(geo: Geometry, p: Pipeline, m: Memory, page: seq<Byte>, req: Request, bigHost: bool)
    : (r: (Reply, Memory, seq<Byte>))
    requires ReadReady(geo, p, m, req) && |page| == geo.pageSize
    ensures SameShape(m, r.1) && |r.2| == |page|
  {
    var r := ReadResult(geo, p, m, page, req, bigHost);
    FitsKept(m, r.1);
    if r.0 then (Acked(req.datalen, req.ooblen), r.1, Given(p.readSpans, r.1, geo, req))
    else (Nacked(CODEC_ERRNO), r.1, page)
  }

  /** Answer, spans and page of a write. */
  function WriteOutcome(geo: Geometry, p: Pipeline, m: Memory, page: seq<Byte>, req: Request, bigHost: bool)
    : (r: (Reply, Memory, seq<Byte>))
    requires WriteReady(geo, p, m, req) && |page| == geo.pageSize
    ensures SameShape(m, r.1) && |r.2| == |page|
  {
    if p.writeSpans.None? then (Nacked(EIO), m, page)
    else
      var r := WriteResult(geo, p, m, page, req, bigHost);
      FitsKept(m, r.1);
      if r.0 then (Acked(geo.pageSize - geo.oobSize, geo.oobSize), r.1, Composed(p.layout, r.1, geo.pageSize))
      else (Nacked(CODEC_ERRNO), r.1, page)
  }
}
