// From a write request through a damaged page to a read request.
module RoundTrip {
  import opened Wrappers
  import opened Bits
  import opened Spans
  import opened Layout
  import opened PageCopy
  import opened HammingCode
  import opened HammingSecded
  import opened HammingCodec
  import opened HammingChannel
  import opened Pipelines
  import opened Requests
  import opened Queues

  // Earlier requests leave no trace in a read.

  datatype Call = ReadCall(page: seq<Byte>, req: Request) | WriteCall(page: seq<Byte>, req: Request)

  /** The worker is ready for the call. */
  predicate Ready(geo: Geometry, p: Pipeline, m: Memory, call: Call) {
    |call.page| == geo.pageSize &&
    if call.ReadCall? then ReadReady(geo, p, m, call.req) else WriteReady(geo, p, m, call.req)
  }

  function After(geo: Geometry, p: Pipeline, m: Memory, call: Call, bigHost: bool): (r: Memory)
    requires Ready(geo, p, m, call)
    ensures SameShape(m, r)
  {
    if call.ReadCall? then ReadOutcome(geo, p, m, call.page, call.req, bigHost).1
    else WriteOutcome(geo, p, m, call.page, call.req, bigHost).1
  }

  predicate AllReady(geo: Geometry, p: Pipeline, m: Memory, calls: seq<Call>) {
    forall i :: 0 <= i < |calls| ==> Ready(geo, p, m, calls[i])
  }

  lemma StillReady(geo: Geometry, p: Pipeline, m: Memory, n: Memory, call: Call)
    requires SameShape(m, n) && Ready(geo, p, m, call)
    ensures Ready(geo, p, n, call)
  {
    hide ReadFits, WriteFits, FitsLayout, MappingFits, ValidLayout, SameShape;
    FitsKept(m, n);
  }

  /** The span buffers after `n` calls. */
  function Run(geo: Geometry, p: Pipeline, m: Memory, calls: seq<Call>, bigHost: bool, n: nat): (r: Memory)
    requires AllReady(geo, p, m, calls) && n <= |calls|
    ensures SameShape(m, r)
  {
    if n == 0 then m
    else
      var q := Run(geo, p, m, calls, bigHost, n - 1);
      StillReady(geo, p, m, q, calls[n - 1]);
      After(geo, p, q, calls[n - 1], bigHost)
  }

  lemma ReadForgets(geo: Geometry, p: Pipeline, m: Memory, n: Memory, page: seq<Byte>, req: Request, bigHost: bool)
    requires ReadReady(geo, p, m, req) && ReadReady(geo, p, n, req) && |page| == geo.pageSize
    ensures ReadOutcome(geo, p, m, page, req, bigHost) == ReadOutcome(geo, p, n, page, req, bigHost)
  {
    ExtractForgets(p.layout, page, m, n);
  }

  /** After any calls, a read gives the same answer, page and spans as on any other buffers. */
  lemma HistoryDoesNotMatter(geo: Geometry, p: Pipeline, m: Memory, calls: seq<Call>, page: seq<Byte>, req: Request,
                             bigHost: bool, n: Memory)
    requires AllReady(geo, p, m, calls) && |page| == geo.pageSize
    requires ReadReady(geo, p, m, req) && ReadReady(geo, p, n, req)
    ensures ReadReady(geo, p, Run(geo, p, m, calls, bigHost, |calls|), req)
    ensures ReadOutcome(geo, p, Run(geo, p, m, calls, bigHost, |calls|), page, req, bigHost)
         == ReadOutcome(geo, p, n, page, req, bigHost)
  {
    var r := Run(geo, p, m, calls, bigHost, |calls|);
    StillReady(geo, p, m, r, ReadCall(page, req));
    ReadForgets(geo, p, r, n, page, req, bigHost);
  }

  // What a write leaves in the spans.

  /** The blocks from `off` of span `s` are protected by codes from `eccOff` of span `d`. */
  datatype Protection = Protection(c: Config, s: nat, off: nat, len: nat, d: nat, eccOff: nat, destlen: nat)

  predicate ValidProtection(x: Protection) {
    && ValidConfig(x.c) && EnoughOob(x.len, x.c.stepSize, x.destlen)
    && Apart(x.c, x.s, x.off, x.d, x.eccOff, Steps(x))
  }

  /** The steps that are encoded. */
  function Steps(x: Protection): nat
    requires ValidConfig(x.c)
  {
    DivRoundUp(x.len, x.c.stepSize)
  }

  predicate Away(r: SpanRange, s: nat, off: nat, len: nat) {
    r.span != s || End(r.range) <= off || off + len <= r.range.start
  }

  /** Codec `h` of the chain encodes. */
  predicate EncodesAt(ctxs: seq<WriteContext>, h: nat, x: Protection) {
    && h < |ctxs| && ctxs[h].codec == HammingCodec(x.c)
    && ctxs[h].dest == SpanRange(x.d, Range(x.eccOff, x.destlen))
    && ctxs[h].src == Some(SpanRange(x.s, Range(x.off, x.len)))
  }

  /** A codec that sets bytes away from the blocks, their codes and the data of the request. */
  predicate SetsElsewhere(ctx: WriteContext, x: Protection, dataSpan: nat, datalen: nat)
    requires ValidConfig(x.c)
  {
    && ctx.codec.MemsetCodec?
    && Away(ctx.dest, x.s, x.off, Blocks(x.c, Steps(x))) && Away(ctx.dest, x.d, x.eccOff, 3 * Steps(x))
    && Away(ctx.dest, dataSpan, 0, datalen)
  }

  /** The write chain encodes once, and otherwise only sets bytes elsewhere; the codes do not overwrite data. */
  predicate WritesProtected(ctxs: seq<WriteContext>, h: nat, x: Protection, dataSpan: nat, datalen: nat) {
    && ValidProtection(x) && EncodesAt(ctxs, h, x)
    && (forall i :: 0 <= i < |ctxs| && i != h ==> SetsElsewhere(ctxs[i], x, dataSpan, datalen))
    && Away(SpanRange(x.d, Range(x.eccOff, 3 * Steps(x))), dataSpan, 0, datalen)
  }

  lemma MemsetLeaves(ctx: WriteContext, m: Memory, bigHost: bool)
    requires WriteFits(ctx, m) && ctx.codec.MemsetCodec?
    ensures var r := WriteStep(ctx, m, bigHost);
      r.0 && SameOutside(m, r.1, ctx.dest.span, ctx.dest.range.start, End(ctx.dest.range))
  {
    StoreOutside(m, ctx.dest.span, ctx.dest.range.start, seq(ctx.dest.range.length, _ => ctx.codec.pattern));
  }

  lemma ProtectionKept(m: Memory, r: Memory, x: Protection, swapped: bool, span: nat, lo: nat, hi: nat)
    requires ValidConfig(x.c) && Protected(m, x.c, swapped, x.s, x.off, x.d, x.eccOff, Steps(x))
    requires lo <= hi && SameOutside(m, r, span, lo, hi)
    requires Away(SpanRange(span, Range(lo, hi - lo)), x.s, x.off, Blocks(x.c, Steps(x)))
    requires Away(SpanRange(span, Range(lo, hi - lo)), x.d, x.eccOff, 3 * Steps(x))
    ensures Protected(r, x.c, swapped, x.s, x.off, x.d, x.eccOff, Steps(x))
  {
    hide Ecc, Fetch, SameOutside;
    forall k: nat | k < Steps(x)
      ensures ProtectedAt(r, x.c, swapped, x.s, x.off, x.d, x.eccOff, k)
    {
      assert ProtectedAt(m, x.c, swapped, x.s, x.off, x.d, x.eccOff, k);
      FetchOutside(m, r, span, lo, hi, x.s, x.off + Blocks(x.c, k), x.c.stepSize);
      FetchOutside(m, r, span, lo, hi, x.d, x.eccOff + 3 * k, 3);
    }
  }

  lemma EncodeLeaves(ctxs: seq<WriteContext>, h: nat, x: Protection, m: Memory, bigHost: bool)
    requires ValidProtection(x) && EncodesAt(ctxs, h, x) && WriteFits(ctxs[h], m)
    ensures var r, n := WriteStep(ctxs[h], m, bigHost), Steps(x);
      && r.0 && SameOutside(m, r.1, x.d, x.eccOff, x.eccOff + 3 * n)
      && Protected(r.1, x.c, x.c.bigEndian != bigHost, x.s, x.off, x.d, x.eccOff, n)
  {
    hide Encoded, SameOutside, Protected, Room, Apart;
    EncodeProtects(m, x.c, x.c.bigEndian != bigHost, x.s, x.off, x.d, x.eccOff, Steps(x));
  }

  /** What holds after `k` codecs of the write chain: the data is where the request put it, and once the
      encoder has run, it is protected. */
  ghost predicate Written(ctxs: seq<WriteContext>, h: nat, x: Protection, m: Memory, r: (bool, Memory), bigHost: bool,
                          k: nat, dataSpan: nat, datalen: nat)
    requires ValidConfig(x.c) && InSpan(m, dataSpan, 0, datalen)
  {
    && r.0 && InSpan(r.1, dataSpan, 0, datalen)
    && Fetch(r.1, dataSpan, 0, datalen) == Fetch(m, dataSpan, 0, datalen)
    && (h < k ==> Protected(r.1, x.c, x.c.bigEndian != bigHost, x.s, x.off, x.d, x.eccOff, Steps(x)))
  }

  lemma WrittenNext(ctxs: seq<WriteContext>, h: nat, x: Protection, m: Memory, q: Memory, bigHost: bool, k: nat,
                    dataSpan: nat, datalen: nat)
    requires WritesProtected(ctxs, h, x, dataSpan, datalen) && InSpan(m, dataSpan, 0, datalen)
    requires k < |ctxs| && WriteFits(ctxs[k], q)
    requires Written(ctxs, h, x, m, (true, q), bigHost, k, dataSpan, datalen)
    ensures Written(ctxs, h, x, m, WriteStep(ctxs[k], q, bigHost), bigHost, k + 1, dataSpan, datalen)
  {
    hide Protected, SameOutside, WriteStep, WriteFits, Fetch, Blocks;
    var r := WriteStep(ctxs[k], q, bigHost);
    if k == h {
      EncodeLeaves(ctxs, h, x, q, bigHost);
      FetchOutside(q, r.1, x.d, x.eccOff, x.eccOff + 3 * Steps(x), dataSpan, 0, datalen);
    } else {
      var dest := ctxs[k].dest;
      assert SetsElsewhere(ctxs[k], x, dataSpan, datalen);
      MemsetLeaves(ctxs[k], q, bigHost);
      FetchOutside(q, r.1, dest.span, dest.range.start, End(dest.range), dataSpan, 0, datalen);
      if h < k {
        ProtectionKept(q, r.1, x, x.c.bigEndian != bigHost, dest.span, dest.range.start, End(dest.range));
      }
    }
  }

  lemma {:induction false} WriteProtects(ctxs: seq<WriteContext>, h: nat, x: Protection, m: Memory, bigHost: bool,
                                         k: nat, dataSpan: nat, datalen: nat)
    requires WritesProtected(ctxs, h, x, dataSpan, datalen) && InSpan(m, dataSpan, 0, datalen)
    requires WriteChainFits(ctxs, m) && k <= |ctxs|
    ensures Written(ctxs, h, x, m, WriteChain(ctxs, m, bigHost, k), bigHost, k, dataSpan, datalen)
  {
    hide WritesProtected, WriteStep, WriteFits, Protected;
    if k > 0 {
      WriteProtects(ctxs, h, x, m, bigHost, k - 1, dataSpan, datalen);
      WriteNext(ctxs, m, bigHost, k - 1);
      WrittenNext(ctxs, h, x, m, WriteChain(ctxs, m, bigHost, k - 1).1, bigHost, k - 1, dataSpan, datalen);
    }
  }

  // What a read makes of it.

  /** The read chain decodes what the protection encoded, and no more steps than that. */
  predicate ReadsProtected(ctxs: seq<ReadContext>, x: Protection)
    requires ValidConfig(x.c)
  {
    && |ctxs| == 1 && ctxs[0].codec == HammingCodec(x.c) && x.c.steps <= Steps(x)
    && ctxs[0].data.span == x.s && ctxs[0].data.range.start == x.off
    && ctxs[0].oob.Some? && ctxs[0].oob.value.span == x.d && ctxs[0].oob.value.range.start == x.eccOff
    && EnoughOob(ctxs[0].data.range.length, x.c.stepSize, ctxs[0].oob.value.range.length)
  }

  lemma DecodesOnce(ctxs: seq<ReadContext>, x: Protection, e: Memory, bigHost: bool)
    requires ValidProtection(x) && ReadsProtected(ctxs, x) && ReadChainFits(ctxs, e)
    ensures |ctxs| == 1 && x.c.steps <= Steps(x)
    ensures Room(e, x.c, x.s, x.off, x.d, x.eccOff, x.c.steps)
    ensures ReadChain(ctxs, e, bigHost, 1)
         == Decoded(e, x.c, x.c.bigEndian != bigHost, x.s, x.off, x.d, x.eccOff, x.c.steps)
  {
    hide Decoded, Room, ReadStep;
    assert ReadFits(ctxs[0], e);
    assert ReadChain(ctxs, e, bigHost, 0) == (true, e);
    assert ReadChain(ctxs, e, bigHost, 1) == ReadStep(ctxs[0], e, bigHost);
    OneStep(ctxs[0], x, e, bigHost);
  }

  lemma OneStep(ctx: ReadContext, x: Protection, e: Memory, bigHost: bool)
    requires ValidProtection(x) && ReadsProtected([ctx], x) && ReadFits(ctx, e)
    ensures Room(e, x.c, x.s, x.off, x.d, x.eccOff, x.c.steps)
    ensures ReadStep(ctx, e, bigHost) == Decoded(e, x.c, x.c.bigEndian != bigHost, x.s, x.off, x.d, x.eccOff, x.c.steps)
  {
    hide Decoded, Room;
    assert [ctx][0] == ctx;
  }

  /** Byte `o` of span `span` is in one of the decoded blocks. */
  predicate InBlocks(x: Protection, span: nat, o: nat) {
    span == x.s && x.off <= o < x.off + Blocks(x.c, x.c.steps)
  }

  /** The data outside the decoded blocks is as it was written. */
  predicate RestUnharmed(w: Memory, e: Memory, x: Protection, span: nat, len: nat)
    requires InSpan(w, span, 0, len) && InSpan(e, span, 0, len)
  {
    forall o :: 0 <= o < len && !InBlocks(x, span, o) ==> e[span][o] == w[span][o]
  }

  lemma BlockHolds(x: Protection, m: Memory, k: nat, o: nat)
    requires ValidConfig(x.c) && InSpan(m, x.s, x.off + Blocks(x.c, k), x.c.stepSize)
    requires x.off + Blocks(x.c, k) <= o < x.off + Blocks(x.c, k) + x.c.stepSize
    ensures m[x.s][o] == Block(m, x.c, x.s, x.off, k)[o - x.off - Blocks(x.c, k)]
  {
  }

  lemma WhichBlock(x: Protection, o: nat) returns (k: nat)
    requires ValidConfig(x.c) && x.off <= o < x.off + Blocks(x.c, x.c.steps)
    ensures k < x.c.steps && x.off + Blocks(x.c, k) <= o < x.off + Blocks(x.c, k) + x.c.stepSize
  {
    if x.c.stepSize == 256 { k := (o - x.off) / 256; } else { k := (o - x.off) / 512; }
  }

  /** Restored blocks and an unharmed rest make the data whole. */
  lemma DataWhole(w: Memory, e: Memory, r: Memory, x: Protection, span: nat, len: nat)
    requires ValidConfig(x.c) && InSpan(w, span, 0, len) && InSpan(e, span, 0, len) && InSpan(r, span, 0, len)
    requires SameOutside(e, r, x.s, x.off, x.off + Blocks(x.c, x.c.steps))
    requires SameBlocks(w, r, x.c, x.s, x.off, x.c.steps) && RestUnharmed(w, e, x, span, len)
    ensures Fetch(r, span, 0, len) == Fetch(w, span, 0, len)
  {
    forall o: nat | o < len
      ensures r[span][o] == w[span][o]
    {
      if InBlocks(x, span, o) {
        var k := WhichBlock(x, o);
        assert Block(r, x.c, x.s, x.off, k) == Block(w, x.c, x.s, x.off, k);
        BlockHolds(x, r, k, o);
        BlockHolds(x, w, k, o);
      } else {
        assert r[span][o] == e[span][o];
      }
    }
  }

  /** The spans a damaged page is extracted to. */
  function Damaged(geo: Geometry, p: Pipeline, m: Memory, page: seq<Byte>): (e: Memory)
    requires ValidLayout(p.layout, geo.pageSize) && FitsLayout(p.layout, m) && |page| == geo.pageSize
    ensures SameShape(m, e)
  {
    Extracted(p.layout, page, m)
  }

  lemma ProtectedFewer(w: Memory, x: Protection, k: nat)
    requires ValidConfig(x.c) && Protected(w, x.c, false, x.s, x.off, x.d, x.eccOff, Steps(x)) && k <= Steps(x)
    ensures Protected(w, x.c, false, x.s, x.off, x.d, x.eccOff, k)
    ensures Apart(x.c, x.s, x.off, x.d, x.eccOff, Steps(x)) ==> Apart(x.c, x.s, x.off, x.d, x.eccOff, k)
  {
    hide ProtectedAt;
  }

  /** With repairable flips in every decoded step, and the rest of the data unharmed, the data in the
      spans after the read is the data that was written. */
  lemma SpansRestored(ctxs: seq<ReadContext>, x: Protection, w: Memory, e: Memory, flips: seq<seq<Flip>>, bigHost: bool,
                      span: nat, len: nat)
    requires ValidProtection(x) && ReadsProtected(ctxs, x) && ReadChainFits(ctxs, e) && x.c.bigEndian == bigHost
    requires Protected(w, x.c, false, x.s, x.off, x.d, x.eccOff, Steps(x))
    requires |flips| == x.c.steps && HitBy(w, e, x.c, x.s, x.off, x.d, x.eccOff, flips)
    requires forall k :: 0 <= k < |flips| ==> Repairable(flips[k], x.c.stepSize)
    requires InSpan(w, span, 0, len) && InSpan(e, span, 0, len) && RestUnharmed(w, e, x, span, len)
    ensures var r := ReadChain(ctxs, e, bigHost, 1);
      r.0 && InSpan(r.1, span, 0, len) && Fetch(r.1, span, 0, len) == Fetch(w, span, 0, len)
  {
    hide Decoded, Room, ReadChain, Protected, HitBy, Repairable, SameOutside, SameBlocks, RestUnharmed, Fetch;
    DecodesOnce(ctxs, x, e, bigHost);
    ProtectedFewer(w, x, x.c.steps);
    DecodeRestores(w, e, x.c, x.s, x.off, x.d, x.eccOff, flips, x.c.steps);
    DataWhole(w, e, Decoded(e, x.c, false, x.s, x.off, x.d, x.eccOff, x.c.steps).1, x, span, len);
  }

  /** A read is acknowledged exactly when no decoded step has a double error that cannot be repaired. */
  lemma ReadVerdict(geo: Geometry, p: Pipeline, x: Protection, w: Memory, m: Memory, page: seq<Byte>, req: Request,
                    flips: seq<seq<Flip>>, bigHost: bool)
    requires ReadReady(geo, p, m, req) && |page| == geo.pageSize
    requires ValidProtection(x) && ReadsProtected(p.readCodecs, x) && x.c.bigEndian == bigHost
    requires Protected(w, x.c, false, x.s, x.off, x.d, x.eccOff, Steps(x))
    requires |flips| == x.c.steps && HitBy(w, Damaged(geo, p, m, page), x.c, x.s, x.off, x.d, x.eccOff, flips)
    requires forall k :: 0 <= k < |flips| ==> Repairable(flips[k], x.c.stepSize) || Detected(flips[k], x.c.stepSize)
    ensures var o := ReadOutcome(geo, p, m, page, req, bigHost);
      && (o.0.Acked? <==> forall k :: 0 <= k < |flips| ==> Repairable(flips[k], x.c.stepSize))
      && (o.0.Nacked? ==> o.2 == page)
  {
    hide Decoded, Room, ReadChain, Protected, HitBy, Repairable, Detected, ReadFits, FitsLayout, MappingFits,
         ValidLayout;
    var e := Damaged(geo, p, m, page);
    FitsKept(m, e);
    DecodesOnce(p.readCodecs, x, e, bigHost);
    ProtectedFewer(w, x, x.c.steps);
    DecodeVerdict(w, e, x.c, x.s, x.off, x.d, x.eccOff, flips);
  }
}
