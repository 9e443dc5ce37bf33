// Data written through an encoding pipeline survives one flipped bit in every step of its page.
module EndToEnd {
  import opened Bits
  import opened Spans
  import opened Layout
  import opened LayoutProperties
  import opened PageCopy
  import opened HammingCode
  import opened HammingSecded
  import opened HammingGuarantees
  import opened HammingCodec
  import opened HammingChannel
  import opened Pipelines
  import opened Requests
  import opened RoundTrip
  import opened RequestBytes

  predicate InBlock(x: Protection, k: nat, span: nat, o: nat) {
    span == x.s && x.off + Blocks(x.c, k) <= o < x.off + Blocks(x.c, k) + x.c.stepSize
  }

  predicate InCode(x: Protection, k: nat, span: nat, o: nat) {
    span == x.d && x.eccOff + 3 * k <= o < x.eccOff + 3 * k + 3
  }

  /** Byte `q` of the page holds a byte of block `k` or of its code. */
  ghost predicate StepByte(layout: PageLayout, x: Protection, k: nat, q: nat) {
    exists span: nat, o: nat :: Maps(layout, q, span, o) && (InBlock(x, k, span, o) || InCode(x, k, span, o))
  }

  predicate FlippedIn(b: Byte, r: Byte, i: nat)
    requires i < 8
  {
    r == XorB(b, Mask(i))
  }

  /** Of all bytes of step `k`, only byte `q` of the page may differ, and only in bit `i`. */
  ghost predicate OnlyFlip(layout: PageLayout, x: Protection, page: seq<Byte>, r: seq<Byte>, k: nat, q: nat, i: nat) {
    && |r| == |page| && i < 8
    && forall p: nat :: p < |page| && StepByte(layout, x, k, p) ==>
         r[p] == page[p] || (p == q && FlippedIn(page[p], r[p], i))
  }

  ghost predicate OneFlipAtMost(layout: PageLayout, x: Protection, page: seq<Byte>, r: seq<Byte>, k: nat) {
    exists q: nat, i: nat :: OnlyFlip(layout, x, page, r, k, q, i)
  }

  /** No decoded step has more than one flipped bit on the page. */
  ghost predicate OneFlipEach(layout: PageLayout, x: Protection, page: seq<Byte>, r: seq<Byte>) {
    forall k: nat :: k < x.c.steps ==> OneFlipAtMost(layout, x, page, r, k)
  }

  // From the page to the spans.

  lemma SpanByteOnPage(layout: PageLayout, w: Memory, pageSize: nat, r: seq<Byte>, m: Memory, span: nat, o: nat)
    returns (p: nat)
    requires ValidLayout(layout, pageSize) && FitsLayout(layout, w) && FitsLayout(layout, m) && |r| == pageSize
    requires span < |w| && o < |w[span]|
    ensures p < pageSize && Maps(layout, p, span, o)
    ensures Composed(layout, w, pageSize)[p] == w[span][o]
    ensures span < |m| && o < |m[span]| && Extracted(layout, r, m)[span][o] == r[p]
  {
    var i, q := SpanCovered(layout, pageSize, span, o);
    p := q;
    CompositionIsMap(layout, w, pageSize, p);
    ExtractionIsMap(layout, r, m, p, span, o);
  }

  /** In the spans, too, at most one byte of the step differs, in one bit. */
  ghost predicate SpotFlip(w: Memory, e: Memory, x: Protection, k: nat, fspan: nat, fo: nat, i: nat) {
    && SameShape(w, e) && i < 8
    && forall span, o :: 0 <= span < |w| && 0 <= o < |w[span]| && (InBlock(x, k, span, o) || InCode(x, k, span, o)) ==>
         e[span][o] == w[span][o] || (span == fspan && o == fo && FlippedIn(w[span][o], e[span][o], i))
  }

  lemma SameShapeOfLayout(layout: PageLayout, w: Memory, m: Memory)
    requires FitsLayout(layout, w) && FitsLayout(layout, m)
    ensures SameShape(w, m)
  {
  }

  lemma SpotOfPage(layout: PageLayout, x: Protection, w: Memory, pageSize: nat, r: seq<Byte>, m: Memory, k: nat)
    returns (fspan: nat, fo: nat, i: nat)
    requires ValidLayout(layout, pageSize) && FitsLayout(layout, w) && FitsLayout(layout, m) && |r| == pageSize
    requires OneFlipAtMost(layout, x, Composed(layout, w, pageSize), r, k)
    ensures SpotFlip(w, Extracted(layout, r, m), x, k, fspan, fo, i)
  {
    hide ValidLayout, FitsLayout, Composed, Extracted, Maps, InBlock, InCode, FlippedIn;
    var page, e := Composed(layout, w, pageSize), Extracted(layout, r, m);
    var q: nat, j: nat :| OnlyFlip(layout, x, page, r, k, q, j);
    i := j;
    fspan, fo := 0, 0;
    if span: nat, o: nat :| Maps(layout, q, span, o) {
      fspan, fo := span, o;
    }
    SameShapeOfLayout(layout, w, m);
    forall span: nat, o: nat | span < |w| && o < |w[span]| && (InBlock(x, k, span, o) || InCode(x, k, span, o))
      ensures e[span][o] == w[span][o] || (span == fspan && o == fo && FlippedIn(w[span][o], e[span][o], i))
    {
      var p := SpanByteOnPage(layout, w, pageSize, r, m, span, o);
      assert StepByte(layout, x, k, p);
      if p == q { MapsOnce(layout, pageSize, q, span, o, q, fspan, fo); }
    }
  }

  // From the spans to the flips.

  lemma ReceivedNone(buf: seq<Byte>, code: seq<Byte>)
    requires |code| == 3
    ensures ValidFlips([], |buf|) && Received(buf, code, []) == (buf, code)
  {
  }

  lemma SameBytes(w: Memory, e: Memory, span: nat, off: nat, len: nat)
    requires InSpan(w, span, off, len) && InSpan(e, span, off, len)
    requires forall o :: off <= o < off + len ==> e[span][o] == w[span][o]
    ensures Fetch(e, span, off, len) == Fetch(w, span, off, len)
  {
  }

  lemma OneByte(w: Memory, e: Memory, span: nat, off: nat, len: nat, fo: nat, v: Byte)
    requires InSpan(w, span, off, len) && InSpan(e, span, off, len) && off <= fo < off + len
    requires forall o :: off <= o < off + len ==> e[span][o] == if o == fo then v else w[span][o]
    ensures Fetch(e, span, off, len) == Fetch(w, span, off, len)[fo - off := v]
  {
  }

  /** Block and code of a step do not meet. */
  lemma StepApart(x: Protection, n: nat, k: nat, span: nat, o: nat)
    requires ValidConfig(x.c) && Apart(x.c, x.s, x.off, x.d, x.eccOff, n) && k < n
    ensures !(InBlock(x, k, span, o) && InCode(x, k, span, o))
  {
  }

  /** Block and code of step `k` are inside their spans. */
  predicate StepInside(w: Memory, x: Protection, k: nat)
    requires ValidConfig(x.c)
  {
    InSpan(w, x.s, x.off + Blocks(x.c, k), x.c.stepSize) && InSpan(w, x.d, x.eccOff + 3 * k, 3)
  }

  lemma FlipInByte(buf: seq<Byte>, k: nat, i: nat)
    requires k < |buf| && i < 8
    ensures FlipBit(buf, 8 * k + i) == buf[k := XorB(buf[k], Mask(i))]
    ensures |buf| == 3 ==> FlipCode(buf, 8 * k + i) == buf[k := XorB(buf[k], Mask(i))]
  {
    assert (8 * k + i) / 8 == k && (8 * k + i) % 8 == i;
  }

  lemma DataSpot(w: Memory, e: Memory, x: Protection, k: nat, fo: nat, i: nat) returns (f: Flip)
    requires ValidConfig(x.c) && StepInside(w, x, k) && SpotFlip(w, e, x, k, x.s, fo, i)
    requires InBlock(x, k, x.s, fo) && e[x.s][fo] != w[x.s][fo] && !InCode(x, k, x.s, fo)
    ensures HitAt(w, e, x.c, x.s, x.off, x.d, x.eccOff, k, [f])
  {
    hide Received, Blocks, FlipBit, Mask, XorB;
    var at, buf := x.off + Blocks(x.c, k), Block(w, x.c, x.s, x.off, k);
    f := DataFlip(8 * (fo - at) + i);
    ReceivedOne(buf, Code(w, x.d, x.eccOff, k), f);
    SameBytes(w, e, x.d, x.eccOff + 3 * k, 3);
    OneByte(w, e, x.s, at, x.c.stepSize, fo, e[x.s][fo]);
    assert FlippedIn(w[x.s][fo], e[x.s][fo], i);
    FlipInByte(buf, fo - at, i);
  }

  lemma CodeSpot(w: Memory, e: Memory, x: Protection, k: nat, fo: nat, i: nat) returns (f: Flip)
    requires ValidConfig(x.c) && StepInside(w, x, k) && SpotFlip(w, e, x, k, x.d, fo, i)
    requires InCode(x, k, x.d, fo) && e[x.d][fo] != w[x.d][fo] && !InBlock(x, k, x.d, fo)
    ensures HitAt(w, e, x.c, x.s, x.off, x.d, x.eccOff, k, [f])
  {
    hide Received, Blocks, FlipCode, Mask, XorB;
    var at, code := x.eccOff + 3 * k, Code(w, x.d, x.eccOff, k);
    f := CodeFlip(8 * (fo - at) + i);
    ReceivedOne(Block(w, x.c, x.s, x.off, k), code, f);
    SameBytes(w, e, x.s, x.off + Blocks(x.c, k), x.c.stepSize);
    OneByte(w, e, x.d, at, 3, fo, e[x.d][fo]);
    assert FlippedIn(w[x.d][fo], e[x.d][fo], i);
    FlipInByte(code, fo - at, i);
  }

  lemma NoSpot(w: Memory, e: Memory, x: Protection, k: nat, fspan: nat, fo: nat, i: nat)
    requires ValidConfig(x.c) && StepInside(w, x, k) && SpotFlip(w, e, x, k, fspan, fo, i)
    requires (InBlock(x, k, fspan, fo) || InCode(x, k, fspan, fo)) ==> e[fspan][fo] == w[fspan][fo]
    ensures HitAt(w, e, x.c, x.s, x.off, x.d, x.eccOff, k, [])
  {
    hide Received, Blocks;
    ReceivedNone(Block(w, x.c, x.s, x.off, k), Code(w, x.d, x.eccOff, k));
    SameBytes(w, e, x.s, x.off + Blocks(x.c, k), x.c.stepSize);
    SameBytes(w, e, x.d, x.eccOff + 3 * k, 3);
  }

  lemma SpotIsHit(w: Memory, e: Memory, x: Protection, n: nat, k: nat, fspan: nat, fo: nat, i: nat)
    returns (fs: seq<Flip>)
    requires ValidConfig(x.c) && k < n
    requires Apart(x.c, x.s, x.off, x.d, x.eccOff, n) && Room(w, x.c, x.s, x.off, x.d, x.eccOff, n)
    requires SpotFlip(w, e, x, k, fspan, fo, i)
    ensures HitAt(w, e, x.c, x.s, x.off, x.d, x.eccOff, k, fs) && Repairable(fs, x.c.stepSize)
  {
    hide HitAt, SpotFlip, Apart;
    RoomForStep(w, x.c, x.s, x.off, x.d, x.eccOff, k, n);
    StepApart(x, n, k, fspan, fo);
    assert SameShape(w, e) by { SpotShape(w, e, x, k, fspan, fo, i); }
    if InBlock(x, k, fspan, fo) && e[fspan][fo] != w[fspan][fo] {
      var f := DataSpot(w, e, x, k, fo, i);
      fs := [f];
    } else if InCode(x, k, fspan, fo) && e[fspan][fo] != w[fspan][fo] {
      var f := CodeSpot(w, e, x, k, fo, i);
      fs := [f];
    } else {
      NoSpot(w, e, x, k, fspan, fo, i);
      fs := [];
    }
  }

  lemma SpotShape(w: Memory, e: Memory, x: Protection, k: nat, fspan: nat, fo: nat, i: nat)
    requires SpotFlip(w, e, x, k, fspan, fo, i)
    ensures SameShape(w, e) && i < 8
  {
  }

  /** Every damaged step is one the decoder repairs. */
  lemma {:induction false} PageIsHit(layout: PageLayout, x: Protection, w: Memory, pageSize: nat, r: seq<Byte>,
                                     m: Memory, n: nat, k: nat)
    returns (flips: seq<seq<Flip>>)
    requires ValidLayout(layout, pageSize) && FitsLayout(layout, w) && FitsLayout(layout, m) && |r| == pageSize
    requires ValidConfig(x.c) && k <= n
    requires Apart(x.c, x.s, x.off, x.d, x.eccOff, n) && Room(w, x.c, x.s, x.off, x.d, x.eccOff, n)
    requires forall j: nat :: j < n ==> OneFlipAtMost(layout, x, Composed(layout, w, pageSize), r, j)
    ensures |flips| == k && HitBy(w, Extracted(layout, r, m), x.c, x.s, x.off, x.d, x.eccOff, flips)
    ensures forall j :: 0 <= j < k ==> Repairable(flips[j], x.c.stepSize)
  {
    hide ValidLayout, FitsLayout, Composed, Extracted, OneFlipAtMost, HitAt, Repairable, Apart, Room;
    if k == 0 {
      flips := [];
    } else {
      flips := PageIsHit(layout, x, w, pageSize, r, m, n, k - 1);
      var fspan, fo, i := SpotOfPage(layout, x, w, pageSize, r, m, k - 1);
      var fs := SpotIsHit(w, Extracted(layout, r, m), x, n, k - 1, fspan, fo, i);
      flips := flips + [fs];
    }
  }

  // The whole way.

  /** The data that no step protects is not damaged on the page. */
  ghost predicate BareDataUnharmed(layout: PageLayout, x: Protection, page: seq<Byte>, r: seq<Byte>,
                                   span: nat, len: nat) {
    && |r| == |page|
    && forall p: nat, o: nat :: p < |page| && o < len && Maps(layout, p, span, o) && !InBlocks(x, span, o) ==>
         r[p] == page[p]
  }

  lemma BareDataInSpans(layout: PageLayout, x: Protection, w: Memory, pageSize: nat, r: seq<Byte>, m: Memory,
                        span: nat, len: nat)
    requires ValidLayout(layout, pageSize) && FitsLayout(layout, w) && FitsLayout(layout, m) && |r| == pageSize
    requires BareDataUnharmed(layout, x, Composed(layout, w, pageSize), r, span, len)
    requires InSpan(w, span, 0, len) && InSpan(Extracted(layout, r, m), span, 0, len)
    ensures RestUnharmed(w, Extracted(layout, r, m), x, span, len)
  {
    hide ValidLayout, FitsLayout, Composed, Extracted, Maps, InBlocks;
    forall o: nat | o < len && !InBlocks(x, span, o)
      ensures Extracted(layout, r, m)[span][o] == w[span][o]
    {
      var p := SpanByteOnPage(layout, w, pageSize, r, m, span, o);
    }
  }

  /** A write request puts its data and its out-of-band bytes at the start of their spans; mapped to
      one span, the out-of-band bytes overwrite the data. */
  lemma TakenBytes(mapping: Mapping, m: Memory, page: seq<Byte>, geo: Geometry, req: Request)
    requires ValidRequest(geo, req) && |page| == geo.pageSize && MappingFits(mapping, m, req)
    ensures var t := Taken(mapping, m, page, geo, req);
      && InSpan(t, mapping.dataSpan, 0, req.datalen) && InSpan(t, mapping.oobSpan, 0, req.ooblen)
      && Fetch(t, mapping.oobSpan, 0, req.ooblen)
         == page[geo.pageSize - geo.oobSize..geo.pageSize - geo.oobSize + req.ooblen]
      && (mapping.dataSpan != mapping.oobSpan || req.ooblen == 0 ==>
            Fetch(t, mapping.dataSpan, 0, req.datalen) == page[..req.datalen])
  {
    hide Fetch, Put;
    var oob := page[geo.pageSize - geo.oobSize..geo.pageSize - geo.oobSize + req.ooblen];
    var t := Store(m, mapping.dataSpan, 0, page[..req.datalen]);
    StoreOutside(m, mapping.dataSpan, 0, page[..req.datalen]);
    StoreOutside(t, mapping.oobSpan, 0, oob);
    if mapping.dataSpan != mapping.oobSpan || req.ooblen == 0 {
      FetchOutside(t, Taken(mapping, m, page, geo, req), mapping.oobSpan, 0, req.ooblen,
                   mapping.dataSpan, 0, req.datalen);
    }
  }

  /** The page returned by a read: data at its start, out-of-band bytes where those begin, zero elsewhere. */
  lemma GivenBytes(mapping: Mapping, m: Memory, geo: Geometry, req: Request)
    requires ValidRequest(geo, req) && MappingFits(mapping, m, req)
    ensures var page, oobOffset := Given(mapping, m, geo, req), geo.pageSize - geo.oobSize;
      && page[..req.datalen] == Fetch(m, mapping.dataSpan, 0, req.datalen)
      && page[oobOffset..oobOffset + req.ooblen] == Fetch(m, mapping.oobSpan, 0, req.ooblen)
      && (forall i :: req.datalen <= i < oobOffset || oobOffset + req.ooblen <= i < geo.pageSize ==> page[i] == 0)
  {
    hide Fetch;
  }

  /** The pipeline encodes what it writes, and decodes what it reads, on the span that carries the data. */
  predicate Guards(p: Pipeline, x: Protection, h: nat, write: Request, read: Request, bigHost: bool) {
    && p.writeSpans.Some? && p.readSpans.dataSpan == p.writeSpans.value.dataSpan && read.datalen == write.datalen
    && (p.writeSpans.value.dataSpan != p.writeSpans.value.oobSpan || write.ooblen == 0)
    && WritesProtected(p.writeCodecs, h, x, p.readSpans.dataSpan, write.datalen)
    && ReadsProtected(p.readCodecs, x) && x.c.bigEndian == bigHost
  }

  /** What a write leaves in the spans and on the page. */
  lemma WriteLeaves(geo: Geometry, p: Pipeline, x: Protection, h: nat, m: Memory, page: seq<Byte>, write: Request,
                    read: Request, bigHost: bool)
    requires WriteReady(geo, p, m, write) && |page| == geo.pageSize && Guards(p, x, h, write, read, bigHost)
    ensures var w := WriteOutcome(geo, p, m, page, write, bigHost);
      && w.0 == Acked(geo.pageSize - geo.oobSize, geo.oobSize)
      && FitsLayout(p.layout, w.1) && w.2 == Composed(p.layout, w.1, geo.pageSize)
      && InSpan(w.1, p.readSpans.dataSpan, 0, write.datalen)
      && Fetch(w.1, p.readSpans.dataSpan, 0, write.datalen) == page[..write.datalen]
      && Protected(w.1, x.c, false, x.s, x.off, x.d, x.eccOff, Steps(x))
  {
    hide ValidLayout, FitsLayout, WriteFits, WritesProtected, ReadsProtected, Composed, Taken, WriteChain, Protected,
         Fetch, MappingFits;
    var mapping := p.writeSpans.value;
    var t := Taken(mapping, m, page, geo, write);
    FitsKept(m, t);
    TakenBytes(mapping, m, page, geo, write);
    assert ValidConfig(x.c) by { ProtectionIsValid(p.writeCodecs, h, x, mapping.dataSpan, write.datalen); }
    WriteProtects(p.writeCodecs, h, x, t, bigHost, |p.writeCodecs|, mapping.dataSpan, write.datalen);
    EncoderInChain(p.writeCodecs, h, x, mapping.dataSpan, write.datalen);
    FitsKept(m, WriteResult(geo, p, m, page, write, bigHost).1);
  }

  lemma ProtectionIsValid(ctxs: seq<WriteContext>, h: nat, x: Protection, span: nat, len: nat)
    requires WritesProtected(ctxs, h, x, span, len)
    ensures ValidProtection(x) && ValidConfig(x.c)
  {
  }

  lemma EncoderInChain(ctxs: seq<WriteContext>, h: nat, x: Protection, span: nat, len: nat)
    requires WritesProtected(ctxs, h, x, span, len)
    ensures h < |ctxs|
  {
  }

  /** Decoding the damaged page gives the data back. */
  lemma ChainRecovers(layout: PageLayout, ctxs: seq<ReadContext>, x: Protection, w: Memory, pageSize: nat,
                      r: seq<Byte>, m: Memory, span: nat, len: nat)
    requires ValidLayout(layout, pageSize) && FitsLayout(layout, w) && FitsLayout(layout, m) && |r| == pageSize
    requires ValidProtection(x) && ReadsProtected(ctxs, x) && ReadChainFits(ctxs, Extracted(layout, r, m))
    requires InSpan(w, span, 0, len) && Protected(w, x.c, false, x.s, x.off, x.d, x.eccOff, Steps(x))
    requires OneFlipEach(layout, x, Composed(layout, w, pageSize), r)
    requires BareDataUnharmed(layout, x, Composed(layout, w, pageSize), r, span, len)
    ensures |ctxs| == 1
    ensures var q := ReadChain(ctxs, Extracted(layout, r, m), x.c.bigEndian, 1);
      q.0 && InSpan(q.1, span, 0, len) && Fetch(q.1, span, 0, len) == Fetch(w, span, 0, len)
  {
    hide ValidLayout, FitsLayout, ReadFits, ReadsProtected, Composed, Extracted, ReadChain, Protected, Fetch,
         OneFlipAtMost, BareDataUnharmed, HitBy, Repairable, Apart, Room;
    var e := Extracted(layout, r, m);
    DecodesOnce(ctxs, x, e, x.c.bigEndian);
    Shapes(layout, w, m, e, span, len, x);
    ProtectedFewer(w, x, x.c.steps);
    var flips := PageIsHit(layout, x, w, pageSize, r, m, x.c.steps, x.c.steps);
    BareDataInSpans(layout, x, w, pageSize, r, m, span, len);
    SpansRestored(ctxs, x, w, e, flips, x.c.bigEndian, span, len);
  }

  /** A worker's read of the damaged page, on whatever buffers `m`, gives the data back. */
  lemma ReadRecovers(geo: Geometry, p: Pipeline, x: Protection, h: nat, w: Memory, r: seq<Byte>, m: Memory,
                     write: Request, read: Request, bigHost: bool)
    requires ReadReady(geo, p, m, read) && |r| == geo.pageSize && Guards(p, x, h, write, read, bigHost)
    requires FitsLayout(p.layout, w) && InSpan(w, p.readSpans.dataSpan, 0, read.datalen)
    requires Protected(w, x.c, false, x.s, x.off, x.d, x.eccOff, Steps(x))
    requires OneFlipEach(p.layout, x, Composed(p.layout, w, geo.pageSize), r)
    requires BareDataUnharmed(p.layout, x, Composed(p.layout, w, geo.pageSize), r, p.readSpans.dataSpan, read.datalen)
    ensures var o := ReadOutcome(geo, p, m, r, read, bigHost);
      && o.0 == Acked(read.datalen, read.ooblen)
      && o.2[..read.datalen] == Fetch(w, p.readSpans.dataSpan, 0, read.datalen)
  {
    hide ValidLayout, FitsLayout, ReadFits, WritesProtected, ReadsProtected, Composed, Extracted, ReadChain, Protected,
         Fetch,
         MappingFits, OneFlipEach, BareDataUnharmed, Given;
    FitsKept(m, Extracted(p.layout, r, m));
    ProtectionIsValid(p.writeCodecs, h, x, p.readSpans.dataSpan, write.datalen);
    ChainRecovers(p.layout, p.readCodecs, x, w, geo.pageSize, r, m, p.readSpans.dataSpan, read.datalen);
    var result := ReadResult(geo, p, m, r, read, bigHost);
    FitsKept(m, result.1);
    GivenBytes(p.readSpans, result.1, geo, read);
  }

  lemma Shapes(layout: PageLayout, w: Memory, m: Memory, e: Memory, span: nat, len: nat, x: Protection)
    requires FitsLayout(layout, w) && FitsLayout(layout, m) && SameShape(m, e) && InSpan(w, span, 0, len)
    requires ValidConfig(x.c) && Room(e, x.c, x.s, x.off, x.d, x.eccOff, x.c.steps)
    ensures SameShape(w, e) && InSpan(e, span, 0, len) && Room(w, x.c, x.s, x.off, x.d, x.eccOff, x.c.steps)
  {
  }

  /** The data of a write request comes back from a read of its page, if no decoded step has more than
      one flipped bit and the data that no step protects is not damaged; and so does every out-of-band
      byte that no codec touches and no damage hits. Whatever else is on the page may be damaged at will,
      and both workers may have served any requests before. */
  lemma DataSurvives(geo: Geometry, p: Pipeline, x: Protection, h: nat, m: Memory, page: seq<Byte>, write: Request,
                     n: Memory, r: seq<Byte>, read: Request, bigHost: bool)
    requires WriteReady(geo, p, m, write) && |page| == geo.pageSize
    requires ReadReady(geo, p, n, read) && |r| == geo.pageSize
    requires Guards(p, x, h, write, read, bigHost)
    requires var stored := WriteOutcome(geo, p, m, page, write, bigHost).2;
      && OneFlipEach(p.layout, x, stored, r)
      && BareDataUnharmed(p.layout, x, stored, r, p.readSpans.dataSpan, write.datalen)
    ensures WriteOutcome(geo, p, m, page, write, bigHost).0 == Acked(geo.pageSize - geo.oobSize, geo.oobSize)
    ensures ReadOutcome(geo, p, n, r, read, bigHost).0 == Acked(read.datalen, read.ooblen)
    ensures ReadOutcome(geo, p, n, r, read, bigHost).2[..read.datalen] == page[..write.datalen]
    ensures OobReturns(geo, p, page, write, WriteOutcome(geo, p, m, page, write, bigHost).2, r, read,
                       ReadOutcome(geo, p, n, r, read, bigHost).2)
  {
    hide WriteOutcome, ReadOutcome, ValidLayout, FitsLayout, WriteChainFits, ReadChainFits, WritesProtected,
         ReadsProtected,
         Composed, Protected, Fetch, MappingFits, OneFlipEach, BareDataUnharmed, OobReturns;
    WriteLeaves(geo, p, x, h, m, page, write, read, bigHost);
    ReadRecovers(geo, p, x, h, WriteOutcome(geo, p, m, page, write, bigHost).1, r, n, write, read, bigHost);
    AllOobSurvives(geo, p, m, page, write, n, r, read, bigHost);
  }
}
