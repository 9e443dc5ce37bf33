// write_process and read_process in place, on the span buffers and the page buffer of a worker.
module Queues {
  import opened Bits
  import opened Spans
  import opened Layout
  import opened PageCopy
  import HammingCodec
  import opened Pipelines
  import opened Requests

  /** memset_write */
  method MemsetWrite(to: array<Byte>, off: nat, len: nat, pattern: Byte)
    requires off + len <= to.Length
    modifies to
    ensures to[..] == Put(old(to[..]), off, seq(len, _ => pattern))
  {
    for i := 0 to len
      invariant forall j :: 0 <= j < to.Length ==> to[j] == if off <= j < off + i then pattern else old(to[j])
    {
      to[off + i] := pattern;
    }
    assert forall j :: 0 <= j < to.Length ==> to[j] == Put(old(to[..]), off, seq(len, _ => pattern))[j];
  }

  lemma PutInPlace(m: Memory, bufs: seq<array<Byte>>, d: nat, off: nat, bytes: seq<Byte>)
    requires |m| == |bufs| && InSpan(m, d, off, |bytes|)
    requires forall i :: 0 <= i < |bufs| && i != d ==> bufs[i][..] == m[i]
    requires bufs[d][..] == Put(m[d], off, bytes)
    ensures View(bufs) == Store(m, d, off, bytes)
  {
  }

  /** One codec of the read chain. */
  method RunRead(ctx: ReadContext, bufs: seq<array<Byte>>, bigHost: bool) returns (ok: bool)
    requires Distinct(bufs) && ReadFits(ctx, View(bufs))
    modifies bufs
    ensures (ok, View(bufs)) == ReadStep(ctx, old(View(bufs)), bigHost)
  {
    hide HammingCodec.Decoded, Distinct, View;
    match ctx.codec
    case HammingCodec(c) =>
      var answer := HammingCodec.DecodeRange(c, bufs, ctx.data.span, ctx.data.range.start, ctx.data.range.length,
                                             ctx.oob.value.span, ctx.oob.value.range.start,
                                             ctx.oob.value.range.length, bigHost);
      return answer.Ack?;
    case _ =>
      return false;
  }

  /** One codec of the write chain. */
  method RunWrite(ctx: WriteContext, bufs: seq<array<Byte>>, bigHost: bool) returns (ok: bool)
    requires Distinct(bufs) && WriteFits(ctx, View(bufs))
    modifies bufs
    ensures (ok, View(bufs)) == WriteStep(ctx, old(View(bufs)), bigHost)
  {
    hide HammingCodec.Encoded, Put;
    ghost var m := View(bufs);
    match ctx.codec
    case HammingCodec(c) =>
      var answer := HammingCodec.Encode(c, bufs, ctx.src.value.span, ctx.src.value.range.start,
                                        ctx.src.value.range.length,
                                        ctx.dest.span, ctx.dest.range.start, ctx.dest.range.length, bigHost);
      return answer.Ack?;
    case MemsetCodec(pattern) =>
      MemsetWrite(bufs[ctx.dest.span], ctx.dest.range.start, ctx.dest.range.length, pattern);
      PutInPlace(m, bufs, ctx.dest.span, ctx.dest.range.start, seq(ctx.dest.range.length, _ => pattern));
      return true;
    case NackCodec =>
      return false;
  }

  lemma {:induction false} ReadStops(ctxs: seq<ReadContext>, m: Memory, bigHost: bool, k: nat, n: nat)
    requires ReadChainFits(ctxs, m) && k <= n <= |ctxs| && !ReadChain(ctxs, m, bigHost, k).0
    ensures ReadChain(ctxs, m, bigHost, n) == ReadChain(ctxs, m, bigHost, k)
  {
    hide ReadStep;
    if k < n { ReadStops(ctxs, m, bigHost, k, n - 1); }
  }

  lemma {:induction false} WriteStops(ctxs: seq<WriteContext>, m: Memory, bigHost: bool, k: nat, n: nat)
    requires WriteChainFits(ctxs, m) && k <= n <= |ctxs| && !WriteChain(ctxs, m, bigHost, k).0
    ensures WriteChain(ctxs, m, bigHost, n) == WriteChain(ctxs, m, bigHost, k)
  {
    hide WriteStep;
    if k < n { WriteStops(ctxs, m, bigHost, k, n - 1); }
  }

  lemma ReadNext(ctxs: seq<ReadContext>, m: Memory, bigHost: bool, k: nat)
    requires ReadChainFits(ctxs, m) && k < |ctxs| && ReadChain(ctxs, m, bigHost, k).0
    ensures ReadFits(ctxs[k], ReadChain(ctxs, m, bigHost, k).1)
    ensures ReadChain(ctxs, m, bigHost, k + 1) == ReadStep(ctxs[k], ReadChain(ctxs, m, bigHost, k).1, bigHost)
  {
    hide ReadStep, ReadFits;
    FitsKept(m, ReadChain(ctxs, m, bigHost, k).1);
    assert ReadFits(ctxs[k], m);
  }

  lemma WriteNext(ctxs: seq<WriteContext>, m: Memory, bigHost: bool, k: nat)
    requires WriteChainFits(ctxs, m) && k < |ctxs| && WriteChain(ctxs, m, bigHost, k).0
    ensures WriteFits(ctxs[k], WriteChain(ctxs, m, bigHost, k).1)
    ensures WriteChain(ctxs, m, bigHost, k + 1) == WriteStep(ctxs[k], WriteChain(ctxs, m, bigHost, k).1, bigHost)
  {
    hide WriteStep, WriteFits;
    FitsKept(m, WriteChain(ctxs, m, bigHost, k).1);
    assert WriteFits(ctxs[k], m);
  }

  /** The loop over the read codecs. */
  method RunReads(ctxs: seq<ReadContext>, bufs: seq<array<Byte>>, bigHost: bool) returns (ok: bool)
    requires Distinct(bufs) && ReadChainFits(ctxs, View(bufs))
    modifies bufs
    ensures (ok, View(bufs)) == ReadChain(ctxs, old(View(bufs)), bigHost, |ctxs|)
  {
    hide ReadStep, ReadFits, Distinct, View;
    ghost var m := View(bufs);
    for idx := 0 to |ctxs|
      invariant ReadChain(ctxs, m, bigHost, idx) == (true, View(bufs))
    {
      ReadNext(ctxs, m, bigHost, idx);
      ok := RunRead(ctxs[idx], bufs, bigHost);
      if !ok {
        ReadStops(ctxs, m, bigHost, idx + 1, |ctxs|);
        return;
      }
    }
    ok := true;
  }

  /** The loop over the write codecs. */
  method RunWrites(ctxs: seq<WriteContext>, bufs: seq<array<Byte>>, bigHost: bool) returns (ok: bool)
    requires Distinct(bufs) && WriteChainFits(ctxs, View(bufs))
    modifies bufs
    ensures (ok, View(bufs)) == WriteChain(ctxs, old(View(bufs)), bigHost, |ctxs|)
  {
    hide WriteStep, WriteFits, Distinct, View;
    ghost var m := View(bufs);
    for idx := 0 to |ctxs|
      invariant WriteChain(ctxs, m, bigHost, idx) == (true, View(bufs))
    {
      WriteNext(ctxs, m, bigHost, idx);
      ok := RunWrite(ctxs[idx], bufs, bigHost);
      if !ok {
        WriteStops(ctxs, m, bigHost, idx + 1, |ctxs|);
        return;
      }
    }
    ok := true;
  }

  /** copy_write_data_and_oob_spans_to_raw_page_buffer */
  method TakeRequest(mapping: Mapping, bufs: seq<array<Byte>>, page: array<Byte>, geo: Geometry, req: Request)
    requires Distinct(bufs) && page !in bufs && page.Length == geo.pageSize
    requires ValidRequest(geo, req) && MappingFits(mapping, View(bufs), req)
    modifies bufs
    ensures page[..] == old(page[..])
    ensures View(bufs) == Taken(mapping, old(View(bufs)), page[..], geo, req)
  {
    hide Put;
    ghost var m := View(bufs);
    var oobOffset := geo.pageSize - geo.oobSize;
    CopyIn(bufs[mapping.dataSpan], 0, page[..req.datalen]);
    PutInPlace(m, bufs, mapping.dataSpan, 0, page[..req.datalen]);
    ghost var n := View(bufs);
    CopyIn(bufs[mapping.oobSpan], 0, page[oobOffset..oobOffset + req.ooblen]);
    PutInPlace(n, bufs, mapping.oobSpan, 0, page[oobOffset..oobOffset + req.ooblen]);
  }

  /** copy_result_data_and_oob_spans_to_raw_page_buffer */
  method GiveResult(mapping: Mapping, bufs: seq<array<Byte>>, page: array<Byte>, geo: Geometry, req: Request)
    requires page !in bufs && page.Length == geo.pageSize
    requires ValidRequest(geo, req) && MappingFits(mapping, View(bufs), req)
    modifies page
    ensures View(bufs) == old(View(bufs))
    ensures page[..] == Given(mapping, View(bufs), geo, req)
  {
    hide Put;
    ghost var m := View(bufs);
    var oobOffset := geo.pageSize - geo.oobSize;
    Fill(page, 0);
    assert View(bufs) == m;
    CopyIn(page, 0, bufs[mapping.dataSpan][..req.datalen]);
    assert View(bufs) == m && m[mapping.dataSpan][0..req.datalen] == m[mapping.dataSpan][..req.datalen];
    CopyIn(page, oobOffset, bufs[mapping.oobSpan][..req.ooblen]);
    assert View(bufs) == m && m[mapping.oobSpan][0..req.ooblen] == m[mapping.oobSpan][..req.ooblen];
  }

  /** write_process, once the pipeline is selected. */
  method WriteProcess(geo: Geometry, p: Pipeline, bufs: seq<array<Byte>>, page: array<Byte>, req: Request,
                      bigHost: bool)
    returns (reply: Reply)
    requires Distinct(bufs) && page !in bufs && page.Length == geo.pageSize && WriteReady(geo, p, View(bufs), req)
    modifies bufs, page
    ensures (reply, View(bufs), page[..]) == WriteOutcome(geo, p, old(View(bufs)), old(page[..]), req, bigHost)
  {
    hide ValidLayout, FitsLayout, WriteChain, Taken, Composed, View, Distinct, WriteFits, SameShape;
    if p.writeSpans.None? {
      return Nacked(EIO);
    }
    ghost var m, raw := View(bufs), page[..];
    TakeRequest(p.writeSpans.value, bufs, page, geo, req);
    ghost var t := View(bufs);
    FitsKept(m, t);
    var ok := RunWrites(p.writeCodecs, bufs, bigHost);
    if !ok {
      return Nacked(CODEC_ERRNO);
    }
    FitsKept(t, View(bufs));
    ComposePage(p.layout, bufs, page);
    return Acked(geo.pageSize - geo.oobSize, geo.oobSize);
  }

  /** read_process, once the pipeline is selected. */
  method ReadProcess(geo: Geometry, p: Pipeline, bufs: seq<array<Byte>>, page: array<Byte>, req: Request, bigHost: bool)
    returns (reply: Reply)
    requires Distinct(bufs) && page !in bufs && page.Length == geo.pageSize && ReadReady(geo, p, View(bufs), req)
    modifies bufs, page
    ensures (reply, View(bufs), page[..]) == ReadOutcome(geo, p, old(View(bufs)), old(page[..]), req, bigHost)
  {
    hide ValidLayout, FitsLayout, ReadChain, Given, Extracted, View, Distinct, ReadFits, SameShape;
    ghost var m, raw := View(bufs), page[..];
    ExtractPage(p.layout, bufs, page);
    ghost var e := View(bufs);
    FitsKept(m, e);
    var ok := RunReads(p.readCodecs, bufs, bigHost);
    if !ok {
      return Nacked(CODEC_ERRNO);
    }
    FitsKept(e, View(bufs));
    GiveResult(p.readSpans, bufs, page, geo, req);
    return Acked(req.datalen, req.ooblen);
  }
}
