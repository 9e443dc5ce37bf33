// What the pipelines of the shipped configuration for a NAND with 2048 + 64 bytes a page share.
module NandFlash {
  import opened Wrappers
  import opened Bits
  import opened Spans
  import opened Layout
  import opened LayoutProperties
  import opened SpanPointers
  import opened HammingCodec
  import opened Pipelines
  import opened Creation
  import opened Requests
  import opened RoundTrip
  import opened RequestBytes
  import opened EndToEnd

  const GEOMETRY := Geometry(2112, 64)

  const HAMMING := Config(256, 8, false, false)

  const DATA := CfgSpan("data", Range(0, 2048))
  const CODES := CfgSpan("oob", Range(0, 24))

  const MAPPING := CfgMapping("data", "oob")

  const DECODER := CfgReadCodec(HammingCodec(HAMMING), DATA, Some(CODES))
  const ENCODER := CfgWriteCodec(HammingCodec(HAMMING), CODES, Some(DATA))

  /** A request whose out-of-band bytes are no more than the span they map to has. */
  predicate Fitting(req: Request, ooblen: nat) {
    req.datalen <= 2048 && req.ooblen <= ooblen && req.ooblen <= 64
  }

  // What is shown of each pipeline once.

  /** Parts in the order `placed`, the only one there is, that pass all checks. */
  predicate LayoutFine(parts: seq<CfgPart>, placed: seq<Part>) {
    && Placed(parts) == placed && StrictlySorted(placed) && AdjacentApart(placed)
    && FirstError(GEOMETRY.pageSize, parts, |parts|) == None && !HasEmptyName(parts)
  }

  /** Whatever sort is used, only the names can stand in the way. */
  lemma CreatableWhenStaying(cfg: CfgPipeline, placed: seq<Part>, qsort: seq<Part> -> seq<Part>, h: string -> nat)
    requires ValidCodecs(cfg) && PartsAcceptable(cfg, SpanMap(NamesOf(cfg), [])) && LayoutFine(cfg.parts, placed)
    requires forall parts :: SortOf(parts, qsort(parts))
    ensures qsort(Placed(cfg.parts)) == placed && AdjacentApart(placed)
    ensures FirstError(GEOMETRY.pageSize, cfg.parts, |cfg.parts|) == None
    ensures Creatable(GEOMETRY.pageSize, cfg, qsort, h) <==> SpansStay(cfg.parts, h)
  {
    hide PartsAcceptable, SortOf, SpansStay, AdjacentApart, StrictlySorted, HasEmptyName, FirstError;
    var sorted := qsort(Placed(cfg.parts));
    assert SortOf(Placed(cfg.parts), sorted);
    SortIsUnique(placed, sorted);
  }

  /** All data is in the decoded blocks. */
  lemma NoBareData(layout: PageLayout, x: Protection, page: seq<Byte>, r: seq<Byte>, len: nat)
    requires |r| == |page| && x.off == 0 && len <= Blocks(x.c, x.c.steps)
    ensures BareDataUnharmed(layout, x, page, r, x.s, len)
  {
    assert forall o: nat :: o < len ==> InBlocks(x, x.s, o);
  }

  /** On a little-endian host, whatever data of up to a page is written comes back, if of the bytes
      that hold a block of 256 bytes and its code at most one has a flipped bit. */
  lemma Survives(p: Pipeline, x: Protection, m: Memory, page: seq<Byte>, write: Request, n: Memory, r: seq<Byte>,
                 read: Request)
    requires WriteReady(GEOMETRY, p, m, write) && ReadReady(GEOMETRY, p, n, read)
    requires |page| == GEOMETRY.pageSize && |r| == GEOMETRY.pageSize
    requires Guards(p, x, 0, write, read, false) && p.readSpans.dataSpan == x.s && x.off == 0
    requires write.datalen <= Blocks(x.c, x.c.steps)
    ensures var stored := WriteOutcome(GEOMETRY, p, m, page, write, false).2;
      OneFlipEach(p.layout, x, stored, r) ==>
        && ReadOutcome(GEOMETRY, p, n, r, read, false).0 == Acked(read.datalen, read.ooblen)
        && ReadOutcome(GEOMETRY, p, n, r, read, false).2[..read.datalen] == page[..write.datalen]
        && OobReturns(GEOMETRY, p, page, write, stored, r, read, ReadOutcome(GEOMETRY, p, n, r, read, false).2)
  {
    hide WriteOutcome, ReadOutcome, WriteReady, ReadReady, OneFlipEach, BareDataUnharmed, Blocks, WritesProtected,
         ReadsProtected, OobReturns;
    var stored := WriteOutcome(GEOMETRY, p, m, page, write, false).2;
    NoBareData(p.layout, x, stored, r, write.datalen);
    if OneFlipEach(p.layout, x, stored, r) {
      DataSurvives(GEOMETRY, p, x, 0, m, page, write, n, r, read, false);
    }
  }

  /** The out-of-band bytes behind the codes come back from their places on the page. */
  ghost predicate OobComesBack(place: nat -> nat, page: seq<Byte>, write: Request, stored: seq<Byte>, r: seq<Byte>,
                               read: Request, out: seq<Byte>) {
    forall o: nat :: 24 <= o < write.ooblen && o < read.ooblen ==>
      && place(o) < |stored| && place(o) < |r| && 2048 + o < |page| && 2048 + o < |out|
      && (r[place(o)] == stored[place(o)] ==> out[2048 + o] == page[2048 + o])
  }

  lemma BehindTheCodes(p: Pipeline, place: nat -> nat, page: seq<Byte>, write: Request, stored: seq<Byte>, r: seq<Byte>,
                       read: Request, out: seq<Byte>)
    requires OobReturns(GEOMETRY, p, page, write, stored, r, read, out)
    requires forall o: nat :: 24 <= o < write.ooblen && o < read.ooblen ==>
      place(o) < GEOMETRY.pageSize && PassesThrough(p, write, read, place(o), o)
    ensures OobComesBack(place, page, write, stored, r, read, out)
  {
    hide PassesThrough;
  }

  lemma SameSlice(a: seq<Byte>, b: seq<Byte>, off: nat, base: nat, len: nat)
    requires off + len <= |a| && base + off + len <= |b|
    requires forall o :: off <= o < off + len ==> a[o] == b[base + o]
    ensures a[off..off + len] == b[base + off..base + off + len]
  {
  }
}
