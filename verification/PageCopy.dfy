// Composing the raw page from the span buffers, and extracting it back into them.
module PageCopy {
  import opened Bits
  import opened Spans
  import opened Layout
  import opened LayoutProperties

  /** One buffer for every span, of the span's length. */
  predicate FitsLayout(layout: PageLayout, m: Memory) {
    HasLengths(m, layout.totals)
  }

  lemma PartFits(layout: PageLayout, pageSize: nat, m: Memory, i: nat)
    requires ValidLayout(layout, pageSize) && FitsLayout(layout, m) && i < |layout.parts|
    ensures InSpan(m, layout.parts[i].spanIdx, layout.parts[i].inSpan.start, layout.parts[i].inPage.length)
    ensures End(layout.parts[i].inPage) <= pageSize
  {
    InSpanEnd(layout, pageSize, i);
  }

  lemma SameFits(layout: PageLayout, m: Memory, n: Memory)
    requires FitsLayout(layout, m) && SameShape(m, n)
    ensures FitsLayout(layout, n)
  {
  }

  /** The page after the first `n` parts are copied into it. */
  function ComposedParts(layout: PageLayout, m: Memory, page: seq<Byte>, n: nat): (r: seq<Byte>)
    requires ValidLayout(layout, |page|) && FitsLayout(layout, m) && n <= |layout.parts|
    ensures |r| == |page|
  {
    if n == 0 then page
    else
      PartFits(layout, |page|, m, n - 1);
      var part := layout.parts[n - 1];
      Put(ComposedParts(layout, m, page, n - 1), part.inPage.start,
          Fetch(m, part.spanIdx, part.inSpan.start, part.inPage.length))
  }

  /** compose_raw_page_from_pipeline_page_layout */
  function Composed(layout: PageLayout, m: Memory, pageSize: nat): (r: seq<Byte>)
    requires ValidLayout(layout, pageSize) && FitsLayout(layout, m)
    ensures |r| == pageSize
  {
    ComposedParts(layout, m, seq(pageSize, _ => 0xFF), |layout.parts|)
  }

  /** The spans after the first `n` parts are copied out of the page. */
  function ExtractedParts(layout: PageLayout, page: seq<Byte>, m: Memory, n: nat): (r: Memory)
    requires ValidLayout(layout, |page|) && FitsLayout(layout, m) && n <= |layout.parts|
    ensures SameShape(m, r)
  {
    if n == 0 then m
    else
      var q := ExtractedParts(layout, page, m, n - 1);
      SameFits(layout, m, q);
      PartFits(layout, |page|, q, n - 1);
      var part := layout.parts[n - 1];
      Store(q, part.spanIdx, part.inSpan.start, page[part.inPage.start..End(part.inPage)])
  }

  /** extract_raw_page_to_pipeline_page_layout */
  function Extracted(layout: PageLayout, page: seq<Byte>, m: Memory): (r: Memory)
    requires ValidLayout(layout, |page|) && FitsLayout(layout, m)
    ensures SameShape(m, r)
  {
    ExtractedParts(layout, page, m, |layout.parts|)
  }

  // Byte by byte.

  predicate CoveredBelow(layout: PageLayout, n: nat, p: nat)
    requires n <= |layout.parts|
  {
    exists i :: 0 <= i < n && HasByte(layout.parts[i].inPage, p)
  }

  lemma ComposedNext(layout: PageLayout, m: Memory, page: seq<Byte>, n: nat)
    requires ValidLayout(layout, |page|) && FitsLayout(layout, m) && n < |layout.parts|
    ensures var part := layout.parts[n];
      InSpan(m, part.spanIdx, part.inSpan.start, part.inPage.length) && End(part.inPage) <= |page|
      && ComposedParts(layout, m, page, n + 1)
         == Put(ComposedParts(layout, m, page, n), part.inPage.start,
                Fetch(m, part.spanIdx, part.inSpan.start, part.inPage.length))
  {
    hide ValidLayout, FitsLayout, Put, Fetch;
    PartFits(layout, |page|, m, n);
  }

  lemma ExtractedNext(layout: PageLayout, page: seq<Byte>, m: Memory, n: nat)
    requires ValidLayout(layout, |page|) && FitsLayout(layout, m) && n < |layout.parts|
    ensures var part, q := layout.parts[n], ExtractedParts(layout, page, m, n);
      End(part.inPage) <= |page| && InSpan(q, part.spanIdx, part.inSpan.start, part.inPage.length)
      && ExtractedParts(layout, page, m, n + 1)
         == Store(q, part.spanIdx, part.inSpan.start, page[part.inPage.start..End(part.inPage)])
  {
    hide ValidLayout, FitsLayout, Store;
    SameFits(layout, m, ExtractedParts(layout, page, m, n));
    PartFits(layout, |page|, ExtractedParts(layout, page, m, n), n);
  }

  lemma PageOrder(layout: PageLayout, pageSize: nat, i: nat, j: nat)
    requires ValidLayout(layout, pageSize) && i < j < |layout.parts|
    ensures End(layout.parts[i].inPage) <= layout.parts[j].inPage.start
  {
  }

  lemma {:induction false} ComposedAt(layout: PageLayout, m: Memory, page: seq<Byte>, n: nat, i: nat, p: nat, s: nat,
                                      o: nat)
    requires ValidLayout(layout, |page|) && FitsLayout(layout, m) && i < n <= |layout.parts|
    requires Carries(layout.parts[i], p, s, o)
    ensures p < |page| && s < |m| && o < |m[s]|
    ensures ComposedParts(layout, m, page, n)[p] == m[s][o]
  {
    hide ValidLayout, FitsLayout, ComposedParts, Put;
    InSpanEnd(layout, |page|, i);
    PartFits(layout, |page|, m, i);
    ComposedNext(layout, m, page, n - 1);
    if i < n - 1 {
      PageOrder(layout, |page|, i, n - 1);
      ComposedAt(layout, m, page, n - 1, i, p, s, o);
    }
  }

  lemma {:induction false} HoleAt(layout: PageLayout, m: Memory, page: seq<Byte>, n: nat, p: nat)
    requires ValidLayout(layout, |page|) && FitsLayout(layout, m) && n <= |layout.parts| && p < |page|
    requires !CoveredBelow(layout, n, p)
    ensures ComposedParts(layout, m, page, n)[p] == page[p]
  {
    hide ValidLayout, FitsLayout, Put;
    if n > 0 {
      ComposedNext(layout, m, page, n - 1);
      assert !HasByte(layout.parts[n - 1].inPage, p);
      HoleAt(layout, m, page, n - 1, p);
    }
  }

  lemma {:induction false} ExtractedAt(layout: PageLayout, page: seq<Byte>, m: Memory, n: nat, i: nat, p: nat, s: nat,
                                       o: nat)
    requires ValidLayout(layout, |page|) && FitsLayout(layout, m) && i < n <= |layout.parts|
    requires Carries(layout.parts[i], p, s, o)
    ensures p < |page| && s < |m| && o < |m[s]|
    ensures ExtractedParts(layout, page, m, n)[s][o] == page[p]
  {
    hide ValidLayout, FitsLayout, ExtractedParts, Put;
    var q, r := ExtractedParts(layout, page, m, n - 1), ExtractedParts(layout, page, m, n);
    InSpanEnd(layout, |page|, i);
    PartFits(layout, |page|, m, i);
    ExtractedNext(layout, page, m, n - 1);
    assert |r[s]| == |m[s]| && |q[s]| == |m[s]|;
    if i < n - 1 {
      if layout.parts[n - 1].spanIdx == s { InSpanOrder(layout, |page|, i, n - 1); }
      ExtractedAt(layout, page, m, n - 1, i, p, s, o);
    }
  }

  // The two are inverses.

  /** Extraction gives every span byte the page byte that maps to it, whatever the span held before. */
  lemma ExtractionIsMap(layout: PageLayout, page: seq<Byte>, m: Memory, p: nat, s: nat, o: nat)
    requires ValidLayout(layout, |page|) && FitsLayout(layout, m) && Maps(layout, p, s, o)
    ensures p < |page| && s < |m| && o < |m[s]| && Extracted(layout, page, m)[s][o] == page[p]
  {
    var i: nat :| i < |layout.parts| && Carries(layout.parts[i], p, s, o);
    ExtractedAt(layout, page, m, |layout.parts|, i, p, s, o);
  }

  /** A composed page holds every span byte where it maps to, and 0xFF in the holes. */
  lemma CompositionIsMap(layout: PageLayout, m: Memory, pageSize: nat, p: nat)
    requires ValidLayout(layout, pageSize) && FitsLayout(layout, m) && p < pageSize
    ensures forall s: nat, o: nat :: Maps(layout, p, s, o) ==>
        s < |m| && o < |m[s]| && Composed(layout, m, pageSize)[p] == m[s][o]
    ensures !CoveredBelow(layout, |layout.parts|, p) ==> Composed(layout, m, pageSize)[p] == 0xFF
  {
    var blank := seq(pageSize, _ => 0xFF);
    forall s: nat, o: nat | Maps(layout, p, s, o)
      ensures s < |m| && o < |m[s]| && Composed(layout, m, pageSize)[p] == m[s][o]
    {
      var i: nat :| i < |layout.parts| && Carries(layout.parts[i], p, s, o);
      ComposedAt(layout, m, blank, |layout.parts|, i, p, s, o);
    }
    if !CoveredBelow(layout, |layout.parts|, p) {
      HoleAt(layout, m, blank, |layout.parts|, p);
    }
  }

  lemma SameMemory(m: Memory, n: Memory)
    requires SameShape(m, n) && forall s, o :: 0 <= s < |m| && 0 <= o < |m[s]| ==> n[s][o] == m[s][o]
    ensures m == n
  {
    forall s | 0 <= s < |m|
      ensures n[s] == m[s]
    {
      assert forall o :: 0 <= o < |m[s]| ==> n[s][o] == m[s][o];
    }
  }

  /** Extracting a composed page gives back every span. */
  lemma ExtractComposed(layout: PageLayout, m: Memory, pageSize: nat, before: Memory)
    requires ValidLayout(layout, pageSize) && FitsLayout(layout, m) && FitsLayout(layout, before)
    ensures Extracted(layout, Composed(layout, m, pageSize), before) == m
  {
    var page := Composed(layout, m, pageSize);
    var r := Extracted(layout, page, before);
    forall s, o | 0 <= s < |m| && 0 <= o < |m[s]|
      ensures r[s][o] == m[s][o]
    {
      var i, p := SpanCovered(layout, pageSize, s, o);
      ExtractionIsMap(layout, page, before, p, s, o);
      CompositionIsMap(layout, m, pageSize, p);
    }
    SameMemory(m, r);
  }

  /** Composing an extracted page gives back every covered byte, and 0xFF in every hole. */
  lemma ComposeExtracted(layout: PageLayout, page: seq<Byte>, before: Memory, p: nat)
    requires ValidLayout(layout, |page|) && FitsLayout(layout, before) && p < |page|
    ensures FitsLayout(layout, Extracted(layout, page, before))
    ensures Composed(layout, Extracted(layout, page, before), |page|)[p]
         == if CoveredBelow(layout, |layout.parts|, p) then page[p] else 0xFF
  {
    var m := Extracted(layout, page, before);
    SameFits(layout, before, m);
    CompositionIsMap(layout, m, |page|, p);
    if CoveredBelow(layout, |layout.parts|, p) {
      var i: nat :| i < |layout.parts| && HasByte(layout.parts[i].inPage, p);
      var s, o := layout.parts[i].spanIdx, layout.parts[i].inSpan.start + (p - layout.parts[i].inPage.start);
      assert Carries(layout.parts[i], p, s, o);
      assert Maps(layout, p, s, o);
      ExtractionIsMap(layout, page, before, p, s, o);
    }
  }

  /** What the spans held before an extraction does not matter. */
  lemma ExtractForgets(layout: PageLayout, page: seq<Byte>, m: Memory, n: Memory)
    requires ValidLayout(layout, |page|) && FitsLayout(layout, m) && FitsLayout(layout, n)
    ensures Extracted(layout, page, m) == Extracted(layout, page, n)
  {
    var a, b := Extracted(layout, page, m), Extracted(layout, page, n);
    forall s, o | 0 <= s < |a| && 0 <= o < |a[s]|
      ensures b[s][o] == a[s][o]
    {
      var i, p := SpanCovered(layout, |page|, s, o);
      ExtractionIsMap(layout, page, m, p, s, o);
      ExtractionIsMap(layout, page, n, p, s, o);
    }
    SameMemory(a, b);
  }

  // In place.

  /** The buffers of the spans, and the page, which is none of them. */
  ghost predicate Buffers(layout: PageLayout, bufs: seq<array<Byte>>, page: array<Byte>)
    reads bufs
  {
    Distinct(bufs) && page !in bufs && ValidLayout(layout, page.Length) && FitsLayout(layout, View(bufs))
  }

  method Fill(page: array<Byte>, b: Byte)
    modifies page
    ensures page[..] == seq(page.Length, _ => b)
  {
    for i := 0 to page.Length
      invariant forall j :: 0 <= j < i ==> page[j] == b
    {
      page[i] := b;
    }
  }

  /** compose_raw_page_from_pipeline_page_layout, in the page buffer. */
  method ComposePage(layout: PageLayout, bufs: seq<array<Byte>>, page: array<Byte>)
    requires Buffers(layout, bufs, page)
    modifies page
    ensures View(bufs) == old(View(bufs))
    ensures page[..] == Composed(layout, View(bufs), page.Length)
  {
    hide ValidLayout, FitsLayout, Put, ComposedParts;
    Fill(page, 0xFF);
    ghost var m, blank := View(bufs), page[..];
    ComposedNone(layout, m, blank);
    for idx := 0 to |layout.parts|
      invariant View(bufs) == m && page[..] == ComposedParts(layout, m, blank, idx)
    {
      var part := layout.parts[idx];
      ComposedNext(layout, m, blank, idx);
      var bytes := bufs[part.spanIdx][part.inSpan.start..part.inSpan.start + part.inPage.length];
      assert bytes == Fetch(m, part.spanIdx, part.inSpan.start, part.inPage.length);
      CopyIn(page, part.inPage.start, bytes);
    }
  }

  lemma ComposedNone(layout: PageLayout, m: Memory, page: seq<Byte>)
    requires ValidLayout(layout, |page|) && FitsLayout(layout, m)
    ensures ComposedParts(layout, m, page, 0) == page
    ensures ExtractedParts(layout, page, m, 0) == m
  {
  }

  /** extract_raw_page_to_pipeline_page_layout, in the span buffers. */
  method ExtractPage(layout: PageLayout, bufs: seq<array<Byte>>, page: array<Byte>)
    requires Buffers(layout, bufs, page)
    modifies bufs
    ensures page[..] == old(page[..])
    ensures View(bufs) == Extracted(layout, page[..], old(View(bufs)))
  {
    hide ValidLayout, FitsLayout, Put, ExtractedParts;
    ghost var m, raw := View(bufs), page[..];
    ComposedNone(layout, m, raw);
    for idx := 0 to |layout.parts|
      invariant page[..] == raw && View(bufs) == ExtractedParts(layout, raw, m, idx)
    {
      var part := layout.parts[idx];
      ExtractedNext(layout, raw, m, idx);
      ghost var q := View(bufs);
      var bytes := page[part.inPage.start..End(part.inPage)];
      CopyIn(bufs[part.spanIdx], part.inSpan.start, bytes);
      StoredInPlace(q, bufs, part.spanIdx, part.inSpan.start, bytes);
    }
  }
}
