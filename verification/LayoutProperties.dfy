// What an accepted page layout guarantees, and which layouts are accepted.
module LayoutProperties {
  import opened Wrappers
  import opened Layout

  // Two parts.

  predicate Separate(a: Range, b: Range) {
    End(a) <= b.start || End(b) <= a.start
  }

  predicate HasByte(r: Range, p: nat) {
    r.start <= p < End(r)
  }

  /** An empty part that starts where a part with bytes does. */
  predicate Tied(empty: Range, other: Range) {
    empty.start == other.start && empty.length == 0 && other.length > 0
  }

  lemma SeparateMeansDisjoint(a: Range, b: Range)
    requires a.length > 0 && b.length > 0
    ensures Separate(a, b) <==> forall p: nat :: !(HasByte(a, p) && HasByte(b, p))
  {
    if !Separate(a, b) {
      var p := if a.start < b.start then b.start else a.start;
      assert HasByte(a, p) && HasByte(b, p);
    }
  }

  /** Sums of configured ranges do not wrap. */
  lemma NoWrap(a: Range, b: Range, pageSize: nat)
    requires Configured(a)
    ensures InRange(pageSize, a) <==> End(a) <= pageSize
    ensures NonOverlappingSorted(a, b) <==> End(a) <= b.start
  {
  }

  // Adjacent checks suffice.

  predicate AllConfigured(parts: seq<Part>) {
    forall i :: 0 <= i < |parts| ==> Configured(parts[i].inPage)
  }

  predicate InOrder(parts: seq<Part>) {
    forall i, j :: 0 <= i < j < |parts| ==> End(parts[i].inPage) <= parts[j].inPage.start
  }

  lemma {:induction false} EndsBefore(parts: seq<Part>, i: nat, j: nat)
    requires AllConfigured(parts) && AdjacentApart(parts) && i < j < |parts|
    ensures End(parts[i].inPage) <= parts[j].inPage.start
  {
    if i + 1 < j { EndsBefore(parts, i, j - 1); }
    NoWrap(parts[j - 1].inPage, parts[j].inPage, 0);
  }

  lemma AdjacentSuffices(parts: seq<Part>)
    requires AllConfigured(parts)
    ensures AdjacentApart(parts) <==> InOrder(parts)
  {
    if AdjacentApart(parts) {
      forall i, j | 0 <= i < j < |parts|
        ensures End(parts[i].inPage) <= parts[j].inPage.start
      {
        EndsBefore(parts, i, j);
      }
    }
    if InOrder(parts) {
      forall i | 0 <= i < |parts| - 1
        ensures NonOverlappingSorted(parts[i].inPage, parts[i + 1].inPage)
      {
        NoWrap(parts[i].inPage, parts[i + 1].inPage, 0);
      }
    }
  }

  // Sorting moves parts, and neither loses nor doubles one.

  predicate Unlike(parts: seq<Part>) {
    forall i, j :: 0 <= i < j < |parts| ==> parts[i] != parts[j]
  }

  lemma OnceAtMost(parts: seq<Part>, i: nat)
    requires Unlike(parts) && i < |parts|
    ensures multiset(parts)[parts[i]] == 1
  {
    var x := parts[i];
    assert parts == parts[..i] + [x] + parts[i + 1..];
    assert x !in parts[..i] && x !in parts[i + 1..];
  }

  lemma TwiceAtLeast(parts: seq<Part>, i: nat, j: nat)
    requires i < j < |parts| && parts[i] == parts[j]
    ensures multiset(parts)[parts[i]] >= 2
  {
    var x := parts[i];
    assert parts == parts[..j] + parts[j..];
    assert x == parts[..j][i] && x == parts[j..][0];
    assert x in parts[..j] && x in parts[j..];
  }

  lemma StillUnlike(parts: seq<Part>, sorted: seq<Part>)
    requires Unlike(parts) && multiset(sorted) == multiset(parts)
    ensures Unlike(sorted)
  {
    forall i, j | 0 <= i < j < |sorted|
      ensures sorted[i] != sorted[j]
    {
      if sorted[i] == sorted[j] {
        TwiceAtLeast(sorted, i, j);
        assert sorted[i] in multiset(parts);
        var k :| 0 <= k < |parts| && parts[k] == sorted[i];
        OnceAtMost(parts, k);
      }
    }
  }

  lemma Whereabouts(parts: seq<Part>, sorted: seq<Part>, i: nat) returns (k: nat)
    requires multiset(sorted) == multiset(parts) && i < |parts|
    ensures k < |sorted| && sorted[k] == parts[i]
  {
    assert parts[i] in multiset(sorted);
    k :| 0 <= k < |sorted| && sorted[k] == parts[i];
  }

  predicate StrictlySorted(parts: seq<Part>) {
    forall i, j :: 0 <= i < j < |parts| ==> parts[i].inPage.start < parts[j].inPage.start
  }

  lemma SameLast(parts: seq<Part>, sorted: seq<Part>)
    requires SortOf(parts, sorted) && StrictlySorted(parts) && parts != []
    ensures |sorted| == |parts| && sorted[|parts| - 1] == parts[|parts| - 1]
  {
    assert |multiset(sorted)| == |sorted| && |multiset(parts)| == |parts|;
    var n := |parts| - 1;
    var q := Whereabouts(parts, sorted, n);
    var j := Whereabouts(sorted, parts, n);
  }

  lemma WithoutLast(parts: seq<Part>, sorted: seq<Part>)
    requires multiset(sorted) == multiset(parts) && |sorted| == |parts| > 0
    requires sorted[|parts| - 1] == parts[|parts| - 1]
    ensures multiset(sorted[..|parts| - 1]) == multiset(parts[..|parts| - 1])
  {
    var n := |parts| - 1;
    var a, b, last := parts[..n], sorted[..n], multiset{parts[n]};
    assert parts == a + [parts[n]] && sorted == b + [parts[n]];
    assert multiset(a) + last == multiset(b) + last;
    assert multiset(a) == multiset(a) + last - last && multiset(b) == multiset(b) + last - last;
  }

  /** Parts that start at different bytes can be sorted in one way only. */
  lemma {:induction false} SortIsUnique(parts: seq<Part>, sorted: seq<Part>)
    requires SortOf(parts, sorted) && StrictlySorted(parts)
    ensures sorted == parts
  {
    if parts == [] {
      assert |multiset(sorted)| == |sorted|;
    } else {
      var n := |parts| - 1;
      SameLast(parts, sorted);
      WithoutLast(parts, sorted);
      SortIsUnique(parts[..n], sorted[..n]);
      assert parts == parts[..n] + [parts[n]] && sorted == sorted[..n] + [parts[n]];
    }
  }

  predicate AllSeparate(cfg: seq<CfgPart>) {
    forall i, j :: 0 <= i < j < |cfg| ==> Separate(cfg[i].range, cfg[j].range)
  }

  predicate NoTies(cfg: seq<CfgPart>) {
    forall i, j :: 0 <= i < |cfg| && 0 <= j < |cfg| ==> !Tied(cfg[i].range, cfg[j].range)
  }

  predicate CfgConfigured(cfg: seq<CfgPart>) {
    forall i :: 0 <= i < |cfg| ==> Configured(cfg[i].range)
  }

  lemma SortedParts(cfg: seq<CfgPart>, sorted: seq<Part>)
    requires multiset(sorted) == multiset(Placed(cfg)) && CfgConfigured(cfg)
    ensures AllConfigured(sorted) && Unlike(sorted) && |sorted| == |cfg|
  {
    assert Unlike(Placed(cfg));
    StillUnlike(Placed(cfg), sorted);
    forall i | 0 <= i < |sorted|
      ensures Configured(sorted[i].inPage)
    {
      var k := Whereabouts(sorted, Placed(cfg), i);
    }
    assert |multiset(sorted)| == |sorted| && |multiset(Placed(cfg))| == |cfg|;
  }

  /** Without ties, every sort of separate parts passes the check. */
  lemma SeparatePasses(cfg: seq<CfgPart>, sorted: seq<Part>)
    requires SortOf(Placed(cfg), sorted) && CfgConfigured(cfg) && AllSeparate(cfg) && NoTies(cfg)
    ensures AdjacentApart(sorted)
  {
    SortedParts(cfg, sorted);
    forall k | 0 <= k < |sorted| - 1
      ensures NonOverlappingSorted(sorted[k].inPage, sorted[k + 1].inPage)
    {
      var i := Whereabouts(sorted, Placed(cfg), k);
      var j := Whereabouts(sorted, Placed(cfg), k + 1);
      assert i != j;
      assert Separate(cfg[i].range, cfg[j].range) && !Tied(cfg[j].range, cfg[i].range);
      NoWrap(sorted[k].inPage, sorted[k + 1].inPage, 0);
    }
  }

  /** Whatever passes the check is separate. */
  lemma PassesSeparate(cfg: seq<CfgPart>, sorted: seq<Part>)
    requires multiset(sorted) == multiset(Placed(cfg)) && CfgConfigured(cfg) && AdjacentApart(sorted)
    ensures AllSeparate(cfg)
  {
    SortedParts(cfg, sorted);
    AdjacentSuffices(sorted);
    forall i, j | 0 <= i < j < |cfg|
      ensures Separate(cfg[i].range, cfg[j].range)
    {
      var p := Whereabouts(Placed(cfg), sorted, i);
      var q := Whereabouts(Placed(cfg), sorted, j);
      assert p != q;
    }
  }

  lemma Exchange(some: seq<Part>, p: nat, q: nat)
    requires Sorted(some) && p < q < |some| && some[p].inPage.start == some[q].inPage.start
    ensures Sorted(some[p := some[q]][q := some[p]]) && multiset(some[p := some[q]][q := some[p]]) == multiset(some)
  {
  }

  lemma TiedAfter(sorted: seq<Part>, p: nat, q: nat)
    requires AllConfigured(sorted) && p < q < |sorted| && Tied(sorted[q].inPage, sorted[p].inPage)
    ensures !AdjacentApart(sorted)
  {
    AdjacentSuffices(sorted);
  }

  /** A sort may put an empty part on either side of the part it is tied with; one side fails the check. */
  lemma TieFails(cfg: seq<CfgPart>, some: seq<Part>, i: nat, j: nat) returns (sorted: seq<Part>)
    requires SortOf(Placed(cfg), some) && CfgConfigured(cfg)
    requires i < |cfg| && j < |cfg| && Tied(cfg[i].range, cfg[j].range)
    ensures SortOf(Placed(cfg), sorted) && !AdjacentApart(sorted)
  {
    hide Sorted;
    var p := Whereabouts(Placed(cfg), some, i);
    var q := Whereabouts(Placed(cfg), some, j);
    if q < p {
      sorted := some;
      SortedParts(cfg, sorted);
      TiedAfter(sorted, q, p);
    } else {
      Exchange(some, p, q);
      sorted := some[p := some[q]][q := some[p]];
      SortedParts(cfg, sorted);
      TiedAfter(sorted, p, q);
    }
  }

  /** Exactly when does the verdict on overlaps not depend on the order qsort gives to equal starts,
      and accept: when the parts are separate, and no empty part starts where one with bytes does. */
  lemma EverySortPasses(cfg: seq<CfgPart>, some: seq<Part>)
    requires CfgConfigured(cfg) && SortOf(Placed(cfg), some)
    ensures (forall sorted :: SortOf(Placed(cfg), sorted) ==> AdjacentApart(sorted)) <==>
      AllSeparate(cfg) && NoTies(cfg)
  {
    if forall sorted :: SortOf(Placed(cfg), sorted) ==> AdjacentApart(sorted) {
      PassesSeparate(cfg, some);
      forall i, j | 0 <= i < |cfg| && 0 <= j < |cfg|
        ensures !Tied(cfg[i].range, cfg[j].range)
      {
        if Tied(cfg[i].range, cfg[j].range) {
          var sorted := TieFails(cfg, some, i, j);
        }
      }
    }
    if AllSeparate(cfg) && NoTies(cfg) {
      forall sorted | SortOf(Placed(cfg), sorted)
        ensures AdjacentApart(sorted)
      {
        SeparatePasses(cfg, sorted);
      }
    }
  }

  /** An empty part at the start of the page, and one with ten bytes: accepted in one order, refused in the other. */
  lemma EmptyPartOrderMatters()
    ensures var cfg := [CfgPart(Range(0, 0), "a"), CfgPart(Range(0, 10), "b")];
      var parts := Placed(cfg);
      && SortOf(parts, parts) && AdjacentApart(parts)
      && SortOf(parts, [parts[1], parts[0]]) && !AdjacentApart([parts[1], parts[0]])
  {
    var cfg := [CfgPart(Range(0, 0), "a"), CfgPart(Range(0, 10), "b")];
    var parts := Placed(cfg);
    assert parts == [parts[0]] + [parts[1]];
    assert [parts[1], parts[0]] == [parts[1]] + [parts[0]];
    assert multiset([parts[1], parts[0]]) == multiset(parts);
  }

  /** One empty part, whatever the sort, passes all checks, and building its span is aborted. */
  lemma EmptyPartAborts(pageSize: nat, sorted: seq<Part>)
    requires SortOf(Placed([CfgPart(Range(0, 0), "a")]), sorted)
    ensures var cfg := [CfgPart(Range(0, 0), "a")];
      FirstError(pageSize, cfg, |cfg|) == None && AdjacentApart(sorted) && HasEmptyName(cfg)
  {
    var cfg := [CfgPart(Range(0, 0), "a")];
    SortedParts(cfg, sorted);
    assert CheckPart(pageSize, cfg[0]);
    assert AllEmpty(cfg, cfg[0].span);
  }

  ghost predicate NoSharedByte(cfg: seq<CfgPart>) {
    forall i, j, p: nat :: 0 <= i < j < |cfg| ==> !(HasByte(cfg[i].range, p) && HasByte(cfg[j].range, p))
  }

  /** With no empty part, a layout passes all checks exactly when its parts lie in the page, name
      their spans, and share no byte. */
  lemma AcceptedExactly(pageSize: nat, cfg: seq<CfgPart>, sorted: seq<Part>)
    requires CfgConfigured(cfg) && SortOf(Placed(cfg), sorted)
    requires forall i :: 0 <= i < |cfg| ==> cfg[i].range.length > 0
    ensures FirstError(pageSize, cfg, |cfg|) == None && AdjacentApart(sorted)
      <==> (forall i :: 0 <= i < |cfg| ==> End(cfg[i].range) <= pageSize && ValidSpanName(cfg[i].span))
           && NoSharedByte(cfg)
  {
    assert AdjacentApart(sorted) <==> AllSeparate(cfg) by {
      if AllSeparate(cfg) { SeparatePasses(cfg, sorted); }
      if AdjacentApart(sorted) { PassesSeparate(cfg, sorted); }
    }
    AllDisjoint(cfg);
    forall i | 0 <= i < |cfg|
      ensures CheckPart(pageSize, cfg[i]) <==> End(cfg[i].range) <= pageSize && ValidSpanName(cfg[i].span)
    {
      NoWrap(cfg[i].range, cfg[i].range, pageSize);
    }
  }

  lemma AllDisjoint(cfg: seq<CfgPart>)
    requires forall i :: 0 <= i < |cfg| ==> cfg[i].range.length > 0
    ensures AllSeparate(cfg) <==> NoSharedByte(cfg)
  {
    forall i, j | 0 <= i < j < |cfg|
      ensures Separate(cfg[i].range, cfg[j].range) <==>
        forall p: nat :: !(HasByte(cfg[i].range, p) && HasByte(cfg[j].range, p))
    {
      SeparateMeansDisjoint(cfg[i].range, cfg[j].range);
    }
  }

  // The spans of a layout.

  lemma {:induction false} SpanLengthSame(parts: seq<Part>, sorted: seq<Part>, n: nat, s: nat)
    requires Gathered(sorted, parts, |sorted|) && n <= |sorted|
    ensures SpanLength(parts, n, s) == SpanLength(sorted, n, s)
  {
    if n > 0 { SpanLengthSame(parts, sorted, n - 1, s); }
  }

  /** An accepted layout is valid: its parts are in order, in the page, and gathered into their spans. */
  lemma BuiltIsValid(pageSize: nat, cfg: seq<CfgPart>, sorted: seq<Part>, layout: PageLayout)
    requires CfgConfigured(cfg) && multiset(sorted) == multiset(Placed(cfg))
    requires FirstError(pageSize, cfg, |cfg|) == None && AdjacentApart(sorted) && BuiltFrom(cfg, sorted, layout)
    ensures ValidLayout(layout, pageSize)
  {
    SortedParts(cfg, sorted);
    AdjacentSuffices(sorted);
    SpansKnown(cfg, sorted);
    forall i | 0 <= i < |sorted|
      ensures WellPlaced(layout, i) && End(layout.parts[i].inPage) <= pageSize
    {
      var k := Whereabouts(sorted, Placed(cfg), i);
      assert CheckPart(pageSize, cfg[k]);
      NoWrap(cfg[k].range, cfg[k].range, pageSize);
      SpanLengthSame(layout.parts, sorted, i, sorted[i].spanIdx);
    }
    forall s | 0 <= s < |layout.totals|
      ensures layout.totals[s] == SpanLength(layout.parts, |sorted|, s)
    {
      SpanLengthSame(layout.parts, sorted, |sorted|, s);
    }
  }

  /** No span is longer than the page, so adding up the lengths of its parts does not wrap. */
  lemma {:induction false} SpanFits(layout: PageLayout, pageSize: nat, n: nat, s: nat)
    requires ValidLayout(layout, pageSize) && n <= |layout.parts|
    ensures SpanLength(layout.parts, n, s) <= pageSize
    ensures n > 0 ==> SpanLength(layout.parts, n, s) <= End(layout.parts[n - 1].inPage)
  {
    if n > 0 { SpanFits(layout, pageSize, n - 1, s); }
  }

  // Tiling.

  /** A later part of a span begins where the parts before it end, or further on. */
  lemma {:induction false} Behind(parts: seq<Part>, i: nat, n: nat, s: nat)
    requires i < n <= |parts|
    ensures SpanLength(parts, i, s) + (if parts[i].spanIdx == s then parts[i].inPage.length else 0)
         <= SpanLength(parts, n, s)
  {
    if i + 1 < n { Behind(parts, i, n - 1, s); }
  }

  lemma {:induction false} PartWith(parts: seq<Part>, n: nat, s: nat, o: nat) returns (i: nat)
    requires n <= |parts| && o < SpanLength(parts, n, s)
    ensures i < n && parts[i].spanIdx == s
    ensures SpanLength(parts, i, s) <= o < SpanLength(parts, i, s) + parts[i].inPage.length
  {
    if o < SpanLength(parts, n - 1, s) {
      i := PartWith(parts, n - 1, s, o);
    } else {
      i := n - 1;
    }
  }

  predicate Carries(part: Part, p: nat, s: nat, o: nat) {
    part.spanIdx == s && HasByte(part.inPage, p) && o == part.inSpan.start + (p - part.inPage.start)
  }

  /** Byte `p` of the page is byte `o` of span `s`. */
  ghost predicate Maps(layout: PageLayout, p: nat, s: nat, o: nat) {
    exists i :: 0 <= i < |layout.parts| && Carries(layout.parts[i], p, s, o)
  }

  /** Inside its span, a part ends where a later part of the span begins, or before. */
  lemma InSpanOrder(layout: PageLayout, pageSize: nat, i: nat, j: nat)
    requires ValidLayout(layout, pageSize) && i < j < |layout.parts|
    requires layout.parts[i].spanIdx == layout.parts[j].spanIdx
    ensures End(layout.parts[i].inSpan) <= layout.parts[j].inSpan.start
  {
    assert WellPlaced(layout, i) && WellPlaced(layout, j);
    Behind(layout.parts, i, j, layout.parts[i].spanIdx);
  }

  lemma InSpanEnd(layout: PageLayout, pageSize: nat, i: nat)
    requires ValidLayout(layout, pageSize) && i < |layout.parts|
    ensures layout.parts[i].spanIdx < |layout.totals|
    ensures End(layout.parts[i].inSpan) <= layout.totals[layout.parts[i].spanIdx]
    ensures layout.parts[i].inSpan.length == layout.parts[i].inPage.length
  {
    assert WellPlaced(layout, i);
    Behind(layout.parts, i, |layout.parts|, layout.parts[i].spanIdx);
  }

  /** Every byte of every span comes from the page. */
  lemma SpanCovered(layout: PageLayout, pageSize: nat, s: nat, o: nat) returns (i: nat, p: nat)
    requires ValidLayout(layout, pageSize) && s < |layout.totals| && o < layout.totals[s]
    ensures i < |layout.parts| && Carries(layout.parts[i], p, s, o)
    ensures p < pageSize && Maps(layout, p, s, o)
  {
    i := PartWith(layout.parts, |layout.parts|, s, o);
    assert WellPlaced(layout, i);
    p := layout.parts[i].inPage.start + (o - layout.parts[i].inSpan.start);
    assert Carries(layout.parts[i], p, s, o);
  }

  /** Two parts never meet in a byte of the page, nor in a byte of a span. */
  lemma SamePart(layout: PageLayout, pageSize: nat, i: nat, j: nat, p: nat, s: nat, o: nat, p': nat, s': nat, o': nat)
    requires ValidLayout(layout, pageSize) && i < |layout.parts| && j < |layout.parts|
    requires Carries(layout.parts[i], p, s, o) && Carries(layout.parts[j], p', s', o')
    requires p == p' || (s == s' && o == o')
    ensures i == j && p == p' && s == s' && o == o'
  {
    InSpanEnd(layout, pageSize, i);
    InSpanEnd(layout, pageSize, j);
    if i != j && s == s' {
      InSpanOrder(layout, pageSize, if i < j then i else j, if i < j then j else i);
    }
  }

  predicate SpanByte(layout: PageLayout, s: nat, o: nat) {
    s < |layout.totals| && o < layout.totals[s]
  }

  /** The covered bytes of the page and the bytes of the spans correspond one to one. */
  lemma Bijection(layout: PageLayout, pageSize: nat)
    requires ValidLayout(layout, pageSize)
    ensures forall s: nat, o: nat :: SpanByte(layout, s, o) ==> exists p: nat :: Maps(layout, p, s, o)
    ensures forall p: nat, s: nat, o: nat :: Maps(layout, p, s, o) ==> p < pageSize && SpanByte(layout, s, o)
    ensures forall p: nat, s: nat, o: nat, s': nat, o': nat ::
      Maps(layout, p, s, o) && Maps(layout, p, s', o') ==> s == s' && o == o'
    ensures forall p: nat, p': nat, s: nat, o: nat :: Maps(layout, p, s, o) && Maps(layout, p', s, o) ==> p == p'
  {
    hide ValidLayout, Maps;
    forall s: nat, o: nat | SpanByte(layout, s, o)
      ensures exists p: nat :: Maps(layout, p, s, o)
    {
      var i, p := SpanCovered(layout, pageSize, s, o);
    }
    forall p: nat, s: nat, o: nat | Maps(layout, p, s, o)
      ensures p < pageSize && SpanByte(layout, s, o)
    {
      MapsInside(layout, pageSize, p, s, o);
    }
    forall p: nat, s: nat, o: nat, s': nat, o': nat | Maps(layout, p, s, o) && Maps(layout, p, s', o')
      ensures s == s' && o == o'
    {
      MapsOnce(layout, pageSize, p, s, o, p, s', o');
    }
    forall p: nat, p': nat, s: nat, o: nat | Maps(layout, p, s, o) && Maps(layout, p', s, o)
      ensures p == p'
    {
      MapsOnce(layout, pageSize, p, s, o, p', s, o);
    }
  }

  lemma MapsInside(layout: PageLayout, pageSize: nat, p: nat, s: nat, o: nat)
    requires ValidLayout(layout, pageSize) && Maps(layout, p, s, o)
    ensures p < pageSize && SpanByte(layout, s, o)
  {
    var i: nat :| i < |layout.parts| && Carries(layout.parts[i], p, s, o);
    InSpanEnd(layout, pageSize, i);
  }

  lemma MapsOnce(layout: PageLayout, pageSize: nat, p: nat, s: nat, o: nat, p': nat, s': nat, o': nat)
    requires ValidLayout(layout, pageSize) && Maps(layout, p, s, o) && Maps(layout, p', s', o')
    requires p == p' || (s == s' && o == o')
    ensures p == p' && s == s' && o == o'
  {
    var i: nat :| i < |layout.parts| && Carries(layout.parts[i], p, s, o);
    var j: nat :| j < |layout.parts| && Carries(layout.parts[j], p', s', o');
    SamePart(layout, pageSize, i, j, p, s, o, p', s', o');
  }
}
