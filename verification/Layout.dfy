// Page layouts: parts of the raw page, gathered into named spans.
module Layout {
  import opened Wrappers

  datatype Range = Range(start: nat, length: nat)

  /** A part as configured: its bytes of the page, and the name of its span. */
  datatype CfgPart = CfgPart(range: Range, span: string)

  /** A part as built: `inSpan` are its bytes of the buffer of span `spanIdx`. */
  datatype Part = Part(partIdx: nat, spanIdx: nat, inPage: Range, inSpan: Range)

  /** The parts in page order, and the length of every span. */
  datatype PageLayout = PageLayout(parts: seq<Part>, totals: seq<nat>)

  datatype LayoutError = PartHasNoSpan | PartOutOfRange | OverlappingParts

  /** `Aborted`: the assertion that no span is empty fails. `Strayed`: a part is met whose pointer does not
      lead to its span any more, and the model stops. */
  datatype Outcome = Built(layout: PageLayout) | Refused(error: LayoutError) | Aborted | Strayed

  const TWO64: nat := 0x1_0000_0000_0000_0000

  /** Addition of 64-bit sizes. */
  function Add64(a: nat, b: nat): nat {
    (a + b) % TWO64
  }

  function End(r: Range): nat {
    r.start + r.length
  }

  /** Ranges written in a configuration: two non-negative signed 64-bit numbers. */
  predicate Configured(r: Range) {
    r.start < 0x8000_0000_0000_0000 && r.length < 0x8000_0000_0000_0000
  }

  // The checks.

  /** verify_page_layout_part_not_out_of_range */
  predicate InRange(pageSize: nat, r: Range) {
    Add64(r.start, r.length) <= pageSize
  }

  predicate AllowedChar(ch: char) {
    'a' <= ch <= 'z' || 'A' <= ch <= 'Z' || '0' <= ch <= '9' || ch in "!@#$^&*()+-_"
  }

  /** check_span_name_valid, for names that are not empty. */
  predicate ValidSpanName(name: string) {
    name != "" && forall i :: 0 <= i < |name| ==> AllowedChar(name[i])
  }

  /** Letters, digits, and twelve others. */
  lemma SpanNameExactly(name: string)
    ensures var allowed := "abcdefghijklmnopqrstuvwxyz" + "ABCDEFGHIJKLMNOPQRSTUVWXYZ" + "0123456789" + "!@#$^&*()+-_";
      ValidSpanName(name) <==> name != "" && forall i :: 0 <= i < |name| ==> name[i] in allowed
  {
    hide AllowedChar;
    forall ch: char
      ensures AllowedChar(ch) <==>
        ch in "abcdefghijklmnopqrstuvwxyz" + "ABCDEFGHIJKLMNOPQRSTUVWXYZ" + "0123456789" + "!@#$^&*()+-_"
    {
      AllowedExactly(ch);
    }
  }

  lemma AllowedExactly(ch: char)
    ensures AllowedChar(ch) <==>
      ch in "abcdefghijklmnopqrstuvwxyz" + "ABCDEFGHIJKLMNOPQRSTUVWXYZ" + "0123456789" + "!@#$^&*()+-_"
  {
    assert 'a' <= ch <= 'z' <==> ch in "abcdefghijklmnopqrstuvwxyz" by { Lower(ch); }
    assert 'A' <= ch <= 'Z' <==> ch in "ABCDEFGHIJKLMNOPQRSTUVWXYZ" by { Upper(ch); }
    assert '0' <= ch <= '9' <==> ch in "0123456789" by { Digit(ch); }
  }

  lemma Lower(ch: char)
    ensures 'a' <= ch <= 'z' <==> ch in "abcdefghijklmnopqrstuvwxyz"
  {
    var s := "abcdefghijklmnopqrstuvwxyz";
    assert |s| == 26 && forall i :: 0 <= i < 26 ==> s[i] as int == 'a' as int + i;
    if 'a' <= ch <= 'z' { assert s[ch as int - 'a' as int] == ch; }
  }

  lemma Upper(ch: char)
    ensures 'A' <= ch <= 'Z' <==> ch in "ABCDEFGHIJKLMNOPQRSTUVWXYZ"
  {
    var s := "ABCDEFGHIJKLMNOPQRSTUVWXYZ";
    assert |s| == 26 && forall i :: 0 <= i < 26 ==> s[i] as int == 'A' as int + i;
    if 'A' <= ch <= 'Z' { assert s[ch as int - 'A' as int] == ch; }
  }

  lemma Digit(ch: char)
    ensures '0' <= ch <= '9' <==> ch in "0123456789"
  {
    var s := "0123456789";
    assert |s| == 10 && forall i :: 0 <= i < 10 ==> s[i] as int == '0' as int + i;
    if '0' <= ch <= '9' { assert s[ch as int - '0' as int] == ch; }
  }

  /** check_non_overlapping_sorted */
  predicate NonOverlappingSorted(a: Range, b: Range) {
    b.start >= Add64(a.start, a.length)
  }

  function CheckPart(pageSize: nat, p: CfgPart): (ok: bool)
  {
    InRange(pageSize, p.range) && ValidSpanName(p.span)
  }

  function PartError(pageSize: nat, p: CfgPart): LayoutError {
    if InRange(pageSize, p.range) then PartHasNoSpan else PartOutOfRange
  }

  // Naming the spans.

  /** The index of every span named by the first `n` parts. */
  function Names(cfg: seq<CfgPart>, n: nat): (names: map<string, nat>)
    requires n <= |cfg|
    ensures forall i :: 0 <= i < n ==> cfg[i].span in names
  {
    if n == 0 then map[]
    else
      var names := Names(cfg, n - 1);
      if cfg[n - 1].span in names then names else names[cfg[n - 1].span := |names|]
  }

  /** The indices count the spans, in the order in which the names first come up. */
  lemma {:induction false} NamesCount(cfg: seq<CfgPart>, n: nat)
    requires n <= |cfg|
    ensures forall s :: s in Names(cfg, n) ==> Names(cfg, n)[s] < |Names(cfg, n)|
    ensures forall s, t :: s in Names(cfg, n) && t in Names(cfg, n) && Names(cfg, n)[s] == Names(cfg, n)[t] ==> s == t
  {
    if n > 0 { NamesCount(cfg, n - 1); }
  }

  /** A name keeps its index. */
  lemma {:induction false} NamesKept(cfg: seq<CfgPart>, k: nat, n: nat)
    requires k <= n <= |cfg|
    ensures forall s :: s in Names(cfg, k) ==> s in Names(cfg, n) && Names(cfg, n)[s] == Names(cfg, k)[s]
    ensures |Names(cfg, k)| <= |Names(cfg, n)|
  {
    if k < n { NamesKept(cfg, k, n - 1); }
  }

  /** The parts in the order of the configuration, before their bytes of the span are known. */
  function Placed(cfg: seq<CfgPart>): (parts: seq<Part>)
    ensures |parts| == |cfg|
  {
    seq(|cfg|, (i: nat) requires i < |cfg| =>
      Part(i, Names(cfg, i + 1)[cfg[i].span], cfg[i].range, Range(0, cfg[i].range.length)))
  }

  // Sorting, by any sort.

  predicate Sorted(parts: seq<Part>) {
    forall i, j :: 0 <= i < j < |parts| ==> parts[i].inPage.start <= parts[j].inPage.start
  }

  predicate SortOf(parts: seq<Part>, sorted: seq<Part>) {
    multiset(sorted) == multiset(parts) && Sorted(sorted)
  }

  predicate AdjacentApart(parts: seq<Part>) {
    forall i :: 0 <= i < |parts| - 1 ==> NonOverlappingSorted(parts[i].inPage, parts[i + 1].inPage)
  }

  // Gathering the parts of a span.

  /** The bytes of span `s` in the first `n` parts. */
  function SpanLength(parts: seq<Part>, n: nat, s: nat): nat
    requires n <= |parts|
  {
    if n == 0 then 0
    else SpanLength(parts, n - 1, s) + (if parts[n - 1].spanIdx == s then parts[n - 1].inPage.length else 0)
  }

  predicate Gathered(sorted: seq<Part>, parts: seq<Part>, n: nat) {
    && n <= |parts| == |sorted|
    && forall i :: 0 <= i < n ==>
         parts[i] == sorted[i].(inSpan := Range(SpanLength(sorted, i, sorted[i].spanIdx), sorted[i].inSpan.length))
  }

  predicate EmptySpan(totals: seq<nat>) {
    exists s :: 0 <= s < |totals| && totals[s] == 0
  }

  /** What the construction of a layout promises. */
  predicate ValidLayout(layout: PageLayout, pageSize: nat) {
    var parts := layout.parts;
    && (forall i :: 0 <= i < |parts| ==> WellPlaced(layout, i) && End(parts[i].inPage) <= pageSize)
    && (forall i, j :: 0 <= i < j < |parts| ==> End(parts[i].inPage) <= parts[j].inPage.start)
    && (forall s :: 0 <= s < |layout.totals| ==> layout.totals[s] == SpanLength(parts, |parts|, s))
  }

  predicate WellPlaced(layout: PageLayout, i: nat)
    requires i < |layout.parts|
  {
    var part := layout.parts[i];
    && part.spanIdx < |layout.totals|
    && part.inSpan == Range(SpanLength(layout.parts, i, part.spanIdx), part.inPage.length)
  }

  lemma GatherStep(sorted: seq<Part>, parts: seq<Part>, i: nat)
    requires Gathered(sorted, parts, i) && i < |sorted| && parts[i] == sorted[i]
    ensures var inSpan := Range(SpanLength(sorted, i, parts[i].spanIdx), parts[i].inSpan.length);
      Gathered(sorted, parts[i := parts[i].(inSpan := inSpan)], i + 1)
  {
  }

  predicate ApartBefore(sorted: seq<Part>, n: nat)
    requires n <= |sorted|
  {
    forall k :: 0 <= k < n && k + 1 < |sorted| ==> NonOverlappingSorted(sorted[k].inPage, sorted[k + 1].inPage)
  }

  predicate Measured(sorted: seq<Part>, totals: seq<nat>, n: nat)
    requires n <= |sorted|
  {
    forall s :: 0 <= s < |totals| ==> totals[s] == SpanLength(sorted, n, s)
  }

  lemma MeasureStep(sorted: seq<Part>, totals: seq<nat>, i: nat)
    requires i < |sorted| && Measured(sorted, totals, i) && sorted[i].spanIdx < |totals|
    ensures Measured(sorted, totals[sorted[i].spanIdx := totals[sorted[i].spanIdx] + sorted[i].inPage.length], i + 1)
  {
  }

  lemma NothingGathered(sorted: seq<Part>, totals: seq<nat>)
    requires forall s :: 0 <= s < |totals| ==> totals[s] == 0
    ensures Gathered(sorted, sorted, 0) && Measured(sorted, totals, 0)
  {
  }

  function FirstError(pageSize: nat, cfg: seq<CfgPart>, n: nat): (r: Option<LayoutError>)
    requires n <= |cfg|
    ensures r == None <==> forall i :: 0 <= i < n ==> CheckPart(pageSize, cfg[i])
  {
    if n == 0 then None
    else if FirstError(pageSize, cfg, n - 1) != None then FirstError(pageSize, cfg, n - 1)
    else if CheckPart(pageSize, cfg[n - 1]) then None
    else Some(PartError(pageSize, cfg[n - 1]))
  }

  /** A part is refused when it ends past the page, as 64 bits add, or its name is no name; which of the two
      is found first. */
  lemma PartRefused(pageSize: nat, p: CfgPart)
    ensures CheckPart(pageSize, p) <==>
      (p.range.start + p.range.length) % 0x1_0000_0000_0000_0000 <= pageSize && ValidSpanName(p.span)
    ensures PartError(pageSize, p) ==
      if (p.range.start + p.range.length) % 0x1_0000_0000_0000_0000 > pageSize then PartOutOfRange else PartHasNoSpan
  {
  }

  /** The error is that of the first part that is refused. */
  lemma {:induction false} FirstErrorExactly(pageSize: nat, cfg: seq<CfgPart>, n: nat, k: nat)
    requires k < n <= |cfg| && !CheckPart(pageSize, cfg[k])
    requires forall j :: 0 <= j < k ==> CheckPart(pageSize, cfg[j])
    ensures FirstError(pageSize, cfg, n) == Some(PartError(pageSize, cfg[k]))
  {
    hide CheckPart;
    if k + 1 < n { FirstErrorExactly(pageSize, cfg, n - 1, k); }
  }

  lemma {:induction false} ErrorKept(pageSize: nat, cfg: seq<CfgPart>, k: nat, n: nat)
    requires k <= n <= |cfg| && FirstError(pageSize, cfg, k) != None
    ensures FirstError(pageSize, cfg, n) == FirstError(pageSize, cfg, k)
  {
    if k < n { ErrorKept(pageSize, cfg, k, n - 1); }
  }

  predicate AllEmpty(cfg: seq<CfgPart>, name: string) {
    forall i :: 0 <= i < |cfg| && cfg[i].span == name ==> cfg[i].range.length == 0
  }

  /** Some span is named by empty parts only. */
  predicate HasEmptyName(cfg: seq<CfgPart>) {
    exists k :: 0 <= k < |cfg| && AllEmpty(cfg, cfg[k].span)
  }

  /** A span is empty exactly when all its parts are. */
  lemma {:induction false} EmptyExactly(parts: seq<Part>, n: nat, s: nat)
    requires n <= |parts|
    ensures SpanLength(parts, n, s) == 0
      <==> forall i :: 0 <= i < n && parts[i].spanIdx == s ==> parts[i].inPage.length == 0
  {
    if n > 0 { EmptyExactly(parts, n - 1, s); }
  }

  lemma PlacedIndex(cfg: seq<CfgPart>, k: nat)
    requires k < |cfg|
    ensures Placed(cfg)[k].spanIdx == Names(cfg, |cfg|)[cfg[k].span]
    ensures Placed(cfg)[k].inPage == cfg[k].range
  {
    hide Names;
    NamesKept(cfg, k + 1, |cfg|);
  }

  /** Every index names a span. */
  lemma {:induction false} NameOf(cfg: seq<CfgPart>, n: nat, s: nat) returns (i: nat)
    requires n <= |cfg| && s < |Names(cfg, n)|
    ensures i < n && Names(cfg, n)[cfg[i].span] == s
  {
    if s < |Names(cfg, n - 1)| {
      i := NameOf(cfg, n - 1, s);
    } else {
      i := n - 1;
    }
  }

  /** A layout has an empty span exactly when the configuration names one by empty parts only. */
  lemma EmptyByName(cfg: seq<CfgPart>, sorted: seq<Part>, layout: PageLayout)
    requires multiset(sorted) == multiset(Placed(cfg)) && BuiltFrom(cfg, sorted, layout)
    ensures EmptySpan(layout.totals) <==> HasEmptyName(cfg)
  {
    hide Names;
    NamesCount(cfg, |cfg|);
    if EmptySpan(layout.totals) {
      var s: nat :| s < |layout.totals| && layout.totals[s] == 0;
      var i := NameOf(cfg, |cfg|, s);
      EmptyExactly(sorted, |sorted|, s);
      forall k | 0 <= k < |cfg| && cfg[k].span == cfg[i].span
        ensures cfg[k].range.length == 0
      {
        PlacedIndex(cfg, k);
        assert Placed(cfg)[k] in multiset(sorted);
      }
      assert AllEmpty(cfg, cfg[i].span);
    }
    if HasEmptyName(cfg) {
      var k :| 0 <= k < |cfg| && AllEmpty(cfg, cfg[k].span);
      var s := Names(cfg, |cfg|)[cfg[k].span];
      forall i | 0 <= i < |sorted| && sorted[i].spanIdx == s
        ensures sorted[i].inPage.length == 0
      {
        assert sorted[i] in multiset(Placed(cfg));
        var j :| 0 <= j < |cfg| && Placed(cfg)[j] == sorted[i];
        PlacedIndex(cfg, j);
      }
      EmptyExactly(sorted, |sorted|, s);
      assert layout.totals[s] == 0;
    }
  }

  ghost predicate BuiltFrom(cfg: seq<CfgPart>, sorted: seq<Part>, layout: PageLayout) {
    && |layout.totals| == |Names(cfg, |cfg|)|
    && Gathered(sorted, layout.parts, |sorted|) && Measured(sorted, layout.totals, |sorted|)
  }

  lemma SpansKnown(cfg: seq<CfgPart>, sorted: seq<Part>)
    requires multiset(sorted) == multiset(Placed(cfg))
    ensures forall i :: 0 <= i < |sorted| ==> sorted[i].spanIdx < |Names(cfg, |cfg|)|
  {
    forall i | 0 <= i < |sorted|
      ensures sorted[i].spanIdx < |Names(cfg, |cfg|)|
    {
      assert sorted[i] in multiset(sorted);
      SpanKnown(cfg, sorted[i]);
    }
  }

  lemma SpanKnown(cfg: seq<CfgPart>, part: Part)
    requires part in Placed(cfg)
    ensures part.spanIdx < |Names(cfg, |cfg|)|
  {
    hide Names;
    var k :| 0 <= k < |cfg| && Placed(cfg)[k] == part;
    NamesCount(cfg, k + 1);
    NamesKept(cfg, k + 1, |cfg|);
  }
}
