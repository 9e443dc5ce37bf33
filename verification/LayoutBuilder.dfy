// add_pipeline_layout_parts: naming the spans in a hash map, sorting the parts, and gathering them into
// their spans through pointers into the map.
module LayoutBuilder {
  import opened Wrappers
  import opened RobinHood
  import opened Sizing
  import opened HashMap
  import opened Layout
  import opened SpanPointers

  // The first loop.

  /** find_or_add_new_span: the span of the name, and the bucket it is in. */
  method FindOrAdd(spans: Map<string, Span>, name: string) returns (span: Span, at: nat)
    requires spans.Valid()
    modifies spans, spans.buckets
    ensures spans.Valid() && (spans.buckets == old(spans.buckets) || fresh(spans.buckets))
    ensures PointsAt(spans.buckets[..spans.nbuckets], at, name)
    ensures name in spans.contents && span == spans.contents[name].value
    ensures name in old(spans.contents) ==>
      && spans.contents == old(spans.contents) && spans.buckets == old(spans.buckets)
      && spans.buckets[..spans.nbuckets] == old(spans.buckets[..spans.nbuckets])
    ensures name !in old(spans.contents) ==>
      && spans.contents == old(spans.contents)[name := Item(name, Span(old(spans.count), 0))]
      && (old(spans.count) >= old(spans.growat) ==> fresh(spans.buckets))
      && (old(spans.count) < old(spans.growat) ==>
            && spans.buckets == old(spans.buckets)
            && PutFirst(old(spans.buckets[..spans.nbuckets]), spans.buckets[..spans.nbuckets], Clip(spans.h(name)),
                        Item(name, Span(old(spans.count), 0))))
  {
    hide PutFirst;
    var found, i := spans.Get(name);
    if found.Some? {
      return found.value.value, i;
    }
    var _ := spans.Set(Item(name, Span(spans.count, 0)), true);
    found, i := spans.Get(name);
    return found.value.value, i;
  }

  /** The map stores the names with their indices, and spans without a length yet. */
  ghost predicate Listed(names: seq<string>, m: map<string, Item<string, Span>>) {
    && |m| == |names| && (forall name :: name in m <==> name in names)
    && forall s :: 0 <= s < |names| ==> m[names[s]] == Item(names[s], Span(s, 0))
  }

  lemma {:induction false} ListedNext(names: seq<string>, m: map<string, Item<string, Span>>, name: string)
    requires Listed(names, m) && name !in names
    ensures Listed(names + [name], m[name := Item(name, Span(|names|, 0))])
  {
    SizeAfterUpdate(m, name, Item(name, Span(|names|, 0)));
  }

  /** All parts so far have their names in the table, and the table has no others. */
  lemma {:induction false} TableNames(cfg: seq<CfgPart>, t: SpanTable, m: map<string, Item<string, Span>>, n: nat)
    requires n <= |cfg| && Represents(t, m) && forall k :: 0 <= k < n ==> cfg[k].span in m
    ensures StoresNames(cfg, t, n)
    ensures (forall name :: name in m ==> name in NameList(cfg, n)) ==> OnlyNames(cfg, t, n)
  {
    hide NameList;
    if forall name :: name in m ==> name in NameList(cfg, n) {
      forall b | 0 <= b < |t| && Full(t, b)
        ensures exists k :: 0 <= k < n && cfg[k].span == t[b].item.key
      {
        ListedByPart(cfg, n, t[b].item.key);
      }
    }
  }

  /** The map of the spans, and the pointers of the first parts. */
  ghost predicate Naming(cfg: seq<CfgPart>, h: string -> nat, spans: Map<string, Span>, pointers: seq<Pointer>)
    reads spans, spans.buckets
  {
    && spans.Valid() && spans.h == h && |pointers| <= |cfg|
    && Listed(NameList(cfg, |pointers|), spans.contents)
    && Placing(cfg, h, spans.buckets, spans.buckets[..spans.nbuckets], pointers)
  }

  /** The condition bounds the map to its first size. */
  lemma {:induction false} StillFirst(cfg: seq<CfgPart>, h: string -> nat, arr: array<Bucket<string, Span>>,
                                      t: SpanTable, pointers: seq<Pointer>)
    requires Placing(cfg, h, arr, t, pointers) && StayBelow(cfg, h, |pointers|)
    ensures |t| == 16 && GrowAt(|t|) == 9 && |NameList(cfg, |pointers|)| <= 9
  {
  }

  lemma {:induction false} AllListed(cfg: seq<CfgPart>, n: nat)
    requires n <= |cfg|
    ensures forall k :: 0 <= k < n ==> cfg[k].span in NameList(cfg, n)
  {
    forall k | 0 <= k < n
      ensures cfg[k].span in NameList(cfg, n)
    {
      ListedByPart(cfg, n, cfg[k].span);
    }
  }

  /** What setting the name of one more part does, in table `t` of buckets `arr`. */
  lemma {:induction false} Named(cfg: seq<CfgPart>, h: string -> nat, arr: array<Bucket<string, Span>>,
                                 arr': array<Bucket<string, Span>>, t: SpanTable, t': SpanTable,
                                 m: map<string, Item<string, Span>>, pointers: seq<Pointer>, grow: bool)
    requires |pointers| < |cfg| && Placing(cfg, h, arr, t, pointers) && Listed(NameList(cfg, |pointers|), m)
    requires Inv(t, h) && Inv(t', h) && Represents(t, m) && cfg[|pointers|].span !in NameList(cfg, |pointers|)
    requires var name := cfg[|pointers|].span;
      var item := Item(name, Span(|m|, 0));
      && Represents(t', m[name := item]) && (grow <==> |m| >= GrowAt(|t|)) && GrowAt(|t|) > 0
      && (!grow ==> arr' == arr && PutFirst(t, t', Clip(h(name)), item))
    requires grow ==> forall k :: 0 <= k < |pointers| ==> pointers[k].buckets != arr'
    ensures AllTracked(cfg, h, arr', t', pointers)
    ensures AllStay(cfg, arr', t', pointers) <==> StayBelow(cfg, h, |pointers| + 1)
    ensures StayBelow(cfg, h, |pointers| + 1) ==> t' == Spread(h, NameList(cfg, |pointers| + 1))
    ensures Listed(NameList(cfg, |pointers| + 1), m[cfg[|pointers|].span := Item(cfg[|pointers|].span, Span(|m|, 0))])
  {
    hide Settled, Spread, PutFirst, AllStay, AllTracked, StayBelow, Inv, Represents, Placing, GrowAt;
    var n, names, name := |pointers|, NameList(cfg, |pointers|), cfg[|pointers|].span;
    AllListed(cfg, n);
    ListedNext(names, m, name);
    TableNames(cfg, t, m, n);
    TableNames(cfg, t', m[name := Item(name, Span(|m|, 0))], n);
    AbsentMeansNone(t, m, name);
    if StayBelow(cfg, h, n) { StillFirst(cfg, h, arr, t, pointers); }
    if grow {
      LeftBehind(cfg, h, arr, arr', t, t', pointers);
    } else {
      AddedInPlace(cfg, h, arr, t, t', pointers);
    }
  }

  /** One part of the first loop: a pointer to its span. */
  method Point(cfg: seq<CfgPart>, spans: Map<string, Span>, pointers: seq<Pointer>, ghost h: string -> nat)
    returns (more: seq<Pointer>, idx: nat)
    requires |pointers| < |cfg| && Naming(cfg, h, spans, pointers)
    modifies spans, spans.buckets
    ensures spans.buckets == old(spans.buckets) || fresh(spans.buckets)
    ensures |more| == |pointers| + 1 && Naming(cfg, h, spans, more)
    ensures NameList(cfg, |pointers| + 1) != [] && idx < |NameList(cfg, |pointers| + 1)|
    ensures NameList(cfg, |pointers| + 1)[idx] == cfg[|pointers|].span
  {
    hide Placing, PutFirst, AllStay, AllTracked, StayBelow, PointsAt, Inv, Represents, Good, Spread;
    ghost var n, t, arr, m := |pointers|, spans.buckets[..spans.nbuckets], spans.buckets, spans.contents;
    GoodTable(spans);
    ghost var grow := spans.count >= spans.growat;
    var span, at := FindOrAdd(spans, cfg[|pointers|].span);
    GoodTable(spans);
    ghost var t' := spans.buckets[..spans.nbuckets];
    if cfg[n].span !in NameList(cfg, n) {
      Named(cfg, h, arr, spans.buckets, t, t', m, pointers, grow);
    } else {
      SameBelow(cfg, h, n);
      StillPlacing(cfg, h, arr, t, pointers);
    }
    NewPart(cfg, h, spans.buckets, t', pointers, at);
    IndexOf(NameList(cfg, n + 1), spans.contents, cfg[n].span);
    return pointers + [Pointer(spans.buckets, at)], span.idx;
  }

  lemma {:induction false} StillPlacing(cfg: seq<CfgPart>, h: string -> nat, arr: array<Bucket<string, Span>>,
                                        t: SpanTable, pointers: seq<Pointer>)
    requires Placing(cfg, h, arr, t, pointers)
    ensures AllTracked(cfg, h, arr, t, pointers)
    ensures AllStay(cfg, arr, t, pointers) <==> StayBelow(cfg, h, |pointers|)
    ensures StayBelow(cfg, h, |pointers|) ==> t == Spread(h, NameList(cfg, |pointers|))
  {
  }

  lemma {:induction false} IndexOf(names: seq<string>, m: map<string, Item<string, Span>>, name: string)
    requires Listed(names, m) && name in m
    ensures m[name].value.idx < |names| && names[m[name].value.idx] == name
  {
  }

  lemma {:induction false} SameBelow(cfg: seq<CfgPart>, h: string -> nat, n: nat)
    requires n < |cfg| && cfg[n].span in NameList(cfg, n)
    ensures NameList(cfg, n + 1) == NameList(cfg, n)
    ensures StayBelow(cfg, h, n + 1) <==> StayBelow(cfg, h, n)
  {
  }

  lemma {:induction false} PlacedAt(cfg: seq<CfgPart>, i: nat, idx: nat)
    requires i < |cfg| && idx < |NameList(cfg, i + 1)| && NameList(cfg, i + 1)[idx] == cfg[i].span
    ensures Placed(cfg)[i] == Part(i, idx, cfg[i].range, Range(0, cfg[i].range.length))
  {
    hide NameList, Names;
    NameListIsNames(cfg, i + 1);
  }

  /** The map is new. */
  lemma {:induction false} NamingStarts(cfg: seq<CfgPart>, h: string -> nat, arr: array<Bucket<string, Span>>,
                                        t: SpanTable)
    requires |t| == 16 && forall i :: 0 <= i < 16 ==> t[i] == Bucket(0, 0, NO_SPAN)
    ensures Listed(NameList(cfg, 0), map[]) && Placing(cfg, h, arr, t, [])
  {
    assert t == Spread(h, []);
  }

  /** A new map for the spans. */
  method NewNaming(cfg: seq<CfgPart>, h: string -> nat) returns (spans: Map<string, Span>)
    ensures fresh(spans) && fresh(spans.buckets) && Naming(cfg, h, spans, [])
  {
    hide Placing, Listed, Good, NameList;
    spans := new Map(0, h, NO_SPAN);
    NamingStarts(cfg, h, spans.buckets, spans.buckets[..spans.nbuckets]);
  }

  lemma {:induction false} PlacedNext(cfg: seq<CfgPart>, i: nat, idx: nat)
    requires i < |cfg| && idx < |NameList(cfg, i + 1)| && NameList(cfg, i + 1)[idx] == cfg[i].span
    ensures Placed(cfg)[..i] + [Part(i, idx, cfg[i].range, Range(0, cfg[i].range.length))] == Placed(cfg)[..i + 1]
  {
    hide NameList, Names;
    PlacedAt(cfg, i, idx);
  }

  /** The first loop: the first refused part, or all parts with pointers to their spans. No part is left
      behind exactly when the names stay. */
  method PlaceParts(pageSize: nat, cfg: seq<CfgPart>, h: string -> nat)
    returns (error: Option<LayoutError>, parts: seq<Part>, spans: Map<string, Span>, pointers: seq<Pointer>)
    ensures error == FirstError(pageSize, cfg, |cfg|)
    ensures fresh(spans) && fresh(spans.buckets)
    ensures error == None ==> parts == Placed(cfg) && |pointers| == |cfg| && Naming(cfg, h, spans, pointers)
  {
    hide InRange, ValidSpanName, CheckPart, Naming, NameList, Placed, FirstError;
    spans := NewNaming(cfg, h);
    parts, pointers := [], [];
    NothingPlaced(pageSize, cfg);
    for i := 0 to |cfg|
      invariant fresh(spans) && fresh(spans.buckets)
      invariant |pointers| == i && Naming(cfg, h, spans, pointers)
      invariant parts == Placed(cfg)[..i]
      invariant FirstError(pageSize, cfg, i) == None
    {
      FirstErrorNext(pageSize, cfg, i);
      if !InRange(pageSize, cfg[i].range) || !ValidSpanName(cfg[i].span) {
        FailsPart(pageSize, cfg[i]);
        ErrorKept(pageSize, cfg, i + 1, |cfg|);
        return Some(PartError(pageSize, cfg[i])), [], spans, [];
      }
      PassesPart(pageSize, cfg[i]);
      var idx;
      pointers, idx := Point(cfg, spans, pointers, h);
      PlacedNext(cfg, i, idx);
      parts := parts + [Part(i, idx, cfg[i].range, Range(0, cfg[i].range.length))];
    }
    error := None;
  }

  lemma NothingPlaced(pageSize: nat, cfg: seq<CfgPart>)
    ensures FirstError(pageSize, cfg, 0) == None && |Placed(cfg)| == |cfg|
  {
  }

  lemma FirstErrorNext(pageSize: nat, cfg: seq<CfgPart>, i: nat)
    requires i < |cfg| && FirstError(pageSize, cfg, i) == None
    ensures FirstError(pageSize, cfg, i + 1)
         == if CheckPart(pageSize, cfg[i]) then None else Some(PartError(pageSize, cfg[i]))
  {
  }

  lemma FailsPart(pageSize: nat, p: CfgPart)
    requires !InRange(pageSize, p.range) || !ValidSpanName(p.span)
    ensures !CheckPart(pageSize, p)
  {
  }

  lemma PassesPart(pageSize: nat, p: CfgPart)
    requires InRange(pageSize, p.range) && ValidSpanName(p.span)
    ensures CheckPart(pageSize, p)
  {
  }

  // The second loop.

  /** The map stores the lengths of the spans in the first `n` parts. */
  ghost predicate Weighed(names: seq<string>, sorted: seq<Part>, n: nat, m: map<string, Item<string, Span>>) {
    && n <= |sorted| && (forall name :: name in m <==> name in names)
    && forall s :: 0 <= s < |names| ==> m[names[s]] == Item(names[s], Span(s, SpanLength(sorted, n, s)))
  }

  lemma {:induction false} NothingWeighed(names: seq<string>, sorted: seq<Part>, m: map<string, Item<string, Span>>)
    requires Listed(names, m)
    ensures Weighed(names, sorted, 0, m)
  {
  }

  ghost predicate Unlike(names: seq<string>) {
    forall s, s' :: 0 <= s < s' < |names| ==> names[s] != names[s']
  }

  lemma {:induction false} NamesUnlike(cfg: seq<CfgPart>)
    ensures Unlike(NameList(cfg, |cfg|))
  {
    NameListIsNames(cfg, |cfg|);
  }

  lemma {:induction false} WeighNext(names: seq<string>, sorted: seq<Part>, n: nat, m: map<string, Item<string, Span>>,
                                     name: string, span: Span)
    requires Weighed(names, sorted, n, m) && n < |sorted| && Unlike(names) && name in m && m[name].value == span
    requires sorted[n].spanIdx < |names| && names[sorted[n].spanIdx] == name
    ensures span == Span(sorted[n].spanIdx, SpanLength(sorted, n, sorted[n].spanIdx))
    ensures Weighed(names, sorted, n + 1, m[name := Item(name, span.(total := span.total + sorted[n].inPage.length))])
  {
  }

  /** Part `part` is a placed one. */
  lemma {:induction false} PlacedName(cfg: seq<CfgPart>, part: Part)
    requires part in Placed(cfg)
    ensures part.partIdx < |cfg| && Placed(cfg)[part.partIdx] == part
    ensures part.spanIdx < |NameList(cfg, |cfg|)| && NameList(cfg, |cfg|)[part.spanIdx] == cfg[part.partIdx].span
  {
    hide NameList, Names;
    var k :| 0 <= k < |cfg| && Placed(cfg)[k] == part;
    PlacedIndex(cfg, k);
    NameListIsNames(cfg, |cfg|);
    NamesCount(cfg, |cfg|);
  }

  /** Writing a length moves no pointer. */
  ghost predicate SamePointing(cfg: seq<CfgPart>, arr: array<Bucket<string, Span>>, t: SpanTable, t': SpanTable,
                               pointers: seq<Pointer>) {
    |pointers| <= |cfg| && forall k :: 0 <= k < |pointers| ==>
      (StaysAt(cfg, arr, t', pointers, k) <==> StaysAt(cfg, arr, t, pointers, k))
  }

  lemma {:induction false} WriteKeepsPointing(cfg: seq<CfgPart>, arr: array<Bucket<string, Span>>, t: SpanTable,
                                              t': SpanTable, pointers: seq<Pointer>, at: nat, name: string, span: Span)
    requires SamePointing(cfg, arr, t, t', pointers) && PointsAt(t', at, name)
    ensures SamePointing(cfg, arr, t, t'[at := t'[at].(item := Item(name, span))], pointers)
  {
    assert forall k :: 0 <= k < |pointers| ==>
      StaysAt(cfg, arr, t'[at := t'[at].(item := Item(name, span))], pointers, k) == StaysAt(cfg, arr, t', pointers, k);
  }

  datatype Gathering = Together | Overlapping | Lost

  /** The traversal of the sorted parts. Lengths are read and written through the pointers of the parts. */
  method GatherParts(cfg: seq<CfgPart>, sorted: seq<Part>, spans: Map<string, Span>, pointers: seq<Pointer>)
    returns (r: Gathering, parts: seq<Part>)
    requires spans.Valid() && Weighed(NameList(cfg, |cfg|), sorted, 0, spans.contents) && |pointers| == |cfg|
    requires forall i :: 0 <= i < |sorted| ==> sorted[i] in Placed(cfg)
    modifies spans`contents, spans.buckets
    ensures spans.Valid()
    ensures r.Together? ==>
      && AdjacentApart(sorted) && Gathered(sorted, parts, |sorted|)
      && Weighed(NameList(cfg, |cfg|), sorted, |sorted|, spans.contents)
      && forall i :: 0 <= i < |sorted| && sorted[i].partIdx < |cfg| ==>
           StaysAt(cfg, spans.buckets, old(spans.buckets[..spans.nbuckets]), pointers, sorted[i].partIdx)
    ensures r.Overlapping? ==> !AdjacentApart(sorted)
    ensures r.Lost? ==> !AllStay(cfg, spans.buckets, old(spans.buckets[..spans.nbuckets]), pointers)
  {
    hide NonOverlappingSorted, Gathered, SpanLength, NameList, Weighed, Good, PointsAt, SamePointing, StaysAt, Placed;
    ghost var names, t := NameList(cfg, |cfg|), spans.buckets[..spans.nbuckets];
    NamesUnlike(cfg);
    parts := sorted;
    GatherStarts(cfg, sorted, spans.buckets, t, pointers);
    for i := 0 to |sorted|
      invariant spans.Valid() && Weighed(names, sorted, i, spans.contents)
      invariant SamePointing(cfg, spans.buckets, t, spans.buckets[..spans.nbuckets], pointers)
      invariant |parts| == |sorted| && Gathered(sorted, parts, i) && ApartBefore(sorted, i)
      invariant forall k :: i <= k < |sorted| ==> parts[k] == sorted[k]
      invariant forall k :: 0 <= k < i && sorted[k].partIdx < |cfg| ==>
        StaysAt(cfg, spans.buckets, t, pointers, sorted[k].partIdx)
    {
      var part := parts[i];
      if i + 1 != |sorted| && !NonOverlappingSorted(part.inPage, parts[i + 1].inPage) {
        return Overlapping, parts;
      }
      PlacedName(cfg, part);
      ghost var t' := spans.buckets[..spans.nbuckets];
      PointingSame(cfg, spans.buckets, t, t', pointers, part.partIdx);
      if !StaysAt(cfg, spans.buckets, spans.buckets[..spans.nbuckets], pointers, part.partIdx) {
        return Lost, parts;
      }
      var at, name := pointers[part.partIdx].at, cfg[part.partIdx].span;
      StayMeans(cfg, spans.buckets, t', pointers, part.partIdx);
      GoodTable(spans);
      InContentsAt(t', at, spans.contents);
      var span := spans.buckets[at].item.value;
      GatherStep(sorted, parts, i);
      WeighNext(names, sorted, i, spans.contents, name, span);
      WriteKeepsPointing(cfg, spans.buckets, t, t', pointers, at, name,
                         span.(total := span.total + part.inPage.length));
      parts := parts[i := part.(inSpan := Range(span.total, part.inSpan.length))];
      spans.WriteThrough(at, span.(total := span.total + part.inPage.length));
    }
    r := Together;
  }

  lemma {:induction false} GatherStarts(cfg: seq<CfgPart>, sorted: seq<Part>, arr: array<Bucket<string, Span>>,
                                        t: SpanTable, pointers: seq<Pointer>)
    requires |pointers| <= |cfg|
    ensures Gathered(sorted, sorted, 0) && SamePointing(cfg, arr, t, t, pointers)
  {
  }

  lemma {:induction false} PointingSame(cfg: seq<CfgPart>, arr: array<Bucket<string, Span>>, t: SpanTable,
                                        t': SpanTable, pointers: seq<Pointer>, k: nat)
    requires SamePointing(cfg, arr, t, t', pointers) && k < |pointers|
    ensures StaysAt(cfg, arr, t', pointers, k) <==> StaysAt(cfg, arr, t, pointers, k)
    ensures !StaysAt(cfg, arr, t, pointers, k) ==> !AllStay(cfg, arr, t, pointers)
  {
  }

  lemma {:induction false} StayMeans(cfg: seq<CfgPart>, arr: array<Bucket<string, Span>>, t: SpanTable,
                                     pointers: seq<Pointer>, k: nat)
    requires k < |pointers| <= |cfg| && StaysAt(cfg, arr, t, pointers, k)
    ensures pointers[k].buckets == arr && PointsAt(t, pointers[k].at, cfg[k].span)
    ensures pointers[k].at < |t| && t[pointers[k].at].dib > 0 && t[pointers[k].at].item.key == cfg[k].span
  {
  }

  lemma {:induction false} InContentsAt(t: SpanTable, at: nat, m: map<string, Item<string, Span>>)
    requires Represents(t, m) && at < |t| && t[at].dib > 0
    ensures t[at].item.key in m && m[t[at].item.key] == t[at].item
  {
    assert Full(t, at);
  }

  // All of it.

  /** The layout is built. */
  predicate LayoutAcceptable(pageSize: nat, parts: seq<CfgPart>, sorted: seq<Part>, h: string -> nat) {
    && FirstError(pageSize, parts, |parts|) == None && AdjacentApart(sorted)
    && SpansStay(parts, h) && !HasEmptyName(parts)
  }

  /** Every part is met in the sorted list, so if none is left behind there, none is. */
  lemma {:induction false} AllMet(cfg: seq<CfgPart>, sorted: seq<Part>, arr: array<Bucket<string, Span>>, t: SpanTable,
                                  pointers: seq<Pointer>)
    requires |pointers| == |cfg| && multiset(sorted) == multiset(Placed(cfg))
    requires forall i :: 0 <= i < |sorted| && sorted[i].partIdx < |cfg| ==>
      StaysAt(cfg, arr, t, pointers, sorted[i].partIdx)
    ensures AllStay(cfg, arr, t, pointers)
  {
    hide StaysAt;
    forall k | 0 <= k < |pointers|
      ensures StaysAt(cfg, arr, t, pointers, k)
    {
      var part := Placed(cfg)[k];
      assert part in multiset(sorted);
      var i :| 0 <= i < |sorted| && sorted[i] == part;
    }
  }

  lemma {:induction false} SortedArePlaced(cfg: seq<CfgPart>, sorted: seq<Part>)
    requires multiset(sorted) == multiset(Placed(cfg))
    ensures forall i :: 0 <= i < |sorted| ==> sorted[i] in Placed(cfg)
  {
    forall i | 0 <= i < |sorted|
      ensures sorted[i] in Placed(cfg)
    {
      assert sorted[i] in multiset(sorted);
    }
  }

  /** The lengths of the spans, by index. */
  method Lengths(names: seq<string>, spans: Map<string, Span>, ghost sorted: seq<Part>) returns (totals: seq<nat>)
    requires spans.Valid() && Weighed(names, sorted, |sorted|, spans.contents)
    ensures |totals| == |names| && Measured(sorted, totals, |sorted|)
  {
    totals := [];
    for s := 0 to |names|
      invariant |totals| == s && forall k :: 0 <= k < s ==> totals[k] == SpanLength(sorted, |sorted|, k)
    {
      var item, at := spans.Get(names[s]);
      totals := totals + [item.value.value.total];
    }
  }

  /** The assertion of span_buf_alloc_iter holds for every span exactly when none is empty. */
  lemma {:induction false} ScanMeans(names: seq<string>, sorted: seq<Part>, t: SpanTable,
                                     m: map<string, Item<string, Span>>, totals: seq<nat>, full: bool)
    requires Represents(t, m) && DistinctKeys(t) && Weighed(names, sorted, |sorted|, m)
    requires |totals| == |names| && Measured(sorted, totals, |sorted|)
    requires full <==> forall x :: x in Items(t, 0) ==> x.value.total > 0
    ensures full <==> !EmptySpan(totals)
  {
    hide SpanLength, Items;
    EachItemOnce(t, m);
    forall s | 0 <= s < |names|
      ensures m[names[s]] in Items(t, 0) && m[names[s]].value.total == totals[s]
    {
      assert names[s] in m;
    }
    if !EmptySpan(totals) {
      forall x | x in Items(t, 0)
        ensures x.value.total > 0
      {
        assert x.key in names;
        var s :| 0 <= s < |names| && names[s] == x.key;
        assert totals[s] != 0;
      }
    }
  }

  lemma {:induction false} BuiltMeans(cfg: seq<CfgPart>, sorted: seq<Part>, parts: seq<Part>, totals: seq<nat>)
    requires Gathered(sorted, parts, |sorted|) && Measured(sorted, totals, |sorted|)
    requires |totals| == |NameList(cfg, |cfg|)|
    ensures BuiltFrom(cfg, sorted, PageLayout(parts, totals))
  {
    NameListIsNames(cfg, |cfg|);
  }

  lemma {:induction false} NamingMeans(cfg: seq<CfgPart>, h: string -> nat, spans: Map<string, Span>,
                                       pointers: seq<Pointer>, sorted: seq<Part>)
    requires Naming(cfg, h, spans, pointers) && |pointers| == |cfg|
    ensures spans.Valid() && Weighed(NameList(cfg, |cfg|), sorted, 0, spans.contents)
    ensures AllStay(cfg, spans.buckets, spans.buckets[..spans.nbuckets], pointers) <==> SpansStay(cfg, h)
  {
    hide Good, StayBelow, AllStay, NameList;
    NothingWeighed(NameList(cfg, |cfg|), sorted, spans.contents);
  }

  /** add_pipeline_layout_parts and the allocation of the span buffers; `qsort` stands for the library's
      sort, and `h` for the hash of a name. */
  method AddParts(pageSize: nat, cfg: seq<CfgPart>, qsort: seq<Part> -> seq<Part>, h: string -> nat)
    returns (r: Outcome)
    requires forall parts :: SortOf(parts, qsort(parts))
    ensures r.Built? <==> LayoutAcceptable(pageSize, cfg, qsort(Placed(cfg)), h)
    ensures r.Built? ==> BuiltFrom(cfg, qsort(Placed(cfg)), r.layout)
    ensures r.Aborted? <==>
      && FirstError(pageSize, cfg, |cfg|) == None && AdjacentApart(qsort(Placed(cfg)))
      && SpansStay(cfg, h) && HasEmptyName(cfg)
    ensures r.Strayed? ==> FirstError(pageSize, cfg, |cfg|) == None && !SpansStay(cfg, h)
    ensures FirstError(pageSize, cfg, |cfg|) == None && AdjacentApart(qsort(Placed(cfg))) && !SpansStay(cfg, h)
      ==> r.Strayed?
    ensures r.Refused? ==> FirstError(pageSize, cfg, |cfg|) != None || !AdjacentApart(qsort(Placed(cfg)))
    ensures r.Refused? ==>
      r.error == match FirstError(pageSize, cfg, |cfg|) case Some(e) => e case None => OverlappingParts
    ensures FirstError(pageSize, cfg, |cfg|) != None ==> r.Refused?
  {
    hide Naming, SpansStay, HasEmptyName, AdjacentApart, Weighed, AllStay, StaysAt, Gathered, Measured, BuiltFrom,
         NameList, Placed, Items;
    var error, parts, spans, pointers := PlaceParts(pageSize, cfg, h);
    if error.Some? {
      return Refused(error.value);
    }
    var sorted := qsort(parts);
    assert SortOf(parts, sorted);
    SortedArePlaced(cfg, sorted);
    NamingMeans(cfg, h, spans, pointers, sorted);
    ghost var t := spans.buckets[..spans.nbuckets];
    var gathering, gathered := GatherParts(cfg, sorted, spans, pointers);
    match gathering {
      case Overlapping => return Refused(OverlappingParts);
      case Lost => return Strayed;
      case Together =>
    }
    AllMet(cfg, sorted, spans.buckets, t, pointers);
    var full, visited := spans.Scan((item: Item<string, Span>) => item.value.total > 0);
    var totals := Lengths(NameList(cfg, |cfg|), spans, sorted);
    GoodTable(spans);
    ScanMeans(NameList(cfg, |cfg|), sorted, spans.buckets[..spans.nbuckets], spans.contents, totals, full);
    BuiltMeans(cfg, sorted, gathered, totals);
    EmptyByName(cfg, sorted, PageLayout(gathered, totals));
    return if full then Built(PageLayout(gathered, totals)) else Aborted;
  }
}
