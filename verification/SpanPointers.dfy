// Parts point into the buckets of the hash map of the spans. Setting a new name can move or replace the
// buckets, and leaves the pointers behind.
module SpanPointers {
  import opened RobinHood
  import opened HashMap
  import opened Layout

  /** A span while a layout is built: its index, and its length so far. */
  datatype Span = Span(idx: nat, total: nat)

  type SpanTable = Table<string, Span>

  /** What a cleared bucket holds. */
  const NO_SPAN := Item("", Span(0, 0))

  // The names, in the order in which they first come up.

  function NameList(cfg: seq<CfgPart>, n: nat): (names: seq<string>)
    requires n <= |cfg|
  {
    if n == 0 then []
    else
      var names := NameList(cfg, n - 1);
      if cfg[n - 1].span in names then names else names + [cfg[n - 1].span]
  }

  /** The index of a name is its place in the list. */
  lemma {:induction false} NameListIsNames(cfg: seq<CfgPart>, n: nat)
    requires n <= |cfg|
    ensures |NameList(cfg, n)| == |Names(cfg, n)|
    ensures forall name :: name in NameList(cfg, n) <==> name in Names(cfg, n)
    ensures forall s :: 0 <= s < |NameList(cfg, n)| ==> Names(cfg, n)[NameList(cfg, n)[s]] == s
  {
    if n > 0 {
      NameListIsNames(cfg, n - 1);
      SizeAfterUpdate(Names(cfg, n - 1), cfg[n - 1].span, |Names(cfg, n - 1)|);
    }
  }

  lemma {:induction false} ListedByPart(cfg: seq<CfgPart>, n: nat, name: string)
    requires n <= |cfg|
    ensures name in NameList(cfg, n) <==> exists k :: 0 <= k < n && cfg[k].span == name
  {
    if n > 0 { ListedByPart(cfg, n - 1, name); }
  }

  // The condition on names and hashes.

  /** The bucket in which a new name is put. */
  function PutAt(t: SpanTable, h: string -> nat, name: string): (p: nat)
    requires t != []
    ensures p < |t|
  {
    FirstRicher(t, Home(Clip(h(name)), |t|), 1)
  }

  function Entry(t: SpanTable, h: string -> nat, name: string, idx: nat): Bucket<string, Span>
    requires t != []
  {
    var hash := Clip(h(name));
    Bucket(hash, Dist(Home(hash, |t|), PutAt(t, h, name), |t|) + 1, Item(name, Span(idx, 0)))
  }

  /** The sixteen buckets of a new map, with the names put in one after the other. */
  function Spread(h: string -> nat, names: seq<string>): (t: SpanTable)
    ensures |t| == 16
  {
    if names == [] then seq(16, _ => Bucket(0, 0, NO_SPAN))
    else
      var t, last := Spread(h, names[..|names| - 1]), |names| - 1;
      t[PutAt(t, h, names[last]) := Entry(t, h, names[last], last)]
  }

  /** Each name finds an empty bucket before a richer one. */
  predicate Settled(h: string -> nat, names: seq<string>) {
    names == [] ||
    var before := names[..|names| - 1];
    Settled(h, before) && Spread(h, before)[PutAt(Spread(h, before), h, names[|names| - 1])].dib == 0
  }

  predicate StayBelow(cfg: seq<CfgPart>, h: string -> nat, n: nat)
    requires n <= |cfg|
  {
    |NameList(cfg, n)| <= 9 && Settled(h, NameList(cfg, n))
  }

  /** At most nine names, none of which displaces another. */
  predicate SpansStay(cfg: seq<CfgPart>, h: string -> nat) {
    StayBelow(cfg, h, |cfg|)
  }

  lemma {:induction false} SettledNext(h: string -> nat, names: seq<string>, name: string)
    ensures Settled(h, names + [name])
      <==> Settled(h, names) && Spread(h, names)[PutAt(Spread(h, names), h, name)].dib == 0
    ensures Spread(h, names + [name])
         == Spread(h, names)[PutAt(Spread(h, names), h, name) := Entry(Spread(h, names), h, name, |names|)]
  {
    assert (names + [name])[..|names|] == names;
  }

  /** Names with homes of their own are settled. */
  lemma {:induction false} ApartSettle(h: string -> nat, names: seq<string>)
    requires forall i, j :: 0 <= i < j < |names| ==> Home(Clip(h(names[i])), 16) != Home(Clip(h(names[j])), 16)
    ensures Settled(h, names)
    ensures forall b: nat :: b < 16 && Spread(h, names)[b].dib > 0 ==> TakesHome(h, names, b)
  {
    if names != [] {
      var before, last := names[..|names| - 1], names[|names| - 1];
      ApartSettle(h, before);
      var t, home := Spread(h, before), Home(Clip(h(last)), 16);
      assert !TakesHome(h, before, home);
      assert PutAt(t, h, last) == home;
      forall b: nat | b < 16 && Spread(h, names)[b].dib > 0
        ensures TakesHome(h, names, b)
      {
        if b != home {
          assert TakesHome(h, before, b);
          var i :| 0 <= i < |before| && Home(Clip(h(before[i])), 16) == b;
          assert names[i] == before[i];
        }
      }
    }
  }

  ghost predicate TakesHome(h: string -> nat, names: seq<string>, b: nat) {
    exists i :: 0 <= i < |names| && Home(Clip(h(names[i])), 16) == b
  }

  /** A name with the home of another displaces what stands next to it. */
  lemma {:induction false} CrowdedNames(h: string -> nat, a: string, b: string, c: string)
    requires Home(Clip(h(a)), 16) == Home(Clip(h(c)), 16) == 8 && Home(Clip(h(b)), 16) == 9
    ensures !Settled(h, [a, b, c])
  {
    var t0 := Spread(h, []);
    SettledNext(h, [], a);
    SettledNext(h, [a], b);
    SettledNext(h, [a, b], c);
    assert [] + [a] == [a] && [a] + [b] == [a, b] && [a, b] + [c] == [a, b, c];
    assert PutAt(t0, h, a) == 8;
    var t1 := Spread(h, [a]);
    assert t1[8].dib == 1 && t1[9].dib == 0;
    assert PutAt(t1, h, b) == 9;
    var t2 := Spread(h, [a, b]);
    assert t2[8].dib == 1 && t2[9].dib == 1;
    assert FirstRicher(t2, 8, 1) == FirstRicher(t2, 9, 2) == 9;
  }

  // Pointers.

  datatype Pointer = Pointer(buckets: array<Bucket<string, Span>>, at: nat)

  /** Bucket `at` is that of the span. */
  predicate PointsAt(t: SpanTable, at: nat, name: string) {
    at < |t| && t[at].dib > 0 && t[at].item.key == name
  }

  /** The span is in the bucket in which it was when the pointer was taken, or further from its home. */
  ghost predicate Tracked(t: SpanTable, h: string -> nat, name: string, at: nat) {
    && at < |t| && Stored(t, name)
    && forall b :: 0 <= b < |t| && Full(t, b) && t[b].item.key == name ==>
         t[b].dib >= Dist(Home(Clip(h(name)), |t|), at, |t|) + 1
  }

  lemma {:induction false} PointedIsTracked(t: SpanTable, h: string -> nat, name: string, at: nat)
    requires Inv(t, h) && PointsAt(t, at, name)
    ensures Tracked(t, h, name, at)
  {
    StoredIntro(t, at);
    assert Full(t, at);
  }

  /** A set moves no span back: what is tracked remains so, and a pointer left behind remains behind. */
  lemma {:induction false} TrackedKept(t: SpanTable, t': SpanTable, h: string -> nat, name: string, at: nat)
    requires Inv(t, h) && Inv(t', h) && |t'| == |t| && DibsKept(t, t') && Tracked(t, h, name, at) && Stored(t', name)
    ensures Tracked(t', h, name, at)
    ensures PointsAt(t', at, name) ==> PointsAt(t, at, name)
  {
    var a :| 0 <= a < |t| && Full(t, a) && t[a].item.key == name;
    var home := Home(Clip(h(name)), |t|);
    assert t[a].dib == Dist(home, a, |t|) + 1;
    if PointsAt(t', at, name) {
      assert Full(t', at) && t'[at].dib == Dist(home, at, |t|) + 1;
      assert t'[at].dib >= t[a].dib;
    }
  }

  /** Pointers into buckets `arr`, which hold table `t`, are tracked. */
  ghost predicate AllTracked(cfg: seq<CfgPart>, h: string -> nat, arr: array<Bucket<string, Span>>, t: SpanTable,
                             pointers: seq<Pointer>) {
    && |pointers| <= |cfg|
    && forall k :: 0 <= k < |pointers| && pointers[k].buckets == arr ==> Tracked(t, h, cfg[k].span, pointers[k].at)
  }

  predicate StaysAt(cfg: seq<CfgPart>, arr: array<Bucket<string, Span>>, t: SpanTable, pointers: seq<Pointer>, k: nat)
    requires k < |pointers| <= |cfg|
  {
    pointers[k].buckets == arr && PointsAt(t, pointers[k].at, cfg[k].span)
  }

  /** No part has been left behind. */
  predicate AllStay(cfg: seq<CfgPart>, arr: array<Bucket<string, Span>>, t: SpanTable, pointers: seq<Pointer>) {
    |pointers| <= |cfg| && forall k :: 0 <= k < |pointers| ==> StaysAt(cfg, arr, t, pointers, k)
  }

  /** After the first parts: no part is left behind exactly when the condition holds so far, and then the
      table is the spread of the names. */
  ghost predicate Placing(cfg: seq<CfgPart>, h: string -> nat, arr: array<Bucket<string, Span>>, t: SpanTable,
                          pointers: seq<Pointer>) {
    && AllTracked(cfg, h, arr, t, pointers)
    && (AllStay(cfg, arr, t, pointers) <==> StayBelow(cfg, h, |pointers|))
    && (StayBelow(cfg, h, |pointers|) ==> t == Spread(h, NameList(cfg, |pointers|)))
  }

  /** The table stores the names so far. */
  ghost predicate StoresNames(cfg: seq<CfgPart>, t: SpanTable, n: nat)
    requires n <= |cfg|
  {
    forall k :: 0 <= k < n ==> Stored(t, cfg[k].span)
  }

  // One more part.

  lemma {:induction false} SameStay(cfg: seq<CfgPart>, arr: array<Bucket<string, Span>>, t: SpanTable,
                                    pointers: seq<Pointer>, more: seq<Pointer>, last: Pointer)
    requires more == pointers + [last] && |more| <= |cfg| && StaysAt(cfg, arr, t, more, |pointers|)
    ensures AllStay(cfg, arr, t, more) <==> AllStay(cfg, arr, t, pointers)
  {
    assert forall k :: 0 <= k < |pointers| ==> StaysAt(cfg, arr, t, more, k) == StaysAt(cfg, arr, t, pointers, k);
  }

  // A new name without a resize: table `t` becomes table `t'`.

  lemma {:induction false} NoneReturns(cfg: seq<CfgPart>, h: string -> nat, arr: array<Bucket<string, Span>>,
                                       t: SpanTable, t': SpanTable, pointers: seq<Pointer>)
    requires AllTracked(cfg, h, arr, t, pointers) && Inv(t, h) && Inv(t', h) && |t'| == |t| && DibsKept(t, t')
    requires StoresNames(cfg, t', |pointers|)
    ensures AllTracked(cfg, h, arr, t', pointers)
    ensures AllStay(cfg, arr, t', pointers) ==> AllStay(cfg, arr, t, pointers)
  {
    hide Inv, DibsKept, Tracked, PointsAt;
    forall k | 0 <= k < |pointers| && pointers[k].buckets == arr
      ensures Tracked(t', h, cfg[k].span, pointers[k].at)
      ensures PointsAt(t', pointers[k].at, cfg[k].span) ==> PointsAt(t, pointers[k].at, cfg[k].span)
    {
      assert Stored(t', cfg[k].span);
      TrackedKept(t, t', h, cfg[k].span, pointers[k].at);
    }
    assert forall k :: 0 <= k < |pointers| && StaysAt(cfg, arr, t', pointers, k) ==> StaysAt(cfg, arr, t, pointers, k);
  }

  lemma {:induction false} AllKept(cfg: seq<CfgPart>, arr: array<Bucket<string, Span>>, t: SpanTable, t': SpanTable,
                                   pointers: seq<Pointer>)
    requires AllStay(cfg, arr, t, pointers) && KeepsBuckets(t, t')
    ensures AllStay(cfg, arr, t', pointers)
  {
    forall k | 0 <= k < |pointers|
      ensures StaysAt(cfg, arr, t', pointers, k)
    {
      assert StaysAt(cfg, arr, t, pointers, k) && Full(t, pointers[k].at);
    }
  }

  /** The name whose bucket the new one takes is left behind. */
  lemma {:induction false} OneLeftBehind(cfg: seq<CfgPart>, arr: array<Bucket<string, Span>>, t: SpanTable,
                                         t': SpanTable, pointers: seq<Pointer>, p: nat)
    requires |pointers| < |cfg| && AllStay(cfg, arr, t, pointers) && DistinctKeys(t) && p < |t| && Full(t, p)
    requires exists k :: 0 <= k < |pointers| && cfg[k].span == t[p].item.key
    requires PointsAt(t', p, cfg[|pointers|].span) && t[p].item.key != cfg[|pointers|].span
    ensures !AllStay(cfg, arr, t', pointers)
  {
    var k :| 0 <= k < |pointers| && cfg[k].span == t[p].item.key;
    assert StaysAt(cfg, arr, t, pointers, k);
    assert pointers[k].at == p by { assert Full(t, pointers[k].at); }
    assert !StaysAt(cfg, arr, t', pointers, k);
  }

  /** Every name in the table is that of a part. */
  ghost predicate OnlyNames(cfg: seq<CfgPart>, t: SpanTable, n: nat)
    requires n <= |cfg|
  {
    forall b :: 0 <= b < |t| && Full(t, b) ==> exists k :: 0 <= k < n && cfg[k].span == t[b].item.key
  }

  lemma {:induction false} AddedInPlace(cfg: seq<CfgPart>, h: string -> nat, arr: array<Bucket<string, Span>>,
                                        t: SpanTable, t': SpanTable, pointers: seq<Pointer>)
    requires Placing(cfg, h, arr, t, pointers) && Inv(t, h) && Inv(t', h) && |pointers| < |cfg|
    requires StoresNames(cfg, t', |pointers|) && OnlyNames(cfg, t, |pointers|)
    requires cfg[|pointers|].span !in NameList(cfg, |pointers|)
    requires StayBelow(cfg, h, |pointers|) ==> |NameList(cfg, |pointers|)| < 9
    requires NoneHas(t, cfg[|pointers|].span)
    requires PutFirst(t, t', Clip(h(cfg[|pointers|].span)),
                      Item(cfg[|pointers|].span, Span(|NameList(cfg, |pointers|)|, 0)))
    ensures AllTracked(cfg, h, arr, t', pointers)
    ensures AllStay(cfg, arr, t', pointers) <==> StayBelow(cfg, h, |pointers| + 1)
    ensures StayBelow(cfg, h, |pointers| + 1) ==> t' == Spread(h, NameList(cfg, |pointers| + 1))
  {
    hide Settled, Spread, Inv, AllStay, AllTracked, KeepsBuckets, FirstRicher;
    var n, names, name := |pointers|, NameList(cfg, |pointers|), cfg[|pointers|].span;
    SettledNext(h, names, name);
    NoneReturns(cfg, h, arr, t, t', pointers);
    KeepsExactly(t, t', Clip(h(name)), Item(name, Span(|names|, 0)));
    if AllStay(cfg, arr, t, pointers) {
      var p := PutAt(t, h, name);
      if Full(t, p) {
        InvDistinct(t, h);
        OneLeftBehind(cfg, arr, t, t', pointers, p);
      } else {
        AllKept(cfg, arr, t, t', pointers);
      }
    }
  }

  /** With a resize: all parts so far point into the old buckets. */
  lemma {:induction false} LeftBehind(cfg: seq<CfgPart>, h: string -> nat, was: array<Bucket<string, Span>>,
                                      arr: array<Bucket<string, Span>>, t: SpanTable, t': SpanTable,
                                      pointers: seq<Pointer>)
    requires Placing(cfg, h, was, t, pointers) && 0 < |pointers| < |cfg|
    requires forall k :: 0 <= k < |pointers| ==> pointers[k].buckets != arr
    requires cfg[|pointers|].span !in NameList(cfg, |pointers|)
    requires StayBelow(cfg, h, |pointers|) ==> |NameList(cfg, |pointers|)| >= 9
    ensures AllTracked(cfg, h, arr, t', pointers)
    ensures !AllStay(cfg, arr, t', pointers) && !StayBelow(cfg, h, |pointers| + 1)
  {
    hide Settled, Spread;
    SettledNext(h, NameList(cfg, |pointers|), cfg[|pointers|].span);
    assert !StaysAt(cfg, arr, t', pointers, 0);
  }

  /** The new part points to the bucket of its name. */
  lemma {:induction false} NewPart(cfg: seq<CfgPart>, h: string -> nat, arr: array<Bucket<string, Span>>, t: SpanTable,
                                   pointers: seq<Pointer>, at: nat)
    requires |pointers| < |cfg| && Inv(t, h) && AllTracked(cfg, h, arr, t, pointers)
    requires AllStay(cfg, arr, t, pointers) <==> StayBelow(cfg, h, |pointers| + 1)
    requires StayBelow(cfg, h, |pointers| + 1) ==> t == Spread(h, NameList(cfg, |pointers| + 1))
    requires PointsAt(t, at, cfg[|pointers|].span)
    ensures Placing(cfg, h, arr, t, pointers + [Pointer(arr, at)])
  {
    hide Settled, Spread, Inv, NameList;
    var n, more := |pointers|, pointers + [Pointer(arr, at)];
    PointedIsTracked(t, h, cfg[n].span, at);
    assert StaysAt(cfg, arr, t, more, n);
    SameStay(cfg, arr, t, pointers, more, Pointer(arr, at));
  }
}
