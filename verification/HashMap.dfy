// The hash map: open addressing with Robin Hood displacement and backward-shift deletion.
module HashMap {
  import opened Wrappers
  import opened RobinHood
  import opened Sizing

  /** The smallest power of two that is at least 16 and at least `cap`. */
  method Capacity(cap: nat) returns (ncap: nat)
    ensures PowerOfTwo(ncap) && ncap >= 16 && ncap >= cap
    ensures ncap == 16 || ncap / 2 < cap
    ensures PowerOfTwo(cap) && cap >= 16 ==> ncap == cap
  {
    ncap := 16;
    while ncap < cap
      invariant PowerOfTwo(ncap) && ncap >= 16
      invariant ncap == 16 || ncap / 2 < cap
      decreases cap - ncap
    {
      ncap := ncap * 2;
    }
    if PowerOfTwo(cap) && cap >= 16 && ncap != cap { PowersApart(ncap, cap); }
  }

  lemma RingStep(i: nat, n: nat)
    requires PowerOfTwo(n) && i < n
    ensures And(i + 1, n - 1) == Next(i, n)
  {
    hide And, PowerOfTwo;
    MaskIsRemainder(i + 1, n);
    var q, s := DivMod(i + 1, n);
    if i + 1 == n { RemainderUnique(n, 1, 0, q, s); } else { RemainderUnique(n, 0, i + 1, q, s); }
  }

  lemma RingHome(hash: nat, n: nat)
    requires PowerOfTwo(n)
    ensures And(hash, n - 1) == Home(hash, n)
  {
    MaskIsRemainder(hash, n);
  }

  /** The new table starts empty. */
  lemma EmptyTable<K, V>(t: Table<K, V>, h: K -> nat)
    requires |t| > 1 && forall i :: 0 <= i < |t| ==> !Full(t, i)
    ensures Inv(t, h) && Represents(t, map[])
  {
  }

  /** More buckets than items leave an empty one. */
  lemma SomeEmpty<K, V>(t: Table<K, V>, m: map<K, Item<K, V>>) returns (z: nat)
    requires DistinctKeys(t) && Represents(t, m) && |m| < |t|
    ensures z < |t| && !Full(t, z)
  {
    CountIsSize(t, m);
    z := RoomMeansEmpty(t, |t|);
  }

  /** The stored distances stay below the number of buckets, so up to 65536 buckets 16 bits hold them. */
  lemma FieldsFit<K, V>(t: Table<K, V>, h: K -> nat, m: map<K, Item<K, V>>, i: nat)
    requires Inv(t, h) && Represents(t, m) && |m| < |t| && i < |t|
    ensures t[i].dib < |t|
    ensures Full(t, i) ==> t[i].hash == h(t[i].item.key) % 0x1_0000_0000_0000
  {
    var z := SomeEmpty(t, m);
    OrderChain(t, z, i);
  }

  /** The table without the carried entry stores the rest of the map. */
  lemma RestIsStored<K, V>(t: Table<K, V>, e: Item<K, V>, m: map<K, Item<K, V>>)
    requires RepresentsWith(t, e, m)
    ensures Represents(t, m - {e.key}) && |m - {e.key}| == |m| - 1
  {
    var rest := m - {e.key};
    forall i | 0 <= i < |t| && Full(t, i)
      ensures t[i].item.key in rest && rest[t[i].item.key] == t[i].item
    {
      StoredIntro(t, i);
    }
    SizeAfterRemoval(m, e.key);
  }

  lemma SomeEmptyWith<K, V>(t: Table<K, V>, e: Item<K, V>, m: map<K, Item<K, V>>) returns (z: nat)
    requires DistinctKeys(t) && RepresentsWith(t, e, m) && |m| <= |t|
    ensures z < |t| && !Full(t, z)
  {
    RestIsStored(t, e, m);
    z := SomeEmpty(t, m - {e.key});
  }

  /** So do the distances of the entries that the set and resize loops carry: besides the bucket an
      entry looks at, one more is empty. */
  lemma CarriedFits<K, V>(t: Table<K, V>, h: K -> nat, e: Bucket<K, V>, i: nat, m: map<K, Item<K, V>>)
    requires Inv(t, h) && Represents(t, m) && |m| + 1 < |t| && i < |t| && Carried(t, h, e, i)
    ensures e.dib < |t| && e.hash < 0x1_0000_0000_0000
  {
    hide Inv, Carried, Represents;
    assert DistinctKeys(t) by { InvDistinct(t, h); }
    CountIsSize(t, m);
    var filled := t[i := t[i].(dib := 1)];
    FillOne(t, |t|, i, t[i].(dib := 1));
    var z := RoomMeansEmpty(filled, |t|);
    assert z != i && !Full(t, z);
    DibBound(t, h, e, i, z);
    HashClipped(t, h, e, i);
  }

  lemma InvDistinct<K, V>(t: Table<K, V>, h: K -> nat)
    requires Inv(t, h)
    ensures DistinctKeys(t)
  {
  }

  lemma HashClipped<K, V>(t: Table<K, V>, h: K -> nat, e: Bucket<K, V>, i: nat)
    requires i < |t| && Carried(t, h, e, i)
    ensures e.hash < HASH_RANGE
  {
  }

  // One step of the displacement loops. Entry `e` is on its way, at bucket `i`; bucket `z` is empty.

  ghost predicate Moving<K, V>(t: Table<K, V>, h: K -> nat, e: Bucket<K, V>, i: nat, z: nat, m: map<K, Item<K, V>>) {
    && i < |t| && z < |t| && !Full(t, z)
    && Inv(t, h) && Carried(t, h, e, i) && RepresentsWith(t, e.item, m)
  }

  lemma StartsMoving<K, V>(t: Table<K, V>, h: K -> nat, e: Bucket<K, V>, m: map<K, Item<K, V>>) returns (z: nat)
    requires Inv(t, h) && RepresentsWith(t, e.item, m) && |m| <= |t|
    requires e.dib == 1 && e.hash == Clip(h(e.item.key))
    ensures Moving(t, h, e, Home(e.hash, |t|), z, m)
  {
    hide RepresentsWith, Carried;
    StartCarried(t, h, e);
    z := SomeEmptyWith(t, e.item, m);
  }

  lemma Settles<K, V>(t: Table<K, V>, h: K -> nat, e: Bucket<K, V>, i: nat, z: nat, m: map<K, Item<K, V>>)
    requires Moving(t, h, e, i, z, m) && t[i].dib == 0
    ensures Inv(t[i := e], h) && Represents(t[i := e], m)
  {
    hide Inv, Represents;
    KeyIsNew(t, e.item, m);
    PlaceKeepsOrder(t, h, e, i);
    PlaceStores(t, e, i, m);
  }

  lemma Displaces<K, V>(t: Table<K, V>, h: K -> nat, e: Bucket<K, V>, i: nat, z: nat, m: map<K, Item<K, V>>)
    requires Moving(t, h, e, i, z, m) && 0 < t[i].dib < e.dib
    ensures Moving(t[i := e], h, t[i].(dib := t[i].dib + 1), Next(i, |t|), z, m)
    ensures i != z
  {
    hide Inv, RepresentsWith, Carried;
    KeyIsNew(t, e.item, m);
    PlaceKeepsOrder(t, h, e, i);
    assert Carried(t, h, e, i);
    SwapKeeps(t, h, e, i, m);
    SwapAdvances(t, h, e, i, z);
  }

  lemma Passes<K, V>(t: Table<K, V>, h: K -> nat, e: Bucket<K, V>, i: nat, z: nat, m: map<K, Item<K, V>>)
    requires Moving(t, h, e, i, z, m) && t[i].dib >= e.dib
    ensures Moving(t, h, e.(dib := e.dib + 1), Next(i, |t|), z, m)
    ensures i != z
  {
    hide Inv, RepresentsWith;
    Advance(t, h, e, i, z);
  }

  lemma MovingFits<K, V>(t: Table<K, V>, h: K -> nat, e: Bucket<K, V>, i: nat, z: nat, m: map<K, Item<K, V>>)
    requires Moving(t, h, e, i, z, m) && |m| < |t|
    ensures e.dib < |t|
  {
    hide Inv, Carried, RepresentsWith;
    RestIsStored(t, e.item, m);
    CarriedFits(t, h, e, i, m - {e.item.key});
  }

  lemma KeyIsNew<K, V>(t: Table<K, V>, e: Item<K, V>, m: map<K, Item<K, V>>)
    requires RepresentsWith(t, e, m)
    ensures forall j :: 0 <= j < |t| && Full(t, j) ==> t[j].item.key != e.key
  {
    forall j | 0 <= j < |t| && Full(t, j)
      ensures t[j].item.key != e.key
    {
      StoredIntro(t, j);
    }
  }

  /** resize0, its inner loop: entry `e` moves into a table of `b.Length` buckets. */
  method Place<K(==), V>(b: array<Bucket<K, V>>, e: Bucket<K, V>, ghost h: K -> nat, ghost m: map<K, Item<K, V>>)
    requires PowerOfTwo(b.Length) && Inv(b[..], h) && RepresentsWith(b[..], e.item, m) && |m| < b.Length
    requires e.dib == 1 && e.hash == Clip(h(e.item.key))
    modifies b
    ensures Inv(b[..], h) && Represents(b[..], m)
  {
    hide Inv, Represents, RepresentsWith, PowerOfTwo, And, Moving;
    ghost var z := StartsMoving(b[..], h, e, m);
    var mask := b.Length - 1;
    var entry := e;
    RingHome(entry.hash, b.Length);
    var j: nat := And(entry.hash, mask);
    InRing(b[..], h, entry, j, z, m);
    MovingFits(b[..], h, entry, j, z, m);
    while true
      invariant j < b.Length && z < b.Length && Moving(b[..], h, entry, j, z, m) && entry.dib < b.Length
      decreases Dist(j, z, b.Length)
    {
      ghost var t := b[..];
      if b[j].dib == 0 {
        Settles(t, h, entry, j, z, m);
        b[j] := entry;
        assert b[..] == t[j := entry];
        break;
      }
      if b[j].dib < entry.dib {
        Displaces(t, h, entry, j, z, m);
        ghost var e := entry;
        b[j], entry := entry, b[j];
        assert b[..] == t[j := e];
      } else {
        Passes(t, h, entry, j, z, m);
      }
      RingStep(j, b.Length);
      DistNext(j, z, b.Length);
      j := And(j + 1, mask);
      entry := entry.(dib := entry.dib + 1);
      MovingFits(b[..], h, entry, j, z, m);
    }
  }

  lemma InRing<K, V>(t: Table<K, V>, h: K -> nat, e: Bucket<K, V>, i: nat, z: nat, m: map<K, Item<K, V>>)
    requires Moving(t, h, e, i, z, m)
    ensures i < |t| && z < |t|
  {
  }

  // Rehashing: `done` are the items of the first `i` buckets of the old table.

  ghost predicate Copied<K, V>(t: Table<K, V>, i: nat, done: map<K, Item<K, V>>, m: map<K, Item<K, V>>) {
    i <= |t| && done.Keys == KeysOf(t, i) && forall k :: k in done ==> k in m && done[k] == m[k]
  }

  lemma CopyNext<K, V>(t: Table<K, V>, h: K -> nat, i: nat, done: map<K, Item<K, V>>, m: map<K, Item<K, V>>,
                       to: Table<K, V>)
    requires Inv(t, h) && Represents(t, m) && Copied(t, i, done, m) && i < |t| && Full(t, i)
    requires Represents(to, done)
    ensures t[i].hash == Clip(h(t[i].item.key))
    ensures t[i].item.key !in done && Copied(t, i + 1, done[t[i].item.key := t[i].item], m)
    ensures RepresentsWith(to, t[i].item, done[t[i].item.key := t[i].item])
  {
    var k := t[i].item.key;
    KeysOfMeans(t, i, k);
    assert k !in done;
    forall j | 0 <= j < |to| && Full(to, j)
      ensures to[j].item.key != k
    {
    }
  }

  lemma CopySkips<K, V>(t: Table<K, V>, i: nat, done: map<K, Item<K, V>>, m: map<K, Item<K, V>>)
    requires Copied(t, i, done, m) && i < |t| && !Full(t, i)
    ensures Copied(t, i + 1, done, m)
  {
  }

  lemma CopyStarts<K, V>(t: Table<K, V>, m: map<K, Item<K, V>>)
    ensures Copied(t, 0, map[], m)
  {
  }

  lemma CopyFits<K, V>(t: Table<K, V>, i: nat, done: map<K, Item<K, V>>, m: map<K, Item<K, V>>)
    requires Copied(t, i, done, m)
    ensures |done| <= |m|
  {
    assert done.Keys <= m.Keys;
    SubsetSize(done.Keys, m.Keys);
    assert |done| == |done.Keys| && |m| == |m.Keys|;
  }

  lemma {:induction false} SubsetSize<T>(a: set<T>, b: set<T>)
    requires a <= b
    ensures |a| <= |b|
  {
    if a != {} {
      var x :| x in a;
      SubsetSize(a - {x}, b - {x});
    }
  }

  lemma AllCopied<K, V>(t: Table<K, V>, done: map<K, Item<K, V>>, m: map<K, Item<K, V>>)
    requires Represents(t, m) && Copied(t, |t|, done, m)
    ensures done == m
  {
    forall k | k in m
      ensures k in done
    {
      assert Stored(t, k);
      KeysOfMeans(t, |t|, k);
    }
  }

  /** resize0, its outer loop: a new table of `ncap` buckets gets the entries of the first `n` buckets;
      `moves` counts them. */
  method Rehash<K(==), V>(from: array<Bucket<K, V>>, n: nat, ncap: nat, blank: Item<K, V>, ghost h: K -> nat,
                          ghost m: map<K, Item<K, V>>)
    returns (to: array<Bucket<K, V>>, ghost moves: nat)
    requires n <= from.Length && Inv(from[..n], h) && Represents(from[..n], m)
    requires PowerOfTwo(ncap) && ncap > 1 && |m| < ncap
    ensures fresh(to) && to.Length == ncap && Inv(to[..], h) && Represents(to[..], m)
    ensures moves == |m|
  {
    hide Inv, Represents, RepresentsWith, PowerOfTwo, Copied, KeysOf;
    var none := Bucket(0, 0, blank);
    to := new Bucket<K, V>[ncap](_ => none);
    EmptyTable(to[..], h);
    ghost var t, done: map<K, Item<K, V>> := from[..n], map[];
    CopyStarts(t, m);
    moves := 0;
    for i := 0 to n
      invariant moves == |done|
      invariant fresh(to) && Inv(to[..], h) && Represents(to[..], done) && Copied(t, i, done, m)
    {
      if from[i].dib == 0 {
        CopySkips(t, i, done, m);
        continue;
      }
      CopyNext(t, h, i, done, m, to[..]);
      SizeAfterUpdate(done, t[i].item.key, t[i].item);
      moves := moves + 1;
      done := done[t[i].item.key := t[i].item];
      CopyFits(t, i + 1, done, m);
      Place(to, from[i].(dib := 1), h, done);
    }
    AllCopied(t, done, m);
  }

  // Setting: until the first displacement, entry `e` looks for its own key and for its place at once.

  ghost predicate Seeking<K, V>(t: Table<K, V>, h: K -> nat, e: Bucket<K, V>, i: nat, z: nat, m: map<K, Item<K, V>>) {
    && i < |t| && z < |t| && !Full(t, z)
    && Inv(t, h) && Represents(t, m) && Carried(t, h, e, i)
    && PassedBy(t, e.item.key, Home(e.hash, |t|), i)
  }

  lemma StartsSeeking<K, V>(t: Table<K, V>, h: K -> nat, e: Bucket<K, V>, m: map<K, Item<K, V>>) returns (z: nat)
    requires Inv(t, h) && Represents(t, m) && |m| < |t|
    requires e.dib == 1 && e.hash == Clip(h(e.item.key))
    ensures Seeking(t, h, e, Home(e.hash, |t|), z, m)
  {
    hide Represents, Carried;
    StartCarried(t, h, e);
    z := SomeEmpty(t, m);
  }

  /** A richer or empty bucket: the key is not in the map, so the entry may take the bucket. */
  lemma SeekingEnds<K, V>(t: Table<K, V>, h: K -> nat, e: Bucket<K, V>, i: nat, z: nat, m: map<K, Item<K, V>>)
    requires Seeking(t, h, e, i, z, m) && t[i].dib < e.dib
    ensures e.item.key !in m && Moving(t, h, e, i, z, m[e.item.key := e.item])
  {
    RicherMeansAbsent(t, h, e.item.key, i);
    forall j | 0 <= j < |t| && Full(t, j)
      ensures t[j].item.key != e.item.key
    {
      StoredIntro(t, j);
    }
  }

  lemma SeekingPasses<K, V>(t: Table<K, V>, h: K -> nat, e: Bucket<K, V>, i: nat, z: nat, m: map<K, Item<K, V>>)
    requires Seeking(t, h, e, i, z, m) && t[i].dib >= e.dib
    requires e.hash != t[i].hash || e.item.key != t[i].item.key
    ensures Seeking(t, h, e.(dib := e.dib + 1), Next(i, |t|), z, m)
    ensures i != z
  {
    assert i != z;
    assert Full(t, i) && t[i].hash == Clip(h(t[i].item.key));
    Advance(t, h, e, i, z);
    DibBound(t, h, e, i, z);
    PassOn(t, e.item.key, Home(e.hash, |t|), i);
  }

  lemma SeekingFinds<K, V>(t: Table<K, V>, h: K -> nat, e: Bucket<K, V>, i: nat, z: nat, m: map<K, Item<K, V>>)
    requires Seeking(t, h, e, i, z, m) && t[i].dib > 0 && e.item.key == t[i].item.key
    ensures e.item.key in m && m[e.item.key] == t[i].item
    ensures Inv(t[i := t[i].(item := e.item)], h) && Represents(t[i := t[i].(item := e.item)], m[e.item.key := e.item])
  {
    hide Inv;
    assert Full(t, i);
    ReplaceKeeps(t, h, i, e.item, m);
  }

  lemma MovingIsNew<K, V>(t: Table<K, V>, h: K -> nat, e: Bucket<K, V>, i: nat, z: nat, m: map<K, Item<K, V>>)
    requires Moving(t, h, e, i, z, m) && t[i].dib > 0
    ensures e.item.key != t[i].item.key
  {
    hide Inv, RepresentsWith;
    KeyIsNew(t, e.item, m);
    assert Full(t, i);
  }

  ghost predicate Inserting<K, V>(displaced: bool, t: Table<K, V>, h: K -> nat, e: Bucket<K, V>, i: nat, z: nat,
                                  m: map<K, Item<K, V>>, item: Item<K, V>) {
    && i < |t| && z < |t|
    && if displaced then item.key !in m && Moving(t, h, e, i, z, m[item.key := item])
       else e.item == item && Seeking(t, h, e, i, z, m)
  }

  // Where the entries are after a set.

  /** No entry comes nearer to its home. */
  ghost predicate DibsKept<K, V>(t0: Table<K, V>, t: Table<K, V>) {
    forall a, c :: 0 <= a < |t0| && 0 <= c < |t| && Full(t0, a) && Full(t, c) && t0[a].item.key == t[c].item.key
      ==> t[c].dib >= t0[a].dib
  }

  ghost predicate CarriedKept<K, V>(t0: Table<K, V>, e: Bucket<K, V>) {
    forall a :: 0 <= a < |t0| && Full(t0, a) && t0[a].item.key == e.item.key ==> e.dib >= t0[a].dib
  }

  /** Every stored entry is still in its bucket. */
  ghost predicate KeepsBuckets<K, V>(t0: Table<K, V>, t: Table<K, V>) {
    |t| == |t0| && forall a :: 0 <= a < |t0| && Full(t0, a) ==> t[a] == t0[a]
  }

  /** The new item is in bucket `p`; if that was empty, nothing else changed. */
  ghost predicate InsertedAt<K, V>(t0: Table<K, V>, t: Table<K, V>, p: nat, hash: nat, item: Item<K, V>) {
    && |t| == |t0| && p < |t| && Full(t, p) && t[p].item == item && DibsKept(t0, t)
    && (t0[p].dib == 0 ==> t == t0[p := Bucket(hash, Dist(Home(hash, |t0|), p, |t0|) + 1, item)])
  }

  /** The new item is in the first bucket that is richer than its probe, or empty. */
  ghost predicate PutFirst<K, V>(t0: Table<K, V>, t: Table<K, V>, hash: nat, item: Item<K, V>) {
    t0 != [] && InsertedAt(t0, t, FirstRicher(t0, Home(hash, |t0|), 1), hash, item)
  }

  ghost predicate NoneHas<K, V>(t: Table<K, V>, k: K) {
    forall a :: 0 <= a < |t| && Full(t, a) ==> t[a].item.key != k
  }

  /** A set of a new key leaves every stored entry in its bucket exactly when that bucket is empty. */
  lemma KeepsExactly<K, V>(t0: Table<K, V>, t: Table<K, V>, hash: nat, item: Item<K, V>)
    requires PutFirst(t0, t, hash, item) && NoneHas(t0, item.key)
    ensures KeepsBuckets(t0, t) <==> !Full(t0, FirstRicher(t0, Home(hash, |t0|), 1))
  {
  }

  lemma AbsentMeansNone<K, V>(t: Table<K, V>, m: map<K, Item<K, V>>, k: K)
    requires Represents(t, m) && k !in m
    ensures NoneHas(t, k)
  {
  }

  /** How far a set has come, from table `t0` on: the new item goes to bucket `p`. */
  ghost predicate Trail<K, V>(displaced: bool, t0: Table<K, V>, t: Table<K, V>, e: Bucket<K, V>, i: nat, z: nat,
                              p: nat, item: Item<K, V>) {
    && |t| == |t0| && i < |t| && z < |t| && p < |t| && DibsKept(t0, t)
    && (!displaced ==> t == t0 && e.item == item && FirstRicher(t0, i, e.dib) == p)
    && (displaced ==>
          && Full(t0, p) && Full(t, p) && t[p].item == item
          && Dist(i, z, |t|) < Dist(p, z, |t|) && CarriedKept(t0, e))
  }

  lemma TrailStarts<K, V>(t: Table<K, V>, h: K -> nat, e: Bucket<K, V>, i: nat, z: nat)
    requires Inv(t, h) && i < |t| && z < |t| && e.dib == 1
    ensures Trail(false, t, t, e, i, z, FirstRicher(t, i, 1), e.item)
  {
    hide InPlace, Ordered, Hashed;
  }

  lemma TrailPasses<K, V>(displaced: bool, t0: Table<K, V>, t: Table<K, V>, e: Bucket<K, V>, i: nat, z: nat,
                          p: nat, item: Item<K, V>)
    requires Trail(displaced, t0, t, e, i, z, p, item) && t[i].dib >= e.dib && i != z && e.dib < |t|
    ensures Trail(displaced, t0, t, e.(dib := e.dib + 1), Next(i, |t|), z, p, item)
  {
    DistNext(i, z, |t|);
  }

  lemma TrailSwaps<K, V>(displaced: bool, t0: Table<K, V>, t: Table<K, V>, e: Bucket<K, V>, i: nat, z: nat,
                         p: nat, item: Item<K, V>)
    requires Trail(displaced, t0, t, e, i, z, p, item) && 0 < t[i].dib < e.dib && i != z && NoneHas(t0, item.key)
    ensures Trail(true, t0, t[i := e], t[i].(dib := t[i].dib + 1), Next(i, |t|), z, p, item)
  {
    DistNext(i, z, |t|);
    assert Full(t, i);
  }

  lemma TrailSettles<K, V>(displaced: bool, t0: Table<K, V>, t: Table<K, V>, h: K -> nat, e: Bucket<K, V>, i: nat,
                           z: nat, p: nat, item: Item<K, V>)
    requires Trail(displaced, t0, t, e, i, z, p, item) && t[i].dib == 0 && NoneHas(t0, item.key)
    requires Carried(t, h, e, i)
    ensures InsertedAt(t0, t[i := e], p, Clip(h(item.key)), item)
  {
    assert displaced ==> i != p;
  }

  /** The loop of hashmap_set_with_hash. It replaces the item of an equal key and returns it, or adds the item. */
  method Insert<K(==), V>(b: array<Bucket<K, V>>, n: nat, item: Item<K, V>, hash: nat,
                          ghost h: K -> nat, ghost m: map<K, Item<K, V>>) returns (was: Option<Item<K, V>>)
    requires n <= b.Length && PowerOfTwo(n) && Inv(b[..n], h) && Represents(b[..n], m) && |m| + 1 < n
    requires hash == Clip(h(item.key))
    modifies b
    ensures Inv(b[..n], h) && Represents(b[..n], m[item.key := item])
    ensures was == if item.key in m then Some(m[item.key]) else None
    ensures item.key !in m ==> PutFirst(old(b[..n]), b[..n], hash, item)
  {
    hide Inv, Represents, PowerOfTwo, And, Moving, Seeking, Trail, InsertedAt;
    var entry := Bucket(hash, 1, item);
    ghost var t0 := b[..n];
    ghost var z := StartsSeeking(t0, h, entry, m);
    ghost var displaced := false;
    var mask := n - 1;
    RingHome(hash, n);
    var i: nat := And(hash, mask);
    SeekingInRing(t0, h, entry, i, z, m);
    InsertingFits(displaced, t0, h, entry, i, z, m, item);
    TrailStarts(t0, h, entry, i, z);
    ghost var p := FirstRicher(t0, i, 1);
    while true
      invariant Inserting(displaced, b[..n], h, entry, i, z, m, item) && entry.dib < n
      invariant Trail(displaced, t0, b[..n], entry, i, z, p, item)
      decreases Dist(i, z, n)
    {
      ghost var t := b[..n];
      if b[i].dib == 0 {
        InsertSettles(displaced, t, h, entry, i, z, m, item);
        AbsentMeansNone(t0, m, item.key);
        TrailSettles(displaced, t0, t, h, entry, i, z, p, item);
        b[i] := entry;
        assert b[..n] == t[i := entry];
        return None;
      }
      if entry.hash == b[i].hash && entry.item.key == b[i].item.key {
        InsertReplaces(displaced, t, h, entry, i, z, m, item);
        was := Some(b[i].item);
        b[i] := b[i].(item := entry.item);
        assert b[..n] == t[i := t[i].(item := item)];
        return;
      }
      InsertSteps(displaced, t, h, entry, i, z, m, item);
      if b[i].dib < entry.dib {
        AbsentMeansNone(t0, m, item.key);
        TrailSwaps(displaced, t0, t, entry, i, z, p, item);
        ghost var e := entry;
        b[i], entry := entry, b[i];
        displaced := true;
        assert b[..n] == t[i := e];
      } else {
        TrailPasses(displaced, t0, t, entry, i, z, p, item);
      }
      RingStep(i, n);
      DistNext(i, z, n);
      i := And(i + 1, mask);
      entry := entry.(dib := entry.dib + 1);
      InsertingFits(displaced, b[..n], h, entry, i, z, m, item);
    }
  }

  lemma SeekingInRing<K, V>(t: Table<K, V>, h: K -> nat, e: Bucket<K, V>, i: nat, z: nat, m: map<K, Item<K, V>>)
    requires Seeking(t, h, e, i, z, m)
    ensures i < |t| && z < |t|
  {
  }

  lemma InsertingFits<K, V>(displaced: bool, t: Table<K, V>, h: K -> nat, e: Bucket<K, V>, i: nat, z: nat,
                            m: map<K, Item<K, V>>, item: Item<K, V>)
    requires Inserting(displaced, t, h, e, i, z, m, item) && |m| + 1 < |t|
    ensures e.dib < |t|
  {
    hide Inv, Represents, RepresentsWith, Carried, PassedBy;
    if displaced {
      SizeAfterUpdate(m, item.key, item);
      MovingFits(t, h, e, i, z, m[item.key := item]);
    } else {
      CarriedFits(t, h, e, i, m);
    }
  }

  lemma InsertSettles<K, V>(displaced: bool, t: Table<K, V>, h: K -> nat, e: Bucket<K, V>, i: nat, z: nat,
                            m: map<K, Item<K, V>>, item: Item<K, V>)
    requires Inserting(displaced, t, h, e, i, z, m, item) && t[i].dib == 0
    ensures item.key !in m && Inv(t[i := e], h) && Represents(t[i := e], m[item.key := item])
    ensures Carried(t, h, e, i)
  {
    assert Carried(t, h, e, i) by { hide Inv, Represents; }
    hide Inv, Represents, Moving;
    if !displaced {
      assert e.dib > 0 by { hide Inv, Represents; }
      SeekingEnds(t, h, e, i, z, m);
    }
    Settles(t, h, e, i, z, m[item.key := item]);
  }

  /** After a displacement no bucket holds the key of the carried entry. */
  lemma InsertReplaces<K, V>(displaced: bool, t: Table<K, V>, h: K -> nat, e: Bucket<K, V>, i: nat, z: nat,
                             m: map<K, Item<K, V>>, item: Item<K, V>)
    requires Inserting(displaced, t, h, e, i, z, m, item) && t[i].dib > 0 && e.item.key == t[i].item.key
    ensures e.item == item && item.key in m && m[item.key] == t[i].item
    ensures Inv(t[i := t[i].(item := item)], h) && Represents(t[i := t[i].(item := item)], m[item.key := item])
  {
    hide Inv, Represents, Moving, Seeking;
    if displaced {
      MovingIsNew(t, h, e, i, z, m[item.key := item]);
      assert false;
    } else {
      SeekingFinds(t, h, e, i, z, m);
    }
  }

  lemma InsertSteps<K, V>(displaced: bool, t: Table<K, V>, h: K -> nat, e: Bucket<K, V>, i: nat, z: nat,
                          m: map<K, Item<K, V>>, item: Item<K, V>)
    requires Inserting(displaced, t, h, e, i, z, m, item) && t[i].dib > 0
    requires e.hash != t[i].hash || e.item.key != t[i].item.key
    ensures i != z && (t[i].dib < e.dib ==> item.key !in m)
    ensures t[i].dib < e.dib ==> Inserting(true, t[i := e], h, t[i].(dib := t[i].dib + 1), Next(i, |t|), z, m, item)
    ensures t[i].dib >= e.dib ==> Inserting(displaced, t, h, e.(dib := e.dib + 1), Next(i, |t|), z, m, item)
  {
    hide Inv, Represents, Moving, Seeking;
    if t[i].dib < e.dib {
      if !displaced { SeekingEnds(t, h, e, i, z, m); }
      Displaces(t, h, e, i, z, m[item.key := item]);
    } else if displaced {
      Passes(t, h, e, i, z, m[item.key := item]);
    } else {
      SeekingPasses(t, h, e, i, z, m);
    }
  }

  // Looking a key up.

  ghost predicate Searching<K, V>(t: Table<K, V>, h: K -> nat, k: K, i: nat, z: nat, m: map<K, Item<K, V>>) {
    && i < |t| && z < |t| && !Full(t, z) && Inv(t, h) && Represents(t, m)
    && PassedBy(t, k, Home(Clip(h(k)), |t|), i)
    && Dist(Home(Clip(h(k)), |t|), i, |t|) + Dist(i, z, |t|) == Dist(Home(Clip(h(k)), |t|), z, |t|)
  }

  lemma StartsSearching<K, V>(t: Table<K, V>, h: K -> nat, k: K, m: map<K, Item<K, V>>) returns (z: nat)
    requires Inv(t, h) && Represents(t, m) && |m| < |t|
    ensures z < |t| && Searching(t, h, k, Home(Clip(h(k)), |t|), z, m)
  {
    hide Represents;
    z := SomeEmpty(t, m);
  }

  lemma SearchingStops<K, V>(t: Table<K, V>, h: K -> nat, k: K, i: nat, z: nat, m: map<K, Item<K, V>>)
    requires Searching(t, h, k, i, z, m)
    ensures i < |t|
    ensures t[i].dib == 0 ==> k !in m
    ensures t[i].dib > 0 && t[i].item.key == k ==> k in m && m[k] == t[i].item && t[i].hash == Clip(h(k))
  {
    if t[i].dib == 0 {
      RicherMeansAbsent(t, h, k, i);
    } else {
      assert Full(t, i);
    }
  }

  lemma SearchingPasses<K, V>(t: Table<K, V>, h: K -> nat, k: K, i: nat, z: nat, m: map<K, Item<K, V>>)
    requires Searching(t, h, k, i, z, m) && t[i].dib > 0 && t[i].item.key != k
    ensures i != z && Searching(t, h, k, Next(i, |t|), z, m)
  {
    hide Inv, Represents;
    var home := Home(Clip(h(k)), |t|);
    DistNext(i, z, |t|);
    DistNext(home, i, |t|);
    PassOn(t, k, home, i);
  }

  /** The search of hashmap_get_with_hash and hashmap_delete_with_hash, up to the key or an empty bucket. */
  method Find<K(==), V>(b: array<Bucket<K, V>>, n: nat, key: K, hash: nat, ghost h: K -> nat,
                        ghost m: map<K, Item<K, V>>)
    returns (found: bool, i: nat)
    requires n <= b.Length && PowerOfTwo(n) && Inv(b[..n], h) && Represents(b[..n], m) && |m| < n
    requires hash == Clip(h(key))
    ensures found <==> key in m
    ensures i < n && (found ==> b[i].dib > 0 && b[i].item == m[key] && b[i].item.key == key)
  {
    hide Inv, Represents, PowerOfTwo, And, Searching;
    var mask := n - 1;
    ghost var z := StartsSearching(b[..n], h, key, m);
    RingHome(hash, n);
    i := And(hash, mask);
    while true
      invariant i < n && z < n && Searching(b[..n], h, key, i, z, m)
      decreases Dist(i, z, n)
    {
      SearchingStops(b[..n], h, key, i, z, m);
      if b[i].dib == 0 {
        return false, i;
      }
      if b[i].hash == hash && b[i].item.key == key {
        return true, i;
      }
      SearchingPasses(b[..n], h, key, i, z, m);
      RingStep(i, n);
      DistNext(i, z, n);
      i := And(i + 1, mask);
    }
  }

  // Backward shift. The gap is at `p`, where a stale entry may still stand; bucket `z` is empty.

  ghost predicate Closing<K, V>(t: Table<K, V>, h: K -> nat, p: nat, d: nat, z: nat, m: map<K, Item<K, V>>) {
    && p < |t| && z < |t| && p != z && !Full(t, z)
    && Gap(Without(t, p), h, p, d) && Represents(Without(t, p), m)
  }

  lemma StartsClosing<K, V>(t: Table<K, V>, h: K -> nat, p: nat, m: map<K, Item<K, V>>) returns (d: nat, z: nat)
    requires Inv(t, h) && Represents(t, m) && |m| < |t| && p < |t| && Full(t, p)
    ensures z < |t| && Closing(Without(t, p), h, p, d, z, m - {t[p].item.key})
  {
    hide Represents;
    OpenGap(t, h, p);
    OpenGapStores(t, p, m);
    z := SomeEmpty(t, m);
    d := t[p].dib;
    assert Without(Without(t, p), p) == Without(t, p);
  }

  lemma Closed<K, V>(t: Table<K, V>, h: K -> nat, p: nat, d: nat, z: nat, m: map<K, Item<K, V>>)
    requires Closing(t, h, p, d, z, m) && t[Next(p, |t|)].dib <= 1
    ensures Inv(Without(t, p), h) && Represents(Without(t, p), m)
  {
    hide Inv, Represents;
    CloseGap(Without(t, p), h, p, d);
  }

  lemma ClosingShifts<K, V>(t: Table<K, V>, h: K -> nat, p: nat, d: nat, z: nat, m: map<K, Item<K, V>>)
    requires Closing(t, h, p, d, z, m) && t[Next(p, |t|)].dib > 1
    ensures var q := Next(p, |t|);
      Closing(t[p := t[q].(dib := t[q].dib - 1)], h, q, t[q].dib, z, m)
  {
    hide Represents;
    var q, r := Next(p, |t|), t[p := t[Next(p, |t|)].(dib := t[Next(p, |t|)].dib - 1)];
    var w := Without(t, p);
    assert p != q;
    ShiftGap(w, h, p, d);
    ShiftStores(w, p, m);
    assert Without(r, q) == Shifted(w, p);
  }

  lemma ClosingInRing<K, V>(t: Table<K, V>, h: K -> nat, p: nat, d: nat, z: nat, m: map<K, Item<K, V>>)
    requires Closing(t, h, p, d, z, m)
    ensures p < |t| && z < |t| && p != z
  {
  }

  /** The shift of hashmap_delete_with_hash: bucket `at` is given up, and entries away from home move back. */
  method Remove<K(==), V>(b: array<Bucket<K, V>>, n: nat, at: nat, ghost h: K -> nat, ghost m: map<K, Item<K, V>>)
    requires n <= b.Length && PowerOfTwo(n) && Inv(b[..n], h) && Represents(b[..n], m) && |m| < n
    requires at < n && b[at].dib > 0
    modifies b
    ensures Inv(b[..n], h) && Represents(b[..n], m - {old(b[at].item.key)})
  {
    hide Inv, Represents, PowerOfTwo, And, Closing;
    ghost var t0, m' := b[..n], m - {b[at].item.key};
    ghost var d, z := StartsClosing(t0, h, at, m);
    var mask, i := n - 1, at;
    b[i] := b[i].(dib := 0);
    assert b[..n] == Without(t0, i);
    while true
      invariant i < n && z < n && Closing(b[..n], h, i, d, z, m')
      decreases Dist(i, z, n)
    {
      ghost var t := b[..n];
      ClosingInRing(t, h, i, d, z, m');
      var prev := i;
      RingStep(i, n);
      DistNext(i, z, n);
      i := And(i + 1, mask);
      if b[i].dib <= 1 {
        Closed(t, h, prev, d, z, m');
        b[prev] := b[prev].(dib := 0);
        assert b[..n] == Without(t, prev);
        return;
      }
      ClosingShifts(t, h, prev, d, z, m');
      d := b[i].dib;
      b[prev] := b[i].(dib := b[i].dib - 1);
      assert b[..n] == t[prev := t[i].(dib := t[i].dib - 1)];
    }
  }

  // Iterating.

  /** The items of the buckets from `i` on. */
  function Items<K, V>(t: Table<K, V>, i: nat): (items: seq<Item<K, V>>)
    requires i <= |t|
    decreases |t| - i
  {
    if i == |t| then []
    else if t[i].dib > 0 then [t[i].item] + Items(t, i + 1)
    else Items(t, i + 1)
  }

  ghost predicate HeldFrom<K, V>(t: Table<K, V>, i: nat, x: Item<K, V>) {
    exists j :: i <= j < |t| && Full(t, j) && t[j].item == x
  }

  lemma {:induction false} ItemFrom<K, V>(t: Table<K, V>, i: nat, x: Item<K, V>)
    requires i <= |t|
    ensures x in Items(t, i) <==> HeldFrom(t, i, x)
    decreases |t| - i
  {
    if i < |t| {
      ItemFrom(t, i + 1, x);
      if HeldFrom(t, i, x) {
        var j :| i <= j < |t| && Full(t, j) && t[j].item == x;
        assert j > i ==> HeldFrom(t, i + 1, x);
      }
    }
  }

  lemma {:induction false} ItemsDistinct<K, V>(t: Table<K, V>, i: nat)
    requires i <= |t| && DistinctKeys(t)
    ensures forall p, q :: 0 <= p < q < |Items(t, i)| ==> Items(t, i)[p].key != Items(t, i)[q].key
    decreases |t| - i
  {
    if i < |t| {
      ItemsDistinct(t, i + 1);
      forall x | x in Items(t, i + 1)
        ensures t[i].dib > 0 ==> x.key != t[i].item.key
      {
        ItemFrom(t, i + 1, x);
      }
    }
  }

  /** Iterating from the first bucket meets every item of the map, and each key once. */
  lemma EachItemOnce<K, V>(t: Table<K, V>, m: map<K, Item<K, V>>)
    requires DistinctKeys(t) && Represents(t, m)
    ensures forall k :: k in m ==> m[k] in Items(t, 0) && m[k].key == k
    ensures forall x :: x in Items(t, 0) ==> x.key in m && m[x.key] == x
    ensures forall p, q :: 0 <= p < q < |Items(t, 0)| ==> Items(t, 0)[p].key != Items(t, 0)[q].key
  {
    ItemsDistinct(t, 0);
    forall k | k in m
      ensures m[k] in Items(t, 0) && m[k].key == k
    {
      assert Stored(t, k);
      ItemFrom(t, 0, m[k]);
    }
    forall x | x in Items(t, 0)
      ensures x.key in m && m[x.key] == x
    {
      ItemFrom(t, 0, x);
    }
  }

  /** What a scan visits before `accept` first says no; the second part says whether it never does. */
  function Visited<X>(items: seq<X>, accept: X -> bool): (r: (seq<X>, bool))
    ensures r.0 <= items && (r.1 <==> forall x :: x in items ==> accept(x))
    ensures r.1 ==> r.0 == items
    ensures !r.1 ==> |r.0| > 0 && !accept(r.0[|r.0| - 1])
    ensures forall p :: 0 <= p < |r.0| - 1 ==> accept(r.0[p])
  {
    if items == [] then ([], true)
    else if !accept(items[0]) then ([items[0]], false)
    else var r := Visited(items[1..], accept); ([items[0]] + r.0, r.1)
  }

  lemma ItemsStep<K, V>(t: Table<K, V>, i: nat)
    requires i < |t|
    ensures t[i].dib > 0 ==> Items(t, i) == [t[i].item] + Items(t, i + 1)
    ensures t[i].dib == 0 ==> Items(t, i) == Items(t, i + 1)
    ensures i + 1 == |t| ==> Items(t, i + 1) == []
  {
  }

  lemma VisitedStep<X>(x: X, rest: seq<X>, accept: X -> bool)
    ensures Visited([x] + rest, accept)
         == if accept(x) then ([x] + Visited(rest, accept).0, Visited(rest, accept).1) else ([x], false)
  {
    assert ([x] + rest)[1..] == rest;
  }

  /** The first `n` buckets become empty. */
  method Wipe<K, V>(b: array<Bucket<K, V>>, n: nat, blank: Item<K, V>, ghost h: K -> nat)
    requires 1 < n <= b.Length
    modifies b
    ensures Inv(b[..n], h) && Represents(b[..n], map[])
  {
    for i := 0 to n
      invariant forall j :: 0 <= j < i ==> b[j].dib == 0
    {
      b[i] := Bucket(0, 0, blank);
    }
    EmptyTable(b[..n], h);
  }

  /** Table `t`, with `s` for its size, stores `m`. */
  ghost predicate Good<K, V>(t: Table<K, V>, h: K -> nat, m: map<K, Item<K, V>>, s: Shape, mask: nat, growat: nat,
                             shrinkat: nat) {
    && |t| == s.nbuckets && mask == s.nbuckets - 1 && s.count == |m|
    && growat == GrowAt(s.nbuckets) && shrinkat == ShrinkAt(s.nbuckets) && ValidShape(s)
    && Inv(t, h) && Represents(t, m)
  }

  class Map<K(==), V> {
    const h: K -> nat
    const blank: Item<K, V>
    var buckets: array<Bucket<K, V>>
    var nbuckets: nat
    var mask: nat
    var cap: nat
    var count: nat
    var growat: nat
    var shrinkat: nat
    var growpower: nat
    var oom: bool
    ghost var contents: map<K, Item<K, V>>
    ghost var moved: nat

    ghost function Sized(): Shape
      reads this
    {
      Shape(nbuckets, count, cap, growpower, moved)
    }

    ghost predicate Valid()
      reads this, buckets
    {
      nbuckets <= buckets.Length && Good(buckets[..nbuckets], h, contents, Sized(), mask, growat, shrinkat)
    }

    /** hashmap_new */
    constructor (cap: nat, h: K -> nat, blank: Item<K, V>)
      ensures Valid() && fresh(buckets) && this.h == h
      ensures contents == map[] && !oom && Sized() == Shape(nbuckets, 0, nbuckets, 1, 0)
      ensures nbuckets >= cap && (nbuckets == 16 || nbuckets / 2 < cap)
      ensures buckets.Length == nbuckets && forall i :: 0 <= i < nbuckets ==> buckets[i] == Bucket(0, 0, blank)
    {
      var ncap := Capacity(cap);
      this.h, this.blank := h, blank;
      this.cap, nbuckets, mask, count := ncap, ncap, ncap - 1, 0;
      growpower, growat, shrinkat, oom := 1, GrowAt(ncap), ShrinkAt(ncap), false;
      var none := Bucket(0, 0, blank);
      buckets := new Bucket<K, V>[ncap](_ => none);
      contents, moved := map[], 0;
      new;
      EmptyTable(buckets[..nbuckets], h);
    }

    /** The table `to`, which `moves` entries were moved to, replaces the present one. */
    method Adopt(to: array<Bucket<K, V>>, ghost moves: nat)
      requires count == |contents| && ValidShape(Sized().(nbuckets := to.Length, moved := moved + moves))
      requires Inv(to[..], h) && Represents(to[..], contents)
      modifies this`buckets, this`nbuckets, this`mask, this`growat, this`shrinkat, this`moved
      ensures Valid() && buckets == to
      ensures Sized() == old(Sized()).(nbuckets := to.Length, moved := old(moved) + moves)
    {
      hide Inv, Represents, PowerOfTwo, GrowAt, ShrinkAt;
      buckets, nbuckets, mask := to, to.Length, to.Length - 1;
      growat, shrinkat := GrowAt(to.Length), ShrinkAt(to.Length);
      moved := moved + moves;
      assert buckets[..nbuckets] == to[..];
    }

    /** resize0: on success the table has `newCap` buckets and stores the same items. */
    method Resize(newCap: nat, alloc: bool) returns (ok: bool)
      requires Valid() && PowerOfTwo(newCap) && newCap >= 16 && newCap >= cap && count <= GrowAt(newCap)
      modifies this, buckets
      ensures Valid() && (buckets == old(buckets) || fresh(buckets))
      ensures contents == old(contents) && oom == old(oom) && ok == alloc
      ensures Sized() ==
        if ok then old(Sized()).(nbuckets := newCap, moved := old(moved) + old(count)) else old(Sized())
      ensures ok ==> fresh(buckets)
      ensures !ok ==> buckets == old(buckets) && buckets[..] == old(buckets[..])
    {
      hide Inv, Represents, PowerOfTwo, ValidShape, GrowAt, ShrinkAt;
      if !alloc {
        return false;
      }
      ResizedShape(Sized(), newCap);
      var ncap := Capacity(newCap);
      assert ncap == newCap;
      var to, moves := Rehash(buckets, nbuckets, ncap, blank, h, contents);
      Adopt(to, moves);
      return true;
    }

    /** The item is added, or replaces that of an equal key; there is room for one more. */
    method PutItem(item: Item<K, V>, hash: nat) returns (was: Option<Item<K, V>>)
      requires Valid() && hash == Clip(h(item.key)) && count < GrowAt(nbuckets)
      modifies this`contents, this`count, buckets
      ensures Valid() && contents == old(contents)[item.key := item]
      ensures was == if item.key in old(contents) then Some(old(contents)[item.key]) else None
      ensures Sized() == old(Sized()).(count := if item.key in old(contents) then old(count) else old(count) + 1)
      ensures item.key !in old(contents) ==> PutFirst(old(buckets[..nbuckets]), buckets[..nbuckets], hash, item)
    {
      hide Inv, Represents, PowerOfTwo, ValidShape, GrowAt, ShrinkAt, PutFirst;
      RoomLeft(Sized());
      MoreFit(Sized());
      was := Insert(buckets, nbuckets, item, hash, h, contents);
      if was.None? {
        count := count + 1;
      }
      SizeAfterUpdate(contents, item.key, item);
      contents := contents[item.key := item];
    }

    /** hashmap_set_with_hash: binds the key of `item`, unless a larger table is needed and there is no memory. */
    method SetWithHash(item: Item<K, V>, hash: nat, alloc: bool) returns (was: Option<Item<K, V>>)
      requires Valid() && Clip(hash) == Clip(h(item.key))
      modifies this, buckets
      ensures Valid() && (buckets == old(buckets) || fresh(buckets))
      ensures oom <==> old(count) >= old(growat) && !alloc
      ensures !oom ==> contents == old(contents)[item.key := item]
      ensures !oom ==> was == if item.key in old(contents) then Some(old(contents)[item.key]) else None
      ensures oom ==> contents == old(contents) && was == None
      ensures oom ==> buckets == old(buckets) && buckets[..] == old(buckets[..])
      ensures Sized() == AfterSet(old(Sized()), item.key in old(contents), alloc)
      ensures oom <==> old(count) >= old(nbuckets) * 60 / 100 && !alloc
      ensures nbuckets == if old(count) >= old(nbuckets) * 60 / 100 && alloc then Shift(old(nbuckets), old(growpower))
                          else old(nbuckets)
      ensures old(growpower) == 1 ==> nbuckets == old(nbuckets) || nbuckets == 2 * old(nbuckets)
      ensures buckets == old(buckets) <==> !(old(count) >= old(growat) && alloc)
      ensures old(count) < old(growat) && item.key !in old(contents) ==>
        PutFirst(old(buckets[..nbuckets]), buckets[..nbuckets], Clip(hash), item)
    {
      hide Inv, Represents, PowerOfTwo, ValidShape, GrowAt, ShrinkAt, Shift, PutFirst;
      GrowAtIs(nbuckets);
      ShiftDoubles(nbuckets, 0);
      oom := false;
      if count >= growat {
        GrownFits(Sized());
        var ok := Resize(Shift(nbuckets, growpower), alloc);
        if !ok {
          oom := true;
          return None;
        }
      }
      was := PutItem(item, Clip(hash));
    }

    /** hashmap_set */
    method Set(item: Item<K, V>, alloc: bool) returns (was: Option<Item<K, V>>)
      requires Valid()
      modifies this, buckets
      ensures Valid() && (buckets == old(buckets) || fresh(buckets))
      ensures oom <==> old(count) >= old(growat) && !alloc
      ensures !oom ==> contents == old(contents)[item.key := item]
      ensures !oom ==> was == if item.key in old(contents) then Some(old(contents)[item.key]) else None
      ensures oom ==> contents == old(contents) && was == None
      ensures Sized() == AfterSet(old(Sized()), item.key in old(contents), alloc)
      ensures buckets == old(buckets) <==> !(old(count) >= old(growat) && alloc)
      ensures old(count) < old(growat) && item.key !in old(contents) ==>
        PutFirst(old(buckets[..nbuckets]), buckets[..nbuckets], Clip(h(item.key)), item)
    {
      was := SetWithHash(item, h(item.key), alloc);
    }

    /** hashmap_get_with_hash: the item, and the bucket in which a pointer to it points. */
    method GetWithHash(key: K, hash: nat) returns (item: Option<Item<K, V>>, at: nat)
      requires Valid() && Clip(hash) == Clip(h(key))
      ensures item == if key in contents then Some(contents[key]) else None
      ensures item.Some? ==>
        && at < nbuckets <= buckets.Length && buckets[at].dib > 0
        && buckets[at].item == item.value && item.value.key == key
    {
      hide Inv, Represents, PowerOfTwo;
      RoomLeft(Sized());
      var found, i := Find(buckets, nbuckets, key, Clip(hash), h, contents);
      return if found then Some(buckets[i].item) else None, i;
    }

    /** hashmap_get */
    method Get(key: K) returns (item: Option<Item<K, V>>, at: nat)
      requires Valid()
      ensures item == if key in contents then Some(contents[key]) else None
      ensures item.Some? ==>
        && at < nbuckets <= buckets.Length && buckets[at].dib > 0
        && buckets[at].item == item.value && item.value.key == key
    {
      item, at := GetWithHash(key, h(key));
    }

    /** A write through a pointer to the item in bucket `at`. */
    method WriteThrough(at: nat, value: V)
      requires Valid() && at < nbuckets && buckets[at].dib > 0
      modifies this`contents, buckets
      ensures Valid() && old(buckets[at].item.key) in old(contents)
      ensures var key := old(buckets[at].item.key);
        && contents == old(contents)[key := Item(key, value)]
        && buckets[..nbuckets] == old(buckets[..nbuckets])[at := old(buckets[at]).(item := Item(key, value))]
    {
      hide Inv, Represents, PowerOfTwo, ValidShape, GrowAt, ShrinkAt;
      ghost var t := buckets[..nbuckets];
      var key := buckets[at].item.key;
      InContents(t, at, contents);
      ReplaceKeeps(t, h, at, Item(key, value), contents);
      SizeAfterUpdate(contents, key, Item(key, value));
      buckets[at] := buckets[at].(item := Item(key, value));
      contents := contents[key := Item(key, value)];
      assert buckets[..nbuckets] == t[at := t[at].(item := Item(key, value))];
    }

    /** The item of bucket `i` goes, and the entries behind it move back. */
    method DropBucket(i: nat)
      requires Valid() && i < nbuckets && buckets[i].dib > 0 && buckets[i].item.key in contents
      modifies this`contents, this`count, buckets
      ensures Valid() && old(count) > 0
      ensures contents == old(contents) - {old(buckets[i].item.key)}
      ensures Sized() == old(Sized()).(count := old(count) - 1)
    {
      hide Inv, Represents, PowerOfTwo, ValidShape, GrowAt, ShrinkAt;
      ghost var key := buckets[i].item.key;
      RoomLeft(Sized());
      Remove(buckets, nbuckets, i, h, contents);
      SizeAfterRemoval(contents, key);
      FewerFit(Sized());
      contents := contents - {key};
      count := count - 1;
    }

    /** hashmap_delete_with_hash: the map without the key, whether or not a shrink gets its memory. */
    method DeleteWithHash(key: K, hash: nat, alloc: bool) returns (was: Option<Item<K, V>>)
      requires Valid() && Clip(hash) == Clip(h(key))
      modifies this, buckets
      ensures Valid() && (buckets == old(buckets) || fresh(buckets)) && !oom
      ensures contents == old(contents) - {key}
      ensures was == if key in old(contents) then Some(old(contents)[key]) else None
      ensures key in old(contents) ==> old(count) > 0 && Sized() == AfterDelete(old(Sized()), alloc)
      ensures key !in old(contents) ==> Sized() == old(Sized()) && buckets[..] == old(buckets[..])
      ensures key in old(contents) ==>
        nbuckets == if old(nbuckets) > old(cap) && old(count) - 1 <= old(nbuckets) * 10 / 100 && alloc
                    then old(nbuckets) / 2 else old(nbuckets)
    {
      hide Inv, Represents, PowerOfTwo, ValidShape, GrowAt, ShrinkAt;
      ShrinkAtIs(nbuckets);
      oom := false;
      RoomLeft(Sized());
      var found, i := Find(buckets, nbuckets, key, Clip(hash), h, contents);
      if !found {
        assert contents - {key} == contents;
        return None;
      }
      was := Some(buckets[i].item);
      DropBucket(i);
      if nbuckets > cap && count <= shrinkat {
        ShrunkFits(Sized());
        var _ := Resize(nbuckets / 2, alloc);
      }
    }

    /** hashmap_delete */
    method Delete(key: K, alloc: bool) returns (was: Option<Item<K, V>>)
      requires Valid()
      modifies this, buckets
      ensures Valid() && (buckets == old(buckets) || fresh(buckets)) && !oom
      ensures contents == old(contents) - {key}
      ensures was == if key in old(contents) then Some(old(contents)[key]) else None
      ensures key in old(contents) ==> old(count) > 0 && Sized() == AfterDelete(old(Sized()), alloc)
      ensures key !in old(contents) ==> Sized() == old(Sized())
    {
      was := DeleteWithHash(key, h(key), alloc);
    }

    /** The first buckets are emptied, and the limits follow from their number. */
    method Empty()
      requires nbuckets <= buckets.Length && count == 0 && ValidShape(Sized())
      modifies this`mask, this`growat, this`shrinkat, this`contents, buckets
      ensures Valid() && contents == map[]
    {
      hide Inv, Represents, PowerOfTwo, GrowAt, ShrinkAt;
      Wipe(buckets, nbuckets, blank, h);
      mask, growat, shrinkat := nbuckets - 1, GrowAt(nbuckets), ShrinkAt(nbuckets);
      contents := map[];
    }

    /** hashmap_clear: empty, with the capacity as the new size, or the present size as the new capacity. */
    method Clear(updateCap: bool, alloc: bool)
      requires Valid()
      modifies this, buckets
      ensures Valid() && (buckets == old(buckets) || fresh(buckets)) && contents == map[]
      ensures nbuckets == cap == if updateCap then old(nbuckets) else old(cap)
      ensures growpower == old(growpower) && moved == old(moved) && oom == old(oom)
    {
      hide Inv, Represents, PowerOfTwo, ValidShape, GrowAt, ShrinkAt;
      ClearedShape(Sized());
      count := 0;
      if updateCap {
        cap := nbuckets;
      } else if nbuckets != cap {
        if alloc {
          var none := Bucket(0, 0, blank);
          buckets := new Bucket<K, V>[cap](_ => none);
        }
        nbuckets := cap;
      }
      Empty();
    }

    /** hashmap_set_grow_by_power */
    method SetGrowByPower(power: nat)
      requires Valid()
      modifies this`growpower
      ensures Valid() && 1 <= growpower <= 16 && (1 <= power <= 16 ==> growpower == power)
    {
      hide Inv, Represents, PowerOfTwo;
      growpower := if power < 1 then 1 else if power > 16 then 16 else power;
    }

    /** hashmap_scan; `visited` lists the items given to `iter`. */
    method Scan(iter: Item<K, V> -> bool) returns (finished: bool, visited: seq<Item<K, V>>)
      requires Valid()
      ensures (visited, finished) == Visited(Items(buckets[..nbuckets], 0), iter)
    {
      hide Good, Items, Visited;
      visited := [];
      ghost var t := buckets[..nbuckets];
      for i := 0 to nbuckets
        invariant ScannedTo(t, i, visited, iter)
      {
        ScanStep(t, i, visited, iter);
        if buckets[i].dib != 0 {
          visited := visited + [buckets[i].item];
          if !iter(buckets[i].item) {
            return false, visited;
          }
        }
      }
      ScanDone(t, visited, iter);
      finished := true;
    }

    /** hashmap_iter: the next item from bucket `i` on, and where to go on from. */
    method Iter(i: nat) returns (item: Option<Item<K, V>>, next: nat)
      requires Valid() && i <= nbuckets
      ensures i <= next <= nbuckets
      ensures Items(buckets[..nbuckets], i)
        == match item case None => [] case Some(x) => [x] + Items(buckets[..nbuckets], next)
      ensures item.Some? ==> i < next
    {
      hide Good, Items;
      ghost var t := buckets[..nbuckets];
      next := i;
      while true
        invariant i <= next <= nbuckets && Items(t, i) == Items(t, next)
        decreases nbuckets - next
      {
        if next >= nbuckets {
          NoItems(t);
          return None, next;
        }
        ItemsStep(t, next);
        next := next + 1;
        if buckets[next - 1].dib != 0 {
          return Some(buckets[next - 1].item), next;
        }
      }
    }
  }

  /** hashmap_new_with_allocator: nothing if either allocation fails. */
  method New<K(==), V>(cap: nat, h: K -> nat, blank: Item<K, V>, allocMap: bool, allocBuckets: bool)
    returns (m: Option<Map<K, V>>)
    ensures m.Some? <==> allocMap && allocBuckets
    ensures m.Some? ==>
      && fresh(m.value) && fresh(m.value.buckets) && m.value.Valid() && m.value.h == h
      && m.value.contents == map[] && !m.value.oom
      && m.value.Sized() == Shape(m.value.nbuckets, 0, m.value.nbuckets, 1, 0)
      && m.value.nbuckets >= cap && (m.value.nbuckets == 16 || m.value.nbuckets / 2 < cap)
      && m.value.buckets.Length == m.value.nbuckets
      && forall i :: 0 <= i < m.value.nbuckets ==> m.value.buckets[i] == Bucket(0, 0, blank)
  {
    if !allocMap || !allocBuckets {
      return None;
    }
    var created := new Map(cap, h, blank);
    return Some(created);
  }

  lemma InContents<K, V>(t: Table<K, V>, i: nat, m: map<K, Item<K, V>>)
    requires Represents(t, m) && i < |t| && Full(t, i)
    ensures t[i].item.key in m
  {
  }

  /** What a valid map says of its table. */
  lemma {:induction false} GoodTable<K, V>(m: Map<K, V>)
    requires m.Valid()
    ensures var t := m.buckets[..m.nbuckets];
      && Inv(t, m.h) && DistinctKeys(t) && Represents(t, m.contents) && m.count == |m.contents|
      && m.growat == GrowAt(|t|) && GrowAt(|t|) > 0
  {
    hide Inv, Represents, DistinctKeys;
    InvDistinct(m.buckets[..m.nbuckets], m.h);
  }

  lemma NoItems<K, V>(t: Table<K, V>)
    ensures Items(t, |t|) == []
  {
  }

  /** The items visited so far, and those a scan from bucket `i` visits, are those of the whole scan. */
  ghost predicate ScannedTo<K, V>(t: Table<K, V>, i: nat, visited: seq<Item<K, V>>, accept: Item<K, V> -> bool) {
    && i <= |t| && Visited(Items(t, 0), accept).0 == visited + Visited(Items(t, i), accept).0
    && Visited(Items(t, 0), accept).1 == Visited(Items(t, i), accept).1
  }

  lemma ScanStep<K, V>(t: Table<K, V>, i: nat, visited: seq<Item<K, V>>, accept: Item<K, V> -> bool)
    requires i < |t| && ScannedTo(t, i, visited, accept)
    ensures t[i].dib == 0 ==> ScannedTo(t, i + 1, visited, accept)
    ensures t[i].dib > 0 && accept(t[i].item) ==> ScannedTo(t, i + 1, visited + [t[i].item], accept)
    ensures t[i].dib > 0 && !accept(t[i].item) ==> Visited(Items(t, 0), accept) == (visited + [t[i].item], false)
  {
    hide Visited, Items;
    ItemsStep(t, i);
    if t[i].dib > 0 { VisitedStep(t[i].item, Items(t, i + 1), accept); }
  }

  lemma ScanDone<K, V>(t: Table<K, V>, visited: seq<Item<K, V>>, accept: Item<K, V> -> bool)
    requires ScannedTo(t, |t|, visited, accept)
    ensures Visited(Items(t, 0), accept) == (visited, true)
  {
    assert Visited(Items(t, |t|), accept) == ([], true);
    assert visited + [] == visited;
  }

  lemma SizeAfterUpdate<K, X>(m: map<K, X>, k: K, x: X)
    ensures |m[k := x]| == if k in m then |m| else |m| + 1
  {
    assert m[k := x].Keys == m.Keys + {k};
    assert |m[k := x].Keys| == |m[k := x]|;
  }

  lemma SizeAfterRemoval<K, X>(m: map<K, X>, k: K)
    requires k in m
    ensures |m - {k}| == |m| - 1
  {
    assert m.Keys == (m - {k}).Keys + {k};
    assert |m.Keys| == |m| && |(m - {k}).Keys| == |m - {k}|;
  }

  lemma ResizedShape(s: Shape, n: nat)
    requires ValidShape(s) && PowerOfTwo(n) && n >= s.cap && s.count <= GrowAt(n)
    ensures ValidShape(s.(nbuckets := n, moved := s.moved + s.count)) && n > 1 && s.count < n
  {
  }

  lemma FewerFit(s: Shape)
    requires ValidShape(s) && s.count > 0
    ensures ValidShape(s.(count := s.count - 1))
  {
  }

  lemma MoreFit(s: Shape)
    requires ValidShape(s) && s.count < GrowAt(s.nbuckets)
    ensures ValidShape(s.(count := s.count + 1))
  {
  }

  lemma ClearedShape(s: Shape)
    requires ValidShape(s)
    ensures ValidShape(s.(count := 0, cap := s.nbuckets)) && ValidShape(s.(count := 0, nbuckets := s.cap))
    ensures 1 < s.cap <= s.nbuckets
  {
  }

  lemma RoomLeft(s: Shape)
    requires ValidShape(s)
    ensures s.count < s.nbuckets && PowerOfTwo(s.nbuckets)
    ensures s.count < GrowAt(s.nbuckets) ==> s.count + 1 < s.nbuckets
  {
  }

  lemma GrownFits(s: Shape)
    requires ValidShape(s)
    ensures var n := Shift(s.nbuckets, s.growpower);
      PowerOfTwo(n) && n >= 16 && n >= s.cap && s.count < GrowAt(n)
  {
    ShiftKeepsPower(s.nbuckets, s.growpower);
  }

  lemma ShrunkFits(s: Shape)
    requires ValidShape(s) && s.nbuckets > s.cap && s.count <= ShrinkAt(s.nbuckets)
    ensures PowerOfTwo(s.nbuckets / 2) && 16 <= s.cap <= s.nbuckets / 2 && s.count <= GrowAt(s.nbuckets / 2)
  {
    PowersApart(s.nbuckets, s.cap);
  }
}
