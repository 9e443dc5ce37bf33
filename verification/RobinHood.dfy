// The bucket table of the hash map as a value: its invariants, and what one step of a probe,
// of a displacement and of a backward shift does to them.
module RobinHood {

  datatype Item<K, V> = Item(key: K, value: V)

  /** `dib` is one more than the distance to the bucket the hash asks for; zero marks an empty bucket. */
  datatype Bucket<K, V> = Bucket(hash: nat, dib: nat, item: Item<K, V>)

  type Table<K, V> = seq<Bucket<K, V>>

  const HASH_RANGE: nat := 0x1_0000_0000_0000

  /** clip_hash: the 48 bits that a bucket stores. */
  function Clip(hash: nat): (h: nat)
    ensures h < HASH_RANGE
  {
    hash % HASH_RANGE
  }

  // Positions on the ring of n buckets.

  /** `hash & mask` for a power of two. */
  function Home(hash: nat, n: nat): (i: nat)
    requires n > 0
    ensures i < n
  {
    hash % n
  }

  function Next(i: nat, n: nat): (j: nat)
    requires i < n
    ensures j < n
  {
    if i + 1 == n then 0 else i + 1
  }

  function Prev(i: nat, n: nat): (j: nat)
    requires i < n
    ensures j < n
  {
    if i == 0 then n - 1 else i - 1
  }

  /** Steps from `i` forward to `j`. */
  function Dist(i: nat, j: nat, n: nat): (d: nat)
    requires i < n && j < n
    ensures d < n
  {
    if j >= i then j - i else j + n - i
  }

  // The invariants.

  ghost predicate Full<K, V>(t: Table<K, V>, i: nat)
    requires i < |t|
  {
    t[i].dib > 0
  }

  /** Every stored entry knows its distance from its home. */
  ghost predicate InPlace<K, V>(t: Table<K, V>) {
    forall i :: 0 <= i < |t| && Full(t, i) ==> t[i].dib == Dist(Home(t[i].hash, |t|), i, |t|) + 1
  }

  ghost predicate OrderedAt<K, V>(t: Table<K, V>, i: nat)
    requires i < |t|
  {
    t[Next(i, |t|)].dib <= t[i].dib + 1
  }

  /** The Robin Hood order, around the ring. */
  ghost predicate Ordered<K, V>(t: Table<K, V>) {
    forall i :: 0 <= i < |t| ==> OrderedAt(t, i)
  }

  ghost predicate DistinctKeys<K, V>(t: Table<K, V>) {
    forall i, j :: 0 <= i < |t| && 0 <= j < |t| && i != j && Full(t, i) && Full(t, j) ==> t[i].item.key != t[j].item.key
  }

  ghost predicate Hashed<K, V>(t: Table<K, V>, h: K -> nat) {
    forall i :: 0 <= i < |t| && Full(t, i) ==> t[i].hash == Clip(h(t[i].item.key))
  }

  ghost predicate Inv<K, V>(t: Table<K, V>, h: K -> nat) {
    |t| > 1 && InPlace(t) && Ordered(t) && DistinctKeys(t) && Hashed(t, h)
  }

  /** The table stores exactly the items of `m`. */
  ghost predicate Represents<K, V>(t: Table<K, V>, m: map<K, Item<K, V>>) {
    && (forall i :: 0 <= i < |t| && Full(t, i) ==> t[i].item.key in m && m[t[i].item.key] == t[i].item)
    && (forall k :: k in m ==> Stored(t, k))
  }

  ghost predicate Stored<K, V>(t: Table<K, V>, k: K) {
    exists i :: 0 <= i < |t| && Full(t, i) && t[i].item.key == k
  }

  // Walking the ring.

  lemma DistNext(i: nat, j: nat, n: nat)
    requires i < n && j < n
    ensures i != j ==> Dist(Next(i, n), j, n) == Dist(i, j, n) - 1
    ensures Next(j, n) != i ==> Dist(i, Next(j, n), n) == Dist(i, j, n) + 1
    ensures Next(Prev(j, n), n) == j && Prev(Next(j, n), n) == j
  {
  }

  /** Along the ring, the distances grow by at most one a step. */
  lemma {:induction false} OrderChain<K, V>(t: Table<K, V>, i: nat, j: nat)
    requires i < |t| && j < |t| && Ordered(t)
    ensures t[j].dib <= t[i].dib + Dist(i, j, |t|)
    decreases Dist(i, j, |t|)
  {
    if i != j {
      assert OrderedAt(t, i);
      DistNext(i, j, |t|);
      OrderChain(t, Next(i, |t|), j);
    }
  }

  // Probing for a key.

  /** None of the buckets from `home` up to, not including, `i` holds the key. */
  ghost predicate PassedBy<K, V>(t: Table<K, V>, k: K, home: nat, i: nat)
    requires home < |t| && i < |t|
  {
    forall j :: 0 <= j < |t| && Full(t, j) && Dist(home, j, |t|) < Dist(home, i, |t|) ==> t[j].item.key != k
  }

  /** A bucket that is closer to its home than the probe is to its own ends the search: the order
      leaves no room for the key further on. An empty bucket is such a bucket. */
  lemma RicherMeansAbsent<K, V>(t: Table<K, V>, h: K -> nat, k: K, i: nat)
    requires Inv(t, h) && i < |t|
    requires PassedBy(t, k, Home(Clip(h(k)), |t|), i)
    requires t[i].dib < Dist(Home(Clip(h(k)), |t|), i, |t|) + 1
    ensures !Stored(t, k)
  {
    var home := Home(Clip(h(k)), |t|);
    forall j | 0 <= j < |t| && Full(t, j)
      ensures t[j].item.key != k
    {
      if t[j].item.key == k {
        OrderChain(t, i, j);
        assert false;
      }
    }
  }

  /** The first bucket from `i` on, looked at with distance `d` and growing, that is richer or empty:
      where a new entry is put. */
  function FirstRicher<K, V>(t: Table<K, V>, i: nat, d: nat): (p: nat)
    requires i < |t|
    ensures p < |t|
    decreases |t| - d
  {
    if t[i].dib < d || d >= |t| then i else FirstRicher(t, Next(i, |t|), d + 1)
  }

  lemma PassOn<K, V>(t: Table<K, V>, k: K, home: nat, i: nat)
    requires home < |t| && i < |t| && PassedBy(t, k, home, i)
    requires Full(t, i) ==> t[i].item.key != k
    requires Next(i, |t|) != home
    ensures PassedBy(t, k, home, Next(i, |t|))
  {
    DistNext(home, i, |t|);
    forall j | 0 <= j < |t| && Full(t, j) && Dist(home, j, |t|) < Dist(home, Next(i, |t|), |t|)
      ensures t[j].item.key != k
    {
      if Dist(home, j, |t|) == Dist(home, i, |t|) {
        assert i == j;
      }
    }
  }

  // Carrying an entry to its bucket.

  /** Entry `e`, looking at bucket `i`, knows its distance, and the bucket before it is no richer. */
  ghost predicate Carried<K, V>(t: Table<K, V>, h: K -> nat, e: Bucket<K, V>, i: nat)
    requires i < |t|
  {
    && e.hash == Clip(h(e.item.key))
    && e.dib == Dist(Home(e.hash, |t|), i, |t|) + 1
    && (e.dib > 1 ==> t[Prev(i, |t|)].dib >= e.dib - 1)
  }

  /** The table together with the carried entry stores exactly the items of `m`. */
  ghost predicate RepresentsWith<K, V>(t: Table<K, V>, e: Item<K, V>, m: map<K, Item<K, V>>) {
    && !Stored(t, e.key) && e.key in m && m[e.key] == e
    && (forall i :: 0 <= i < |t| && Full(t, i) ==> t[i].item.key in m && m[t[i].item.key] == t[i].item)
    && (forall k :: k in m && k != e.key ==> Stored(t, k))
  }

  lemma StoredIntro<K, V>(t: Table<K, V>, i: nat)
    requires i < |t| && Full(t, i)
    ensures Stored(t, t[i].item.key)
  {
  }

  /** An entry never travels further than the next empty bucket. */
  lemma DibBound<K, V>(t: Table<K, V>, h: K -> nat, e: Bucket<K, V>, i: nat, z: nat)
    requires Inv(t, h) && i < |t| && Carried(t, h, e, i) && z < |t| && !Full(t, z) && z != i
    ensures e.dib <= Dist(z, i, |t|)
    ensures Next(i, |t|) != Home(e.hash, |t|)
  {
    DistNext(z, Prev(i, |t|), |t|);
    OrderChain(t, z, Prev(i, |t|));
  }

  lemma StartCarried<K, V>(t: Table<K, V>, h: K -> nat, e: Bucket<K, V>)
    requires |t| > 0 && e.hash == Clip(h(e.item.key)) && e.dib == 1
    ensures Carried(t, h, e, Home(e.hash, |t|))
    ensures PassedBy(t, e.item.key, Home(e.hash, |t|), Home(e.hash, |t|))
  {
  }

  /** The bucket keeps its entry; the carried one moves on. */
  lemma Advance<K, V>(t: Table<K, V>, h: K -> nat, e: Bucket<K, V>, i: nat, z: nat)
    requires Inv(t, h) && i < |t| && Carried(t, h, e, i) && z < |t| && !Full(t, z) && z != i
    requires t[i].dib >= e.dib
    ensures Carried(t, h, e.(dib := e.dib + 1), Next(i, |t|))
  {
    DibBound(t, h, e, i, z);
    DistNext(Home(e.hash, |t|), i, |t|);
  }

  /** Putting the carried entry over a richer or empty bucket keeps the invariants. */
  lemma PlaceKeepsOrder<K, V>(t: Table<K, V>, h: K -> nat, e: Bucket<K, V>, i: nat)
    requires Inv(t, h) && i < |t| && Carried(t, h, e, i) && t[i].dib < e.dib
    requires forall j :: 0 <= j < |t| && Full(t, j) ==> t[j].item.key != e.item.key
    ensures Inv(t[i := e], h)
  {
    var r := t[i := e];
    forall j | 0 <= j < |t|
      ensures OrderedAt(r, j)
    {
      assert OrderedAt(t, j);
      DistNext(j, i, |t|); DistNext(i, j, |t|);
    }
  }

  /** Into an empty bucket: the entry is stored. */
  lemma PlaceStores<K, V>(t: Table<K, V>, e: Bucket<K, V>, i: nat, m: map<K, Item<K, V>>)
    requires i < |t| && !Full(t, i) && e.dib > 0 && RepresentsWith(t, e.item, m)
    ensures Represents(t[i := e], m)
  {
    var r := t[i := e];
    forall k | k in m
      ensures Stored(r, k)
    {
      if k == e.item.key {
        StoredIntro(r, i);
      } else {
        var j :| 0 <= j < |t| && Full(t, j) && t[j].item.key == k;
        assert Full(r, j) && r[j].item.key == k;
      }
    }
  }

  /** Into a richer bucket: its old entry is carried on, and nothing is lost. */
  lemma SwapKeeps<K, V>(t: Table<K, V>, h: K -> nat, e: Bucket<K, V>, i: nat, m: map<K, Item<K, V>>)
    requires Inv(t, h) && i < |t| && Full(t, i) && e.dib > 0 && RepresentsWith(t, e.item, m)
    ensures RepresentsWith(t[i := e], t[i].item, m)
  {
    var r, stored := t[i := e], t[i].item;
    StoredIntro(t, i);
    forall j | 0 <= j < |r| && Full(r, j)
      ensures r[j].item.key != stored.key
    {
      assert j != i ==> Full(t, j);
    }
    forall k | k in m && k != stored.key
      ensures Stored(r, k)
    {
      if k == e.item.key {
        StoredIntro(r, i);
      } else {
        var j :| 0 <= j < |t| && Full(t, j) && t[j].item.key == k;
        assert Full(r, j) && r[j].item.key == k;
      }
    }
  }

  /** After a swap the old entry moves on. */
  lemma SwapAdvances<K, V>(t: Table<K, V>, h: K -> nat, e: Bucket<K, V>, i: nat, z: nat)
    requires Inv(t, h) && i < |t| && Full(t, i) && Carried(t, h, e, i) && t[i].dib < e.dib
    requires Inv(t[i := e], h) && z < |t| && !Full(t, z) && z != i
    ensures Carried(t[i := e], h, t[i].(dib := t[i].dib + 1), Next(i, |t|))
  {
    var r, o := t[i := e], t[i];
    DistNext(i, i, |t|);
    assert OrderedAt(t, Prev(i, |t|));
    DibBound(t, h, o, i, z);
    DistNext(Home(o.hash, |t|), i, |t|);
  }

  /** Replacing the item under an equal key changes nothing else. */
  lemma ReplaceKeeps<K, V>(t: Table<K, V>, h: K -> nat, i: nat, item: Item<K, V>, m: map<K, Item<K, V>>)
    requires Inv(t, h) && Represents(t, m) && i < |t| && Full(t, i) && t[i].item.key == item.key
    ensures Inv(t[i := t[i].(item := item)], h)
    ensures Represents(t[i := t[i].(item := item)], m[item.key := item])
  {
    var r := t[i := t[i].(item := item)];
    forall j | 0 <= j < |t|
      ensures OrderedAt(r, j)
    {
      assert OrderedAt(t, j);
    }
    forall k | k in m[item.key := item]
      ensures Stored(r, k)
    {
      if k == item.key {
        StoredIntro(r, i);
      } else {
        var j :| 0 <= j < |t| && Full(t, j) && t[j].item.key == k;
        assert Full(r, j) && r[j].item.key == k;
      }
    }
    forall j | 0 <= j < |t| && Full(r, j)
      ensures r[j].item.key in m[item.key := item] && m[item.key := item][r[j].item.key] == r[j].item
    {
      assert Full(t, j);
    }
  }

  // Closing the gap a deleted entry leaves.

  /** Bucket `p` taken out of the table. */
  function Without<K, V>(t: Table<K, V>, p: nat): (r: Table<K, V>)
    requires p < |t|
    ensures |r| == |t|
  {
    t[p := t[p].(dib := 0)]
  }

  /** All invariants but the order across the gap at `p`; there `d` stands for the entry taken out. */
  ghost predicate Gap<K, V>(t: Table<K, V>, h: K -> nat, p: nat, d: nat)
    requires p < |t|
  {
    && |t| > 1 && !Full(t, p) && InPlace(t) && DistinctKeys(t) && Hashed(t, h)
    && (forall i :: 0 <= i < |t| && i != p ==> OrderedAt(t, i))
    && t[Next(p, |t|)].dib <= d + 1
    && d <= t[Prev(p, |t|)].dib + 1
  }

  lemma OpenGap<K, V>(t: Table<K, V>, h: K -> nat, p: nat)
    requires Inv(t, h) && p < |t| && Full(t, p)
    ensures Gap(Without(t, p), h, p, t[p].dib)
  {
    var r := Without(t, p);
    assert OrderedAt(t, p) && OrderedAt(t, Prev(p, |t|));
    DistNext(p, p, |t|);
    forall i | 0 <= i < |t| && i != p
      ensures OrderedAt(r, i)
    {
      assert OrderedAt(t, i);
    }
  }

  /** Taking a full bucket out removes its key from the map. */
  lemma OpenGapStores<K, V>(t: Table<K, V>, p: nat, m: map<K, Item<K, V>>)
    requires p < |t| && Full(t, p) && DistinctKeys(t) && Represents(t, m)
    ensures t[p].item.key in m && Represents(Without(t, p), m - {t[p].item.key})
  {
    var r, m' := Without(t, p), m - {t[p].item.key};
    forall k | k in m'
      ensures Stored(r, k)
    {
      var j :| 0 <= j < |t| && Full(t, j) && t[j].item.key == k;
      StoredIntro(r, j);
    }
    forall j | 0 <= j < |r| && Full(r, j)
      ensures r[j].item.key in m' && m'[r[j].item.key] == r[j].item
    {
      assert Full(t, j);
    }
  }

  /** The next entry is home, or there is none: the gap may stay. */
  lemma CloseGap<K, V>(t: Table<K, V>, h: K -> nat, p: nat, d: nat)
    requires p < |t| && Gap(t, h, p, d) && t[Next(p, |t|)].dib <= 1
    ensures Inv(t, h)
  {
    assert OrderedAt(t, p);
  }

  /** The next entry moves back one bucket, and leaves a gap of its own. */
  function Shifted<K, V>(t: Table<K, V>, p: nat): (r: Table<K, V>)
    requires p < |t| && t[Next(p, |t|)].dib > 1
    ensures |r| == |t|
  {
    var q := Next(p, |t|);
    Without(t[p := t[q].(dib := t[q].dib - 1)], q)
  }

  lemma ShiftGap<K, V>(t: Table<K, V>, h: K -> nat, p: nat, d: nat)
    requires p < |t| && Gap(t, h, p, d) && t[Next(p, |t|)].dib > 1
    ensures Gap(Shifted(t, p), h, Next(p, |t|), t[Next(p, |t|)].dib)
  {
    var n, q := |t|, Next(p, |t|);
    var r := Shifted(t, p);
    DistNext(Home(t[q].hash, n), p, n);
    DistNext(p, p, n); DistNext(q, q, n);
    assert OrderedAt(t, q);
    assert r[p].dib == t[q].dib - 1 && r[q].dib == 0;
    forall i | 0 <= i < n && i != q
      ensures OrderedAt(r, i)
    {
      DistNext(i, i, n);
      if i != p { assert OrderedAt(t, i); }
    }
    assert Full(t, q);
    ShiftKeys(t, h, p);
  }

  lemma ShiftKeys<K, V>(t: Table<K, V>, h: K -> nat, p: nat)
    requires p < |t| && |t| > 1 && !Full(t, p) && t[Next(p, |t|)].dib > 1
    requires InPlace(t) && DistinctKeys(t) && Hashed(t, h)
    ensures InPlace(Shifted(t, p)) && DistinctKeys(Shifted(t, p)) && Hashed(Shifted(t, p), h)
  {
    var n, q := |t|, Next(p, |t|);
    var r := Shifted(t, p);
    assert Full(t, q) && p != q;
    DistNext(Home(t[q].hash, n), p, n);
    forall i, j | 0 <= i < n && 0 <= j < n && i != j && Full(r, i) && Full(r, j)
      ensures r[i].item.key != r[j].item.key
    {
      var i', j' := if i == p then q else i, if j == p then q else j;
      assert Full(t, i') && Full(t, j') && i' != j';
    }
  }

  lemma ShiftStores<K, V>(t: Table<K, V>, p: nat, m: map<K, Item<K, V>>)
    requires p < |t| && |t| > 1 && !Full(t, p) && t[Next(p, |t|)].dib > 1 && Represents(t, m)
    ensures Represents(Shifted(t, p), m)
  {
    var q := Next(p, |t|);
    var r := Shifted(t, p);
    assert Full(t, q) && p != q;
    forall k | k in m
      ensures Stored(r, k)
    {
      var j :| 0 <= j < |t| && Full(t, j) && t[j].item.key == k;
      if j == q { StoredIntro(r, p); } else { StoredIntro(r, j); }
    }
    forall j | 0 <= j < |r| && Full(r, j)
      ensures r[j].item.key in m && m[r[j].item.key] == r[j].item
    {
      assert Full(t, if j == p then q else j);
    }
  }

  // Counting.

  function FullCount<K, V>(t: Table<K, V>, n: nat): (c: nat)
    requires n <= |t|
    ensures c <= n
  {
    if n == 0 then 0 else FullCount(t, n - 1) + (if t[n - 1].dib > 0 then 1 else 0)
  }

  ghost function KeysOf<K, V>(t: Table<K, V>, n: nat): set<K>
    requires n <= |t|
  {
    if n == 0 then {}
    else if Full(t, n - 1) then KeysOf(t, n - 1) + {t[n - 1].item.key}
    else KeysOf(t, n - 1)
  }

  lemma {:induction false} KeysOfMeans<K, V>(t: Table<K, V>, n: nat, k: K)
    requires n <= |t|
    ensures k in KeysOf(t, n) <==> exists i :: 0 <= i < n && Full(t, i) && t[i].item.key == k
  {
    if n > 0 { KeysOfMeans(t, n - 1, k); }
  }

  lemma {:induction false} KeysCounted<K, V>(t: Table<K, V>, n: nat)
    requires n <= |t| && DistinctKeys(t)
    ensures |KeysOf(t, n)| == FullCount(t, n)
  {
    if n > 0 {
      KeysCounted(t, n - 1);
      KeysOfMeans(t, n - 1, t[n - 1].item.key);
    }
  }

  /** As many full buckets as items. */
  lemma CountIsSize<K, V>(t: Table<K, V>, m: map<K, Item<K, V>>)
    requires DistinctKeys(t) && Represents(t, m)
    ensures FullCount(t, |t|) == |m|
  {
    KeysCounted(t, |t|);
    forall k | k in KeysOf(t, |t|)
      ensures k in m.Keys
    {
      KeysOfMeans(t, |t|, k);
    }
    forall k | k in m.Keys
      ensures k in KeysOf(t, |t|)
    {
      KeysOfMeans(t, |t|, k);
      assert Stored(t, k);
    }
    assert KeysOf(t, |t|) == m.Keys;
  }

  lemma {:induction false} FillOne<K, V>(t: Table<K, V>, n: nat, i: nat, b: Bucket<K, V>)
    requires n <= |t| && i < |t|
    ensures FullCount(t[i := b], n) <= FullCount(t, n) + 1
    ensures n <= i ==> FullCount(t[i := b], n) == FullCount(t, n)
  {
    if n > 0 { FillOne(t, n - 1, i, b); }
  }

  lemma {:induction false} RoomMeansEmpty<K, V>(t: Table<K, V>, n: nat) returns (z: nat)
    requires n <= |t| && FullCount(t, n) < n
    ensures z < n && !Full(t, z)
  {
    if !Full(t, n - 1) { z := n - 1; } else { z := RoomMeansEmpty(t, n - 1); }
  }
}
