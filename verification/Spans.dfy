// Span buffers: the memory that codecs, page layout and request processing work on.
module Spans {
  import opened Bits

  /** The contents of all span buffers of a pipeline, by span index. */
  type Memory = seq<seq<Byte>>

  predicate SameShape(m: Memory, n: Memory) {
    |m| == |n| && forall i :: 0 <= i < |m| ==> |m[i]| == |n[i]|
  }

  /** The buffers have the lengths given. */
  predicate HasLengths(m: Memory, lengths: seq<nat>) {
    |m| == |lengths| && forall s :: 0 <= s < |m| ==> |m[s]| == lengths[s]
  }

  predicate InSpan(m: Memory, s: nat, off: nat, len: nat) {
    s < |m| && off + len <= |m[s]|
  }

  function Put(buf: seq<Byte>, off: nat, bytes: seq<Byte>): (r: seq<Byte>)
    requires off + |bytes| <= |buf|
    ensures |r| == |buf|
    ensures forall i :: 0 <= i < |buf| ==> r[i] == if off <= i < off + |bytes| then bytes[i - off] else buf[i]
  {
    buf[..off] + bytes + buf[off + |bytes|..]
  }

  function Store(m: Memory, s: nat, off: nat, bytes: seq<Byte>): (r: Memory)
    requires InSpan(m, s, off, |bytes|)
    ensures SameShape(m, r)
  {
    m[s := Put(m[s], off, bytes)]
  }

  function Fetch(m: Memory, s: nat, off: nat, len: nat): (bytes: seq<Byte>)
    requires InSpan(m, s, off, len)
    ensures |bytes| == len
  {
    m[s][off..off + len]
  }

  /** The buffers themselves: one array per span, no two the same. */
  ghost predicate Distinct(bufs: seq<array<Byte>>) {
    forall i, j :: 0 <= i < j < |bufs| ==> bufs[i] != bufs[j]
  }

  ghost function View(bufs: seq<array<Byte>>): (m: Memory)
    reads bufs
    ensures |m| == |bufs|
  {
    seq(|bufs|, (i: nat) requires i < |bufs| reads bufs => bufs[i][..])
  }

  /** Nothing but bytes `lo` to `hi` of span `s` differs. */
  predicate SameOutside(m: Memory, n: Memory, s: nat, lo: nat, hi: nat) {
    SameShape(m, n) && forall i, j :: 0 <= i < |m| && 0 <= j < |m[i]| && !(i == s && lo <= j < hi) ==>
      n[i][j] == m[i][j]
  }

  lemma StoreOutside(m: Memory, s: nat, off: nat, bytes: seq<Byte>)
    requires InSpan(m, s, off, |bytes|)
    ensures SameOutside(m, Store(m, s, off, bytes), s, off, off + |bytes|)
    ensures Fetch(Store(m, s, off, bytes), s, off, |bytes|) == bytes
  {
  }

  lemma OutsideTrans(m: Memory, n: Memory, p: Memory, s: nat, lo: nat, mid: nat, hi: nat)
    requires SameOutside(m, n, s, lo, mid) && SameOutside(n, p, s, mid, hi) && lo <= mid <= hi
    ensures SameOutside(m, p, s, lo, hi)
  {
    forall i, j | 0 <= i < |m| && 0 <= j < |m[i]| && !(i == s && lo <= j < hi)
      ensures p[i][j] == m[i][j]
    {
      assert n[i][j] == m[i][j];
    }
  }

  lemma FetchOutside(m: Memory, n: Memory, s: nat, lo: nat, hi: nat, e: nat, off: nat, len: nat)
    requires SameOutside(m, n, s, lo, hi) && InSpan(m, e, off, len)
    requires e != s || off + len <= lo || hi <= off
    ensures InSpan(n, e, off, len) && Fetch(n, e, off, len) == Fetch(m, e, off, len)
  {
    assert forall j :: off <= j < off + len ==> n[e][j] == m[e][j];
  }

  lemma StoredInPlace(m: Memory, bufs: seq<array<Byte>>, d: nat, off: nat, bytes: seq<Byte>)
    requires |m| == |bufs| && InSpan(m, d, off, |bytes|)
    requires forall i :: 0 <= i < |bufs| && i != d ==> bufs[i][..] == m[i]
    requires bufs[d].Length == |m[d]|
    requires forall i :: 0 <= i < |m[d]| ==> bufs[d][i] == if off <= i < off + |bytes| then bytes[i - off] else m[d][i]
    ensures View(bufs) == Store(m, d, off, bytes)
  {
    assert bufs[d][..] == Put(m[d], off, bytes);
  }

  /** memcpy into a buffer. */
  method CopyIn(to: array<Byte>, off: nat, bytes: seq<Byte>)
    requires off + |bytes| <= to.Length
    modifies to
    ensures to[..] == Put(old(to[..]), off, bytes)
  {
    forall i | 0 <= i < |bytes| {
      to[off + i] := bytes[i];
    }
    assert forall i :: 0 <= i < to.Length ==> to[i] == Put(old(to[..]), off, bytes)[i];
  }
}
