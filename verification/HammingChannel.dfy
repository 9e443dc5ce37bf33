// What several steps of the codec guarantee: data stored with its codes survives flipped bits.
module HammingChannel {
  import opened Bits
  import opened HammingCode
  import opened HammingTables
  import opened HammingCorrect
  import opened HammingSyndrome
  import opened HammingSecded
  import opened HammingGuarantees
  import opened HammingCodec
  import opened Spans

  function Block(m: Memory, c: Config, s: nat, off: nat, k: nat): (block: seq<Byte>)
    requires ValidConfig(c) && InSpan(m, s, off + Blocks(c, k), c.stepSize)
    ensures |block| == c.stepSize
  {
    Fetch(m, s, off + Blocks(c, k), c.stepSize)
  }

  function Code(m: Memory, e: nat, eccOff: nat, k: nat): (code: seq<Byte>)
    requires InSpan(m, e, eccOff + 3 * k, 3)
    ensures |code| == 3
  {
    Fetch(m, e, eccOff + 3 * k, 3)
  }

  /** The blocks and their codes do not share bytes. */
  predicate Apart(c: Config, s: nat, off: nat, e: nat, eccOff: nat, n: nat) {
    s != e || off + Blocks(c, n) <= eccOff || eccOff + 3 * n <= off
  }

  /** Block `k` is stored with its own code. */
  predicate ProtectedAt(m: Memory, c: Config, swapped: bool, s: nat, off: nat, e: nat, eccOff: nat, k: nat)
    requires ValidConfig(c)
  {
    && InSpan(m, s, off + Blocks(c, k), c.stepSize) && InSpan(m, e, eccOff + 3 * k, 3)
    && Code(m, e, eccOff, k) == Ecc(Block(m, c, s, off, k), c.smOrder, swapped)
  }

  predicate Protected(m: Memory, c: Config, swapped: bool, s: nat, off: nat, e: nat, eccOff: nat, n: nat)
    requires ValidConfig(c)
  {
    forall k: nat :: k < n ==> ProtectedAt(m, c, swapped, s, off, e, eccOff, k)
  }

  lemma RoomKept(m: Memory, r: Memory, c: Config, s: nat, off: nat, e: nat, eccOff: nat, n: nat)
    requires SameShape(m, r) && Room(m, c, s, off, e, eccOff, n)
    ensures Room(r, c, s, off, e, eccOff, n)
  {
  }

  /** A change to the code bytes from step `k` on leaves the earlier steps and all blocks alone. */
  lemma LaterCode(p: Memory, r: Memory, c: Config, s: nat, off: nat, e: nat, eccOff: nat, k: nat, j: nat, n: nat)
    requires ValidConfig(c) && Apart(c, s, off, e, eccOff, n) && Room(p, c, s, off, e, eccOff, n)
    requires SameOutside(p, r, e, eccOff + 3 * k, eccOff + 3 * n) && j < n
    ensures InSpan(p, s, off + Blocks(c, j), c.stepSize) && InSpan(r, s, off + Blocks(c, j), c.stepSize)
    ensures Block(r, c, s, off, j) == Block(p, c, s, off, j)
    ensures j < k ==>
      && InSpan(r, e, eccOff + 3 * j, 3) && InSpan(p, e, eccOff + 3 * j, 3)
      && Code(r, e, eccOff, j) == Code(p, e, eccOff, j)
  {
    hide Fetch;
    FetchOutside(p, r, e, eccOff + 3 * k, eccOff + 3 * n, s, off + Blocks(c, j), c.stepSize);
    if j < k {
      FetchOutside(p, r, e, eccOff + 3 * k, eccOff + 3 * n, e, eccOff + 3 * j, 3);
    }
  }

  /** Encoding touches only the first 3 * `n` code bytes, and leaves every block protected. */
  lemma {:induction false} EncodeProtects(m: Memory, c: Config, swapped: bool, s: nat, off: nat, e: nat, eccOff: nat,
                                          n: nat)
    requires ValidConfig(c) && Room(m, c, s, off, e, eccOff, n) && Apart(c, s, off, e, eccOff, n)
    ensures var r := Encoded(m, c, swapped, s, off, e, eccOff, n);
      SameOutside(m, r, e, eccOff, eccOff + 3 * n) && Protected(r, c, swapped, s, off, e, eccOff, n)
  {
    hide Ecc, Store, Fetch;
    if n > 0 {
      var k := n - 1;
      RoomForStep(m, c, s, off, e, eccOff, k, n);
      EncodeProtects(m, c, swapped, s, off, e, eccOff, k);
      EncodedNext(m, c, swapped, s, off, e, eccOff, k);
      var p, r := Encoded(m, c, swapped, s, off, e, eccOff, k), Encoded(m, c, swapped, s, off, e, eccOff, n);
      RoomKept(m, p, c, s, off, e, eccOff, n);
      StoreOutside(p, e, eccOff + 3 * k, Ecc(Block(p, c, s, off, k), c.smOrder, swapped));
      OutsideTrans(m, p, r, e, eccOff, eccOff + 3 * k, eccOff + 3 * n);
      forall j: nat | j < n
        ensures ProtectedAt(r, c, swapped, s, off, e, eccOff, j)
      {
        LaterCode(p, r, c, s, off, e, eccOff, k, j, n);
        assert j < k ==> ProtectedAt(p, c, swapped, s, off, e, eccOff, j);
      }
    }
  }

  /** Wherever source and destination lie, encoding touches only the first 3 * `n` code bytes. */
  lemma {:induction false} EncodeStaysIn(m: Memory, c: Config, swapped: bool, s: nat, off: nat, e: nat, eccOff: nat,
                                         n: nat)
    requires ValidConfig(c) && Room(m, c, s, off, e, eccOff, n)
    ensures SameOutside(m, Encoded(m, c, swapped, s, off, e, eccOff, n), e, eccOff, eccOff + 3 * n)
  {
    hide Ecc, Store, Fetch;
    if n > 0 {
      var k := n - 1;
      RoomForStep(m, c, s, off, e, eccOff, k, n);
      EncodeStaysIn(m, c, swapped, s, off, e, eccOff, k);
      EncodedNext(m, c, swapped, s, off, e, eccOff, k);
      var p := Encoded(m, c, swapped, s, off, e, eccOff, k);
      RoomKept(m, p, c, s, off, e, eccOff, n);
      StoreOutside(p, e, eccOff + 3 * k, Ecc(Block(p, c, s, off, k), c.smOrder, swapped));
      OutsideTrans(m, p, Encoded(m, c, swapped, s, off, e, eccOff, n), e, eccOff, eccOff + 3 * k, eccOff + 3 * n);
    }
  }

  /** A block that no code is written into gets its own code. */
  lemma {:induction false} EncodesBlock(m: Memory, c: Config, swapped: bool, s: nat, off: nat, e: nat, eccOff: nat,
                                        k: nat, n: nat)
    requires ValidConfig(c) && Room(m, c, s, off, e, eccOff, n) && k < n
    requires s != e || off + Blocks(c, k) + c.stepSize <= eccOff || eccOff + 3 * n <= off + Blocks(c, k)
    ensures InSpan(m, s, off + Blocks(c, k), c.stepSize)
    ensures ProtectedAt(Encoded(m, c, swapped, s, off, e, eccOff, n), c, swapped, s, off, e, eccOff, k)
    ensures Block(Encoded(m, c, swapped, s, off, e, eccOff, n), c, s, off, k) == Block(m, c, s, off, k)
  {
    hide Ecc, Store, Fetch, Encoded;
    var j := n - 1;
    RoomForStep(m, c, s, off, e, eccOff, k, n);
    RoomForStep(m, c, s, off, e, eccOff, j, n);
    EncodedNext(m, c, swapped, s, off, e, eccOff, j);
    var p, r := Encoded(m, c, swapped, s, off, e, eccOff, j), Encoded(m, c, swapped, s, off, e, eccOff, n);
    EncodeStaysIn(m, c, swapped, s, off, e, eccOff, n);
    EncodeStaysIn(m, c, swapped, s, off, e, eccOff, j);
    RoomKept(m, p, c, s, off, e, eccOff, n);
    StoreOutside(p, e, eccOff + 3 * j, Ecc(Block(p, c, s, off, j), c.smOrder, swapped));
    FetchOutside(m, r, e, eccOff, eccOff + 3 * n, s, off + Blocks(c, k), c.stepSize);
    FetchOutside(m, p, e, eccOff, eccOff + 3 * j, s, off + Blocks(c, k), c.stepSize);
    if k < j {
      EncodesBlock(m, c, swapped, s, off, e, eccOff, k, j);
      FetchOutside(p, r, e, eccOff + 3 * j, eccOff + 3 * n, e, eccOff + 3 * k, 3);
    }
  }

  /** Wherever its blocks lie, decoding touches only them. */
  lemma {:induction false} DecodeStaysIn(m: Memory, c: Config, swapped: bool, s: nat, off: nat, e: nat, eccOff: nat,
                                         n: nat)
    requires ValidConfig(c) && Room(m, c, s, off, e, eccOff, n)
    ensures SameOutside(m, Decoded(m, c, swapped, s, off, e, eccOff, n).1, s, off, off + Blocks(c, n))
  {
    hide Ecc, Store, Fetch, Decode;
    if n > 0 {
      var k := n - 1;
      RoomForStep(m, c, s, off, e, eccOff, k, n);
      DecodeStaysIn(m, c, swapped, s, off, e, eccOff, k);
      DecodedNext(m, c, swapped, s, off, e, eccOff, k);
      var p := Decoded(m, c, swapped, s, off, e, eccOff, k);
      RoomKept(m, p.1, c, s, off, e, eccOff, n);
      if p.0 {
        StepStaysIn(p.1, c, swapped, s, off + Blocks(c, k), e, eccOff + 3 * k);
        OutsideTrans(m, p.1, Decoded(m, c, swapped, s, off, e, eccOff, n).1, s, off, off + Blocks(c, k),
                     off + Blocks(c, n));
      } else {
        MoreOutside(m, p.1, s, off, off + Blocks(c, k), off + Blocks(c, n));
      }
    }
  }

  lemma StepStaysIn(m: Memory, c: Config, swapped: bool, s: nat, off: nat, e: nat, eccOff: nat)
    requires ValidConfig(c) && InSpan(m, s, off, c.stepSize) && InSpan(m, e, eccOff, 3)
    ensures SameOutside(m, DecodeStep(m, c, swapped, s, off, e, eccOff).1, s, off, off + c.stepSize)
  {
    hide Ecc, Store, Fetch, Decode;
    var block := Fetch(m, s, off, c.stepSize);
    StoreOutside(m, s, off, Decode(block, Fetch(m, e, eccOff, 3), Ecc(block, c.smOrder, swapped), c.smOrder).1);
  }

  lemma MoreOutside(m: Memory, n: Memory, s: nat, lo: nat, mid: nat, hi: nat)
    requires SameOutside(m, n, s, lo, mid) && lo <= mid <= hi
    ensures SameOutside(m, n, s, lo, hi)
  {
  }

  // Flipped bits, step by step.

  /** Flips the decoder undoes: none, one, or one that comes with an unused code bit. */
  predicate Repairable(fs: seq<Flip>, size: nat) {
    fs == [] || |fs| == 1 || (|fs| == 2 && fs[0] != fs[1] && Exempt(fs[0], fs[1], size))
  }

  /** Flips the decoder detects and does not undo. */
  predicate Detected(fs: seq<Flip>, size: nat) {
    |fs| == 2 && fs[0] != fs[1] && !Exempt(fs[0], fs[1], size)
  }

  lemma StepOutcome(buf: seq<Byte>, fs: seq<Flip>, smOrder: bool)
    requires ValidBlock(buf) && ValidFlips(fs, |buf|)
    ensures Repairable(fs, |buf|) ==>
      Outcome(buf, fs, smOrder, false).0 != Uncorrectable && Outcome(buf, fs, smOrder, false).1 == buf
    ensures Detected(fs, |buf|) ==>
      && Outcome(buf, fs, smOrder, false).0 == Uncorrectable
      && Outcome(buf, fs, smOrder, false).1 == Received(buf, Ecc(buf, smOrder, false), fs).0
  {
    hide Outcome, Exempt, Received;
    if fs == [] {
      NoFlip(buf, smOrder, false);
    } else if |fs| == 1 {
      assert ValidFlip(fs[0], |buf|) && fs == [fs[0]];
      match fs[0]
      case DataFlip(a) => SingleDataFlip(buf, a, smOrder, false);
      case CodeFlip(j) => SingleCodeFlip(buf, j, smOrder, false);
    } else if |fs| == 2 && fs[0] != fs[1] {
      assert ValidFlip(fs[0], |buf|) && ValidFlip(fs[1], |buf|) && fs == [fs[0], fs[1]];
      if Exempt(fs[0], fs[1], |buf|) {
        ExemptFlips(buf, fs[0], fs[1], smOrder, false);
      } else {
        DoubleFlip(buf, fs[0], fs[1], smOrder, false);
      }
    }
  }

  /** Memory `r` holds, for step `k`, what memory `m` holds after the flips `fs`. */
  predicate HitAt(m: Memory, r: Memory, c: Config, s: nat, off: nat, e: nat, eccOff: nat, k: nat, fs: seq<Flip>)
    requires ValidConfig(c)
  {
    && InSpan(m, s, off + Blocks(c, k), c.stepSize) && InSpan(m, e, eccOff + 3 * k, 3)
    && InSpan(r, s, off + Blocks(c, k), c.stepSize) && InSpan(r, e, eccOff + 3 * k, 3)
    && ValidFlips(fs, c.stepSize)
    && (Block(r, c, s, off, k), Code(r, e, eccOff, k)) == Received(Block(m, c, s, off, k), Code(m, e, eccOff, k), fs)
  }

  predicate HitBy(m: Memory, r: Memory, c: Config, s: nat, off: nat, e: nat, eccOff: nat, flips: seq<seq<Flip>>)
    requires ValidConfig(c)
  {
    forall k: nat :: k < |flips| ==> HitAt(m, r, c, s, off, e, eccOff, k, flips[k])
  }

  /** Blocks below `n` are the same in both memories. */
  predicate SameBlocks(m: Memory, r: Memory, c: Config, s: nat, off: nat, n: nat)
    requires ValidConfig(c)
  {
    forall k: nat :: k < n ==>
      && InSpan(m, s, off + Blocks(c, k), c.stepSize) && InSpan(r, s, off + Blocks(c, k), c.stepSize)
      && Block(r, c, s, off, k) == Block(m, c, s, off, k)
  }

  /** A change to the blocks before step `k` leaves the blocks from `k` on and all codes alone. */
  lemma EarlierBlocks(m: Memory, p: Memory, c: Config, s: nat, off: nat, e: nat, eccOff: nat, k: nat, n: nat)
    requires ValidConfig(c) && Apart(c, s, off, e, eccOff, n) && Room(m, c, s, off, e, eccOff, n)
    requires SameOutside(m, p, s, off, off + Blocks(c, k)) && k < n
    ensures InSpan(p, s, off + Blocks(c, k), c.stepSize) && InSpan(p, e, eccOff + 3 * k, 3)
    ensures InSpan(m, s, off + Blocks(c, k), c.stepSize) && InSpan(m, e, eccOff + 3 * k, 3)
    ensures Block(p, c, s, off, k) == Block(m, c, s, off, k) && Code(p, e, eccOff, k) == Code(m, e, eccOff, k)
  {
    hide Fetch;
    FetchOutside(m, p, s, off, off + Blocks(c, k), s, off + Blocks(c, k), c.stepSize);
    FetchOutside(m, p, s, off, off + Blocks(c, k), e, eccOff + 3 * k, 3);
  }

  /** One decoded step, when the block and the code in `p` are the stored ones after `fs`. */
  lemma StepRestores(m0: Memory, p: Memory, c: Config, s: nat, off: nat, e: nat, eccOff: nat, k: nat, fs: seq<Flip>)
    requires ValidConfig(c) && ProtectedAt(m0, c, false, s, off, e, eccOff, k)
    requires HitAt(m0, p, c, s, off, e, eccOff, k, fs)
    ensures var r := DecodeStep(p, c, false, s, off + Blocks(c, k), e, eccOff + 3 * k);
      && (Repairable(fs, c.stepSize) ==>
            r == (true, Store(p, s, off + Blocks(c, k), Block(m0, c, s, off, k))))
      && (Detected(fs, c.stepSize) ==> r == (false, p))
  {
    hide Ecc, Decode, Store, Fetch, Received, Repairable, Detected;
    StepOutcome(Block(m0, c, s, off, k), fs, c.smOrder);
    StoredBack(p, s, off + Blocks(c, k), c.stepSize);
  }

  lemma StoredBack(m: Memory, s: nat, off: nat, len: nat)
    requires InSpan(m, s, off, len)
    ensures Store(m, s, off, Fetch(m, s, off, len)) == m
  {
    assert Put(m[s], off, m[s][off..off + len]) == m[s];
  }

  lemma MoreBlocks(m0: Memory, p: Memory, r: Memory, c: Config, s: nat, off: nat, k: nat)
    requires ValidConfig(c) && SameBlocks(m0, p, c, s, off, k)
    requires SameOutside(p, r, s, off + Blocks(c, k), off + Blocks(c, k + 1))
    requires InSpan(m0, s, off + Blocks(c, k), c.stepSize) && InSpan(r, s, off + Blocks(c, k), c.stepSize)
    requires Block(r, c, s, off, k) == Block(m0, c, s, off, k)
    ensures SameBlocks(m0, r, c, s, off, k + 1)
  {
    hide Fetch;
    forall j: nat | j < k
      ensures InSpan(m0, s, off + Blocks(c, j), c.stepSize) && InSpan(r, s, off + Blocks(c, j), c.stepSize)
      ensures Block(r, c, s, off, j) == Block(m0, c, s, off, j)
    {
      FetchOutside(p, r, s, off + Blocks(c, k), off + Blocks(c, k + 1), s, off + Blocks(c, j), c.stepSize);
    }
  }

  lemma NothingRestored(m0: Memory, m: Memory, c: Config, s: nat, off: nat)
    requires ValidConfig(c)
    ensures SameOutside(m, m, s, off, off + Blocks(c, 0)) && SameBlocks(m0, m, c, s, off, 0)
  {
  }

  /** With repairable flips in each of the first `n` steps, decoding gives back the blocks as they
      were stored and changes nothing else. */
  lemma {:induction false} DecodeRestores(m0: Memory, m: Memory, c: Config, s: nat, off: nat, e: nat, eccOff: nat,
                                          flips: seq<seq<Flip>>, n: nat)
    requires ValidConfig(c) && n <= |flips| && Room(m, c, s, off, e, eccOff, |flips|)
    requires Apart(c, s, off, e, eccOff, |flips|)
    requires Protected(m0, c, false, s, off, e, eccOff, |flips|) && HitBy(m0, m, c, s, off, e, eccOff, flips)
    requires forall k :: 0 <= k < n ==> Repairable(flips[k], c.stepSize)
    ensures Room(m, c, s, off, e, eccOff, n)
    ensures var r := Decoded(m, c, false, s, off, e, eccOff, n);
      r.0 && SameOutside(m, r.1, s, off, off + Blocks(c, n)) && SameBlocks(m0, r.1, c, s, off, n)
  {
    hide Ecc, Decode, DecodeStep, Decoded, Store, Fetch, Received, Repairable, SameOutside, SameBlocks, Room;
    NothingCoded(m, c, false, s, off, e, eccOff, |flips|);
    NothingRestored(m0, m, c, s, off);
    if n < |flips| {
      RoomForStep(m, c, s, off, e, eccOff, n, |flips|);
    }
    if n > 0 {
      var k := n - 1;
      RoomForStep(m, c, s, off, e, eccOff, k, |flips|);
      DecodeRestores(m0, m, c, s, off, e, eccOff, flips, k);
      DecodedNext(m, c, false, s, off, e, eccOff, k);
      var p, r := Decoded(m, c, false, s, off, e, eccOff, k).1, Decoded(m, c, false, s, off, e, eccOff, n).1;
      EarlierBlocks(m, p, c, s, off, e, eccOff, k, |flips|);
      assert ProtectedAt(m0, c, false, s, off, e, eccOff, k) && HitAt(m0, m, c, s, off, e, eccOff, k, flips[k]);
      StepRestores(m0, p, c, s, off, e, eccOff, k, flips[k]);
      StoreOutside(p, s, off + Blocks(c, k), Block(m0, c, s, off, k));
      OutsideTrans(m, p, r, s, off, off + Blocks(c, k), off + Blocks(c, n));
      MoreBlocks(m0, p, r, c, s, off, k);
    }
  }

  /** Decoding acknowledges exactly when no step has a detected double error. */
  lemma DecodeVerdict(m0: Memory, m: Memory, c: Config, s: nat, off: nat, e: nat, eccOff: nat, flips: seq<seq<Flip>>)
    requires ValidConfig(c) && Room(m, c, s, off, e, eccOff, |flips|) && Apart(c, s, off, e, eccOff, |flips|)
    requires Protected(m0, c, false, s, off, e, eccOff, |flips|) && HitBy(m0, m, c, s, off, e, eccOff, flips)
    requires forall k :: 0 <= k < |flips| ==> Repairable(flips[k], c.stepSize) || Detected(flips[k], c.stepSize)
    ensures Decoded(m, c, false, s, off, e, eccOff, |flips|).0
            <==> forall k :: 0 <= k < |flips| ==> Repairable(flips[k], c.stepSize)
  {
    hide Ecc, Decode, DecodeStep, Store, Fetch, Received, Repairable, Detected, Block, Code;
    if forall k :: 0 <= k < |flips| ==> Repairable(flips[k], c.stepSize) {
      DecodeRestores(m0, m, c, s, off, e, eccOff, flips, |flips|);
    } else {
      var k := FirstDetected(flips, c.stepSize, |flips|);
      DecodeStopsAt(m0, m, c, s, off, e, eccOff, flips, k);
    }
  }

  /** The first step with a detected double error ends the run: the blocks before it are restored, and it and
      all behind it are left as they came. */
  lemma DecodeStopsAt(m0: Memory, m: Memory, c: Config, s: nat, off: nat, e: nat, eccOff: nat, flips: seq<seq<Flip>>,
                      k: nat)
    requires ValidConfig(c) && Room(m, c, s, off, e, eccOff, |flips|) && Apart(c, s, off, e, eccOff, |flips|)
    requires Protected(m0, c, false, s, off, e, eccOff, |flips|) && HitBy(m0, m, c, s, off, e, eccOff, flips)
    requires k < |flips| && Detected(flips[k], c.stepSize)
    requires forall j :: 0 <= j < k ==> Repairable(flips[j], c.stepSize)
    ensures var r := Decoded(m, c, false, s, off, e, eccOff, |flips|);
      !r.0 && SameOutside(m, r.1, s, off, off + Blocks(c, k)) && SameBlocks(m0, r.1, c, s, off, k)
  {
    hide Ecc, Decode, DecodeStep, Store, Fetch, Received, Repairable, Detected, Block, Code, SameBlocks, SameOutside;
    DecodeRestores(m0, m, c, s, off, e, eccOff, flips, k);
    RoomForStep(m, c, s, off, e, eccOff, k, |flips|);
    DecodedNext(m, c, false, s, off, e, eccOff, k);
    var p := Decoded(m, c, false, s, off, e, eccOff, k).1;
    EarlierBlocks(m, p, c, s, off, e, eccOff, k, |flips|);
    assert ProtectedAt(m0, c, false, s, off, e, eccOff, k) && HitAt(m0, m, c, s, off, e, eccOff, k, flips[k]);
    StepRestores(m0, p, c, s, off, e, eccOff, k, flips[k]);
    DecodedStops(m, c, false, s, off, e, eccOff, k + 1, |flips|);
  }

  lemma {:induction false} FirstDetected(flips: seq<seq<Flip>>, size: nat, n: nat) returns (k: nat)
    requires n <= |flips|
    requires forall k :: 0 <= k < |flips| ==> Repairable(flips[k], size) || Detected(flips[k], size)
    requires exists k :: 0 <= k < n && !Repairable(flips[k], size)
    ensures k < n && Detected(flips[k], size) && forall j :: 0 <= j < k ==> Repairable(flips[j], size)
  {
    hide Repairable, Detected;
    if exists j :: 0 <= j < n - 1 && !Repairable(flips[j], size) {
      k := FirstDetected(flips, size, n - 1);
    } else {
      k := n - 1;
    }
  }

  // Decoding more steps than were encoded.

  lemma {:induction false} NoBitsToCount(buf: seq<Byte>, sel: seq<bool>, n: nat)
    requires n <= 8 * |buf| && n <= |sel| && forall i :: 0 <= i < |buf| ==> buf[i] == 0
    ensures CountBits(buf, sel, n) == 0
  {
    if n > 0 {
      NoBitsToCount(buf, sel, n - 1);
      NoBitSet((n - 1) % 8);
    }
  }

  lemma NoBitSet(j: nat)
    requires j < 8
    ensures !Bit(0, j)
  {
  }

  lemma PackOnes(s: seq<bool>)
    requires |s| == 8 && forall k :: 0 <= k < 8 ==> s[k]
    ensures Pack(s) == 0xFF
  {
  }

  /** A block of zeros has a code of ones. */
  lemma CodeOfZeros(buf: seq<Byte>, smOrder: bool, swapped: bool)
    requires ValidBlock(buf) && forall i :: 0 <= i < |buf| ==> buf[i] == 0
    ensures Ecc(buf, smOrder, swapped) == [0xFF, 0xFF, 0xFF]
  {
    hide Pack, CountBits, Selector;
    forall m: nat, v: bool
      ensures !OddParity(buf, m, v)
    {
      NoBitsToCount(buf, Selector(m, v, 8 * |buf|), 8 * |buf|);
    }
    PackOnes(RowBits(buf, 3, swapped));
    PackOnes(RowBits(buf, 7, swapped));
    PackOnes(ColumnBits(buf));
  }

  lemma OneBitParity(buf: seq<Byte>, a: nat, m: nat, v: bool)
    requires a < 8 * |buf| && forall i :: 0 <= i < |buf| ==> buf[i] == 0
    ensures OddParity(FlipBit(buf, a), m, v) <==> IndexBit(a, m) == v
  {
    hide CountBits, Selector, FlipBit, IndexBit;
    NoBitsToCount(buf, Selector(m, v, 8 * |buf|), 8 * |buf|);
    ParityToggles(buf, a, m, v);
  }

  /** The code of a block with a single bit set, in byte `a / 8`: in each pair of code bits the lower is
      cleared if the address bit of the pair is zero, and the upper if it is one. */
  lemma CodeOfOneBit(buf: seq<Byte>, a: nat, smOrder: bool, k: nat)
    requires ValidBlock(buf) && a < 8 * |buf| && k < 8 && forall i :: 0 <= i < |buf| ==> buf[i] == 0
    ensures var code := Ecc(FlipBit(buf, a), smOrder, false);
      && (Bit(code[if smOrder then 0 else 1], k) <==> IndexBit(a, 3 + k / 2) != (k % 2 == 1))
      && (Bit(code[if smOrder then 1 else 0], k) <==> IndexBit(a, 7 + k / 2) != (k % 2 == 1))
      && (k >= 2 ==> (Bit(code[2], k) <==> IndexBit(a, k / 2 - 1) != (k % 2 == 1)))
      && (k < 2 ==> (Bit(code[2], k) <==> |buf| == 256 || IndexBit(a, 11) != (k == 1)))
  {
    hide Pack, OddParity, FlipBit, IndexBit;
    var b := FlipBit(buf, a);
    PackBits(RowBits(b, 3, false));
    PackBits(RowBits(b, 7, false));
    PackBits(ColumnBits(b));
    OneBitParity(buf, a, 3 + k / 2, k % 2 == 1);
    OneBitParity(buf, a, 7 + k / 2, k % 2 == 1);
    OneBitParity(buf, a, if k < 2 then 11 else k / 2 - 1, k % 2 == 1);
  }

  /** A step that was never encoded, with zeros for its block and its code, is taken for a double error. */
  lemma UnencodedStep(m: Memory, c: Config, swapped: bool, s: nat, off: nat, e: nat, eccOff: nat, k: nat)
    requires ValidConfig(c) && InSpan(m, s, off + Blocks(c, k), c.stepSize) && InSpan(m, e, eccOff + 3 * k, 3)
    requires forall i :: 0 <= i < c.stepSize ==> Block(m, c, s, off, k)[i] == 0
    requires Code(m, e, eccOff, k) == [0, 0, 0]
    ensures !DecodeStep(m, c, swapped, s, off + Blocks(c, k), e, eccOff + 3 * k).0
  {
    hide Ecc, Fetch, Decode;
    CodeOfZeros(Block(m, c, s, off, k), c.smOrder, swapped);
    OnesAreUncorrectable(Block(m, c, s, off, k), c.smOrder);
  }

  lemma OnesAreUncorrectable(buf: seq<Byte>, smOrder: bool)
    requires ValidBlock(buf)
    ensures Decode(buf, [0, 0, 0], [0xFF, 0xFF, 0xFF], smOrder).0 == Uncorrectable
  {
    var b := Difference([0, 0, 0], [0xFF, 0xFF, 0xFF], smOrder);
    assert b == (0xFF, 0xFF, 0xFF);
    assert !Paired(0xFF, 0x55);
    assert BitsPerByte(0xFF) == 8;
  }

  /** Encoding `n` steps and decoding the configured number of them acknowledges. */
  predicate Recovers(m: Memory, c: Config, s: nat, off: nat, e: nat, eccOff: nat, n: nat)
    requires ValidConfig(c)
  {
    && Room(m, c, s, off, e, eccOff, n) && Room(m, c, s, off, e, eccOff, c.steps)
    && var r := Encoded(m, c, false, s, off, e, eccOff, n);
       RoomKept(m, r, c, s, off, e, eccOff, c.steps);
       Decoded(r, c, false, s, off, e, eccOff, c.steps).0
  }

  lemma Undamaged(m: Memory, c: Config, s: nat, off: nat, e: nat, eccOff: nat, n: nat) returns (flips: seq<seq<Flip>>)
    requires ValidConfig(c) && Room(m, c, s, off, e, eccOff, n)
    ensures |flips| == n && HitBy(m, m, c, s, off, e, eccOff, flips)
    ensures forall k :: 0 <= k < n ==> Repairable(flips[k], c.stepSize)
  {
    flips := seq(n, _ => []);
    forall k: nat | k < n
      ensures HitAt(m, m, c, s, off, e, eccOff, k, [])
    {
      RoomForStep(m, c, s, off, e, eccOff, k, n);
    }
  }

  function Zeros(m: Memory): (z: Memory)
    ensures SameShape(m, z) && forall i, j :: 0 <= i < |z| && 0 <= j < |z[i]| ==> z[i][j] == 0
  {
    seq(|m|, (i: nat) requires i < |m| => seq(|m[i]|, _ => 0))
  }

  lemma FewerSteps(m: Memory, c: Config, swapped: bool, s: nat, off: nat, e: nat, eccOff: nat, k: nat, n: nat)
    requires ValidConfig(c) && k <= n && Room(m, c, s, off, e, eccOff, n)
    ensures Room(m, c, s, off, e, eccOff, k)
    ensures Apart(c, s, off, e, eccOff, n) ==> Apart(c, s, off, e, eccOff, k)
    ensures Protected(m, c, swapped, s, off, e, eccOff, n) ==> Protected(m, c, swapped, s, off, e, eccOff, k)
  {
    hide ProtectedAt;
  }

  /** What was encoded is decoded. */
  lemma EncodedRecovers(m: Memory, c: Config, s: nat, off: nat, e: nat, eccOff: nat, n: nat)
    requires ValidConfig(c) && c.steps <= n
    requires Room(m, c, s, off, e, eccOff, n) && Apart(c, s, off, e, eccOff, n)
    ensures Recovers(m, c, s, off, e, eccOff, n)
  {
    hide Encoded, Decoded, Protected, HitBy, Repairable, Apart, Room;
    var r := Encoded(m, c, false, s, off, e, eccOff, n);
    EncodeProtects(m, c, false, s, off, e, eccOff, n);
    RoomKept(m, r, c, s, off, e, eccOff, n);
    FewerSteps(m, c, false, s, off, e, eccOff, c.steps, n);
    FewerSteps(r, c, false, s, off, e, eccOff, c.steps, n);
    var flips := Undamaged(r, c, s, off, e, eccOff, c.steps);
    DecodeRestores(r, r, c, s, off, e, eccOff, flips, c.steps);
  }

  lemma StillZero(m: Memory, r: Memory, c: Config, s: nat, off: nat, e: nat, eccOff: nat, n: nat)
    requires ValidConfig(c) && n < c.steps
    requires Room(m, c, s, off, e, eccOff, c.steps) && Apart(c, s, off, e, eccOff, c.steps)
    requires SameOutside(Zeros(m), r, e, eccOff, eccOff + 3 * n)
    ensures InSpan(r, s, off + Blocks(c, n), c.stepSize) && InSpan(r, e, eccOff + 3 * n, 3)
    ensures Block(r, c, s, off, n) == seq(c.stepSize, _ => 0) && Code(r, e, eccOff, n) == [0, 0, 0]
  {
    hide SameOutside, Fetch;
    var z := Zeros(m);
    RoomForStep(m, c, s, off, e, eccOff, n, c.steps);
    FetchOutside(z, r, e, eccOff, eccOff + 3 * n, s, off + Blocks(c, n), c.stepSize);
    FetchOutside(z, r, e, eccOff, eccOff + 3 * n, e, eccOff + 3 * n, 3);
    ZeroBytes(z, s, off + Blocks(c, n), c.stepSize);
    ZeroBytes(z, e, eccOff + 3 * n, 3);
    assert seq(3, _ => 0) == [0, 0, 0];
  }

  lemma ZeroBytes(z: Memory, s: nat, off: nat, len: nat)
    requires InSpan(z, s, off, len) && forall i, j :: 0 <= i < |z| && 0 <= j < |z[i]| ==> z[i][j] == 0
    ensures Fetch(z, s, off, len) == seq(len, _ => 0)
  {
  }

  /** Spans of zeros are not acknowledged if a step is decoded that was not encoded. */
  lemma ZerosAreRefused(m: Memory, c: Config, s: nat, off: nat, e: nat, eccOff: nat, n: nat)
    requires ValidConfig(c) && n < c.steps
    requires Room(m, c, s, off, e, eccOff, c.steps) && Apart(c, s, off, e, eccOff, c.steps)
    ensures !Recovers(Zeros(m), c, s, off, e, eccOff, n)
  {
    hide Encoded, Decoded, DecodeStep, Protected, HitBy, Repairable, Apart, Room, Block, Code, SameOutside;
    var z := Zeros(m);
    RoomKept(m, z, c, s, off, e, eccOff, c.steps);
    FewerSteps(z, c, false, s, off, e, eccOff, n, c.steps);
    var r := Encoded(z, c, false, s, off, e, eccOff, n);
    EncodeProtects(z, c, false, s, off, e, eccOff, n);
    RoomKept(z, r, c, s, off, e, eccOff, c.steps);
    StillZero(m, r, c, s, off, e, eccOff, n);
    FewerSteps(r, c, false, s, off, e, eccOff, n, c.steps);
    FewerSteps(r, c, false, s, off, e, eccOff, n + 1, c.steps);
    var flips := Undamaged(r, c, s, off, e, eccOff, n);
    DecodeRestores(r, r, c, s, off, e, eccOff, flips, n);
    DecodedNext(r, c, false, s, off, e, eccOff, n);
    var p := Decoded(r, c, false, s, off, e, eccOff, n).1;
    EarlierBlocks(r, p, c, s, off, e, eccOff, n, c.steps);
    UnencodedStep(p, c, false, s, off, e, eccOff, n);
    DecodedStops(r, c, false, s, off, e, eccOff, n + 1, c.steps);
  }

  /** Whatever the spans hold, decoding acknowledges what encoding left, exactly when no step is decoded
      that was not encoded. */
  lemma RecoversExactly(shape: Memory, c: Config, s: nat, off: nat, e: nat, eccOff: nat, n: nat)
    requires ValidConfig(c)
    requires Room(shape, c, s, off, e, eccOff, n) && Apart(c, s, off, e, eccOff, n)
    requires Room(shape, c, s, off, e, eccOff, c.steps) && Apart(c, s, off, e, eccOff, c.steps)
    ensures (forall m :: SameShape(shape, m) ==> Recovers(m, c, s, off, e, eccOff, n)) <==> c.steps <= n
  {
    hide Recovers, Apart, Room;
    if c.steps <= n {
      forall m | SameShape(shape, m)
        ensures Recovers(m, c, s, off, e, eccOff, n)
      {
        RoomKept(shape, m, c, s, off, e, eccOff, n);
        EncodedRecovers(m, c, s, off, e, eccOff, n);
      }
    } else {
      ZerosAreRefused(shape, c, s, off, e, eccOff, n);
      assert SameShape(shape, Zeros(shape));
    }
  }
}
