// hamming_encode and hamming_decode: the code applied step by step to span buffers.
module HammingCodec {
  import opened Bits
  import opened HammingCode
  import opened HammingCorrect
  import HammingCalculate
  import opened Spans

  datatype Config = Config(stepSize: nat, steps: nat, smOrder: bool, bigEndian: bool)

  predicate ValidConfig(c: Config) {
    (c.stepSize == 256 || c.stepSize == 512) && c.steps > 0
  }

  datatype Answer = Ack | BoundariesInvalid | DataRecoveryFailed

  function DivRoundUp(n: nat, d: nat): nat
    requires d > 0
  {
    (n + d - 1) / d
  }

  /** verify_has_enough_oob_storage_for_hamming_ecc */
  predicate EnoughOob(datalen: nat, stepSize: nat, ooblen: nat)
    requires stepSize > 0
  {
    DivRoundUp(datalen, stepSize) <= ooblen / 3
  }

  // One run of a codec, as a function of the memory.

  /** One step: the code of the block at `off` of span `s` goes to `eccOff` of span `d`. */
  function EncodeStep(m: Memory, c: Config, swapped: bool, s: nat, off: nat, d: nat, eccOff: nat): (r: Memory)
    requires ValidConfig(c) && InSpan(m, s, off, c.stepSize) && InSpan(m, d, eccOff, 3)
    ensures SameShape(m, r)
  {
    Store(m, d, eccOff, Ecc(Fetch(m, s, off, c.stepSize), c.smOrder, swapped))
  }

  /** The length of `n` blocks. */
  function Blocks(c: Config, n: nat): nat {
    if c.stepSize == 256 then 256 * n else 512 * n
  }

  /** `n` blocks fit behind `off` of span `s`, and their codes behind `eccOff` of span `e`. */
  predicate Room(m: Memory, c: Config, s: nat, off: nat, e: nat, eccOff: nat, n: nat) {
    InSpan(m, s, off, Blocks(c, n)) && InSpan(m, e, eccOff, 3 * n)
  }

  lemma RoomForStep(m: Memory, c: Config, s: nat, off: nat, e: nat, eccOff: nat, k: nat, n: nat)
    requires ValidConfig(c) && Room(m, c, s, off, e, eccOff, n) && k < n
    ensures Room(m, c, s, off, e, eccOff, k) && Room(m, c, s, off, e, eccOff, k + 1)
    ensures InSpan(m, s, off + Blocks(c, k), c.stepSize) && InSpan(m, e, eccOff + 3 * k, 3)
  {
  }

  /** After `n` encoded steps. Each step reads what the steps before it left. */
  function Encoded(m: Memory, c: Config, swapped: bool, s: nat, off: nat, d: nat, eccOff: nat, n: nat): (r: Memory)
    requires ValidConfig(c) && Room(m, c, s, off, d, eccOff, n)
    ensures SameShape(m, r)
  {
    if n == 0 then m
    else
      RoomForStep(m, c, s, off, d, eccOff, n - 1, n);
      EncodeStep(Encoded(m, c, swapped, s, off, d, eccOff, n - 1), c, swapped,
                 s, off + Blocks(c, n - 1), d, eccOff + 3 * (n - 1))
  }

  /** One step: the block at `off` of span `s` is repaired, unless its code says it cannot be. */
  function DecodeStep(m: Memory, c: Config, swapped: bool, s: nat, off: nat, e: nat, eccOff: nat): (r: (bool, Memory))
    requires ValidConfig(c) && InSpan(m, s, off, c.stepSize) && InSpan(m, e, eccOff, 3)
    ensures SameShape(m, r.1)
  {
    var block := Fetch(m, s, off, c.stepSize);
    var r := Decode(block, Fetch(m, e, eccOff, 3), Ecc(block, c.smOrder, swapped), c.smOrder);
    (r.0 != Uncorrectable, Store(m, s, off, r.1))
  }

  /** After `n` decoded steps, or after the first step that could not be repaired. */
  function Decoded(m: Memory, c: Config, swapped: bool, s: nat, off: nat, e: nat, eccOff: nat, n: nat)
    : (r: (bool, Memory))
    requires ValidConfig(c) && Room(m, c, s, off, e, eccOff, n)
    ensures SameShape(m, r.1)
  {
    if n == 0 then (true, m)
    else
      RoomForStep(m, c, s, off, e, eccOff, n - 1, n);
      var p := Decoded(m, c, swapped, s, off, e, eccOff, n - 1);
      if !p.0 then p
      else DecodeStep(p.1, c, swapped, s, off + Blocks(c, n - 1), e, eccOff + 3 * (n - 1))
  }

  /** The storage check passes exactly when the code of every step that begins inside the data has its
      three bytes: codes that follow each other end in the storage. */
  lemma EnoughOobExactly(c: Config, datalen: nat, ooblen: nat)
    requires ValidConfig(c)
    ensures EnoughOob(datalen, c.stepSize, ooblen)
      <==> forall k: nat :: Blocks(c, k) < datalen ==> 3 * k + 3 <= ooblen
  {
    var n := DivRoundUp(datalen, c.stepSize);
    if n > 0 { assert Blocks(c, n - 1) < datalen; }
  }

  /** The storage check keeps the code of every encoded step inside the destination range. */
  lemma CheckBoundsCodes(datalen: nat, stepSize: nat, ooblen: nat, n: nat)
    requires stepSize > 0 && n <= DivRoundUp(datalen, stepSize)
    ensures EnoughOob(datalen, stepSize, ooblen) ==> 3 * n <= ooblen
  {
  }

  /** For decoding, which runs over the configured steps whatever the length, it does so exactly when
      there are no more steps than the length has. */
  lemma CheckBoundsDecodeExactly(c: Config, datalen: nat)
    requires ValidConfig(c)
    ensures (forall ooblen: nat :: EnoughOob(datalen, c.stepSize, ooblen) ==> 3 * c.steps <= ooblen)
      <==> c.steps <= DivRoundUp(datalen, c.stepSize)
  {
    assert EnoughOob(datalen, c.stepSize, 3 * DivRoundUp(datalen, c.stepSize));
  }

  /** The blocks of a length, rounded up, stay inside it exactly when it is a multiple of the step. */
  lemma WholeBlocks(c: Config, len: nat)
    requires ValidConfig(c)
    ensures Blocks(c, DivRoundUp(len, c.stepSize)) <= len <==> len % c.stepSize == 0
    ensures Blocks(c, c.steps) <= len ==> c.steps <= DivRoundUp(len, c.stepSize)
  {
  }

  method EncodeOne(c: Config, bufs: seq<array<Byte>>, s: nat, off: nat, d: nat, eccOff: nat, bigHost: bool)
    requires ValidConfig(c) && Distinct(bufs)
    requires InSpan(View(bufs), s, off, c.stepSize) && InSpan(View(bufs), d, eccOff, 3)
    modifies bufs[d]
    ensures View(bufs) == EncodeStep(old(View(bufs)), c, c.bigEndian != bigHost, s, off, d, eccOff)
  {
    hide Ecc;
    ghost var m := View(bufs);
    var ecccalc := HammingCalculate.Calculate(bufs[s], off, c.stepSize, c.smOrder, c.bigEndian, bigHost);
    bufs[d][eccOff], bufs[d][eccOff + 1], bufs[d][eccOff + 2] := ecccalc[0], ecccalc[1], ecccalc[2];
    StoredInPlace(m, bufs, d, eccOff, ecccalc);
  }

  method DecodeOne(c: Config, bufs: seq<array<Byte>>, s: nat, off: nat, e: nat, eccOff: nat, bigHost: bool)
    returns (ok: bool)
    requires ValidConfig(c) && Distinct(bufs)
    requires InSpan(View(bufs), s, off, c.stepSize) && InSpan(View(bufs), e, eccOff, 3)
    modifies bufs[s]
    ensures (ok, View(bufs)) == DecodeStep(old(View(bufs)), c, c.bigEndian != bigHost, s, off, e, eccOff)
  {
    hide Ecc, Decode;
    ghost var m := View(bufs);
    var ecccalc := HammingCalculate.Calculate(bufs[s], off, c.stepSize, c.smOrder, c.bigEndian, bigHost);
    var stored := bufs[e][eccOff..eccOff + 3];
    var stat := HammingCorrect.Correct(bufs[s], off, stored, ecccalc, c.stepSize, c.smOrder);
    ok := stat != Uncorrectable;
    ghost var block := bufs[s][off..off + c.stepSize];
    assert forall i :: 0 <= i < c.stepSize ==> bufs[s][off + i] == block[i];
    StoredInPlace(m, bufs, s, off, block);
  }

  lemma EncodedNext(m: Memory, c: Config, swapped: bool, s: nat, off: nat, d: nat, eccOff: nat, k: nat)
    requires ValidConfig(c) && Room(m, c, s, off, d, eccOff, k) && Room(m, c, s, off, d, eccOff, k + 1)
    ensures InSpan(m, s, off + Blocks(c, k), c.stepSize) && InSpan(m, d, eccOff + 3 * k, 3)
    ensures Encoded(m, c, swapped, s, off, d, eccOff, k + 1)
      == EncodeStep(Encoded(m, c, swapped, s, off, d, eccOff, k), c, swapped, s, off + Blocks(c, k), d, eccOff + 3 * k)
  {
    hide EncodeStep;
    RoomForStep(m, c, s, off, d, eccOff, k, k + 1);
  }

  lemma DecodedNext(m: Memory, c: Config, swapped: bool, s: nat, off: nat, e: nat, eccOff: nat, k: nat)
    requires ValidConfig(c) && Room(m, c, s, off, e, eccOff, k) && Room(m, c, s, off, e, eccOff, k + 1)
    ensures InSpan(m, s, off + Blocks(c, k), c.stepSize) && InSpan(m, e, eccOff + 3 * k, 3)
    ensures var p := Decoded(m, c, swapped, s, off, e, eccOff, k);
      Decoded(m, c, swapped, s, off, e, eccOff, k + 1)
      == if p.0 then DecodeStep(p.1, c, swapped, s, off + Blocks(c, k), e, eccOff + 3 * k) else p
  {
    hide DecodeStep;
    RoomForStep(m, c, s, off, e, eccOff, k, k + 1);
  }

  lemma NothingCoded(m: Memory, c: Config, swapped: bool, s: nat, off: nat, e: nat, eccOff: nat, n: nat)
    requires ValidConfig(c) && Room(m, c, s, off, e, eccOff, n)
    ensures Room(m, c, s, off, e, eccOff, 0) && SameShape(m, m) && Blocks(c, 0) == 0
    ensures Encoded(m, c, swapped, s, off, e, eccOff, 0) == m
    ensures Decoded(m, c, swapped, s, off, e, eccOff, 0) == (true, m)
  {
  }

  lemma SameSpans(m: Memory, n: Memory, s: nat, off: nat, len: nat, e: nat, eccOff: nat, eccLen: nat)
    requires SameShape(m, n) && InSpan(m, s, off, len) && InSpan(m, e, eccOff, eccLen)
    ensures InSpan(n, s, off, len) && InSpan(n, e, eccOff, eccLen)
  {
  }

  method EncodeSteps(c: Config, bufs: seq<array<Byte>>, s: nat, off: nat, d: nat, eccOff: nat, n: nat, bigHost: bool)
    requires ValidConfig(c) && Distinct(bufs) && d < |bufs|
    requires Room(View(bufs), c, s, off, d, eccOff, n)
    modifies bufs[d]
    ensures View(bufs) == Encoded(old(View(bufs)), c, c.bigEndian != bigHost, s, off, d, eccOff, n)
  {
    hide EncodeStep, Encoded, SameShape, InSpan, Room, View, Distinct;
    ghost var m := View(bufs);
    ghost var swapped := c.bigEndian != bigHost;
    NothingCoded(m, c, swapped, s, off, d, eccOff, n);
    var databuf, eccbuf := off, eccOff;
    var step := 0;
    while step < n
      invariant 0 <= step <= n
      invariant databuf == off + Blocks(c, step) && eccbuf == eccOff + 3 * step
      invariant Room(m, c, s, off, d, eccOff, step) && SameShape(m, View(bufs))
      invariant View(bufs) == Encoded(m, c, swapped, s, off, d, eccOff, step)
    {
      RoomForStep(m, c, s, off, d, eccOff, step, n);
      EncodedNext(m, c, swapped, s, off, d, eccOff, step);
      SameSpans(m, View(bufs), s, databuf, c.stepSize, d, eccbuf, 3);
      EncodeOne(c, bufs, s, databuf, d, eccbuf, bigHost);
      eccbuf, databuf := eccbuf + 3, databuf + c.stepSize;
      step := step + 1;
    }
  }

  /** hamming_encode on the range of `srclen` bytes from `off` of span `s`. */
  method Encode(c: Config, bufs: seq<array<Byte>>, s: nat, off: nat, srclen: nat, d: nat, eccOff: nat, destlen: nat,
                bigHost: bool)
    returns (answer: Answer)
    requires ValidConfig(c) && Distinct(bufs) && s < |bufs|
    requires EnoughOob(srclen, c.stepSize, destlen) ==>
      InSpan(View(bufs), s, off, Blocks(c, DivRoundUp(srclen, c.stepSize)))
    requires InSpan(View(bufs), d, eccOff, destlen)
    modifies bufs[d]
    ensures answer == Ack <==> forall k: nat :: Blocks(c, k) < srclen ==> 3 * k + 3 <= destlen
    ensures answer == if EnoughOob(srclen, c.stepSize, destlen) then Ack else BoundariesInvalid
    ensures answer.Ack? ==>
      && Room(old(View(bufs)), c, s, off, d, eccOff, DivRoundUp(srclen, c.stepSize))
      && View(bufs) == Encoded(old(View(bufs)), c, c.bigEndian != bigHost, s, off, d, eccOff,
                               DivRoundUp(srclen, c.stepSize))
    ensures !answer.Ack? ==> View(bufs) == old(View(bufs))
  {
    hide View, Distinct;
    EnoughOobExactly(c, srclen, destlen);
    if !EnoughOob(srclen, c.stepSize, destlen) {
      return BoundariesInvalid;
    }
    var n := DivRoundUp(srclen, c.stepSize);
    CheckBoundsCodes(srclen, c.stepSize, destlen, n);
    EncodeSteps(c, bufs, s, off, d, eccOff, n, bigHost);
    return Ack;
  }

  method DecodeSteps(c: Config, bufs: seq<array<Byte>>, s: nat, off: nat, e: nat, eccOff: nat, bigHost: bool)
    returns (ok: bool)
    requires ValidConfig(c) && Distinct(bufs) && s < |bufs|
    requires Room(View(bufs), c, s, off, e, eccOff, c.steps)
    modifies bufs[s]
    ensures Decoded(old(View(bufs)), c, c.bigEndian != bigHost, s, off, e, eccOff, c.steps) == (ok, View(bufs))
  {
    hide DecodeStep, Decoded, SameShape, InSpan, Room, View, Distinct;
    ghost var m := View(bufs);
    ghost var swapped := c.bigEndian != bigHost;
    NothingCoded(m, c, swapped, s, off, e, eccOff, c.steps);
    var databuf, eccbuf := off, eccOff;
    var step := 0;
    while step < c.steps
      invariant 0 <= step <= c.steps
      invariant databuf == off + Blocks(c, step) && eccbuf == eccOff + 3 * step
      invariant Room(m, c, s, off, e, eccOff, step) && SameShape(m, View(bufs))
      invariant Decoded(m, c, swapped, s, off, e, eccOff, step) == (true, View(bufs))
    {
      RoomForStep(m, c, s, off, e, eccOff, step, c.steps);
      DecodedNext(m, c, swapped, s, off, e, eccOff, step);
      SameSpans(m, View(bufs), s, databuf, c.stepSize, e, eccbuf, 3);
      ok := DecodeOne(c, bufs, s, databuf, e, eccbuf, bigHost);
      if !ok {
        DecodedStops(m, c, swapped, s, off, e, eccOff, step + 1, c.steps);
        return;
      }
      eccbuf, databuf := eccbuf + 3, databuf + c.stepSize;
      step := step + 1;
    }
    ok := true;
  }

  /** hamming_decode on the ranges from `off` of span `s` and from `eccOff` of span `e`. */
  method DecodeRange(c: Config, bufs: seq<array<Byte>>, s: nat, off: nat, datalen: nat, e: nat, eccOff: nat,
                     ooblen: nat, bigHost: bool)
    returns (answer: Answer)
    requires ValidConfig(c) && Distinct(bufs) && s < |bufs| && e < |bufs|
    requires EnoughOob(datalen, c.stepSize, ooblen) ==> Room(View(bufs), c, s, off, e, eccOff, c.steps)
    modifies bufs[s]
    ensures answer != BoundariesInvalid <==> forall k: nat :: Blocks(c, k) < datalen ==> 3 * k + 3 <= ooblen
    ensures !EnoughOob(datalen, c.stepSize, ooblen) ==> answer == BoundariesInvalid && View(bufs) == old(View(bufs))
    ensures EnoughOob(datalen, c.stepSize, ooblen) ==>
      Decoded(old(View(bufs)), c, c.bigEndian != bigHost, s, off, e, eccOff, c.steps) == (answer.Ack?, View(bufs))
      && (answer.Ack? || answer == DataRecoveryFailed)
  {
    EnoughOobExactly(c, datalen, ooblen);
    if !EnoughOob(datalen, c.stepSize, ooblen) {
      return BoundariesInvalid;
    }
    var ok := DecodeSteps(c, bufs, s, off, e, eccOff, bigHost);
    return if ok then Ack else DataRecoveryFailed;
  }

  /** A step that cannot be repaired ends the run. */
  lemma {:induction false} DecodedStops(m: Memory, c: Config, swapped: bool, s: nat, off: nat, e: nat, eccOff: nat,
                                        k: nat, n: nat)
    requires ValidConfig(c) && Room(m, c, s, off, e, eccOff, n) && k <= n
    requires Room(m, c, s, off, e, eccOff, k) && !Decoded(m, c, swapped, s, off, e, eccOff, k).0
    ensures Decoded(m, c, swapped, s, off, e, eccOff, n) == Decoded(m, c, swapped, s, off, e, eccOff, k)
  {
    hide DecodeStep;
    if k < n {
      RoomForStep(m, c, s, off, e, eccOff, n - 1, n);
      DecodedStops(m, c, swapped, s, off, e, eccOff, k, n - 1);
    }
  }
}
