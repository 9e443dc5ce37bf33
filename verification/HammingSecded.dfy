// Single-error correction and double-error detection, for every block.
module HammingSecded {
  import opened Bits
  import opened HammingCode
  import opened HammingCorrect
  import opened HammingSyndrome

  /** A flipped bit: data bit `a` of the block, or bit `j` % 8 of code byte `j` / 8. */
  datatype Flip = DataFlip(a: nat) | CodeFlip(j: nat)

  predicate ValidFlip(f: Flip, size: nat) {
    match f
    case DataFlip(a) => a < 8 * size
    case CodeFlip(j) => j < 24
  }

  predicate ValidFlips(fs: seq<Flip>, size: nat) {
    forall f :: f in fs ==> ValidFlip(f, size)
  }

  function FlipCode(code: seq<Byte>, j: nat): (r: seq<Byte>)
    requires |code| == 3 && j < 24
    ensures |r| == 3
  {
    code[j / 8 := XorB(code[j / 8], Mask(j % 8))]
  }

  function Hit(buf: seq<Byte>, code: seq<Byte>, f: Flip): (r: (seq<Byte>, seq<Byte>))
    requires |code| == 3 && ValidFlip(f, |buf|)
    ensures |r.0| == |buf| && |r.1| == 3
  {
    match f
    case DataFlip(a) => (FlipBit(buf, a), code)
    case CodeFlip(j) => (buf, FlipCode(code, j))
  }

  /** The block and the code as they come back after the flips. */
  function Received(buf: seq<Byte>, code: seq<Byte>, fs: seq<Flip>): (r: (seq<Byte>, seq<Byte>))
    requires |code| == 3 && ValidFlips(fs, |buf|)
    ensures |r.0| == |buf| && |r.1| == 3
  {
    if fs == [] then (buf, code)
    else
      var r := Received(buf, code, fs[..|fs| - 1]);
      assert ValidFlip(fs[|fs| - 1], |buf|);
      Hit(r.0, r.1, fs[|fs| - 1])
  }

  /** Where code bit `j` stands in the syndrome. */
  function Position(j: nat, smOrder: bool): (p: nat)
    requires j < 24
    ensures p < 24
  {
    if smOrder || j >= 16 then j else if j < 8 then j + 8 else j - 8
  }

  /** The value of its address bit that bit `k` of the syndrome stands for. */
  predicate Sense(k: nat, swapped: bool) {
    (k % 2 == 1) != (swapped && k < 4)
  }

  function Effect(f: Flip, size: nat, smOrder: bool, swapped: bool): (s: Syndrome)
    requires ValidFlip(f, size)
  {
    match f
    case DataFlip(a) =>
      seq(24, (k: nat) => Used(k / 2, size) && IndexBit(a, AddressBitOf(k / 2)) == Sense(k, swapped))
    case CodeFlip(j) =>
      seq(24, (k: nat) => k == Position(j, smOrder))
  }

  function Add(s: Syndrome, t: Syndrome): (r: Syndrome) {
    seq(24, (k: nat) requires k < 24 => s[k] != t[k])
  }

  function Total(fs: seq<Flip>, size: nat, smOrder: bool, swapped: bool): Syndrome
    requires ValidFlips(fs, size)
  {
    if fs == [] then seq(24, _ => false)
    else
      assert ValidFlip(fs[|fs| - 1], size);
      Add(Total(fs[..|fs| - 1], size, smOrder, swapped), Effect(fs[|fs| - 1], size, smOrder, swapped))
  }

  // Linearity: the difference between stored and recomputed code is the sum of the effects.

  lemma PackAdd(s: Syndrome, t: Syndrome, i: nat)
    requires i <= 16
    ensures PackFrom(Add(s, t), i) == XorB(PackFrom(s, i), PackFrom(t, i))
  {
    PackXor(s[i..i + 8], t[i..i + 8], Add(s, t)[i..i + 8]);
    hide Pack, XorB;
  }

  lemma CodeBitToggles(buf: seq<Byte>, a: nat, smOrder: bool, swapped: bool, k: nat)
    requires ValidBlock(buf) && a < 8 * |buf| && k < 24 && Used(k / 2, |buf|)
    ensures CodeBit(FlipBit(buf, a), AddressBitOf(k / 2), k % 2 == 1, swapped)
            == (CodeBit(buf, AddressBitOf(k / 2), k % 2 == 1, swapped)
                != Effect(DataFlip(a), |buf|, smOrder, swapped)[k])
  {
    hide OddParity, FlipBit, IndexBit;
    ParityToggles(buf, a, AddressBitOf(k / 2), Sense(k, swapped));
  }

  /** A flipped data bit adds its effect to the recomputed code. */
  lemma DataFlipAdds(buf: seq<Byte>, a: nat, read: seq<Byte>, smOrder: bool, swapped: bool, s: Syndrome)
    requires ValidBlock(buf) && a < 8 * |buf| && |read| == 3
    requires Difference(read, Ecc(buf, smOrder, swapped), smOrder) == Packed(s)
    ensures Difference(read, Ecc(FlipBit(buf, a), smOrder, swapped), smOrder)
            == Packed(Add(s, Effect(DataFlip(a), |buf|, smOrder, swapped)))
  {
    hide XorB, RowByte, ColumnByte, PackFrom, Effect, Add, FlipBit;
    var e := Effect(DataFlip(a), |buf|, smOrder, swapped);
    RowsToggle(buf, a, smOrder, swapped, 0);
    RowsToggle(buf, a, smOrder, swapped, 8);
    ColumnToggles(buf, a, smOrder, swapped);
    PackAdd(s, e, 0); PackAdd(s, e, 8); PackAdd(s, e, 16);
    var c0, c1, c2 := RowByte(buf, 3, swapped), RowByte(buf, 7, swapped), ColumnByte(buf);
    if smOrder {
      XorBAssoc(read[0], c0, PackFrom(e, 0)); XorBAssoc(read[1], c1, PackFrom(e, 8));
    } else {
      XorBAssoc(read[1], c0, PackFrom(e, 0)); XorBAssoc(read[0], c1, PackFrom(e, 8));
    }
    XorBAssoc(read[2], c2, PackFrom(e, 16));
  }

  lemma RowsToggle(buf: seq<Byte>, a: nat, smOrder: bool, swapped: bool, i: nat)
    requires ValidBlock(buf) && a < 8 * |buf| && (i == 0 || i == 8)
    ensures RowByte(FlipBit(buf, a), 3 + i / 2, swapped)
            == XorB(RowByte(buf, 3 + i / 2, swapped), PackFrom(Effect(DataFlip(a), |buf|, smOrder, swapped), i))
  {
    hide CodeBit, Pack, XorB, Effect, FlipBit;
    var m := 3 + i / 2;
    var e := Effect(DataFlip(a), |buf|, smOrder, swapped);
    var before, after := RowBits(buf, m, swapped), RowBits(FlipBit(buf, a), m, swapped);
    forall k | 0 <= k < 8
      ensures after[k] == (before[k] != e[i + k])
    {
      assert AddressBitOf((i + k) / 2) == m + k / 2;
      CodeBitToggles(buf, a, smOrder, swapped, i + k);
    }
    PackXor(before, e[i..i + 8], after);
  }

  lemma XorBAssoc(a: Byte, b: Byte, c: Byte)
    ensures XorB(a, XorB(b, c)) == XorB(XorB(a, b), c)
    ensures XorB(XorB(a, c), b) == XorB(XorB(a, b), c)
  {
  }

  lemma ColumnToggles(buf: seq<Byte>, a: nat, smOrder: bool, swapped: bool)
    requires ValidBlock(buf) && a < 8 * |buf|
    ensures ColumnByte(FlipBit(buf, a))
            == XorB(ColumnByte(buf), PackFrom(Effect(DataFlip(a), |buf|, smOrder, swapped), 16))
  {
    hide OddParity, Pack, XorB, FlipBit, IndexBit;
    var e := Effect(DataFlip(a), |buf|, smOrder, swapped);
    var before, after := ColumnBits(buf), ColumnBits(FlipBit(buf, a));
    forall k | 0 <= k < 8
      ensures after[k] == (before[k] != e[16 + k])
    {
      if k >= 2 || |buf| == 512 {
        assert AddressBitOf((16 + k) / 2) == if k < 2 then 11 else k / 2 - 1;
        CodeBitToggles(buf, a, smOrder, swapped, 16 + k);
      }
    }
    PackXor(before, e[16..24], after);
  }

  lemma OneBitPacked(s: Syndrome, i: nat, p: nat)
    requires i == 0 || i == 8 || i == 16
    requires p < 24 && forall k :: 0 <= k < 24 ==> s[k] == (k == p)
    ensures PackFrom(s, i) == if i <= p < i + 8 then Mask(p - i) else 0
  {
  }

  lemma XorBZero(a: Byte)
    ensures XorB(a, 0) == a && XorB(a, a) == 0
  {
  }

  lemma CodeFlipPacked(j: nat, size: nat, smOrder: bool, swapped: bool)
    requires j < 24
    ensures var e, p := Effect(CodeFlip(j), size, smOrder, swapped), Position(j, smOrder);
      && PackFrom(e, 0) == (if p < 8 then Mask(p) else 0)
      && PackFrom(e, 8) == (if 8 <= p < 16 then Mask(p - 8) else 0)
      && PackFrom(e, 16) == (if 16 <= p then Mask(p - 16) else 0)
  {
    hide PackFrom, Mask;
    var e, p := Effect(CodeFlip(j), size, smOrder, swapped), Position(j, smOrder);
    OneBitPacked(e, 0, p); OneBitPacked(e, 8, p); OneBitPacked(e, 16, p);
  }

  /** A flipped code bit adds its effect to the stored code. */
  lemma CodeFlipAdds(read: seq<Byte>, j: nat, now: seq<Byte>, size: nat, smOrder: bool, swapped: bool, s: Syndrome)
    requires |read| == 3 && |now| == 3 && j < 24
    requires Difference(read, now, smOrder) == Packed(s)
    ensures Difference(FlipCode(read, j), now, smOrder)
            == Packed(Add(s, Effect(CodeFlip(j), size, smOrder, swapped)))
  {
    var e := Effect(CodeFlip(j), size, smOrder, swapped);
    hide XorB, PackFrom, Effect, Add, Mask;
    var p := Position(j, smOrder);
    PackAdd(s, e, 0); PackAdd(s, e, 8); PackAdd(s, e, 16);
    CodeFlipPacked(j, size, smOrder, swapped);
    XorBZero(PackFrom(s, 0)); XorBZero(PackFrom(s, 8)); XorBZero(PackFrom(s, 16));
    XorBAssoc(read[j / 8], now[j / 8], Mask(j % 8));
  }

  /** Whatever bits flip, the decoder sees the sum of their effects. */
  lemma {:induction false} SyndromeOfFlips(buf: seq<Byte>, fs: seq<Flip>, smOrder: bool, swapped: bool)
    requires ValidBlock(buf) && ValidFlips(fs, |buf|)
    ensures var r := Received(buf, Ecc(buf, smOrder, swapped), fs);
      Difference(r.1, Ecc(r.0, smOrder, swapped), smOrder) == Packed(Total(fs, |buf|, smOrder, swapped))
  {
    var code := Ecc(buf, smOrder, swapped);
    if fs == [] {
      NoneFlipped(code, smOrder);
    } else {
      var before, f := fs[..|fs| - 1], fs[|fs| - 1];
      assert ValidFlip(f, |buf|);
      SyndromeOfFlips(buf, before, smOrder, swapped);
      var r := Received(buf, code, before);
      var s := Total(before, |buf|, smOrder, swapped);
      hide Difference, Ecc, Packed, Effect, Add, FlipBit, FlipCode;
      match f
      case DataFlip(a) => DataFlipAdds(r.0, a, r.1, smOrder, swapped, s);
      case CodeFlip(j) => CodeFlipAdds(r.1, j, Ecc(r.0, smOrder, swapped), |buf|, smOrder, swapped, s);
    }
  }

  lemma NoneFlipped(code: seq<Byte>, smOrder: bool)
    requires |code| == 3
    ensures Difference(code, code, smOrder) == Packed(seq(24, _ => false))
  {
    XorBZero(code[0]); XorBZero(code[1]); XorBZero(code[2]);
    PackIsZero(seq(8, _ => false));
    assert seq(24, _ => false)[0..8] == seq(24, _ => false)[8..16] == seq(24, _ => false)[16..24] == seq(8, _ => false);
    hide XorB, Pack;
  }

  // Reading an address back from its pairs.

  /** The data bit the decoder points at: under the wrong byte order the byte is mirrored in its word. */
  function PointedAt(a: nat, swapped: bool): (b: nat) {
    if swapped then 8 * (4 * (a / 32) + 3 - a / 8 % 4) + a % 8 else a
  }

  lemma PointedAtBits(a: nat, swapped: bool, m: nat)
    ensures IndexBit(PointedAt(a, swapped), m) == (IndexBit(a, m) != (swapped && (m == 3 || m == 4)))
  {
    if swapped {
      var q, j := a / 8, a / 32;
      var c, r := q % 4, a % 8;
      assert a == 8 * (4 * j + c) + r && PointedAt(a, swapped) == 8 * (4 * j + (3 - c)) + r;
      MirrorBits(j, c, r, m);
    }
  }

  lemma MirrorBits(j: nat, c: nat, r: nat, m: nat)
    requires c < 4 && r < 8
    ensures IndexBit(8 * (4 * j + (3 - c)) + r, m) == (IndexBit(8 * (4 * j + c) + r, m) != (m == 3 || m == 4))
  {
    hide IndexBit;
    if m < 3 {
      IndexBitInByte(4 * j + c, r, m); IndexBitInByte(4 * j + (3 - c), r, m);
    } else {
      IndexBitOfByte(4 * j + c, r, m - 3); IndexBitOfByte(4 * j + (3 - c), r, m - 3);
      var k := if m < 5 then 0 else m - 5;
      IndexBitOfWord(j, c, k); IndexBitOfWord(j, 3 - c, k);
    }
  }

  lemma PointedAtInside(a: nat, swapped: bool, size: nat)
    requires (size == 256 || size == 512) && a < 8 * size
    ensures PointedAt(a, swapped) < 8 * size
    ensures swapped ==> PointedAt(a, swapped) != a
  {
  }

  lemma RowInBits(i: nat)
    requires i < 512
    ensures i == (BitValue(i, 0) + 2 * BitValue(i, 1) + 4 * BitValue(i, 2) + 8 * BitValue(i, 3))
                 + 16 * (BitValue(i, 4) + 2 * BitValue(i, 5) + 4 * BitValue(i, 6) + 8 * BitValue(i, 7))
                 + 256 * BitValue(i, 8)
    ensures i < 256 ==> BitValue(i, 8) == 0
  {
    hide BitValue, IndexBit;
    var q := Binary4(i);
    var t := Binary4(q);
    BitZero(t);
    assert BitValue(q, 0) == BitValue(i, 4) && BitValue(q, 1) == BitValue(i, 5);
    assert BitValue(q, 2) == BitValue(i, 6) && BitValue(q, 3) == BitValue(i, 7);
    assert BitValue(t, 0) == BitValue(q, 4) == BitValue(i, 8);
    assert t % 2 == t;
  }

  lemma AddressInBits(a: nat)
    requires a < 4096
    ensures a == 8 * ((BitValue(a, 3) + 2 * BitValue(a, 4) + 4 * BitValue(a, 5) + 8 * BitValue(a, 6))
                      + 16 * (BitValue(a, 7) + 2 * BitValue(a, 8) + 4 * BitValue(a, 9) + 8 * BitValue(a, 10))
                      + 256 * BitValue(a, 11))
                 + BitValue(a, 0) + 2 * BitValue(a, 1) + 4 * BitValue(a, 2)
    ensures a < 2048 ==> BitValue(a, 11) == 0
  {
    hide BitValue, IndexBit;
    var r, i := a % 8, a / 8;
    assert a == 8 * i + r;
    ByteInBits(r);
    RowInBits(i);
    IndexBitInByte(i, r, 0); IndexBitInByte(i, r, 1); IndexBitInByte(i, r, 2);
    IndexBitOfByte(i, r, 0); IndexBitOfByte(i, r, 1); IndexBitOfByte(i, r, 2); IndexBitOfByte(i, r, 3);
    IndexBitOfByte(i, r, 4); IndexBitOfByte(i, r, 5); IndexBitOfByte(i, r, 6); IndexBitOfByte(i, r, 7);
    IndexBitOfByte(i, r, 8);
  }

  lemma ByteInBits(r: nat)
    requires r < 8
    ensures r == BitValue(r, 0) + 2 * BitValue(r, 1) + 4 * BitValue(r, 2)
  {
    assert r in {0, 1, 2, 3, 4, 5, 6, 7};
  }

  /** The upper bit of pair `t` is the address bit of `a` it stands for. */
  predicate Says(s: Syndrome, t: nat, a: nat)
    requires t < 12
  {
    s[2 * t + 1] == IndexBit(a, AddressBitOf(t))
  }

  lemma WeighSaid(s: Syndrome, a: nat, t: nat)
    requires t == 0 || t == 4
    requires Says(s, t, a) && Says(s, t + 1, a) && Says(s, t + 2, a) && Says(s, t + 3, a)
    ensures Weigh(s[2 * t + 1], s[2 * t + 3], s[2 * t + 5], s[2 * t + 7])
            == BitValue(a, t + 3) + 2 * BitValue(a, t + 4) + 4 * BitValue(a, t + 5) + 8 * BitValue(a, t + 6)
  {
    hide IndexBit;
  }

  lemma ColumnSaid(s: Syndrome, a: nat)
    requires Says(s, 9, a) && Says(s, 10, a) && Says(s, 11, a)
    ensures BitIndex(s) == BitValue(a, 0) + 2 * BitValue(a, 1) + 4 * BitValue(a, 2)
  {
    hide IndexBit;
  }

  lemma AddressFromPairs(s: Syndrome, a: nat, size: nat)
    requires (size == 256 || size == 512) && a < 8 * size
    requires forall t :: 0 <= t < 12 && Used(t, size) ==> Says(s, t, a)
    ensures 8 * ByteIndex(s, size) + BitIndex(s) == a
  {
    hide IndexBit, BitValue, Weigh, Says, BitIndex, AddressBitOf;
    AddressInBits(a);
    assert Says(s, 0, a) && Says(s, 1, a) && Says(s, 2, a) && Says(s, 3, a);
    WeighSaid(s, a, 0);
    assert Says(s, 4, a) && Says(s, 5, a) && Says(s, 6, a) && Says(s, 7, a);
    WeighSaid(s, a, 4);
    ColumnSaid(s, a);
    TopSaid(s, a, size);
  }

  lemma TopSaid(s: Syndrome, a: nat, size: nat)
    requires size == 512 ==> Says(s, 8, a)
    ensures size == 512 ==> BitValue(a, 11) == if s[17] then 1 else 0
  {
    hide IndexBit;
  }
}
