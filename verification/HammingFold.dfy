// From exclusive-ors of whole words down to parities of single address bits.
module HammingFold {
  import opened Bits
  import opened HammingCode

  /** The 32-bit value of four consecutive bytes on a host of the given byte order. */
  function WordOf(b0: Byte, b1: Byte, b2: Byte, b3: Byte, bigHost: bool): Word {
    if bigHost
    then Word((b0 as bv32 << 24) | (b1 as bv32 << 16) | (b2 as bv32 << 8) | b3 as bv32)
    else Word((b3 as bv32 << 24) | (b2 as bv32 << 16) | (b1 as bv32 << 8) | b0 as bv32)
  }

  function Xor(a: Word, b: Word): Word { Word(a.bits ^ b.bits) }

  // Exclusive-or of the first n elements.

  function XorWords(ws: seq<Word>, n: nat): Word
    requires n <= |ws|
  {
    if n == 0 then Word(0) else Xor(XorWords(ws, n - 1), ws[n - 1])
  }

  function XorBytes(bs: seq<Byte>, n: nat): Byte
    requires n <= |bs|
  {
    if n == 0 then 0 else XorB(XorBytes(bs, n - 1), bs[n - 1])
  }

  // The shifts and masks that bring a word down to one byte.

  function FoldBits(w: bv32): Byte {
    var x := w ^ (w >> 16);
    var y := x ^ (x >> 8);
    (y & 0xff) as Byte
  }

  function Fold(w: Word): Byte { FoldBits(w.bits) }

  function UpperHalf(w: Word): Byte {
    var w := w.bits;
    var x := w >> 16;
    var y := x ^ (x >> 8);
    (y & 0xff) as Byte
  }

  function LowerHalf(w: Word): Byte {
    var w := w.bits;
    var x := w & 0xffff;
    var y := x ^ (x >> 8);
    (y & 0xff) as Byte
  }

  function OddLanes(w: Word): Byte {
    var w := w.bits;
    var x := w ^ (w >> 16);
    ((x >> 8) & 0xff) as Byte
  }

  function EvenLanes(w: Word): Byte {
    var w := w.bits;
    var x := w ^ (w >> 16);
    (x & 0xff) as Byte
  }

  lemma FoldBitsLinear(a: bv32, b: bv32)
    ensures FoldBits(a ^ b) == FoldBits(a) ^ FoldBits(b)
  {
  }

  lemma FoldBitsXor(a: bv32, b: bv32, c: bv32, fa: Byte, fb: Byte, fc: Byte)
    requires c == a ^ b && fa == FoldBits(a) && fb == FoldBits(b) && fc == FoldBits(c)
    ensures fc == XorB(fa, fb)
  {
    hide FoldBits;
    FoldBitsLinear(a, b);
  }

  lemma FoldLinear(a: Word, b: Word)
    ensures Fold(Xor(a, b)) == XorB(Fold(a), Fold(b))
  {
    hide FoldBits, XorB;
    FoldBitsXor(a.bits, b.bits, Xor(a, b).bits, Fold(a), Fold(b), Fold(Xor(a, b)));
  }

  lemma XorAssoc(a: Word, b: Word, c: Word)
    ensures Xor(Xor(a, b), c) == Xor(a, Xor(b, c))
  {
  }

  lemma XorZero(a: Word)
    ensures Xor(a, Word(0)) == a == Xor(Word(0), a)
  {
  }

  // The other four folds are Fold of one half or of two of the lanes.

  function Keep(w: Word, mask: bv32): Word { Word(w.bits & mask) }

  lemma UpperHalfIsFold(w: Word)
    ensures UpperHalf(w) == Fold(Keep(w, 0xffff0000))
  {
  }

  lemma LowerHalfIsFold(w: Word)
    ensures LowerHalf(w) == Fold(Keep(w, 0x0000ffff))
  {
  }

  lemma OddLanesIsFold(w: Word)
    ensures OddLanes(w) == Fold(Keep(w, 0xff00ff00))
  {
  }

  lemma EvenLanesIsFold(w: Word)
    ensures EvenLanes(w) == Fold(Keep(w, 0x00ff00ff))
  {
  }

  // Which of the four bytes each fold keeps, in either byte order.

  lemma FoldOfBytes(b0: Byte, b1: Byte, b2: Byte, b3: Byte, big: bool)
    ensures Fold(WordOf(b0, b1, b2, b3, big)) == b0 ^ b1 ^ b2 ^ b3
  {
  }

  lemma HalvesOfBytes(b0: Byte, b1: Byte, b2: Byte, b3: Byte, big: bool)
    ensures Fold(Keep(WordOf(b0, b1, b2, b3, big), 0xffff0000)) == (if big then b0 ^ b1 else b2 ^ b3)
    ensures Fold(Keep(WordOf(b0, b1, b2, b3, big), 0x0000ffff)) == (if big then b2 ^ b3 else b0 ^ b1)
  {
  }

  lemma LanesOfBytes(b0: Byte, b1: Byte, b2: Byte, b3: Byte, big: bool)
    ensures Fold(Keep(WordOf(b0, b1, b2, b3, big), 0xff00ff00)) == (if big then b0 ^ b2 else b1 ^ b3)
    ensures Fold(Keep(WordOf(b0, b1, b2, b3, big), 0x00ff00ff)) == (if big then b1 ^ b3 else b0 ^ b2)
  {
  }

  function Four(bs: seq<Byte>, j: nat): Byte
    requires 4 * j + 4 <= |bs|
  {
    bs[4 * j] ^ bs[4 * j + 1] ^ bs[4 * j + 2] ^ bs[4 * j + 3]
  }

  lemma XorOne(bs: seq<Byte>, i: nat)
    requires i < |bs|
    ensures XorBytes(bs, i + 1) == XorB(XorBytes(bs, i), bs[i])
  {
    hide XorB;
  }

  lemma XorWord(ws: seq<Word>, j: nat)
    requires j < |ws|
    ensures XorWords(ws, j + 1) == Xor(XorWords(ws, j), ws[j])
  {
    hide Xor;
  }

  lemma FoldOfZero(ws: seq<Word>, bs: seq<Byte>)
    ensures XorWords(ws, 0) == Word(0) && XorBytes(bs, 0) == 0
    ensures Fold(Word(0)) == 0
  {
  }

  lemma ByteChain(x0: Byte, x1: Byte, x2: Byte, x3: Byte, x4: Byte, a: Byte, b: Byte, c: Byte, d: Byte)
    requires x1 == XorB(x0, a) && x2 == XorB(x1, b) && x3 == XorB(x2, c) && x4 == XorB(x3, d)
    ensures x4 == XorB(x0, a ^ b ^ c ^ d)
  {
  }

  lemma XorFour(bs: seq<Byte>, j: nat)
    requires 4 * j + 4 <= |bs|
    ensures XorBytes(bs, 4 * j + 4) == XorB(XorBytes(bs, 4 * j), Four(bs, j))
  {
    hide XorB, XorBytes;
    var i := 4 * j;
    XorOne(bs, i); XorOne(bs, i + 1); XorOne(bs, i + 2); XorOne(bs, i + 3);
    ByteChain(XorBytes(bs, i), XorBytes(bs, i + 1), XorBytes(bs, i + 2), XorBytes(bs, i + 3), XorBytes(bs, i + 4),
              bs[i], bs[i + 1], bs[i + 2], bs[i + 3]);
  }

  /** Accumulating four bytes at a time, or one at a time. */
  lemma {:induction false} XorOfFours(fs: seq<Byte>, bs: seq<Byte>, n: nat)
    requires n <= |fs| && 4 * n <= |bs|
    requires forall j :: 0 <= j < n ==> fs[j] == Four(bs, j)
    ensures XorBytes(fs, n) == XorBytes(bs, 4 * n)
  {
    hide Four, XorB;
    if n > 0 {
      XorOfFours(fs, bs, n - 1);
      XorFour(bs, n - 1);
    }
  }

  lemma FoldStep(x: Word, x': Word, w: Word, y: Byte, y': Byte, b: Byte)
    requires x' == Xor(x, w) && y' == XorB(y, b)
    requires Fold(x) == y && Fold(w) == b
    ensures Fold(x') == y'
  {
    hide Fold;
    FoldLinear(x, w);
  }

  /** Folding an accumulation of words accumulates the folded words. */
  lemma {:induction false} FoldOfWords(ws: seq<Word>, fs: seq<Byte>, n: nat)
    requires n <= |ws| && n <= |fs|
    requires forall j :: 0 <= j < n ==> fs[j] == Fold(ws[j])
    ensures Fold(XorWords(ws, n)) == XorBytes(fs, n)
  {
    hide Fold, XorWords, XorBytes, Xor, XorB;
    if n == 0 {
      FoldOfZero(ws, fs);
    } else {
      var j := n - 1;
      FoldOfWords(ws, fs, j);
      XorWord(ws, j); XorOne(fs, j);
      FoldStep(XorWords(ws, j), XorWords(ws, n), ws[j], XorBytes(fs, j), XorBytes(fs, n), fs[j]);
    }
  }

  lemma KeepXor(x: Word, w: Word, mask: bv32)
    ensures Keep(Xor(x, w), mask) == Xor(Keep(x, mask), Keep(w, mask))
  {
  }

  /** Masking an accumulation of words accumulates the masked words. */
  lemma {:induction false} KeepOfWords(ws: seq<Word>, ms: seq<Word>, mask: bv32, n: nat)
    requires n <= |ws| && n <= |ms|
    requires forall j :: 0 <= j < n ==> ms[j] == Keep(ws[j], mask)
    ensures Keep(XorWords(ws, n), mask) == XorWords(ms, n)
  {
    if n == 0 {
      assert Keep(Word(0), mask) == Word(0);
    } else {
      hide XorWords, Keep, Xor;
      var j := n - 1;
      KeepOfWords(ws, ms, mask, j);
      XorWord(ws, j); XorWord(ms, j);
      KeepXor(XorWords(ws, j), ws[j], mask);
    }
  }

  function Masked(b: Byte, mask: Byte): Byte { b & mask }

  lemma MaskedStep(x: Byte, x': Byte, b: Byte, y: Byte, y': Byte, a: Byte, mask: Byte)
    requires x' == XorB(x, b) && y' == XorB(y, a)
    requires y == Masked(x, mask) && a == Masked(b, mask)
    ensures y' == Masked(x', mask)
  {
    AndOfXor(x, b, mask);
  }

  lemma {:induction false} XorOfMasked(a: seq<Byte>, b: seq<Byte>, mask: Byte, n: nat)
    requires n <= |a| && n <= |b|
    requires forall i :: 0 <= i < n ==> a[i] == Masked(b[i], mask)
    ensures XorBytes(a, n) == Masked(XorBytes(b, n), mask)
  {
    if n == 0 {
      assert (0 as Byte) & mask == 0;
    } else {
      hide Masked, XorBytes, XorB;
      var i := n - 1;
      XorOfMasked(a, b, mask, i);
      XorOne(a, i); XorOne(b, i);
      MaskedStep(XorBytes(b, i), XorBytes(b, n), b[i], XorBytes(a, i), XorBytes(a, n), a[i], mask);
    }
  }

  // From bytes to counted bits.

  lemma CountOne(buf: seq<Byte>, sel: seq<bool>, i: nat, j: nat)
    requires i < |buf| && j < 8 && 8 * i + j < |sel|
    ensures CountBits(buf, sel, 8 * i + j + 1)
        == CountBits(buf, sel, 8 * i + j) + Num(sel[8 * i + j] && Bit(buf[i], j))
  {
    assert (8 * i + j) / 8 == i && (8 * i + j) % 8 == j;
  }

  lemma CountByte(buf: seq<Byte>, sel: seq<bool>, b: Byte, i: nat)
    requires i < |buf| && 8 * i + 8 <= |sel|
    requires forall j :: 0 <= j < 8 ==> Bit(b, j) == (sel[8 * i + j] && Bit(buf[i], j))
    ensures CountBits(buf, sel, 8 * i + 8) == CountBits(buf, sel, 8 * i) + Ones(b)
  {
    hide Bit, CountBits;
    CountOne(buf, sel, i, 0); CountOne(buf, sel, i, 1); CountOne(buf, sel, i, 2); CountOne(buf, sel, i, 3);
    CountOne(buf, sel, i, 4); CountOne(buf, sel, i, 5); CountOne(buf, sel, i, 6); CountOne(buf, sel, i, 7);
  }

  lemma OddZero()
    ensures !Odd(0)
  {
  }

  lemma OddOnes(b: Byte)
    ensures Odd(b) == (Ones(b) % 2 == 1)
  {
  }

  lemma CountNone(buf: seq<Byte>, sel: seq<bool>)
    ensures CountBits(buf, sel, 0) == 0
  {
  }

  /** The parity of the exclusive-or of bytes holding only the selected bits is the parity
      of the number of selected set bits. */
  lemma {:induction false} ParityOfBytes(buf: seq<Byte>, sel: seq<bool>, bs: seq<Byte>, n: nat)
    requires n <= |buf| && n <= |bs| && 8 * n <= |sel|
    requires forall i, j :: 0 <= i < n && 0 <= j < 8 ==> Bit(bs[i], j) == (sel[8 * i + j] && Bit(buf[i], j))
    ensures Odd(XorBytes(bs, n)) == (CountBits(buf, sel, 8 * n) % 2 == 1)
  {
    hide Bit, Odd, Ones, CountBits;
    if n > 0 {
      var i := n - 1;
      ParityOfBytes(buf, sel, bs, i);
      CountByte(buf, sel, bs[i], i);
      OddLinear(XorBytes(bs, i), bs[i]);
      OddOnes(bs[i]);
    } else {
      OddZero(); CountNone(buf, sel);
    }
  }
}
