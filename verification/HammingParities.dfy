// What the accumulated words of a whole block say about the parities of the plain code.
module HammingParities {
  import opened Bits
  import opened HammingCode
  import opened HammingFold

  predicate WholeWords(buf: seq<Byte>) { |buf| % 4 == 0 }

  function Load(buf: seq<Byte>, j: nat, big: bool): Word
    requires 4 * j + 4 <= |buf|
  {
    WordOf(buf[4 * j], buf[4 * j + 1], buf[4 * j + 2], buf[4 * j + 3], big)
  }

  /** The words of a block as a host of the given byte order loads them. */
  function Words(buf: seq<Byte>, big: bool): (ws: seq<Word>)
    requires WholeWords(buf)
    ensures |ws| == |buf| / 4
  {
    seq(|buf| / 4, (j: nat) requires j < |buf| / 4 => Load(buf, j, big))
  }

  /** The words whose index has bit `k` clear, the others replaced by zero. */
  function ClearWords(buf: seq<Byte>, big: bool, k: nat): (ws: seq<Word>)
    requires WholeWords(buf)
    ensures |ws| == |buf| / 4
  {
    seq(|buf| / 4, (j: nat) requires j < |buf| / 4 => if IndexBit(j, k) then Word(0) else Load(buf, j, big))
  }

  function Accumulated(ws: seq<Word>): Word {
    XorWords(ws, |ws|)
  }

  function FoldEach(ws: seq<Word>): (fs: seq<Byte>)
    ensures |fs| == |ws|
  {
    seq(|ws|, (j: nat) requires j < |ws| => Fold(ws[j]))
  }

  function KeepEach(ws: seq<Word>, mask: bv32): (ms: seq<Word>)
    ensures |ms| == |ws|
  {
    seq(|ws|, (j: nat) requires j < |ws| => Keep(ws[j], mask))
  }

  function SelectedByte(b: Byte, selected: bool): Byte { if selected then b else 0 }

  lemma SelectedBits(b: Byte, selected: bool, j: nat)
    requires j < 8
    ensures Bit(SelectedByte(b, selected), j) == (selected && Bit(b, j))
  {
  }

  /** If the folded words hold exactly the bytes whose index has bit `k` equal to `v`, their
      parity is that of address bit `k` + 3. */
  lemma ParityOfRow(buf: seq<Byte>, ws: seq<Word>, k: nat, v: bool)
    requires WholeWords(buf) && |ws| == |buf| / 4
    requires forall j :: 0 <= j < |ws| ==>
      Fold(ws[j]) == SelectedByte(buf[4 * j], IndexBit(4 * j, k) == v)
                     ^ SelectedByte(buf[4 * j + 1], IndexBit(4 * j + 1, k) == v)
                     ^ SelectedByte(buf[4 * j + 2], IndexBit(4 * j + 2, k) == v)
                     ^ SelectedByte(buf[4 * j + 3], IndexBit(4 * j + 3, k) == v)
    ensures Odd(Fold(Accumulated(ws))) == OddParity(buf, k + 3, v)
  {
    hide IndexBit, Fold, SelectedByte, Odd, Bit, XorBytes, XorWords, CountBits;
    var bs := seq(|buf|, (i: nat) requires i < |buf| => SelectedByte(buf[i], IndexBit(i, k) == v));
    var fs := FoldEach(ws);
    FoldOfWords(ws, fs, |ws|);
    XorOfFours(fs, bs, |ws|);
    var sel := Selector(k + 3, v, 8 * |buf|);
    forall i, j | 0 <= i < |buf| && 0 <= j < 8
      ensures Bit(bs[i], j) == (sel[8 * i + j] && Bit(buf[i], j))
    {
      IndexBitOfByte(i, j, k);
      SelectedBits(buf[i], IndexBit(i, k) == v, j);
    }
    ParityOfBytes(buf, sel, bs, |buf|);
  }

  /** The rows of whole words: rp4, rp6, .. rp16. */
  lemma ParityOfClearWords(buf: seq<Byte>, big: bool, k: nat)
    requires WholeWords(buf)
    ensures Odd(Fold(Accumulated(ClearWords(buf, big, k)))) == OddParity(buf, k + 5, false)
  {
    hide Fold, Odd, OddParity, IndexBit;
    var ws := ClearWords(buf, big, k);
    forall j | 0 <= j < |ws|
      ensures Fold(ws[j]) == SelectedByte(buf[4 * j], IndexBit(4 * j, k + 2) == false)
                             ^ SelectedByte(buf[4 * j + 1], IndexBit(4 * j + 1, k + 2) == false)
                             ^ SelectedByte(buf[4 * j + 2], IndexBit(4 * j + 2, k + 2) == false)
                             ^ SelectedByte(buf[4 * j + 3], IndexBit(4 * j + 3, k + 2) == false)
    {
      IndexBitOfWord(j, 0, k); IndexBitOfWord(j, 1, k); IndexBitOfWord(j, 2, k); IndexBitOfWord(j, 3, k);
      FoldOfBytes(buf[4 * j], buf[4 * j + 1], buf[4 * j + 2], buf[4 * j + 3], big);
      FoldOfZero([], []);
    }
    ParityOfRow(buf, ws, k + 2, false);
  }

  function HalfMask(k: nat, upper: bool): bv32 {
    if k == 1 then (if upper then 0xffff0000 else 0x0000ffff)
    else (if upper then 0xff00ff00 else 0x00ff00ff)
  }

  lemma HalfOfBytes(b0: Byte, b1: Byte, b2: Byte, b3: Byte, big: bool, k: nat, upper: bool)
    requires k <= 1
    ensures Fold(Keep(WordOf(b0, b1, b2, b3, big), HalfMask(k, upper)))
            == SelectedByte(b0, upper == big) ^ SelectedByte(b1, (k == 0) == (upper != big))
               ^ SelectedByte(b2, (k == 1) == (upper != big)) ^ SelectedByte(b3, upper != big)
  {
    if k == 0 {
      LanesOfBytes(b0, b1, b2, b3, big);
    } else {
      HalvesOfBytes(b0, b1, b2, b3, big);
    }
  }

  /** The rows inside a word: which half (or which two lanes) of the accumulated words holds the
      bytes with index bit `k` set depends on the byte order of the host. */
  lemma ParityInWords(buf: seq<Byte>, big: bool, k: nat, upper: bool)
    requires WholeWords(buf) && k <= 1
    ensures Odd(Fold(Keep(Accumulated(Words(buf, big)), HalfMask(k, upper)))) == OddParity(buf, k + 3, upper != big)
  {
    hide Fold, Odd, OddParity, IndexBit, Keep, WordOf, XorWords, SelectedByte, HalfMask;
    var ws, mask, v := Words(buf, big), HalfMask(k, upper), upper != big;
    var ms := KeepEach(ws, mask);
    KeepOfWords(ws, ms, mask, |ws|);
    forall j | 0 <= j < |ms|
      ensures Fold(ms[j]) == SelectedByte(buf[4 * j], IndexBit(4 * j, k) == v)
                             ^ SelectedByte(buf[4 * j + 1], IndexBit(4 * j + 1, k) == v)
                             ^ SelectedByte(buf[4 * j + 2], IndexBit(4 * j + 2, k) == v)
                             ^ SelectedByte(buf[4 * j + 3], IndexBit(4 * j + 3, k) == v)
    {
      IndexBitOfWord(j, 0, 0); IndexBitOfWord(j, 1, 0); IndexBitOfWord(j, 2, 0); IndexBitOfWord(j, 3, 0);
      HalfOfBytes(buf[4 * j], buf[4 * j + 1], buf[4 * j + 2], buf[4 * j + 3], big, k, upper);
    }
    ParityOfRow(buf, ms, k, v);
  }

  function ColumnMask(m: nat, v: bool): Byte
    requires m < 3
  {
    match m
    case 0 => if v then 0xaa else 0x55
    case 1 => if v then 0xcc else 0x33
    case _ => if v then 0xf0 else 0x0f
  }

  lemma IndexBitOfColumn(i: nat, j: nat, m: nat, v: bool)
    requires j < 8 && m < 3
    ensures (IndexBit(8 * i + j, m) == v) == Bit(ColumnMask(m, v), j)
  {
    var a := 8 * i + j;
    assert a / 2 == 4 * i + j / 2 && a / 2 / 2 == 2 * i + j / 2 / 2;
    if m == 1 { Halve(a, 1); } else if m == 2 { Halve(a, 2); Halve(a / 2, 1); }
  }

  lemma MaskedBits(b: Byte, mask: Byte, j: nat)
    requires j < 8
    ensures Bit(Masked(b, mask), j) == (Bit(mask, j) && Bit(b, j))
  {
    OneBit(b, j); OneBit(mask, j);
    assert (b & mask) & Mask(j) == (b & Mask(j)) & (mask & Mask(j));
  }

  /** All bytes of the block, accumulated. */
  lemma FoldOfBlock(buf: seq<Byte>, big: bool)
    requires WholeWords(buf)
    ensures Fold(Accumulated(Words(buf, big))) == XorBytes(buf, |buf|)
  {
    hide Fold, XorBytes, XorWords;
    var ws := Words(buf, big);
    var fs := FoldEach(ws);
    FoldOfWords(ws, fs, |ws|);
    forall j | 0 <= j < |fs|
      ensures fs[j] == Four(buf, j)
    {
      FoldOfBytes(buf[4 * j], buf[4 * j + 1], buf[4 * j + 2], buf[4 * j + 3], big);
    }
    XorOfFours(fs, buf, |fs|);
  }

  /** The columns: cp0..cp5. */
  lemma ParityOfColumn(buf: seq<Byte>, big: bool, m: nat, v: bool)
    requires WholeWords(buf) && m < 3
    ensures Odd(Masked(Fold(Accumulated(Words(buf, big))), ColumnMask(m, v))) == OddParity(buf, m, v)
  {
    hide Fold, IndexBit, Odd, Bit, XorBytes, XorWords, CountBits, ColumnMask, Masked;
    FoldOfBlock(buf, big);
    var mask := ColumnMask(m, v);
    var bs := seq(|buf|, (i: nat) requires i < |buf| => Masked(buf[i], mask));
    XorOfMasked(bs, buf, mask, |buf|);
    var sel := Selector(m, v, 8 * |buf|);
    forall i, j | 0 <= i < |buf| && 0 <= j < 8
      ensures Bit(bs[i], j) == (sel[8 * i + j] && Bit(buf[i], j))
    {
      IndexBitOfColumn(i, j, m, v);
      MaskedBits(buf[i], mask, j);
    }
    ParityOfBytes(buf, sel, bs, |buf|);
  }

  lemma {:induction false} CountsAddUp(buf: seq<Byte>, s: seq<bool>, t: seq<bool>, all: seq<bool>, n: nat)
    requires n <= 8 * |buf| && n <= |s| && n <= |t| && n <= |all|
    requires forall a :: 0 <= a < n ==> s[a] != t[a] && all[a]
    ensures CountBits(buf, s, n) + CountBits(buf, t, n) == CountBits(buf, all, n)
  {
    if n > 0 {
      CountsAddUp(buf, s, t, all, n - 1);
    }
  }

  /** The odd-numbered rp of a pair is the parity of the whole block minus the even-numbered one. */
  lemma ParityOfComplement(buf: seq<Byte>, big: bool, m: nat)
    requires WholeWords(buf)
    ensures OddParity(buf, m, true) == (Odd(Fold(Accumulated(Words(buf, big)))) != OddParity(buf, m, false))
  {
    hide Fold, IndexBit, Odd, Bit, XorBytes, XorWords, CountBits;
    FoldOfBlock(buf, big);
    var all := seq(8 * |buf|, _ => true);
    ParityOfBytes(buf, all, buf, |buf|);
    CountsAddUp(buf, Selector(m, true, 8 * |buf|), Selector(m, false, 8 * |buf|), all, 8 * |buf|);
  }
}
