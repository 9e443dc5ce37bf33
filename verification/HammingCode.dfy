// The Hamming code in its plain form: one parity per address bit and value, each
// counted over the data bits of the block.
module HammingCode {
  import opened Bits

  // The address of a data bit is 8 * (index of its byte) + (its position in the byte):
  // address bits 0..2 are the bit position, address bits 3..11 the byte index.

  predicate DataBit(buf: seq<Byte>, a: nat)
    requires a < 8 * |buf|
  {
    Bit(buf[a / 8], a % 8)
  }

  /** The addresses below `n` whose bit `m` is `v`. */
  function Selector(m: nat, v: bool, n: nat): (sel: seq<bool>)
    ensures |sel| == n
  {
    seq(n, (a: nat) => IndexBit(a, m) == v)
  }

  /** How many of the first `n` data bits are both set and selected. */
  function CountBits(buf: seq<Byte>, sel: seq<bool>, n: nat): nat
    requires n <= 8 * |buf| && n <= |sel|
  {
    if n == 0 then 0
    else CountBits(buf, sel, n - 1) + (if sel[n - 1] && DataBit(buf, n - 1) then 1 else 0)
  }

  /** The parity of the set data bits whose address has bit `m` equal to `v`. */
  predicate OddParity(buf: seq<Byte>, m: nat, v: bool) {
    CountBits(buf, Selector(m, v, 8 * |buf|), 8 * |buf|) % 2 == 1
  }

  /** Eight bits, the lowest first, as a byte. */
  function Pack(s: seq<bool>): Byte
    requires |s| == 8
  {
    (if s[0] then 0x01 else 0) | (if s[1] then 0x02 else 0) | (if s[2] then 0x04 else 0) | (if s[3] then 0x08 else 0) |
    (if s[4] then 0x10 else 0) | (if s[5] then 0x20 else 0) | (if s[6] then 0x40 else 0) | (if s[7] then 0x80 else 0)
  }

  /** The code bit for value `v` of address bit `m`: the inverted parity. `swapped` says that the
      words were loaded in the byte order opposite to the configured one, which exchanges the two
      parities of each of the byte-in-word address bits 3 and 4. */
  predicate CodeBit(buf: seq<Byte>, m: nat, v: bool, swapped: bool) {
    !OddParity(buf, m, if swapped && (m == 3 || m == 4) then !v else v)
  }

  /** rp0..rp7 (`m` = 3) or rp8..rp15 (`m` = 7). */
  function RowBits(buf: seq<Byte>, m: nat, swapped: bool): (s: seq<bool>)
    ensures |s| == 8
  {
    seq(8, (k: nat) => CodeBit(buf, m + k / 2, k % 2 == 1, swapped))
  }

  function RowByte(buf: seq<Byte>, m: nat, swapped: bool): Byte {
    Pack(RowBits(buf, m, swapped))
  }

  /** cp0..cp5 over rp16 and rp17; a 256-byte block has no rp16 and rp17 and stores ones. */
  function ColumnBits(buf: seq<Byte>): (s: seq<bool>)
    ensures |s| == 8
  {
    seq(8, (k: nat) =>
      if k < 2 then |buf| == 256 || CodeBit(buf, 11, k == 1, false)
      else CodeBit(buf, k / 2 - 1, k % 2 == 1, false))
  }

  function ColumnByte(buf: seq<Byte>): Byte {
    Pack(ColumnBits(buf))
  }

  function Order(low: Byte, high: Byte, column: Byte, smOrder: bool): (code: seq<Byte>)
    ensures |code| == 3
  {
    if smOrder then [low, high, column] else [high, low, column]
  }

  /** The code of a block, defined by its parities alone. */
  function Ecc(buf: seq<Byte>, smOrder: bool, swapped: bool): (code: seq<Byte>)
    ensures |code| == 3
  {
    Order(RowByte(buf, 3, swapped), RowByte(buf, 7, swapped), ColumnByte(buf), smOrder)
  }

  function FlipBit(buf: seq<Byte>, a: nat): (r: seq<Byte>)
    requires a < 8 * |buf|
    ensures |r| == |buf|
  {
    buf[a / 8 := buf[a / 8] ^ Mask(a % 8)]
  }

  lemma MaskBits(b: Byte, i: nat, j: nat)
    requires i < 8 && j < 8
    ensures Bit(b ^ Mask(i), j) == (Bit(b, j) != (i == j))
  {
    BitOfXor(b, Mask(i), j);
    assert Bit(Mask(i), j) == (i == j);
  }

  /** Flipping one data bit changes exactly that bit. */
  lemma FlipBitData(buf: seq<Byte>, a: nat, x: nat)
    requires a < 8 * |buf| && x < 8 * |buf|
    ensures DataBit(FlipBit(buf, a), x) == (DataBit(buf, x) != (a == x))
  {
    if a / 8 == x / 8 {
      MaskBits(buf[a / 8], a % 8, x % 8);
    }
  }

  lemma {:induction false} CountBitsFlip(buf: seq<Byte>, a: nat, sel: seq<bool>, n: nat)
    requires a < 8 * |buf| && n <= 8 * |buf| && n <= |sel|
    ensures (CountBits(FlipBit(buf, a), sel, n) % 2 == 1)
            == ((CountBits(buf, sel, n) % 2 == 1) != (a < n && sel[a]))
  {
    if n > 0 {
      CountBitsFlip(buf, a, sel, n - 1);
      FlipBitData(buf, a, n - 1);
    }
  }

  /** A flipped data bit toggles exactly the parities its address selects. */
  lemma ParityToggles(buf: seq<Byte>, a: nat, m: nat, v: bool)
    requires a < 8 * |buf|
    ensures OddParity(FlipBit(buf, a), m, v) == (OddParity(buf, m, v) != (IndexBit(a, m) == v))
  {
    CountBitsFlip(buf, a, Selector(m, v, 8 * |buf|), 8 * |buf|);
  }

  lemma FlipTwice(buf: seq<Byte>, a: nat)
    requires a < 8 * |buf|
    ensures FlipBit(FlipBit(buf, a), a) == buf
  {
    var x, m := buf[a / 8], Mask(a % 8);
    assert (x ^ m) ^ m == x;
  }
}
