// The difference between stored and recomputed code, read as twelve pairs of truth values.
module HammingSyndrome {
  import opened Bits
  import opened HammingCode
  import opened HammingTables
  import opened HammingCorrect

  /** The 24 bits of the difference: low rows, high rows, columns. */
  type Syndrome = s: seq<bool> | |s| == 24 witness seq(24, _ => false)

  function PackFrom(s: Syndrome, i: nat): Byte
    requires i <= 16
  {
    Pack(s[i..i + 8])
  }

  function Packed(s: Syndrome): (Byte, Byte, Byte) {
    (PackFrom(s, 0), PackFrom(s, 8), PackFrom(s, 16))
  }

  /** Pair `t` of a syndrome belongs to this address bit. */
  function AddressBitOf(t: nat): nat {
    if t < 8 then t + 3 else if t == 8 then 11 else t - 9
  }

  /** A 256-byte block has no pair for the ninth bit of the byte index. */
  predicate Used(t: nat, size: nat) {
    t < 12 && (size == 256 ==> t != 8)
  }

  predicate PairAt(s: Syndrome, t: nat)
    requires t < 12
  {
    s[2 * t] != s[2 * t + 1]
  }

  predicate AllPaired(s: Syndrome, size: nat) {
    forall t :: 0 <= t < 12 && Used(t, size) ==> PairAt(s, t)
  }

  /** How many of the first `n` bits are set. */
  function CountTrue(s: seq<bool>, n: nat): nat
    requires n <= |s|
  {
    if n == 0 then 0 else CountTrue(s, n - 1) + Num(s[n - 1])
  }

  function ByteIndex(s: Syndrome, size: nat): (i: nat)
    requires size == 256 || size == 512
    ensures i < size
  {
    Together(Weigh(s[1], s[3], s[5], s[7]), Weigh(s[9], s[11], s[13], s[15]), size == 512 && s[17])
  }

  function Together(low: nat, high: nat, top: bool): (i: nat)
    requires low < 16 && high < 16
    ensures i < 512 && (!top ==> i < 256)
  {
    low + 16 * high + (if top then 256 else 0)
  }

  function BitIndex(s: Syndrome): (j: nat)
    ensures j < 8
  {
    Weigh(s[19], s[21], s[23], false)
  }

  /** The decision of the decoder, stated on the pairs. */
  function Judge(buf: seq<Byte>, s: Syndrome): (Verdict, seq<Byte>)
    requires ValidBlock(buf)
  {
    if s == seq(24, _ => false) then (Clean, buf)
    else if AllPaired(s, |buf|) then (Corrected, FlipBit(buf, 8 * ByteIndex(s, |buf|) + BitIndex(s)))
    else if CountTrue(s, 24) == 1 then (Corrected, buf)
    else (Uncorrectable, buf)
  }

  // Bit tricks and table look-ups on a packed byte.

  lemma PackIsZero(s: seq<bool>)
    requires |s| == 8
    ensures Pack(s) == 0 <==> forall k :: 0 <= k < 8 ==> !s[k]
  {
    PackBits(s);
    BitsOfZero();
    if forall k :: 0 <= k < 8 ==> !s[k] {
      SameBits(Pack(s), 0);
    } else {
      var k :| 0 <= k < 8 && s[k];
      assert Bit(Pack(s), k);
    }
  }

  lemma BitsOfZero()
    ensures forall k :: 0 <= k < 8 ==> !Bit(0, k)
  {
  }

  lemma SameBits(a: Byte, b: Byte)
    requires forall k :: 0 <= k < 8 ==> Bit(a, k) == Bit(b, k)
    ensures a == b
  {
    assert Bit(a, 0) == Bit(b, 0) && Bit(a, 1) == Bit(b, 1) && Bit(a, 2) == Bit(b, 2) && Bit(a, 3) == Bit(b, 3);
    assert Bit(a, 4) == Bit(b, 4) && Bit(a, 5) == Bit(b, 5) && Bit(a, 6) == Bit(b, 6) && Bit(a, 7) == Bit(b, 7);
  }

  lemma PackBits(s: seq<bool>)
    requires |s| == 8
    ensures forall k :: 0 <= k < 8 ==> Bit(Pack(s), k) == s[k]
  {
  }

  lemma PackPaired(s: seq<bool>)
    requires |s| == 8
    ensures Paired(Pack(s), 0x55) == (s[0] != s[1] && s[2] != s[3] && s[4] != s[5] && s[6] != s[7])
    ensures Paired(Pack(s), 0x54) == (s[2] != s[3] && s[4] != s[5] && s[6] != s[7])
  {
  }

  lemma PackParts(s: seq<bool>)
    requires |s| == 8
    ensures Pack(s) & 0x3 == Pack([s[0], s[1], false, false, false, false, false, false])
    ensures Pack(s) >> 2 == Pack([s[2], s[3], s[4], s[5], s[6], s[7], false, false])
  {
  }

  lemma BitOfXorB(a: Byte, b: Byte, k: nat)
    requires k < 8
    ensures Bit(XorB(a, b), k) == (Bit(a, k) != Bit(b, k))
  {
    BitOfXor(a, b, k);
  }

  lemma PackXor(s: seq<bool>, t: seq<bool>, r: seq<bool>)
    requires |s| == |t| == |r| == 8
    requires forall k :: 0 <= k < 8 ==> r[k] == (s[k] != t[k])
    ensures XorB(Pack(s), Pack(t)) == Pack(r)
  {
    hide Bit, Pack, XorB;
    PackBits(s); PackBits(t); PackBits(r);
    forall k | 0 <= k < 8
      ensures Bit(XorB(Pack(s), Pack(t)), k) == Bit(Pack(r), k)
    {
      BitOfXorB(Pack(s), Pack(t), k);
    }
    SameBits(XorB(Pack(s), Pack(t)), Pack(r));
  }

  lemma OnesOfPack(s: seq<bool>)
    requires |s| == 8
    ensures Ones(Pack(s)) == Num(s[0]) + Num(s[1]) + Num(s[2]) + Num(s[3])
                             + Num(s[4]) + Num(s[5]) + Num(s[6]) + Num(s[7])
  {
    PackBits(s);
    hide Bit, Pack;
  }

  lemma CountOne(s: seq<bool>, n: nat)
    requires n < |s|
    ensures CountTrue(s, n + 1) == CountTrue(s, n) + Num(s[n])
    ensures CountTrue(s, 0) == 0
  {
    hide Num;
  }

  lemma CountEight(s: Syndrome, i: nat)
    requires i <= 16
    ensures CountTrue(s, i + 8) == CountTrue(s, i) + Ones(PackFrom(s, i))
    ensures CountTrue(s, 0) == 0
  {
    hide Ones, Pack, CountTrue, Num;
    var t := s[i..i + 8];
    OnesOfPack(t);
    CountOne(s, i); CountOne(s, i + 1); CountOne(s, i + 2); CountOne(s, i + 3);
    CountOne(s, i + 4); CountOne(s, i + 5); CountOne(s, i + 6); CountOne(s, i + 7);
    assert t[0] == s[i] && t[1] == s[i + 1] && t[2] == s[i + 2] && t[3] == s[i + 3];
    assert t[4] == s[i + 4] && t[5] == s[i + 5] && t[6] == s[i + 6] && t[7] == s[i + 7];
  }

  lemma CountsOfBytes(s: Syndrome)
    ensures CountTrue(s, 24) == Ones(PackFrom(s, 0)) + Ones(PackFrom(s, 8)) + Ones(PackFrom(s, 16))
  {
    hide Ones, PackFrom, CountTrue;
    CountEight(s, 0); CountEight(s, 8); CountEight(s, 16);
  }

  lemma ZeroOfBytes(s: Syndrome)
    ensures NoDifference(Packed(s)) <==> s == seq(24, _ => false)
  {
    var (b0, b1, b2) := Packed(s);
    OrIsZero(b0, b1, b2);
    PackIsZero(s[0..8]); PackIsZero(s[8..16]); PackIsZero(s[16..24]);
    hide Pack, NoDifference;
    if NoDifference(Packed(s)) {
      assert s == seq(24, _ => false);
    }
  }

  lemma OrIsZero(b0: Byte, b1: Byte, b2: Byte)
    ensures NoDifference((b0, b1, b2)) <==> b0 == 0 && b1 == 0 && b2 == 0
  {
  }

  lemma PairsOfByte(s: Syndrome, t: nat)
    requires t == 0 || t == 4 || t == 8
    ensures Paired(PackFrom(s, 2 * t), 0x55) <==>
      PairAt(s, t) && PairAt(s, t + 1) && PairAt(s, t + 2) && PairAt(s, t + 3)
    ensures Paired(PackFrom(s, 2 * t), 0x54) <==> PairAt(s, t + 1) && PairAt(s, t + 2) && PairAt(s, t + 3)
  {
    var i := 2 * t;
    PackPaired(s[i..i + 8]);
    hide Pack, Paired;
  }

  lemma PairsOfBytes(s: Syndrome, size: nat)
    ensures AllPaired(s, size) <==>
      var (b0, b1, b2) := Packed(s);
      Paired(b0, 0x55) && Paired(b1, 0x55) && Paired(b2, if size == 256 then 0x54 else 0x55)
  {
    PairsOfByte(s, 0); PairsOfByte(s, 4); PairsOfByte(s, 8);
    hide PackFrom, Paired, PairAt;
    if AllPaired(s, size) {
      assert PairAt(s, 0) && PairAt(s, 1) && PairAt(s, 2) && PairAt(s, 3) && PairAt(s, 4) && PairAt(s, 5);
      assert PairAt(s, 6) && PairAt(s, 7) && PairAt(s, 9) && PairAt(s, 10) && PairAt(s, 11);
      assert size != 256 ==> PairAt(s, 8);
    } else {
      var t :| 0 <= t < 12 && Used(t, size) && !PairAt(s, t);
    }
  }

  lemma RowAddress(s: Syndrome, i: nat)
    requires i <= 8
    ensures AddressBits(PackFrom(s, i)) == Weigh(s[i + 1], s[i + 3], s[i + 5], s[i + 7])
  {
    PackBits(s[i..i + 8]);
    hide Pack, Bit;
  }

  lemma ColumnAddress(s: Syndrome)
    ensures AddressBits(PackFrom(s, 16) & 0x3) == (if s[17] then 1 else 0)
    ensures AddressBits(PackFrom(s, 16) >> 2) == Weigh(s[19], s[21], s[23], false)
  {
    PackParts(s[16..24]);
    PackBits([s[16], s[17], false, false, false, false, false, false]);
    PackBits([s[18], s[19], s[20], s[21], s[22], s[23], false, false]);
    hide Pack, Bit;
  }

  lemma AddressOfBytes(s: Syndrome, size: nat)
    requires size == 256 || size == 512
    ensures ByteAddress(size, Packed(s)) == ByteIndex(s, size)
    ensures BitAddress(Packed(s)) == BitIndex(s)
  {
    hide PackFrom, AddressBits, Weigh;
    RowAddress(s, 0); RowAddress(s, 8); ColumnAddress(s);
  }

  /** The decoder works on the packed bytes exactly as Judge does on the pairs. */
  lemma DecodeIsJudge(buf: seq<Byte>, readEcc: seq<Byte>, calcEcc: seq<Byte>, smOrder: bool, s: Syndrome)
    requires ValidBlock(buf) && |readEcc| == 3 && |calcEcc| == 3
    requires Difference(readEcc, calcEcc, smOrder) == Packed(s)
    ensures Decode(buf, readEcc, calcEcc, smOrder) == Judge(buf, s)
  {
    hide Difference, Packed, NoDifference, Paired, ByteAddress, BitAddress, ByteIndex, BitIndex, AllPaired, FlipBit;
    ZeroOfBytes(s);
    PairsOfBytes(s, |buf|);
    AddressOfBytes(s, |buf|);
    CountsOfPacked(s);
  }

  lemma CountsOfPacked(s: Syndrome)
    ensures var (b0, b1, b2) := Packed(s); CountTrue(s, 24) == BitsPerByte(b0) + BitsPerByte(b1) + BitsPerByte(b2)
  {
    hide Pack, Ones;
    CountsOfBytes(s);
  }
}
