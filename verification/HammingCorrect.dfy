// ecc_sw_hamming_correct: what becomes of a block, given its stored and its present code.
module HammingCorrect {
  import opened Bits
  import opened HammingCode
  import opened HammingTables

  /** The three results: 0, 1 and -EBADMSG. */
  datatype Verdict = Clean | Corrected | Uncorrectable

  /** In every pair of bits that `mask` names by its lower bit, exactly one of the two is set. */
  predicate Paired(b: Byte, mask: Byte) {
    (b ^ (b >> 1)) & mask == mask
  }

  predicate ValidBlock(buf: seq<Byte>) {
    |buf| == 256 || |buf| == 512
  }

  /** The faulty bytes of the code, in the order low rows, high rows, columns. */
  function Difference(readEcc: seq<Byte>, calcEcc: seq<Byte>, smOrder: bool): (b: (Byte, Byte, Byte))
    requires |readEcc| == 3 && |calcEcc| == 3
  {
    if smOrder then (XorB(readEcc[0], calcEcc[0]), XorB(readEcc[1], calcEcc[1]), XorB(readEcc[2], calcEcc[2]))
    else (XorB(readEcc[1], calcEcc[1]), XorB(readEcc[0], calcEcc[0]), XorB(readEcc[2], calcEcc[2]))
  }

  function ByteAddress(size: nat, b: (Byte, Byte, Byte)): (n: nat)
    requires size == 256 || size == 512
    ensures n < size
  {
    if size == 256 then 16 * AddressBits(b.1) + AddressBits(b.0)
    else 256 * AddressBits(b.2 & 0x3) + 16 * AddressBits(b.1) + AddressBits(b.0)
  }

  function BitAddress(b: (Byte, Byte, Byte)): (n: nat)
    ensures n < 8
  {
    AddressBits(b.2 >> 2)
  }

  predicate NoDifference(b: (Byte, Byte, Byte)) {
    b.0 | b.1 | b.2 == 0
  }

  /** What a block becomes, given the code stored with it and the code it has now. */
  function Decode(buf: seq<Byte>, readEcc: seq<Byte>, calcEcc: seq<Byte>, smOrder: bool): (r: (Verdict, seq<Byte>))
    requires ValidBlock(buf) && |readEcc| == 3 && |calcEcc| == 3
    ensures |r.1| == |buf|
  {
    var b := Difference(readEcc, calcEcc, smOrder);
    if NoDifference(b) then
      (Clean, buf)
    else if Paired(b.0, 0x55) && Paired(b.1, 0x55) && Paired(b.2, if |buf| == 256 then 0x54 else 0x55) then
      (Corrected, FlipBit(buf, 8 * ByteAddress(|buf|, b) + BitAddress(b)))
    else if BitsPerByte(b.0) + BitsPerByte(b.1) + BitsPerByte(b.2) == 1 then
      (Corrected, buf)
    else
      (Uncorrectable, buf)
  }

  lemma FlipAt(buf: seq<Byte>, i: nat, j: nat)
    requires i < |buf| && j < 8
    ensures FlipBit(buf, 8 * i + j) == buf[i := buf[i] ^ Mask(j)]
  {
    assert (8 * i + j) / 8 == i && (8 * i + j) % 8 == j;
  }

  /** ecc_sw_hamming_correct: repairs the block in place. */
  method Correct(data: array<Byte>, off: nat, readEcc: seq<Byte>, calcEcc: seq<Byte>, stepSize: nat, smOrder: bool)
    returns (v: Verdict)
    requires (stepSize == 256 || stepSize == 512) && off + stepSize <= data.Length
    requires |readEcc| == 3 && |calcEcc| == 3
    modifies data
    ensures (v, data[off..off + stepSize]) == Decode(old(data[off..off + stepSize]), readEcc, calcEcc, smOrder)
    ensures forall i :: 0 <= i < data.Length && !(off <= i < off + stepSize) ==> data[i] == old(data[i])
  {
    hide Difference, NoDifference, ByteAddress, BitAddress, Paired, AddressBits, BitsPerByte, Mask, FlipBit;
    var b := Difference(readEcc, calcEcc, smOrder);
    if NoDifference(b) {
      return Clean;
    }
    if Paired(b.0, 0x55) && Paired(b.1, 0x55) && Paired(b.2, if stepSize == 256 then 0x54 else 0x55) {
      var byteAddr, bitAddr := ByteAddress(stepSize, b), BitAddress(b);
      FlipAt(data[off..off + stepSize], byteAddr, bitAddr);
      data[off + byteAddr] := data[off + byteAddr] ^ Mask(bitAddr);
      return Corrected;
    }
    if BitsPerByte(b.0) + BitsPerByte(b.1) + BitsPerByte(b.2) == 1 {
      return Corrected;
    }
    return Uncorrectable;
  }
}
