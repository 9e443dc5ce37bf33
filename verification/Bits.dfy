// Bytes, single bits, and the parity of a byte.
module Bits {

  type Byte = bv8

  /** A 32-bit word. The wrapper keeps the solver from looking at single bits where a proof
      only moves whole words around. */
  datatype Word = Word(bits: bv32)

  /** Bit `k` of the number `i`. */
  predicate IndexBit(i: nat, k: nat) {
    if k == 0 then i % 2 == 1 else IndexBit(i / 2, k - 1)
  }

  function Num(b: bool): nat { if b then 1 else 0 }

  /** Exclusive-or under a name of its own, so that a proof that only moves bytes around can hide it. */
  function XorB(a: Byte, b: Byte): Byte { a ^ b }

  function Mask(j: nat): Byte
    requires j < 8
  {
    match j
    case 0 => 0x01 case 1 => 0x02 case 2 => 0x04 case 3 => 0x08
    case 4 => 0x10 case 5 => 0x20 case 6 => 0x40 case _ => 0x80
  }

  predicate Bit(b: Byte, j: nat)
    requires j < 8
  {
    b & Mask(j) != 0
  }

  function Ones(b: Byte): nat {
    (if Bit(b, 0) then 1 else 0) + (if Bit(b, 1) then 1 else 0) +
    (if Bit(b, 2) then 1 else 0) + (if Bit(b, 3) then 1 else 0) +
    (if Bit(b, 4) then 1 else 0) + (if Bit(b, 5) then 1 else 0) +
    (if Bit(b, 6) then 1 else 0) + (if Bit(b, 7) then 1 else 0)
  }

  /** An odd number of bits of `b` is set. */
  predicate Odd(b: Byte) {
    Ones(b) % 2 == 1
  }

  lemma OddIsXor(b: Byte)
    ensures Odd(b) == (((Bit(b, 0) != Bit(b, 1)) != (Bit(b, 2) != Bit(b, 3)))
                       != ((Bit(b, 4) != Bit(b, 5)) != (Bit(b, 6) != Bit(b, 7))))
  {
  }

  lemma BitOfXor(a: Byte, b: Byte, j: nat)
    requires j < 8
    ensures Bit(a ^ b, j) == (Bit(a, j) != Bit(b, j))
  {
    AndOfXor(a, b, Mask(j));
    var m := Mask(j);
    OneBit(a, j); OneBit(b, j);
    assert (a & m) ^ (b & m) != 0 <==> (a & m != 0) != (b & m != 0) by {
      if a & m == 0 { } else { assert a & m == m; if b & m == 0 {} else { assert b & m == m; } }
    }
  }

  lemma AndOfXor(a: Byte, b: Byte, m: Byte)
    ensures (a ^ b) & m == (a & m) ^ (b & m)
  {
  }

  lemma OneBit(a: Byte, j: nat)
    requires j < 8
    ensures a & Mask(j) == 0 || a & Mask(j) == Mask(j)
  {
  }

  /** Parity turns exclusive-or of bytes into exclusive-or of truth values. */
  lemma OddLinear(a: Byte, b: Byte)
    ensures Odd(a ^ b) == (Odd(a) != Odd(b))
  {
    OddIsXor(a); OddIsXor(b); OddIsXor(a ^ b);
    BitOfXor(a, b, 0); BitOfXor(a, b, 1); BitOfXor(a, b, 2); BitOfXor(a, b, 3);
    BitOfXor(a, b, 4); BitOfXor(a, b, 5); BitOfXor(a, b, 6); BitOfXor(a, b, 7);
  }

  lemma Halve(i: nat, k: nat)
    requires k > 0
    ensures IndexBit(i, k) == IndexBit(i / 2, k - 1)
  {
  }

  function Weigh(b0: bool, b1: bool, b2: bool, b3: bool): (n: nat)
    ensures n < 16
  {
    (if b0 then 1 else 0) + (if b1 then 2 else 0) + (if b2 then 4 else 0) + (if b3 then 8 else 0)
  }

  function BitValue(i: nat, k: nat): nat {
    if IndexBit(i, k) then 1 else 0
  }

  /** The four lowest bits of a number, and the number without them. */
  lemma Binary4(i: nat) returns (q: nat)
    ensures i == BitValue(i, 0) + 2 * BitValue(i, 1) + 4 * BitValue(i, 2) + 8 * BitValue(i, 3) + 16 * q
    ensures forall k: nat :: BitValue(q, k) == BitValue(i, k + 4)
    ensures q == i / 16
  {
    q := i / 2 / 2 / 2 / 2;
    Halve(i, 3); Halve(i / 2, 2); Halve(i / 2 / 2, 1); Halve(i, 2); Halve(i / 2, 1); Halve(i, 1);
    forall k: nat
      ensures BitValue(q, k) == BitValue(i, k + 4)
    {
      Halve(i, k + 4); Halve(i / 2, k + 3); Halve(i / 2 / 2, k + 2); Halve(i / 2 / 2 / 2, k + 1);
    }
  }

  lemma IndexBitOfByte(i: nat, c: nat, k: nat)
    requires c < 8
    ensures IndexBit(8 * i + c, k + 3) == IndexBit(i, k) && BitValue(8 * i + c, k + 3) == BitValue(i, k)
  {
    var a := 8 * i + c;
    Halve(a, k + 3); Halve(a / 2, k + 2); Halve(a / 2 / 2, k + 1);
    assert a / 2 / 2 / 2 == i;
  }

  lemma IndexBitOfWord(j: nat, c: nat, k: nat)
    requires c < 4
    ensures IndexBit(4 * j + c, k + 2) == IndexBit(j, k)
    ensures IndexBit(4 * j + c, 1) == (c >= 2) && IndexBit(4 * j + c, 0) == (c % 2 == 1)
  {
    var a := 4 * j + c;
    Halve(a, k + 2); Halve(a / 2, k + 1); Halve(a, 1);
    assert a / 2 / 2 == j;
  }

  lemma IndexBitInByte(i: nat, c: nat, k: nat)
    requires c < 8 && k < 3
    ensures IndexBit(8 * i + c, k) == IndexBit(c, k) && BitValue(8 * i + c, k) == BitValue(c, k)
  {
    var a := 8 * i + c;
    assert a / 2 == 4 * i + c / 2 && a / 2 / 2 == 2 * i + c / 2 / 2;
    if k > 0 { Halve(a, k); Halve(c, k); }
    if k > 1 { Halve(a / 2, k - 1); Halve(c / 2, k - 1); }
  }

  lemma BitZero(i: nat)
    ensures IndexBit(i, 0) == (i % 2 == 1) && BitValue(i, 0) == i % 2
  {
  }
}
