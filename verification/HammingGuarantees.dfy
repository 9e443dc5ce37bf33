// What the decoder does with no flipped bit, with one, and with two.
module HammingGuarantees {
  import opened Bits
  import opened HammingCode
  import opened HammingCorrect
  import opened HammingSyndrome
  import opened HammingSecded

  /** The outcome for a block that was stored with its code and came back after the flips. */
  function Outcome(buf: seq<Byte>, fs: seq<Flip>, smOrder: bool, swapped: bool): (Verdict, seq<Byte>)
    requires ValidBlock(buf) && ValidFlips(fs, |buf|)
  {
    var r := Received(buf, Ecc(buf, smOrder, swapped), fs);
    Decode(r.0, r.1, Ecc(r.0, smOrder, swapped), smOrder)
  }

  lemma OutcomeIsJudged(buf: seq<Byte>, fs: seq<Flip>, smOrder: bool, swapped: bool)
    requires ValidBlock(buf) && ValidFlips(fs, |buf|)
    ensures Outcome(buf, fs, smOrder, swapped)
            == Judge(Received(buf, Ecc(buf, smOrder, swapped), fs).0, Total(fs, |buf|, smOrder, swapped))
  {
    hide Judge, Decode, Total, Received, Ecc, Difference, Packed;
    SyndromeOfFlips(buf, fs, smOrder, swapped);
    var r := Received(buf, Ecc(buf, smOrder, swapped), fs);
    DecodeIsJudge(r.0, r.1, Ecc(r.0, smOrder, swapped), smOrder, Total(fs, |buf|, smOrder, swapped));
  }

  // How a flip shows in the pairs.

  lemma {:induction false} OneTrue(s: seq<bool>, p: nat, n: nat)
    requires n <= |s| && forall k :: 0 <= k < |s| ==> s[k] == (k == p)
    ensures CountTrue(s, n) == if p < n then 1 else 0
  {
    if n > 0 { OneTrue(s, p, n - 1); }
  }

  lemma {:induction false} TwoTrue(s: seq<bool>, p: nat, q: nat, n: nat)
    requires p < q < |s| && n <= |s| && s[p] && s[q]
    ensures p < n ==> CountTrue(s, n) >= 1
    ensures q < n ==> CountTrue(s, n) >= 2
  {
    if n > 0 { TwoTrue(s, p, q, n - 1); }
  }

  /** A flipped data bit sets exactly one bit of every pair: the one its address names. */
  predicate PairOfData(e: Syndrome, t: nat, size: nat, b: nat)
    requires t < 12
  {
    if Used(t, size) then PairAt(e, t) && Says(e, t, b) else !e[2 * t] && !e[2 * t + 1]
  }

  lemma DataPair(a: nat, size: nat, smOrder: bool, swapped: bool, t: nat)
    requires a < 8 * size && t < 12
    ensures PairOfData(Effect(DataFlip(a), size, smOrder, swapped), t, size, PointedAt(a, swapped))
  {
    hide IndexBit, PointedAt;
    PointedAtBits(a, swapped, AddressBitOf(t));
    assert 2 * t / 2 == t && (2 * t + 1) / 2 == t && 2 * t % 2 == 0 && (2 * t + 1) % 2 == 1;
    assert t < 2 <==> AddressBitOf(t) == 3 || AddressBitOf(t) == 4;
  }

  lemma DataEffect(a: nat, size: nat, smOrder: bool, swapped: bool)
    requires a < 8 * size
    ensures var e := Effect(DataFlip(a), size, smOrder, swapped);
      forall t :: 0 <= t < 12 ==> PairOfData(e, t, size, PointedAt(a, swapped))
  {
    hide Effect, PointedAt, PairOfData;
    forall t: nat | t < 12
      ensures PairOfData(Effect(DataFlip(a), size, smOrder, swapped), t, size, PointedAt(a, swapped))
    {
      DataPair(a, size, smOrder, swapped, t);
    }
  }

  // The guarantees.

  /** Nothing flipped, nothing done. */
  lemma NoFlip(buf: seq<Byte>, smOrder: bool, swapped: bool)
    requires ValidBlock(buf)
    ensures Outcome(buf, [], smOrder, swapped) == (Clean, buf)
  {
    hide Outcome, Ecc;
    OutcomeIsJudged(buf, [], smOrder, swapped);
  }

  lemma AddNothing(s: Syndrome)
    ensures Add(seq(24, _ => false), s) == s
  {
  }

  lemma OneFlip(f: Flip, size: nat, smOrder: bool, swapped: bool)
    requires ValidFlip(f, size)
    ensures ValidFlips([f], size)
    ensures Total([f], size, smOrder, swapped) == Effect(f, size, smOrder, swapped)
  {
    hide Effect;
    AddNothing(Effect(f, size, smOrder, swapped));
    assert [f][..0] == [];
  }

  lemma TwoFlips(f: Flip, g: Flip, size: nat, smOrder: bool, swapped: bool)
    requires ValidFlip(f, size) && ValidFlip(g, size)
    ensures ValidFlips([f, g], size)
    ensures Total([f, g], size, smOrder, swapped)
            == Add(Effect(f, size, smOrder, swapped), Effect(g, size, smOrder, swapped))
  {
    hide Effect;
    OneFlip(f, size, smOrder, swapped);
    assert [f, g][..1] == [f];
  }

  lemma JudgeData(buf: seq<Byte>, s: Syndrome, b: nat)
    requires ValidBlock(buf) && b < 8 * |buf|
    requires forall t :: 0 <= t < 12 && Used(t, |buf|) ==> PairAt(s, t) && Says(s, t, b)
    ensures Judge(buf, s) == (Corrected, FlipBit(buf, b))
  {
    hide Says, ByteIndex, BitIndex, FlipBit, CountTrue;
    AddressFromPairs(s, b, |buf|);
    assert PairAt(s, 0);
  }

  lemma ReceivedOne(buf: seq<Byte>, code: seq<Byte>, f: Flip)
    requires |code| == 3 && ValidFlip(f, |buf|)
    ensures ValidFlips([f], |buf|)
    ensures Received(buf, code, [f]) == Hit(buf, code, f)
  {
    hide FlipBit, FlipCode;
    assert [f][..0] == [];
  }

  lemma ReceivedTwo(buf: seq<Byte>, code: seq<Byte>, f: Flip, g: Flip)
    requires |code| == 3 && ValidFlip(f, |buf|) && ValidFlip(g, |buf|)
    ensures ValidFlips([f], |buf|) && ValidFlips([f, g], |buf|)
    ensures var r := Received(buf, code, [f]);
      Received(buf, code, [f, g]) == Hit(r.0, r.1, g)
  {
    hide FlipBit, FlipCode;
    assert [f, g][..1] == [f];
  }

  /** One flipped data bit: the decoder reports a correction and flips the bit it is pointed at.
      That is the flipped bit, and the block is restored, exactly when the byte order the words
      are loaded in is the configured one. */
  lemma SingleDataFlip(buf: seq<Byte>, a: nat, smOrder: bool, swapped: bool)
    requires ValidBlock(buf) && a < 8 * |buf|
    ensures ValidFlips([DataFlip(a)], |buf|)
    ensures PointedAt(a, swapped) < 8 * |buf|
    ensures Outcome(buf, [DataFlip(a)], smOrder, swapped)
            == (Corrected, FlipBit(FlipBit(buf, a), PointedAt(a, swapped)))
    ensures Outcome(buf, [DataFlip(a)], smOrder, swapped).1 == buf <==> !swapped
  {
    hide PointedAt, Effect, Judge, Outcome, FlipBit, Says, PairAt, Received, Total, Ecc;
    var f, b := DataFlip(a), PointedAt(a, swapped);
    OneFlip(f, |buf|, smOrder, swapped);
    ReceivedOne(buf, Ecc(buf, smOrder, swapped), f);
    PointedAtInside(a, swapped, |buf|);
    OutcomeIsJudged(buf, [f], smOrder, swapped);
    var s := Effect(f, |buf|, smOrder, swapped);
    DataEffect(a, |buf|, smOrder, swapped);
    forall t | 0 <= t < 12 && Used(t, |buf|)
      ensures PairAt(s, t) && Says(s, t, b)
    {
      assert PairOfData(s, t, |buf|, b);
    }
    JudgeData(FlipBit(buf, a), s, b);
    if swapped {
      TwoFlipsDiffer(buf, a, b);
    } else {
      PointedAtSame(a);
      FlipTwice(buf, a);
    }
  }

  lemma PointedAtSame(a: nat)
    ensures PointedAt(a, false) == a
  {
  }

  lemma TwoFlipsDiffer(buf: seq<Byte>, a: nat, b: nat)
    requires a < 8 * |buf| && b < 8 * |buf| && a != b
    ensures FlipBit(FlipBit(buf, a), b) != buf
  {
    FlipBitData(buf, a, a);
    FlipBitData(FlipBit(buf, a), b, a);
  }

  /** One flipped bit of the stored code: reported as corrected, the data is left alone. */
  lemma SingleCodeFlip(buf: seq<Byte>, j: nat, smOrder: bool, swapped: bool)
    requires ValidBlock(buf) && j < 24
    ensures ValidFlips([CodeFlip(j)], |buf|)
    ensures Outcome(buf, [CodeFlip(j)], smOrder, swapped) == (Corrected, buf)
  {
    hide Outcome, FlipBit, Received, Total, Ecc;
    var f := CodeFlip(j);
    OneFlip(f, |buf|, smOrder, swapped);
    ReceivedOne(buf, Ecc(buf, smOrder, swapped), f);
    OutcomeIsJudged(buf, [f], smOrder, swapped);
    var s, p := Effect(f, |buf|, smOrder, swapped), Position(j, smOrder);
    OneTrue(s, p, 24);
    JudgeOneBit(buf, s, p);
  }

  lemma JudgeOneBit(buf: seq<Byte>, s: Syndrome, p: nat)
    requires ValidBlock(buf) && p < 24 && forall k :: 0 <= k < 24 ==> s[k] == (k == p)
    requires CountTrue(s, 24) == 1
    ensures Judge(buf, s) == (Corrected, buf)
  {
    hide FlipBit, CountTrue;
    assert s[p];
    var t := if p < 2 then 1 else 0;
    assert Used(t, |buf|) && !PairAt(s, t);
  }

  /** The two flips that the code cannot tell from a single one: a data bit and one of the two
      lowest bits of the third code byte, which a 256-byte block does not use. */
  predicate Exempt(f: Flip, g: Flip, size: nat) {
    size == 256 && ((f.DataFlip? && UnusedBit(g)) || (UnusedBit(f) && g.DataFlip?))
  }

  predicate UnusedBit(f: Flip) {
    f.CodeFlip? && (f.j == 16 || f.j == 17)
  }

  lemma JudgeTwoBits(buf: seq<Byte>, s: Syndrome, p: nat, q: nat, t: nat)
    requires ValidBlock(buf) && p < q < 24 && s[p] && s[q]
    requires t < 12 && Used(t, |buf|) && !PairAt(s, t)
    ensures Judge(buf, s) == (Uncorrectable, buf)
  {
    hide FlipBit, CountTrue;
    TwoTrue(s, p, q, 24);
  }

  /** Two data bits differ in some address bit, and that pair is set twice. */
  lemma JudgeDataData(buf: seq<Byte>, a: nat, b: nat, smOrder: bool, swapped: bool)
    requires ValidBlock(buf) && a < 8 * |buf| && b < 8 * |buf| && a != b
    ensures Judge(buf, Add(Effect(DataFlip(a), |buf|, smOrder, swapped), Effect(DataFlip(b), |buf|, smOrder, swapped)))
            == (Uncorrectable, buf)
  {
    hide FlipBit, IndexBit, PointedAt, Judge, Effect;
    var d, e := Effect(DataFlip(a), |buf|, smOrder, swapped), Effect(DataFlip(b), |buf|, smOrder, swapped);
    DataEffect(a, |buf|, smOrder, swapped);
    DataEffect(b, |buf|, smOrder, swapped);
    var t := DifferentPair(d, e, a, b, |buf|, swapped);
    assert PairOfData(d, t, |buf|, PointedAt(a, swapped)) && PairOfData(e, t, |buf|, PointedAt(b, swapped));
    JudgeTwoBits(buf, Add(d, e), 2 * t, 2 * t + 1, t);
  }

  lemma DifferentPair(d: Syndrome, e: Syndrome, a: nat, b: nat, size: nat, swapped: bool) returns (t: nat)
    requires (size == 256 || size == 512) && a < 8 * size && b < 8 * size && a != b
    requires forall t :: 0 <= t < 12 ==> PairOfData(d, t, size, PointedAt(a, swapped))
    requires forall t :: 0 <= t < 12 ==> PairOfData(e, t, size, PointedAt(b, swapped))
    ensures t < 12 && Used(t, size) && d[2 * t + 1] != e[2 * t + 1]
  {
    hide PointedAt, PairAt;
    var a', b' := PointedAt(a, swapped), PointedAt(b, swapped);
    PointedAtInside(a, swapped, size); PointedAtInside(b, swapped, size);
    PointedAtInjective(a, b, swapped);
    if forall t :: 0 <= t < 12 && Used(t, size) ==> d[2 * t + 1] == e[2 * t + 1] {
      forall t | 0 <= t < 12 && Used(t, size)
        ensures Says(d, t, a') && Says(d, t, b')
      {
        assert PairOfData(d, t, size, a') && PairOfData(e, t, size, b');
        assert d[2 * t + 1] == e[2 * t + 1];
      }
      AddressFromPairs(d, a', size);
      AddressFromPairs(d, b', size);
      assert false;
    }
    t :| 0 <= t < 12 && Used(t, size) && d[2 * t + 1] != e[2 * t + 1];
  }

  lemma PointedAtInjective(a: nat, b: nat, swapped: bool)
    requires a != b
    ensures PointedAt(a, swapped) != PointedAt(b, swapped)
  {
    if swapped {
      Mirror(a); Mirror(b);
      hide PointedAt;
    }
  }

  /** Mirroring a byte in its word twice gives it back. */
  lemma Mirror(a: nat)
    ensures PointedAt(PointedAt(a, true), true) == a
  {
    var w, c, r := a / 32, a / 8 % 4, a % 8;
    assert a == 8 * (4 * w + c) + r;
    var b := 8 * (4 * w + (3 - c)) + r;
    assert b / 32 == w && b / 8 % 4 == 3 - c && b % 8 == r;
  }

  /** A data bit and a code bit that is used: the pair of the code bit is set twice or not at all. */
  lemma JudgeDataCode(buf: seq<Byte>, s: Syndrome, a: nat, j: nat, smOrder: bool, swapped: bool)
    requires ValidBlock(buf) && a < 8 * |buf| && j < 24 && Used(Position(j, smOrder) / 2, |buf|)
    requires s == Add(Effect(DataFlip(a), |buf|, smOrder, swapped), Effect(CodeFlip(j), |buf|, smOrder, swapped))
    ensures Judge(buf, s) == (Uncorrectable, buf)
  {
    hide FlipBit, IndexBit, PointedAt, Judge, Says;
    var d, b := Effect(DataFlip(a), |buf|, smOrder, swapped), PointedAt(a, swapped);
    DataEffect(a, |buf|, smOrder, swapped);
    var t := Position(j, smOrder) / 2;
    var u := if t == 0 then 1 else 0;
    var v := if t <= 2 then 3 else 2;
    assert PairOfData(d, t, |buf|, b) && PairOfData(d, u, |buf|, b) && PairOfData(d, v, |buf|, b);
    var p := if s[2 * u] then 2 * u else 2 * u + 1;
    var q := if s[2 * v] then 2 * v else 2 * v + 1;
    JudgeTwoBits(buf, s, p, q, t);
  }

  lemma JudgeCodeCode(buf: seq<Byte>, i: nat, j: nat, smOrder: bool, swapped: bool)
    requires ValidBlock(buf) && i < 24 && j < 24 && i != j
    ensures Judge(buf, Add(Effect(CodeFlip(i), |buf|, smOrder, swapped), Effect(CodeFlip(j), |buf|, smOrder, swapped)))
            == (Uncorrectable, buf)
  {
    hide FlipBit, Judge;
    var s := Add(Effect(CodeFlip(i), |buf|, smOrder, swapped), Effect(CodeFlip(j), |buf|, smOrder, swapped));
    var p, q := Position(i, smOrder), Position(j, smOrder);
    var t := if p / 2 != 0 && q / 2 != 0 then 0 else if p / 2 != 1 && q / 2 != 1 then 1 else 2;
    JudgeTwoBits(buf, s, if p < q then p else q, if p < q then q else p, t);
  }

  lemma JudgeExempt(buf: seq<Byte>, s: Syndrome, a: nat, j: nat, smOrder: bool, swapped: bool)
    requires |buf| == 256 && a < 8 * |buf| && UnusedBit(CodeFlip(j))
    requires s == Add(Effect(DataFlip(a), |buf|, smOrder, swapped), Effect(CodeFlip(j), |buf|, smOrder, swapped))
    ensures PointedAt(a, swapped) < 8 * |buf|
    ensures Judge(buf, s) == (Corrected, FlipBit(buf, PointedAt(a, swapped)))
  {
    hide FlipBit, IndexBit, PointedAt, Judge;
    var d, b := Effect(DataFlip(a), |buf|, smOrder, swapped), PointedAt(a, swapped);
    PointedAtInside(a, swapped, |buf|);
    DataEffect(a, |buf|, smOrder, swapped);
    forall t | 0 <= t < 12 && Used(t, |buf|)
      ensures PairAt(s, t) && Says(s, t, b)
    {
      assert PairOfData(d, t, |buf|, b);
    }
    JudgeData(buf, s, b);
  }

  lemma AddCommutes(s: Syndrome, t: Syndrome)
    ensures Add(s, t) == Add(t, s)
  {
  }

  lemma FlipsCommute(buf: seq<Byte>, code: seq<Byte>, f: Flip, g: Flip)
    requires |code| == 3 && ValidFlip(f, |buf|) && ValidFlip(g, |buf|) && f.CodeFlip? && g.DataFlip?
    ensures ValidFlips([f, g], |buf|)
    ensures Received(buf, code, [f, g]).0 == FlipBit(buf, g.a)
  {
    hide FlipBit, FlipCode;
    ReceivedOne(buf, code, f);
    ReceivedTwo(buf, code, f, g);
  }

  lemma JudgeTwoFlips(buf: seq<Byte>, f: Flip, g: Flip, smOrder: bool, swapped: bool)
    requires ValidBlock(buf) && ValidFlip(f, |buf|) && ValidFlip(g, |buf|) && f != g && !Exempt(f, g, |buf|)
    ensures Judge(buf, Add(Effect(f, |buf|, smOrder, swapped), Effect(g, |buf|, smOrder, swapped)))
        == (Uncorrectable, buf)
  {
    hide Judge, Effect, Add;
    match f
    case DataFlip(a) =>
      match g {
        case DataFlip(b) => JudgeDataData(buf, a, b, smOrder, swapped);
        case CodeFlip(j) =>
          JudgeDataCode(buf, Add(Effect(f, |buf|, smOrder, swapped), Effect(g, |buf|, smOrder, swapped)), a, j,
              smOrder, swapped);
      }
    case CodeFlip(i) =>
      match g {
        case DataFlip(b) =>
          AddCommutes(Effect(f, |buf|, smOrder, swapped), Effect(g, |buf|, smOrder, swapped));
          JudgeDataCode(buf, Add(Effect(g, |buf|, smOrder, swapped), Effect(f, |buf|, smOrder, swapped)), b, i,
              smOrder, swapped);
        case CodeFlip(j) => JudgeCodeCode(buf, i, j, smOrder, swapped);
      }
  }

  /** Any two distinct flips, save the exempt ones, are reported as uncorrectable, and the data
      is handed back as it was received, in either byte order. */
  lemma DoubleFlip(buf: seq<Byte>, f: Flip, g: Flip, smOrder: bool, swapped: bool)
    requires ValidBlock(buf) && ValidFlip(f, |buf|) && ValidFlip(g, |buf|) && f != g && !Exempt(f, g, |buf|)
    ensures ValidFlips([f, g], |buf|)
    ensures Outcome(buf, [f, g], smOrder, swapped)
            == (Uncorrectable, Received(buf, Ecc(buf, smOrder, swapped), [f, g]).0)
  {
    hide Outcome, Judge, Effect, Add, Received, Total, Ecc;
    TwoFlips(f, g, |buf|, smOrder, swapped);
    OutcomeIsJudged(buf, [f, g], smOrder, swapped);
    JudgeTwoFlips(Received(buf, Ecc(buf, smOrder, swapped), [f, g]).0, f, g, smOrder, swapped);
  }

  /** An exempt pair is still corrected like the single data flip it contains. */
  lemma ExemptFlips(buf: seq<Byte>, f: Flip, g: Flip, smOrder: bool, swapped: bool)
    requires ValidBlock(buf) && ValidFlip(f, |buf|) && ValidFlip(g, |buf|) && Exempt(f, g, |buf|)
    ensures ValidFlips([f, g], |buf|)
    ensures Outcome(buf, [f, g], smOrder, swapped).0 == Corrected
    ensures Outcome(buf, [f, g], smOrder, swapped).1 == buf <==> !swapped
  {
    hide Outcome, Judge, Effect, Add, Received, Total, FlipBit, FlipCode, PointedAt, Ecc;
    var code := Ecc(buf, smOrder, swapped);
    TwoFlips(f, g, |buf|, smOrder, swapped);
    OutcomeIsJudged(buf, [f, g], smOrder, swapped);
    var d, c := if f.DataFlip? then f else g, if f.DataFlip? then g else f;
    var received := Received(buf, code, [f, g]).0;
    if f.CodeFlip? {
      AddCommutes(Effect(f, |buf|, smOrder, swapped), Effect(g, |buf|, smOrder, swapped));
      FlipsCommute(buf, code, f, g);
    } else {
      ReceivedOne(buf, code, f);
      ReceivedTwo(buf, code, f, g);
    }
    assert received == FlipBit(buf, d.a);
    JudgeExempt(received, Add(Effect(d, |buf|, smOrder, swapped), Effect(c, |buf|, smOrder, swapped)), d.a, c.j,
        smOrder, swapped);
    if swapped {
      PointedAtInside(d.a, swapped, |buf|);
      TwoFlipsDiffer(buf, d.a, PointedAt(d.a, swapped));
    } else {
      PointedAtSame(d.a);
      FlipTwice(buf, d.a);
    }
  }
}
