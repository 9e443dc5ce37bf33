// ecc_sw_hamming_calculate: the unrolled word loop, proved to compute the plain code.
module HammingCalculate {
  import opened Bits
  import opened HammingCode
  import opened HammingFold
  import opened HammingParities
  import opened HammingTables

  /** Exclusive-or of the `n` words from index `a` on, in the order the loop meets them. */
  function Run(ws: seq<Word>, a: nat, n: nat): Word
    requires 0 < n && a + n <= |ws|
  {
    if n == 1 then ws[a] else Xor(Run(ws, a, n - 1), ws[a + n - 1])
  }

  /** A run can be added to an accumulator in one go. */
  lemma {:induction false} RunAdds(ws: seq<Word>, a: nat, n: nat)
    requires 0 < n && a + n <= |ws|
    ensures XorWords(ws, a + n) == Xor(XorWords(ws, a), Run(ws, a, n))
  {
    hide Xor;
    if n > 1 {
      RunAdds(ws, a, n - 1);
      XorAssoc(XorWords(ws, a), Run(ws, a, n - 1), ws[a + n - 1]);
    }
  }

  lemma ChunkIndex(i: nat, c: nat, k: nat)
    requires c < 16
    ensures IndexBit(16 * i + c, k) == if k < 4 then IndexBit(c, k) else IndexBit(i, k - 4)
  {
    var j := 16 * i + c;
    assert j / 2 == 8 * i + c / 2;
    assert j / 2 / 2 == 4 * i + c / 2 / 2;
    assert j / 2 / 2 / 2 == 2 * i + c / 2 / 2 / 2;
    assert j / 2 / 2 / 2 / 2 == i;
    if k > 0 { Halve(j, k); Halve(c, k); }
    if k > 1 { Halve(j / 2, k - 1); Halve(c / 2, k - 1); }
    if k > 2 { Halve(j / 2 / 2, k - 2); Halve(c / 2 / 2, k - 2); }
    if k > 3 { Halve(j / 2 / 2 / 2, k - 3); }
  }

  lemma SmallBits(c: nat)
    requires c < 16
    ensures IndexBit(c, 0) == (c % 2 == 1) && IndexBit(c, 1) == (c % 4 >= 2)
    ensures IndexBit(c, 2) == (c % 8 >= 4) && IndexBit(c, 3) == (c >= 8)
  {
    assert c in {0, 1, 2, 3, 4, 5, 6, 7, 8, 9, 10, 11, 12, 13, 14, 15};
  }

  // How a row accumulator moves over words it takes and words it leaves out.

  lemma {:induction false} Takes(buf: seq<Byte>, big: bool, k: nat, a: nat, n: nat)
    requires WholeWords(buf) && 0 < n && a + n <= |buf| / 4
    requires forall j :: a <= j < a + n ==> !IndexBit(j, k)
    ensures XorWords(ClearWords(buf, big, k), a + n)
            == Xor(XorWords(ClearWords(buf, big, k), a), Run(Words(buf, big), a, n))
  {
    hide Xor, IndexBit, WordOf;
    var rs, ws := ClearWords(buf, big, k), Words(buf, big);
    assert rs[a + n - 1] == ws[a + n - 1];
    if n > 1 {
      Takes(buf, big, k, a, n - 1);
      XorAssoc(XorWords(rs, a), Run(ws, a, n - 1), ws[a + n - 1]);
    }
  }

  lemma TakesOne(buf: seq<Byte>, big: bool, k: nat, a: nat)
    requires WholeWords(buf) && a + 1 <= |buf| / 4 && !IndexBit(a, k)
    ensures XorWords(ClearWords(buf, big, k), a + 1) == Xor(XorWords(ClearWords(buf, big, k), a), Words(buf, big)[a])
  {
    Takes(buf, big, k, a, 1);
  }

  lemma {:induction false} Skips(buf: seq<Byte>, big: bool, k: nat, a: nat, n: nat)
    requires WholeWords(buf) && a + n <= |buf| / 4
    requires forall j :: a <= j < a + n ==> IndexBit(j, k)
    ensures XorWords(ClearWords(buf, big, k), a + n) == XorWords(ClearWords(buf, big, k), a)
  {
    hide Xor, IndexBit, WordOf;
    var rs := ClearWords(buf, big, k);
    if n > 0 {
      Skips(buf, big, k, a, n - 1);
      assert rs[a + n - 1] == Word(0);
      XorZero(XorWords(rs, a + n - 1));
    }
  }

  /** Which words of a turn a row leaves out. */
  lemma ChunkBits(i: nat)
    ensures forall j :: 16 * i <= j < 16 * i + 16 ==>
      && IndexBit(j, 0) == ((j - 16 * i) % 2 == 1) && IndexBit(j, 1) == ((j - 16 * i) % 4 >= 2)
      && IndexBit(j, 2) == ((j - 16 * i) % 8 >= 4) && IndexBit(j, 3) == (j - 16 * i >= 8)
  {
    forall j | 16 * i <= j < 16 * i + 16
      ensures IndexBit(j, 0) == ((j - 16 * i) % 2 == 1) && IndexBit(j, 1) == ((j - 16 * i) % 4 >= 2)
      ensures IndexBit(j, 2) == ((j - 16 * i) % 8 >= 4) && IndexBit(j, 3) == (j - 16 * i >= 8)
    {
      var c := j - 16 * i;
      SmallBits(c);
      ChunkIndex(i, c, 0); ChunkIndex(i, c, 1); ChunkIndex(i, c, 2); ChunkIndex(i, c, 3);
    }
  }

  lemma TakesThenSkips(buf: seq<Byte>, big: bool, i: nat, c: nat)
    requires WholeWords(buf) && 16 * i + 16 <= |buf| / 4 && c in {0, 2, 4, 6, 8, 10, 12, 14}
    ensures var rs, a := ClearWords(buf, big, 0), 16 * i + c;
      XorWords(rs, a + 2) == Xor(XorWords(rs, a), Words(buf, big)[a])
  {
    hide Xor, XorWords, IndexBit, ClearWords, Words;
    ChunkBits(i);
    TakesOne(buf, big, 0, 16 * i + c);
    Skips(buf, big, 0, 16 * i + c + 1, 1);
  }

  /** rp4 takes every other word. */
  lemma Row0OfChunk(buf: seq<Byte>, big: bool, i: nat)
    requires WholeWords(buf) && 16 * i + 16 <= |buf| / 4
    ensures var rs, ws, b := ClearWords(buf, big, 0), Words(buf, big), 16 * i;
      XorWords(rs, b + 16) ==
        Xor(Xor(Xor(Xor(Xor(Xor(Xor(Xor(XorWords(rs, b), ws[b]), ws[b + 2]), ws[b + 4]), ws[b + 6]),
                        ws[b + 8]), ws[b + 10]), ws[b + 12]), ws[b + 14])
  {
    hide Xor, XorWords, IndexBit, ClearWords, Words, Run;
    TakesThenSkips(buf, big, i, 0); TakesThenSkips(buf, big, i, 2);
    TakesThenSkips(buf, big, i, 4); TakesThenSkips(buf, big, i, 6);
    TakesThenSkips(buf, big, i, 8); TakesThenSkips(buf, big, i, 10);
    TakesThenSkips(buf, big, i, 12); TakesThenSkips(buf, big, i, 14);
  }

  /** rp6 takes two of every four. */
  lemma Row1OfChunk(buf: seq<Byte>, big: bool, i: nat)
    requires WholeWords(buf) && 16 * i + 16 <= |buf| / 4
    ensures var rs, ws, b := ClearWords(buf, big, 1), Words(buf, big), 16 * i;
      XorWords(rs, b + 16) ==
        Xor(Xor(Xor(Xor(Xor(Xor(Xor(XorWords(rs, b), Run(ws, b, 2)), ws[b + 4]), ws[b + 5]),
                        ws[b + 8]), ws[b + 9]), ws[b + 12]), ws[b + 13])
  {
    hide Xor, XorWords, IndexBit, ClearWords, Words, Run;
    var b := 16 * i;
    ChunkBits(i);
    Takes(buf, big, 1, b, 2); Skips(buf, big, 1, b + 2, 2);
    TakesOne(buf, big, 1, b + 4); TakesOne(buf, big, 1, b + 5); Skips(buf, big, 1, b + 6, 2);
    TakesOne(buf, big, 1, b + 8); TakesOne(buf, big, 1, b + 9); Skips(buf, big, 1, b + 10, 2);
    TakesOne(buf, big, 1, b + 12); TakesOne(buf, big, 1, b + 13); Skips(buf, big, 1, b + 14, 2);
  }

  /** rp8 takes four of every eight, rp10 the first eight. */
  lemma Row2OfChunk(buf: seq<Byte>, big: bool, i: nat)
    requires WholeWords(buf) && 16 * i + 16 <= |buf| / 4
    ensures var rs, ws, b := ClearWords(buf, big, 2), Words(buf, big), 16 * i;
      XorWords(rs, b + 16) ==
        Xor(Xor(Xor(Xor(Xor(XorWords(rs, b), Run(ws, b, 4)), ws[b + 8]), ws[b + 9]), ws[b + 10]), ws[b + 11])
    ensures var rs, ws, b := ClearWords(buf, big, 3), Words(buf, big), 16 * i;
      XorWords(rs, b + 16) == Xor(XorWords(rs, b), Run(ws, b, 8))
  {
    hide Xor, XorWords, IndexBit, ClearWords, Words, Run;
    var b := 16 * i;
    ChunkBits(i);
    Takes(buf, big, 2, b, 4); Skips(buf, big, 2, b + 4, 4);
    TakesOne(buf, big, 2, b + 8); TakesOne(buf, big, 2, b + 9);
    TakesOne(buf, big, 2, b + 10); TakesOne(buf, big, 2, b + 11); Skips(buf, big, 2, b + 12, 4);
    Takes(buf, big, 3, b, 8); Skips(buf, big, 3, b + 8, 8);
  }

  /** rp12, rp14 and rp16 take whole turns. */
  lemma TurnRow(buf: seq<Byte>, big: bool, i: nat, k: nat)
    requires WholeWords(buf) && 16 * i + 16 <= |buf| / 4 && k >= 4
    ensures var rs, ws, b := ClearWords(buf, big, k), Words(buf, big), 16 * i;
      XorWords(rs, b + 16) == if IndexBit(i, k - 4) then XorWords(rs, b) else Xor(XorWords(rs, b), Run(ws, b, 16))
  {
    hide Xor, XorWords, IndexBit, ClearWords, Words;
    forall j | 16 * i <= j < 16 * i + 16
      ensures IndexBit(j, k) == IndexBit(i, k - 4)
    {
      ChunkIndex(i, j - 16 * i, k);
    }
    if IndexBit(i, k - 4) {
      Skips(buf, big, k, 16 * i, 16);
    } else {
      Takes(buf, big, k, 16 * i, 16);
    }
  }

  function LoadAt(data: array<Byte>, at: nat, bigHost: bool): Word
    requires at + 4 <= data.Length
    reads data
  {
    WordOf(data[at], data[at + 1], data[at + 2], data[at + 3], bigHost)
  }

  lemma LoadOne(data: array<Byte>, off: nat, stepSize: nat, i: nat, w: seq<Word>, c: nat, at: nat, bigHost: bool)
    requires stepSize % 4 == 0 && off + stepSize <= data.Length && 64 * i + 64 <= stepSize
    requires w == Words(data[off..off + stepSize], bigHost)[16 * i..16 * i + 16]
    requires c < 16 && at == off + 64 * i + 4 * c
    ensures LoadAt(data, at, bigHost) == w[c]
  {
    hide WordOf;
    assert w[c] == Words(data[off..off + stepSize], bigHost)[16 * i + c];
  }

  lemma RunOne(ws: seq<Word>, b: nat, n: nat)
    requires 0 < n && b + n + 1 <= |ws|
    ensures Run(ws, b, n + 1) == Xor(Run(ws, b, n), ws[b + n])
    ensures Run(ws, b, 1) == ws[b]
  {
    hide Xor;
  }

  lemma RunsOfTurn(ws: seq<Word>, b: nat)
    requires b + 16 <= |ws|
    ensures Run(ws, b, 2) == Xor(ws[b], ws[b + 1])
    ensures Run(ws, b, 4) == Xor(Xor(Run(ws, b, 2), ws[b + 2]), ws[b + 3])
    ensures Run(ws, b, 8) == Xor(Xor(Xor(Xor(Run(ws, b, 4), ws[b + 4]), ws[b + 5]), ws[b + 6]), ws[b + 7])
    ensures Run(ws, b, 12) == Xor(Xor(Xor(Xor(Run(ws, b, 8), ws[b + 8]), ws[b + 9]), ws[b + 10]), ws[b + 11])
    ensures Run(ws, b, 16) == Xor(Xor(Xor(Xor(Run(ws, b, 12), ws[b + 12]), ws[b + 13]), ws[b + 14]), ws[b + 15])
  {
    hide Xor, Run;
    RunOne(ws, b, 1); RunOne(ws, b, 2); RunOne(ws, b, 3); RunOne(ws, b, 4); RunOne(ws, b, 5);
    RunOne(ws, b, 6); RunOne(ws, b, 7); RunOne(ws, b, 8); RunOne(ws, b, 9); RunOne(ws, b, 10);
    RunOne(ws, b, 11); RunOne(ws, b, 12); RunOne(ws, b, 13); RunOne(ws, b, 14); RunOne(ws, b, 15);
  }

  lemma {:induction false} RunOfSlice(ws: seq<Word>, b: nat, w: seq<Word>, n: nat)
    requires 0 < n <= |w| && b + |w| <= |ws| && w == ws[b..b + |w|]
    ensures Run(w, 0, n) == Run(ws, b, n)
  {
    hide Xor;
    if n > 1 { RunOfSlice(ws, b, w, n - 1); }
  }

  predicate TurnAdds(r: seq<Word>, i: nat, w: seq<Word>, taken: bool)
    requires 16 * i + 16 <= |r| && |w| == 16
  {
    XorWords(r, 16 * i + 16) == if taken then Xor(XorWords(r, 16 * i), Run(w, 0, 16)) else XorWords(r, 16 * i)
  }

  /** All accumulators after one more turn, in the terms of its sixteen words. */
  lemma Turn(buf: seq<Byte>, big: bool, i: nat, ws: seq<Word>, rs: seq<seq<Word>>, w: seq<Word>)
    requires WholeWords(buf) && 16 * i + 16 <= |buf| / 4
    requires ws == Words(buf, big) && w == ws[16 * i..16 * i + 16]
    requires rs == AllRows(buf, big)
    ensures XorWords(ws, 16 * (i + 1)) == Xor(XorWords(ws, 16 * i), Run(w, 0, 16))
    ensures XorWords(rs[0], 16 * (i + 1)) ==
      Xor(Xor(Xor(Xor(Xor(Xor(Xor(Xor(XorWords(rs[0], 16 * i), w[0]), w[2]), w[4]), w[6]), w[8]), w[10]), w[12]), w[14])
    ensures XorWords(rs[1], 16 * (i + 1)) ==
      Xor(Xor(Xor(Xor(Xor(Xor(Xor(XorWords(rs[1], 16 * i), Run(w, 0, 2)), w[4]), w[5]), w[8]), w[9]), w[12]), w[13])
    ensures XorWords(rs[2], 16 * (i + 1)) ==
      Xor(Xor(Xor(Xor(Xor(XorWords(rs[2], 16 * i), Run(w, 0, 4)), w[8]), w[9]), w[10]), w[11])
    ensures XorWords(rs[3], 16 * (i + 1)) == Xor(XorWords(rs[3], 16 * i), Run(w, 0, 8))
    ensures forall k :: 4 <= k < 7 ==> TurnAdds(rs[k], i, w, !IndexBit(i, k - 4))
  {
    hide Xor, XorWords, IndexBit, ClearWords, Words, Run;
    RunOfSlice(ws, 16 * i, w, 2); RunOfSlice(ws, 16 * i, w, 4);
    RunOfSlice(ws, 16 * i, w, 8); RunOfSlice(ws, 16 * i, w, 16);
    RunAdds(ws, 16 * i, 16);
    Row0OfChunk(buf, big, i); Row1OfChunk(buf, big, i); Row2OfChunk(buf, big, i);
    forall k | 4 <= k < 7
      ensures TurnAdds(rs[k], i, w, !IndexBit(i, k - 4))
    {
      TurnRow(buf, big, i, k);
    }
  }

  function AllRows(buf: seq<Byte>, big: bool): (rs: seq<seq<Word>>)
    requires WholeWords(buf)
    ensures |rs| == 7 && forall k :: 0 <= k < 7 ==> rs[k] == ClearWords(buf, big, k)
  {
    seq(7, (k: nat) => ClearWords(buf, big, k))
  }

  /** The words from `bp` on are those of `w`. */
  predicate Loads(data: array<Byte>, bp: nat, bigHost: bool, w: seq<Word>)
    reads data
  {
    |w| == 16 && bp + 64 <= data.Length && forall c :: 0 <= c < 16 ==> LoadAt(data, bp + 4 * c, bigHost) == w[c]
  }

  /** The sixteen words read in turn `i`. */
  lemma LoadTurn(data: array<Byte>, off: nat, stepSize: nat, i: nat, bp: nat, w: seq<Word>, bigHost: bool)
    requires stepSize % 4 == 0 && off + stepSize <= data.Length && 64 * i + 64 <= stepSize && bp == off + 64 * i
    requires w == Words(data[off..off + stepSize], bigHost)[16 * i..16 * i + 16]
    ensures Loads(data, bp, bigHost, w)
  {
    hide LoadAt, Words;
    forall c | 0 <= c < 16
      ensures LoadAt(data, bp + 4 * c, bigHost) == w[c]
    {
      LoadOne(data, off, stepSize, i, w, c, bp + 4 * c, bigHost);
    }
  }

  /** One turn of the loop, up to the parities kept for single words: sixteen words, unrolled. */
  method AddTurn(data: array<Byte>, start: nat, bigHost: bool, ghost w: seq<Word>,
                 p4: Word, p6: Word, p8: Word, p10: Word)
    returns (tmppar: Word, rp4: Word, rp6: Word, rp8: Word, rp10: Word)
    requires Loads(data, start, bigHost, w)
    ensures tmppar == Run(w, 0, 16)
    ensures rp4 == Xor(Xor(Xor(Xor(Xor(Xor(Xor(Xor(p4, w[0]), w[2]), w[4]), w[6]), w[8]), w[10]), w[12]), w[14])
    ensures rp6 == Xor(Xor(Xor(Xor(Xor(Xor(Xor(p6, Run(w, 0, 2)), w[4]), w[5]), w[8]), w[9]), w[12]), w[13])
    ensures rp8 == Xor(Xor(Xor(Xor(Xor(p8, Run(w, 0, 4)), w[8]), w[9]), w[10]), w[11])
    ensures rp10 == Xor(p10, Run(w, 0, 8))
  {
    hide Xor, Run, LoadAt;
    RunsOfTurn(w, 0);
    var bp, cur := start, LoadAt(data, start, bigHost);
    rp4, rp6, rp8, rp10 := p4, p6, p8, p10;

    bp := bp + 4; tmppar := cur; rp4 := Xor(rp4, cur);
    cur := LoadAt(data, bp, bigHost); bp := bp + 4; tmppar := Xor(tmppar, cur);
    rp6 := Xor(rp6, tmppar);
    cur := LoadAt(data, bp, bigHost); bp := bp + 4; tmppar := Xor(tmppar, cur);
    rp4 := Xor(rp4, cur);
    cur := LoadAt(data, bp, bigHost); bp := bp + 4; tmppar := Xor(tmppar, cur);
    rp8 := Xor(rp8, tmppar);

    cur := LoadAt(data, bp, bigHost); bp := bp + 4; tmppar := Xor(tmppar, cur);
    rp4 := Xor(rp4, cur); rp6 := Xor(rp6, cur);
    cur := LoadAt(data, bp, bigHost); bp := bp + 4; tmppar := Xor(tmppar, cur);
    rp6 := Xor(rp6, cur);
    cur := LoadAt(data, bp, bigHost); bp := bp + 4; tmppar := Xor(tmppar, cur);
    rp4 := Xor(rp4, cur);
    cur := LoadAt(data, bp, bigHost); bp := bp + 4; tmppar := Xor(tmppar, cur);
    rp10 := Xor(rp10, tmppar);

    cur := LoadAt(data, bp, bigHost); bp := bp + 4; tmppar := Xor(tmppar, cur);
    rp4 := Xor(rp4, cur); rp6 := Xor(rp6, cur); rp8 := Xor(rp8, cur);
    cur := LoadAt(data, bp, bigHost); bp := bp + 4; tmppar := Xor(tmppar, cur);
    rp6 := Xor(rp6, cur); rp8 := Xor(rp8, cur);
    cur := LoadAt(data, bp, bigHost); bp := bp + 4; tmppar := Xor(tmppar, cur);
    rp4 := Xor(rp4, cur); rp8 := Xor(rp8, cur);
    cur := LoadAt(data, bp, bigHost); bp := bp + 4; tmppar := Xor(tmppar, cur);
    rp8 := Xor(rp8, cur);

    cur := LoadAt(data, bp, bigHost); bp := bp + 4; tmppar := Xor(tmppar, cur);
    rp4 := Xor(rp4, cur); rp6 := Xor(rp6, cur);
    cur := LoadAt(data, bp, bigHost); bp := bp + 4; tmppar := Xor(tmppar, cur);
    rp6 := Xor(rp6, cur);
    cur := LoadAt(data, bp, bigHost); bp := bp + 4; tmppar := Xor(tmppar, cur);
    rp4 := Xor(rp4, cur);
    cur := LoadAt(data, bp, bigHost); bp := bp + 4; tmppar := Xor(tmppar, cur);
  }

  /** The loop over the block: what every accumulator holds at its end. */
  method Accumulate(data: array<Byte>, off: nat, stepSize: nat, bigHost: bool)
    returns (par: Word, rp4: Word, rp6: Word, rp8: Word, rp10: Word, rp12: Word, rp14: Word, rp16: Word)
    requires stepSize == 256 || stepSize == 512
    requires off + stepSize <= data.Length
    ensures var buf := data[off..off + stepSize];
      && par == Accumulated(Words(buf, bigHost))
      && rp4 == Accumulated(ClearWords(buf, bigHost, 0)) && rp6 == Accumulated(ClearWords(buf, bigHost, 1))
      && rp8 == Accumulated(ClearWords(buf, bigHost, 2)) && rp10 == Accumulated(ClearWords(buf, bigHost, 3))
      && rp12 == Accumulated(ClearWords(buf, bigHost, 4)) && rp14 == Accumulated(ClearWords(buf, bigHost, 5))
      && (stepSize == 512 ==> rp16 == Accumulated(ClearWords(buf, bigHost, 6)))
  {
    hide Xor, XorWords, IndexBit, ClearWords, Words, LoadAt, Run, AllRows;
    ghost var buf := data[off..off + stepSize];
    ghost var ws := Words(buf, bigHost);
    ghost var rs := AllRows(buf, bigHost);
    var bp := off;
    var eccsizeMult := if stepSize == 256 then 1 else 2;
    var tmppar := Word(0);
    par, rp4, rp6, rp8, rp10 := Word(0), Word(0), Word(0), Word(0), Word(0);
    rp12, rp14, rp16 := Word(0), Word(0), Word(0);
    NothingYet(ws, rs);

    var i := 0;
    while i < eccsizeMult * 4
      invariant 0 <= i <= eccsizeMult * 4 && bp == off + 64 * i
      invariant par == XorWords(ws, 16 * i)
      invariant rp4 == XorWords(rs[0], 16 * i) && rp6 == XorWords(rs[1], 16 * i)
      invariant rp8 == XorWords(rs[2], 16 * i) && rp10 == XorWords(rs[3], 16 * i)
      invariant rp12 == XorWords(rs[4], 16 * i) && rp14 == XorWords(rs[5], 16 * i)
      invariant eccsizeMult == 2 ==> rp16 == XorWords(rs[6], 16 * i)
    {
      ghost var w := ws[16 * i..16 * i + 16];
      LoadTurn(data, off, stepSize, i, bp, w, bigHost);
      Turn(buf, bigHost, i, ws, rs, w);
      tmppar, rp4, rp6, rp8, rp10 := AddTurn(data, bp, bigHost, w, rp4, rp6, rp8, rp10);
      bp := bp + 64;
      par := Xor(par, tmppar);
      if !IndexBit(i, 0) {
        rp12 := Xor(rp12, tmppar);
      }
      if !IndexBit(i, 1) {
        rp14 := Xor(rp14, tmppar);
      }
      if eccsizeMult == 2 && !IndexBit(i, 2) {
        rp16 := Xor(rp16, tmppar);
      }
      i := i + 1;
    }
  }

  lemma NothingYet(ws: seq<Word>, rs: seq<seq<Word>>)
    ensures XorWords(ws, 0) == Word(0)
    ensures forall k :: 0 <= k < |rs| ==> XorWords(rs[k], 0) == Word(0)
  {
  }

  /** Eight table look-ups, shifted and combined. */
  function CodeByte(x0: Byte, x1: Byte, x2: Byte, x3: Byte, x4: Byte, x5: Byte, x6: Byte, x7: Byte): Byte {
    (InvParity(x7) << 7) | (InvParity(x6) << 6) | (InvParity(x5) << 5) | (InvParity(x4) << 4) |
    (InvParity(x3) << 3) | (InvParity(x2) << 2) | (InvParity(x1) << 1) | InvParity(x0)
  }

  lemma CodeByteIsPack(x0: Byte, x1: Byte, x2: Byte, x3: Byte, x4: Byte, x5: Byte, x6: Byte, x7: Byte, s: seq<bool>)
    requires |s| == 8
    requires s[0] == !Odd(x0) && s[1] == !Odd(x1) && s[2] == !Odd(x2) && s[3] == !Odd(x3)
    requires s[4] == !Odd(x4) && s[5] == !Odd(x5) && s[6] == !Odd(x6) && s[7] == !Odd(x7)
    ensures CodeByte(x0, x1, x2, x3, x4, x5, x6, x7) == Pack(s)
  {
    hide Odd;
  }

  /** The two bits of a pair of row parities, one accumulated and one derived from it. */
  lemma RowPair(buf: seq<Byte>, big: bool, k: nat, all: Byte, even: Byte, odd: Byte)
    requires WholeWords(buf)
    requires all == Fold(Accumulated(Words(buf, big)))
    requires even == Fold(Accumulated(ClearWords(buf, big, k))) && odd == XorB(all, even)
    ensures Odd(even) == OddParity(buf, k + 5, false) && Odd(odd) == OddParity(buf, k + 5, true)
  {
    hide Odd, OddParity, Fold;
    ParityOfClearWords(buf, big, k);
    ParityOfComplement(buf, big, k + 5);
    OddLinear(all, even);
  }

  /** The parities kept inside a word, read off under the configured byte order. */
  lemma InWordPairs(buf: seq<Byte>, bigHost: bool, bigEndian: bool, par: Word)
    requires WholeWords(buf) && par == Accumulated(Words(buf, bigHost))
    ensures var swapped := bigEndian != bigHost;
      && Odd(if bigEndian then UpperHalf(par) else LowerHalf(par)) == OddParity(buf, 4, swapped)
      && Odd(if bigEndian then LowerHalf(par) else UpperHalf(par)) == OddParity(buf, 4, !swapped)
      && Odd(if bigEndian then OddLanes(par) else EvenLanes(par)) == OddParity(buf, 3, swapped)
      && Odd(if bigEndian then EvenLanes(par) else OddLanes(par)) == OddParity(buf, 3, !swapped)
  {
    hide Odd, OddParity, Fold, UpperHalf, LowerHalf, OddLanes, EvenLanes, Keep;
    UpperHalfIsFold(par); LowerHalfIsFold(par); OddLanesIsFold(par); EvenLanesIsFold(par);
    ParityInWords(buf, bigHost, 0, true); ParityInWords(buf, bigHost, 0, false);
    ParityInWords(buf, bigHost, 1, true); ParityInWords(buf, bigHost, 1, false);
  }

  /** The even-numbered accumulator of row `k` and its complement in the block. */
  predicate IsRow(buf: seq<Byte>, big: bool, k: nat, even: Byte, odd: Byte)
    requires WholeWords(buf)
  {
    && even == Fold(Accumulated(ClearWords(buf, big, k)))
    && odd == XorB(Fold(Accumulated(Words(buf, big))), even)
  }

  lemma LowByte(buf: seq<Byte>, big: bool, swapped: bool, rp0: Byte, rp1: Byte, rp2: Byte, rp3: Byte,
                rp4: Byte, rp5: Byte, rp6: Byte, rp7: Byte)
    requires WholeWords(buf)
    requires Odd(rp0) == OddParity(buf, 3, swapped) && Odd(rp1) == OddParity(buf, 3, !swapped)
    requires Odd(rp2) == OddParity(buf, 4, swapped) && Odd(rp3) == OddParity(buf, 4, !swapped)
    requires IsRow(buf, big, 0, rp4, rp5) && IsRow(buf, big, 1, rp6, rp7)
    ensures CodeByte(rp0, rp1, rp2, rp3, rp4, rp5, rp6, rp7) == RowByte(buf, 3, swapped)
  {
    hide Odd, OddParity, Fold, Pack, CodeByte, XorB, Accumulated;
    RowPair(buf, big, 0, Fold(Accumulated(Words(buf, big))), rp4, rp5);
    RowPair(buf, big, 1, Fold(Accumulated(Words(buf, big))), rp6, rp7);
    CodeByteIsPack(rp0, rp1, rp2, rp3, rp4, rp5, rp6, rp7, RowBits(buf, 3, swapped));
  }

  lemma HighByte(buf: seq<Byte>, big: bool, swapped: bool, rp8: Byte, rp9: Byte, rp10: Byte, rp11: Byte,
                 rp12: Byte, rp13: Byte, rp14: Byte, rp15: Byte)
    requires WholeWords(buf)
    requires IsRow(buf, big, 2, rp8, rp9) && IsRow(buf, big, 3, rp10, rp11)
    requires IsRow(buf, big, 4, rp12, rp13) && IsRow(buf, big, 5, rp14, rp15)
    ensures CodeByte(rp8, rp9, rp10, rp11, rp12, rp13, rp14, rp15) == RowByte(buf, 7, swapped)
  {
    hide Odd, OddParity, Fold, Pack, CodeByte, XorB, Accumulated;
    var all := Fold(Accumulated(Words(buf, big)));
    RowPair(buf, big, 2, all, rp8, rp9); RowPair(buf, big, 3, all, rp10, rp11);
    RowPair(buf, big, 4, all, rp12, rp13); RowPair(buf, big, 5, all, rp14, rp15);
    CodeByteIsPack(rp8, rp9, rp10, rp11, rp12, rp13, rp14, rp15, RowBits(buf, 7, swapped));
  }

  lemma LowestColumnBits(buf: seq<Byte>)
    requires |buf| == 256 || |buf| == 512
    ensures ColumnBits(buf)[0] == (|buf| == 256 || !OddParity(buf, 11, false))
    ensures ColumnBits(buf)[1] == (|buf| == 256 || !OddParity(buf, 11, true))
  {
    hide OddParity;
    assert ColumnBits(buf)[0] == (|buf| == 256 || CodeBit(buf, 11, false, false));
    assert ColumnBits(buf)[1] == (|buf| == 256 || CodeBit(buf, 11, true, false));
  }

  lemma NoBits(b: Byte)
    requires b == 0
    ensures !Odd(b)
  {
  }

  lemma ThirdByte(buf: seq<Byte>, big: bool, rp16: Byte, rp17: Byte, all: Byte)
    requires |buf| == 256 || |buf| == 512
    requires all == Fold(Accumulated(Words(buf, big)))
    requires if |buf| == 256 then rp16 == rp17 == 0 else IsRow(buf, big, 6, rp16, rp17)
    ensures CodeByte(rp16, rp17, Masked(all, 0x55), Masked(all, 0xaa), Masked(all, 0x33),
                     Masked(all, 0xcc), Masked(all, 0x0f), Masked(all, 0xf0)) == ColumnByte(buf)
  {
    hide Odd, OddParity, Fold, Pack, CodeByte, XorB, Accumulated, Masked;
    ParityOfColumn(buf, big, 0, false); ParityOfColumn(buf, big, 0, true);
    ParityOfColumn(buf, big, 1, false); ParityOfColumn(buf, big, 1, true);
    ParityOfColumn(buf, big, 2, false); ParityOfColumn(buf, big, 2, true);
    if |buf| == 256 { NoBits(rp16); NoBits(rp17); } else { RowPair(buf, big, 6, all, rp16, rp17); }
    LowestColumnBits(buf);
    CodeByteIsPack(rp16, rp17, Masked(all, 0x55), Masked(all, 0xaa), Masked(all, 0x33),
                   Masked(all, 0xcc), Masked(all, 0x0f), Masked(all, 0xf0), ColumnBits(buf));
  }

  /** ecc_sw_hamming_calculate. `bigHost` is the byte order the host loads words in,
      `bigEndian` the one the codec was configured with. */
  method Calculate(data: array<Byte>, off: nat, stepSize: nat, smOrder: bool, bigEndian: bool, bigHost: bool)
    returns (code: seq<Byte>)
    requires stepSize == 256 || stepSize == 512
    requires off + stepSize <= data.Length
    ensures code == Ecc(data[off..off + stepSize], smOrder, bigEndian != bigHost)
  {
    hide Odd, OddParity, Fold, UpperHalf, LowerHalf, OddLanes, EvenLanes, CodeByte, XorB, Words, ClearWords,
      Accumulated, Masked, RowByte, ColumnByte;
    ghost var buf := data[off..off + stepSize];
    var par, w4, w6, w8, w10, w12, w14, w16 := Accumulate(data, off, stepSize, bigHost);
    var rp4, rp6, rp8, rp10 := Fold(w4), Fold(w6), Fold(w8), Fold(w10);
    var rp12, rp14, rp16 := Fold(w12), Fold(w14), Fold(w16);

    var rp0, rp1, rp2, rp3;
    if bigEndian {
      rp2, rp3 := UpperHalf(par), LowerHalf(par);
      rp0, rp1 := OddLanes(par), EvenLanes(par);
    } else {
      rp3, rp2 := UpperHalf(par), LowerHalf(par);
      rp1, rp0 := OddLanes(par), EvenLanes(par);
    }
    InWordPairs(buf, bigHost, bigEndian, par);

    var all := Fold(par);
    var rp5, rp7, rp9, rp11 := XorB(all, rp4), XorB(all, rp6), XorB(all, rp8), XorB(all, rp10);
    var rp13, rp15, rp17 := XorB(all, rp12), XorB(all, rp14), XorB(all, rp16);

    var low := CodeByte(rp0, rp1, rp2, rp3, rp4, rp5, rp6, rp7);
    LowByte(buf, bigHost, bigEndian != bigHost, rp0, rp1, rp2, rp3, rp4, rp5, rp6, rp7);
    var high := CodeByte(rp8, rp9, rp10, rp11, rp12, rp13, rp14, rp15);
    HighByte(buf, bigHost, bigEndian != bigHost, rp8, rp9, rp10, rp11, rp12, rp13, rp14, rp15);

    if stepSize == 256 {
      // A 256-byte block stores ones in the two lowest bits: the inverted parity of nothing.
      rp16, rp17 := 0, 0;
    }
    var column := CodeByte(rp16, rp17, Masked(all, 0x55), Masked(all, 0xaa), Masked(all, 0x33),
                           Masked(all, 0xcc), Masked(all, 0x0f), Masked(all, 0xf0));
    ThirdByte(buf, bigHost, rp16, rp17, all);
    code := if smOrder then [low, high, column] else [high, low, column];
  }
}
