// hashmap_sip: SipHash-2-4, the hash of the names of spans, and where the names of the shipped
// configuration go.
module SipHash {
  import opened RobinHood

  datatype State = State(v0: bv64, v1: bv64, v2: bv64, v3: bv64)

  function Rotl13(x: bv64): bv64 { (x << 13) | (x >> 51) }
  function Rotl16(x: bv64): bv64 { (x << 16) | (x >> 48) }
  function Rotl17(x: bv64): bv64 { (x << 17) | (x >> 47) }
  function Rotl21(x: bv64): bv64 { (x << 21) | (x >> 43) }
  function Rotl32(x: bv64): bv64 { (x << 32) | (x >> 32) }

  /** SIPROUND */
  function Round(s: State): State {
    var a0 := s.v0 + s.v1;
    var a1 := Rotl13(s.v1) ^ a0;
    var b0 := Rotl32(a0);
    var a2 := s.v2 + s.v3;
    var a3 := Rotl16(s.v3) ^ a2;
    var c0 := b0 + a3;
    var b3 := Rotl21(a3) ^ c0;
    var b2 := a2 + a1;
    var b1 := Rotl17(a1) ^ b2;
    State(c0, b1, Rotl32(b2), b3)
  }

  function TwoRounds(s: State): State {
    Round(Round(s))
  }

  function Nibble(n: nat): bv64
    requires n < 16
  {
    match n
    case 0 => 0x0 case 1 => 0x1 case 2 => 0x2 case 3 => 0x3 case 4 => 0x4 case 5 => 0x5 case 6 => 0x6 case 7 => 0x7
    case 8 => 0x8 case 9 => 0x9 case 10 => 0xa case 11 => 0xb case 12 => 0xc case 13 => 0xd case 14 => 0xe case _ => 0xf
  }

  function ByteOf(n: nat): bv64
    requires n < 256
  {
    (Nibble(n / 16) << 4) | Nibble(n % 16)
  }

  /** The bytes from `i` up to `n`, the first the lowest. */
  function Word(name: string, i: nat, n: nat): bv64
    requires i <= n <= |name|
    decreases n - i
  {
    if i == n then 0 else ByteOf(name[i] as int % 256) | (Word(name, i + 1, n) << 8)
  }

  function Absorb(s: State, m: bv64): State {
    var r := TwoRounds(s.(v3 := s.v3 ^ m));
    r.(v0 := r.v0 ^ m)
  }

  /** The last word: the bytes left over, with the length in the highest byte. */
  function LastWord(rest: string, length: nat): bv64
    requires |rest| < 8
  {
    Word(rest, 0, |rest|) | (ByteOf(length % 256) << 56)
  }

  function End(s: State): bv64 {
    var r := TwoRounds(TwoRounds(s.(v2 := s.v2 ^ 0xff)));
    r.v0 ^ r.v1 ^ r.v2 ^ r.v3
  }

  /** From state `s` on, with `rest` of the name to come. */
  function Finish(s: State, rest: string, length: nat): bv64
    decreases |rest|
  {
    if |rest| >= 8 then Finish(Absorb(s, Word(rest, 0, 8)), rest[8..], length)
    else End(Absorb(s, LastWord(rest, length)))
  }

  /** SIP64 with both seeds zero. */
  function Sip(name: string): bv64 {
    Finish(State(0x736f6d6570736575, 0x646f72616e646f6d, 0x6c7967656e657261, 0x7465646279746573), name, |name|)
  }

  /** pipeline_page_layout_span_hash, as the map calls it */
  function SpanHash(name: string): nat {
    Sip(name) as nat
  }

  // The bytes of the names.

  lemma {:induction false} ByteUnderscore()
    ensures ByteOf('_' as int % 256) == 0x5f
  {
  }

  lemma {:induction false} ByteA()
    ensures ByteOf('a' as int % 256) == 0x61
  {
  }

  lemma {:induction false} ByteB()
    ensures ByteOf('b' as int % 256) == 0x62
  {
  }

  lemma {:induction false} ByteC()
    ensures ByteOf('c' as int % 256) == 0x63
  {
  }

  lemma {:induction false} ByteD()
    ensures ByteOf('d' as int % 256) == 0x64
  {
  }

  lemma {:induction false} ByteE()
    ensures ByteOf('e' as int % 256) == 0x65
  {
  }

  lemma {:induction false} ByteM()
    ensures ByteOf('m' as int % 256) == 0x6d
  {
  }

  lemma {:induction false} ByteO()
    ensures ByteOf('o' as int % 256) == 0x6f
  {
  }

  lemma {:induction false} ByteP()
    ensures ByteOf('p' as int % 256) == 0x70
  {
  }

  lemma {:induction false} ByteR()
    ensures ByteOf('r' as int % 256) == 0x72
  {
  }

  lemma {:induction false} ByteS()
    ensures ByteOf('s' as int % 256) == 0x73
  {
  }

  lemma {:induction false} ByteT()
    ensures ByteOf('t' as int % 256) == 0x74
  {
  }

  lemma {:induction false} ByteU()
    ensures ByteOf('u' as int % 256) == 0x75
  {
  }

  lemma {:induction false} ByteV()
    ensures ByteOf('v' as int % 256) == 0x76
  {
  }

  // Round by round.

  lemma {:induction false} DataWord0()
    ensures Word("data", 0, 4) == 0x0000000061746164
  {
    hide ByteOf;
    ByteD(); ByteA(); ByteT();
    assert Word("data", 3, 4) == 0x0000000000000061;
    assert Word("data", 2, 4) == 0x0000000000006174;
    assert Word("data", 1, 4) == 0x0000000000617461;
  }

  lemma {:induction false} DataLast()
    ensures LastWord("data", 4) == 0x0400000061746164
  {
    hide Word;
    DataWord0();
    assert ByteOf(4 % 256) << 56 == 0x0400000000000000;
  }

  lemma {:induction false} DataRounds0()
    ensures Absorb(State(0x736f6d6570736575, 0x646f72616e646f6d,
                         0x6c7967656e657261, 0x7465646279746573), 0x0400000061746164)
         == State(0xb780cfdbad6e4219, 0x315d576cdb56db29,
                  0x60848e33f3923739, 0x35488bd029dfdeb4)
  {
  }

  lemma {:induction false} DataEnd()
    ensures End(State(0xb780cfdbad6e4219, 0x315d576cdb56db29,
                      0x60848e33f3923739, 0x35488bd029dfdeb4)) == 0xc17d6c506f87a3b3
  {
  }

  lemma {:induction false} DataHash()
    ensures Sip("data") == 0xc17d6c506f87a3b3
  {
    hide Absorb, Word, LastWord, End;
    DataLast();
    DataRounds0();
    DataEnd();
  }

  lemma {:induction false} BbmWord0()
    ensures Word("bbm", 0, 3) == 0x00000000006d6262
  {
    hide ByteOf;
    ByteB(); ByteM();
    assert Word("bbm", 2, 3) == 0x000000000000006d;
    assert Word("bbm", 1, 3) == 0x0000000000006d62;
  }

  lemma {:induction false} BbmLast()
    ensures LastWord("bbm", 3) == 0x03000000006d6262
  {
    hide Word;
    BbmWord0();
    assert ByteOf(3 % 256) << 56 == 0x0300000000000000;
  }

  lemma {:induction false} BbmRounds0()
    ensures Absorb(State(0x736f6d6570736575, 0x646f72616e646f6d,
                         0x6c7967656e657261, 0x7465646279746573), 0x03000000006d6262)
         == State(0x77d5775de232eadf, 0x80c653fc34003eb0,
                  0xeb1bc7aa748ef625, 0xa3453be148e1cc9d)
  {
  }

  lemma {:induction false} BbmEnd()
    ensures End(State(0x77d5775de232eadf, 0x80c653fc34003eb0,
                      0xeb1bc7aa748ef625, 0xa3453be148e1cc9d)) == 0xb200811bc01e7498
  {
  }

  lemma {:induction false} BbmHash()
    ensures Sip("bbm") == 0xb200811bc01e7498
  {
    hide Absorb, Word, LastWord, End;
    BbmLast();
    BbmRounds0();
    BbmEnd();
  }

  lemma {:induction false} OobWord0()
    ensures Word("oob", 0, 3) == 0x0000000000626f6f
  {
    hide ByteOf;
    ByteO(); ByteB();
    assert Word("oob", 2, 3) == 0x0000000000000062;
    assert Word("oob", 1, 3) == 0x000000000000626f;
  }

  lemma {:induction false} OobLast()
    ensures LastWord("oob", 3) == 0x0300000000626f6f
  {
    hide Word;
    OobWord0();
    assert ByteOf(3 % 256) << 56 == 0x0300000000000000;
  }

  lemma {:induction false} OobRounds0()
    ensures Absorb(State(0x736f6d6570736575, 0x646f72616e646f6d,
                         0x6c7967656e657261, 0x7465646279746573), 0x0300000000626f6f)
         == State(0xe8bbf8bc3eeae461, 0x87c164c85818d1bf,
                  0xc30f28a573ec9a58, 0x29202960c8e30a5e)
  {
  }

  lemma {:induction false} OobEnd()
    ensures End(State(0xe8bbf8bc3eeae461, 0x87c164c85818d1bf,
                      0xc30f28a573ec9a58, 0x29202960c8e30a5e)) == 0x9244feddf9e97cd0
  {
  }

  lemma {:induction false} OobHash()
    ensures Sip("oob") == 0x9244feddf9e97cd0
  {
    hide Absorb, Word, LastWord, End;
    OobLast();
    OobRounds0();
    OobEnd();
  }

  lemma {:induction false} UserOobWord0()
    ensures Word("user_oob", 0, 8) == 0x626f6f5f72657375
  {
    hide ByteOf;
    ByteU(); ByteS(); ByteE(); ByteR(); ByteUnderscore(); ByteO(); ByteB();
    assert Word("user_oob", 7, 8) == 0x0000000000000062;
    assert Word("user_oob", 6, 8) == 0x000000000000626f;
    assert Word("user_oob", 5, 8) == 0x0000000000626f6f;
    assert Word("user_oob", 4, 8) == 0x00000000626f6f5f;
    assert Word("user_oob", 3, 8) == 0x000000626f6f5f72;
    assert Word("user_oob", 2, 8) == 0x0000626f6f5f7265;
    assert Word("user_oob", 1, 8) == 0x00626f6f5f726573;
  }

  lemma {:induction false} UserOobRounds0()
    ensures Absorb(State(0x736f6d6570736575, 0x646f72616e646f6d,
                         0x6c7967656e657261, 0x7465646279746573), 0x626f6f5f72657375)
         == State(0x6c877297bde772b4, 0xe9a863be8698764a,
                  0xb4d547cec46eb83f, 0x7aa9c0d6c5f364e4)
  {
  }

  lemma {:induction false} UserOobLast()
    ensures LastWord("", 8) == 0x0800000000000000
  {
    hide Word;
    assert Word("", 0, 0) == 0 by { NoWord(); }
    assert ByteOf(8 % 256) << 56 == 0x0800000000000000;
  }

  lemma {:induction false} UserOobRounds1()
    ensures Absorb(State(0x6c877297bde772b4, 0xe9a863be8698764a,
                         0xb4d547cec46eb83f, 0x7aa9c0d6c5f364e4), 0x0800000000000000)
         == State(0x35da38ac401f9794, 0x28c57fcafc1b2937,
                  0x07513da8665ce0d4, 0xb06adba49ef8c525)
  {
  }

  lemma {:induction false} UserOobEnd()
    ensures End(State(0x35da38ac401f9794, 0x28c57fcafc1b2937,
                      0x07513da8665ce0d4, 0xb06adba49ef8c525)) == 0xac1bbcbc4dc2153a
  {
  }

  lemma {:induction false} UserOobHash()
    ensures Sip("user_oob") == 0xac1bbcbc4dc2153a
  {
    hide Absorb, Word, LastWord, End;
    UserOobWord0();
    UserOobRounds0();
    UserOobLast();
    UserOobRounds1();
    UserOobEnd();
    assert "user_oob"[8..] == "";
  }

  lemma {:induction false} ReservedWord0()
    ensures Word("reserved", 0, 8) == 0x6465767265736572
  {
    hide ByteOf;
    ByteR(); ByteE(); ByteS(); ByteV(); ByteD();
    assert Word("reserved", 7, 8) == 0x0000000000000064;
    assert Word("reserved", 6, 8) == 0x0000000000006465;
    assert Word("reserved", 5, 8) == 0x0000000000646576;
    assert Word("reserved", 4, 8) == 0x0000000064657672;
    assert Word("reserved", 3, 8) == 0x0000006465767265;
    assert Word("reserved", 2, 8) == 0x0000646576726573;
    assert Word("reserved", 1, 8) == 0x0064657672657365;
  }

  lemma {:induction false} ReservedRounds0()
    ensures Absorb(State(0x736f6d6570736575, 0x646f72616e646f6d,
                         0x6c7967656e657261, 0x7465646279746573), 0x6465767265736572)
         == State(0x23765e9a6f104581, 0x822dfc6e2db75d14,
                  0x810850e247b2c59a, 0xde7e49cb3815c93a)
  {
  }

  lemma {:induction false} ReservedLast()
    ensures LastWord("", 8) == 0x0800000000000000
  {
    hide Word;
    assert Word("", 0, 0) == 0 by { NoWord(); }
    assert ByteOf(8 % 256) << 56 == 0x0800000000000000;
  }

  lemma {:induction false} ReservedRounds1()
    ensures Absorb(State(0x23765e9a6f104581, 0x822dfc6e2db75d14,
                         0x810850e247b2c59a, 0xde7e49cb3815c93a), 0x0800000000000000)
         == State(0x6f58bf25c9657c61, 0xdd3b285c8d7ec98d,
                  0x0d1ff3a180478b68, 0xc8c08f4e272a7ae3)
  {
  }

  lemma {:induction false} ReservedEnd()
    ensures End(State(0x6f58bf25c9657c61, 0xdd3b285c8d7ec98d,
                      0x0d1ff3a180478b68, 0xc8c08f4e272a7ae3)) == 0x0c3bc99ba44412d5
  {
  }

  lemma {:induction false} ReservedHash()
    ensures Sip("reserved") == 0x0c3bc99ba44412d5
  {
    hide Absorb, Word, LastWord, End;
    ReservedWord0();
    ReservedRounds0();
    ReservedLast();
    ReservedRounds1();
    ReservedEnd();
    assert "reserved"[8..] == "";
  }

  lemma {:induction false} EccWord0()
    ensures Word("ecc", 0, 3) == 0x0000000000636365
  {
    hide ByteOf;
    ByteE(); ByteC();
    assert Word("ecc", 2, 3) == 0x0000000000000063;
    assert Word("ecc", 1, 3) == 0x0000000000006363;
  }

  lemma {:induction false} EccLast()
    ensures LastWord("ecc", 3) == 0x0300000000636365
  {
    hide Word;
    EccWord0();
    assert ByteOf(3 % 256) << 56 == 0x0300000000000000;
  }

  lemma {:induction false} EccRounds0()
    ensures Absorb(State(0x736f6d6570736575, 0x646f72616e646f6d,
                         0x6c7967656e657261, 0x7465646279746573), 0x0300000000636365)
         == State(0x627f335bc1a2ec67, 0x87e23262173d1dcd,
                  0x0c52e4d773cd15f0, 0x79730ba6b4da36ba)
  {
  }

  lemma {:induction false} EccEnd()
    ensures End(State(0x627f335bc1a2ec67, 0x87e23262173d1dcd,
                      0x0c52e4d773cd15f0, 0x79730ba6b4da36ba)) == 0x52b2be9be61811c9
  {
  }

  lemma {:induction false} EccHash()
    ensures Sip("ecc") == 0x52b2be9be61811c9
  {
    hide Absorb, Word, LastWord, End;
    EccLast();
    EccRounds0();
    EccEnd();
  }

  lemma {:induction false} SpareWord0()
    ensures Word("spare", 0, 5) == 0x0000006572617073
  {
    hide ByteOf;
    ByteS(); ByteP(); ByteA(); ByteR(); ByteE();
    assert Word("spare", 4, 5) == 0x0000000000000065;
    assert Word("spare", 3, 5) == 0x0000000000006572;
    assert Word("spare", 2, 5) == 0x0000000000657261;
    assert Word("spare", 1, 5) == 0x0000000065726170;
  }

  lemma {:induction false} SpareLast()
    ensures LastWord("spare", 5) == 0x0500006572617073
  {
    hide Word;
    SpareWord0();
    assert ByteOf(5 % 256) << 56 == 0x0500000000000000;
  }

  lemma {:induction false} SpareRounds0()
    ensures Absorb(State(0x736f6d6570736575, 0x646f72616e646f6d,
                         0x6c7967656e657261, 0x7465646279746573), 0x0500006572617073)
         == State(0xfa17ffbe8ca99c21, 0x7c6fb313d43dd7d6,
                  0x6d9b893b93c811a6, 0x5c99a99c80472621)
  {
  }

  lemma {:induction false} SpareEnd()
    ensures End(State(0xfa17ffbe8ca99c21, 0x7c6fb313d43dd7d6,
                      0x6d9b893b93c811a6, 0x5c99a99c80472621)) == 0x48c4d0423b08e648
  {
  }

  lemma {:induction false} SpareHash()
    ensures Sip("spare") == 0x48c4d0423b08e648
  {
    hide Absorb, Word, LastWord, End;
    SpareLast();
    SpareRounds0();
    SpareEnd();
  }

  lemma {:induction false} NoWord()
    ensures Word("", 0, 0) == 0
  {
  }

  // Where the names go in a map of sixteen buckets.

  function HomeOf(name: string): nat {
    Home(Clip(SpanHash(name)), 16)
  }

  /** The names of the shipped configuration have homes of their own. */
  lemma {:induction false} ShippedHomes()
    ensures HomeOf("data") == 3
    ensures HomeOf("bbm") == 8
    ensures HomeOf("oob") == 0
    ensures HomeOf("user_oob") == 10
    ensures HomeOf("reserved") == 5
  {
    hide Sip;
    DataHash(); NumberOf(0xc17d6c506f87a3b3, 13942419114133267379);
    BbmHash(); NumberOf(0xb200811bc01e7498, 12826393694938494104);
    OobHash(); NumberOf(0x9244feddf9e97cd0, 10539829257287859408);
    UserOobHash(); NumberOf(0xac1bbcbc4dc2153a, 12401713515839231290);
    ReservedHash(); NumberOf(0x0c3bc99ba44412d5, 881519822394102485);
  }

  /** Of these three names, the last has the home of the first, next to that of the second. */
  lemma {:induction false} CrowdedHomes()
    ensures HomeOf("bbm") == 8 && HomeOf("ecc") == 9 && HomeOf("spare") == 8
  {
    hide Sip;
    BbmHash(); NumberOf(0xb200811bc01e7498, 12826393694938494104);
    EccHash(); NumberOf(0x52b2be9be61811c9, 5959034833754132937);
    SpareHash(); NumberOf(0x48c4d0423b08e648, 5243544849042957896);
  }

  lemma {:induction false} NumberOf(x: bv64, n: nat)
    requires x as nat == n
    ensures Home(Clip(x as nat), 16) == n % 16
  {
    assert n % 0x1_0000_0000_0000 % 16 == n % 16;
  }
}
