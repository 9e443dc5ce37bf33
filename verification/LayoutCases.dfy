// Configurations that pass all checks, and still do not give a layout.
module LayoutCases {
  import opened Wrappers
  import opened Sizing
  import opened Layout
  import opened LayoutProperties
  import opened SpanPointers
  import opened LayoutBuilder
  import SipHash

  predicate NamesDiffer(cfg: seq<CfgPart>) {
    forall i, j :: 0 <= i < j < |cfg| ==> cfg[i].span != cfg[j].span
  }

  lemma {:induction false} DifferentNames(cfg: seq<CfgPart>, n: nat)
    requires n <= |cfg| && NamesDiffer(cfg)
    ensures |NameList(cfg, n)| == n && forall i :: 0 <= i < n ==> NameList(cfg, n)[i] == cfg[i].span
  {
    if n > 0 { DifferentNames(cfg, n - 1); }
  }

  /** Parts that follow each other in the page, none of them empty. */
  predicate Following(pageSize: nat, cfg: seq<CfgPart>) {
    && pageSize < TWO64
    && (forall i :: 0 <= i < |cfg| ==>
          End(cfg[i].range) <= pageSize && cfg[i].range.length > 0 && ValidSpanName(cfg[i].span))
    && forall i, j :: 0 <= i < j < |cfg| ==> End(cfg[i].range) <= cfg[j].range.start
  }

  lemma {:induction false} FollowingPass(pageSize: nat, cfg: seq<CfgPart>, sorted: seq<Part>)
    requires Following(pageSize, cfg) && SortOf(Placed(cfg), sorted)
    ensures FirstError(pageSize, cfg, |cfg|) == None && AdjacentApart(sorted) && !HasEmptyName(cfg)
  {
    hide FirstError, ValidSpanName, SortOf;
    assert StrictlySorted(Placed(cfg));
    SortIsUnique(Placed(cfg), sorted);
    assert forall i :: 0 <= i < |cfg| ==> CheckPart(pageSize, cfg[i]);
  }

  /** Ten parts of ten bytes, each with a name of its own. */
  const TEN: seq<CfgPart> :=
    seq(10, (i: nat) requires i < 10 => CfgPart(Range(10 * i, 10), ["abcdefghij"[i]]))

  /** The tenth name replaces the buckets that the parts before it point into. */
  lemma GrowsForTenth()
    ensures AfterSet(Shape(16, 9, 16, 1, 0), false, true).nbuckets == 32
  {
  }

  lemma {:induction false} TenFollow()
    ensures Following(100, TEN) && NamesDiffer(TEN)
  {
    assert forall i :: 0 <= i < 10 ==> TEN[i].span == ["abcdefghij"[i]] && |TEN[i].span| == 1;
    assert forall i, j :: 0 <= i < j < 10 ==> "abcdefghij"[i] != "abcdefghij"[j];
    forall i, j | 0 <= i < j < 10
      ensures TEN[i].span != TEN[j].span
    {
      assert TEN[i].span[0] != TEN[j].span[0];
    }
  }

  /** They pass all checks, whatever the sort and whatever the hash, and parts are left behind. */
  method TenNames(qsort: seq<Part> -> seq<Part>, h: string -> nat) returns (r: Outcome)
    requires forall parts :: SortOf(parts, qsort(parts))
    ensures r == Strayed
  {
    hide SortOf, NameList, Settled, AdjacentApart, HasEmptyName, FirstError;
    TenFollow();
    DifferentNames(TEN, 10);
    assert SortOf(Placed(TEN), qsort(Placed(TEN)));
    FollowingPass(100, TEN, qsort(Placed(TEN)));
    r := AddParts(100, TEN, qsort, h);
  }

  /** Three parts; the name of the last displaces that of the second. */
  const CROWDED := [CfgPart(Range(0, 10), "bbm"), CfgPart(Range(10, 10), "ecc"), CfgPart(Range(20, 10), "spare")]

  lemma {:induction false} CrowdedFollow()
    ensures Following(30, CROWDED) && NamesDiffer(CROWDED)
  {
    hide ValidSpanName;
    CrowdedNamesValid();
    assert |"bbm"| == 3 && |"ecc"| == 3 && |"spare"| == 5 && "bbm"[0] != "ecc"[0];
  }

  lemma {:induction false} CrowdedNamesValid()
    ensures ValidSpanName("bbm") && ValidSpanName("ecc") && ValidSpanName("spare")
  {
  }

  lemma {:induction false} CrowdedStray()
    ensures !SpansStay(CROWDED, SipHash.SpanHash)
  {
    hide SipHash.Sip, Settled, NameList;
    CrowdedFollow();
    DifferentNames(CROWDED, 3);
    assert NameList(CROWDED, 3) == ["bbm", "ecc", "spare"];
    SipHash.CrowdedHomes();
    CrowdedNames(SipHash.SpanHash, "bbm", "ecc", "spare");
  }

  /** With the hash that the code uses, three names are enough. */
  method ThreeNames(qsort: seq<Part> -> seq<Part>) returns (r: Outcome)
    requires forall parts :: SortOf(parts, qsort(parts))
    ensures r == Strayed
  {
    hide SortOf, SpansStay, AdjacentApart, HasEmptyName, FirstError, NamesDiffer;
    CrowdedFollow();
    CrowdedStray();
    assert SortOf(Placed(CROWDED), qsort(Placed(CROWDED)));
    FollowingPass(30, CROWDED, qsort(Placed(CROWDED)));
    r := AddParts(30, CROWDED, qsort, SipHash.SpanHash);
  }

  const EMPTY := [CfgPart(Range(0, 0), "a")]

  lemma {:induction false} OneNameStays(h: string -> nat)
    ensures SpansStay(EMPTY, h)
  {
    assert NameList(EMPTY, 0) == [];
    assert NameList(EMPTY, 1) == ["a"];
    SettledNext(h, [], "a");
    assert [] + ["a"] == ["a"];
  }

  /** One empty part: the assertion on the length of its span fails. */
  method EmptyPart(pageSize: nat, qsort: seq<Part> -> seq<Part>, h: string -> nat) returns (r: Outcome)
    requires forall parts :: SortOf(parts, qsort(parts))
    ensures r == Aborted
  {
    hide SortOf, SpansStay, AdjacentApart, HasEmptyName, FirstError;
    assert SortOf(Placed(EMPTY), qsort(Placed(EMPTY)));
    EmptyPartAborts(pageSize, qsort(Placed(EMPTY)));
    OneNameStays(h);
    r := AddParts(pageSize, EMPTY, qsort, h);
  }
}
