// How many buckets the hash map has, and what its resizing costs over a run.
module Sizing {

  predicate PowerOfTwo(n: nat) {
    n == 1 || (n > 1 && n % 2 == 0 && PowerOfTwo(n / 2))
  }

  lemma {:induction false} PowersApart(p: nat, q: nat)
    requires PowerOfTwo(p) && PowerOfTwo(q) && q < p
    ensures 2 * q <= p
  {
    if q > 1 { PowersApart(p / 2, q / 2); }
  }

  /** Bitwise and, as `hash & mask` computes it. */
  function And(a: nat, b: nat): nat {
    if a == 0 || b == 0 then 0 else 2 * And(a / 2, b / 2) + (if a % 2 == 1 && b % 2 == 1 then 1 else 0)
  }

  lemma DivMod(a: nat, n: nat) returns (q: nat, s: nat)
    requires n > 0
    ensures a == q * n + s && s < n && s == a % n
  {
    q, s := a / n, a % n;
  }

  lemma MultipleBelow(d: nat, n: nat, x: int)
    requires x == d * n && x < n
    ensures d == 0
  {
  }

  lemma RemainderUnique(n: nat, q: nat, s: nat, q': nat, s': nat)
    requires s < n && s' < n && q * n + s == q' * n + s'
    ensures s == s'
  {
    if q < q' { MultipleBelow(q' - q, n, s - s'); }
    if q' < q { MultipleBelow(q - q', n, s' - s); }
  }

  lemma Doubled(a: nat, k: nat, q: nat, s: nat)
    requires a / 2 == q * k + s && s < k
    ensures a == q * (2 * k) + (2 * s + a % 2) && 2 * s + a % 2 < 2 * k
  {
    assert q * (2 * k) == 2 * (q * k);
  }

  lemma MaskHalves(a: nat, n: nat)
    requires PowerOfTwo(n)
    ensures n == 1 ==> And(a, n - 1) == 0
    ensures n > 1 ==> n == 2 * (n / 2) && And(a, n - 1) == 2 * And(a / 2, n / 2 - 1) + a % 2
  {
    if n > 1 { assert (n - 1) / 2 == n / 2 - 1; }
  }

  lemma {:induction false} MaskDivides(a: nat, n: nat) returns (q: nat)
    requires PowerOfTwo(n)
    ensures a == q * n + And(a, n - 1) && And(a, n - 1) < n
  {
    hide And;
    MaskHalves(a, n);
    if n == 1 {
      q := a;
    } else {
      q := MaskDivides(a / 2, n / 2);
      Doubled(a, n / 2, q, And(a / 2, n / 2 - 1));
    }
  }

  /** Masking with one less than a power of two takes the remainder. */
  lemma MaskIsRemainder(a: nat, n: nat)
    requires PowerOfTwo(n)
    ensures And(a, n - 1) == a % n
  {
    hide And;
    var q := MaskDivides(a, n);
    var q', s' := DivMod(a, n);
    RemainderUnique(n, q, And(a, n - 1), q', s');
  }

  /** 60% of the buckets: at this count the next set grows the table first. */
  function GrowAt(n: nat): nat {
    n * 60 / 100
  }

  /** 10% of the buckets: down to this count a deletion shrinks the table. */
  function ShrinkAt(n: nat): nat {
    n * 10 / 100
  }

  lemma GrowAtIs(n: nat)
    ensures GrowAt(n) == n * 60 / 100
  {
  }

  lemma ShrinkAtIs(n: nat)
    ensures ShrinkAt(n) == n * 10 / 100
  {
  }

  function Shift(n: nat, power: nat): (r: nat)
    ensures r >= n
    decreases power
  {
    if power == 0 then n else Shift(2 * n, power - 1)
  }

  lemma {:induction false} ShiftKeepsPower(n: nat, power: nat)
    requires PowerOfTwo(n)
    ensures PowerOfTwo(Shift(n, power))
    ensures power > 0 ==> Shift(n, power) >= 2 * n
    decreases power
  {
    if power > 0 { ShiftKeepsPower(2 * n, power - 1); }
  }

  lemma {:induction false} ShiftDoubles(n: nat, power: nat)
    ensures Shift(n, 0) == n && Shift(n, power + 1) == 2 * Shift(n, power)
    decreases power
  {
    if power > 0 { ShiftDoubles(2 * n, power - 1); }
  }

  /** What decides when the table is resized; `moved` counts the entries that all resizes moved. */
  datatype Shape = Shape(nbuckets: nat, count: nat, cap: nat, growpower: nat, moved: nat)

  ghost predicate ValidShape(s: Shape) {
    && PowerOfTwo(s.nbuckets) && PowerOfTwo(s.cap) && 16 <= s.cap <= s.nbuckets
    && s.count <= GrowAt(s.nbuckets) && 1 <= s.growpower <= 16
  }

  /** After a set: `present` when the key was already there, `alloc` when memory for a larger table is. */
  function AfterSet(s: Shape, present: bool, alloc: bool): Shape {
    if s.count < GrowAt(s.nbuckets) then
      if present then s else s.(count := s.count + 1)
    else if !alloc then s
    else s.(nbuckets := Shift(s.nbuckets, s.growpower),
            moved := s.moved + s.count,
            count := if present then s.count else s.count + 1)
  }

  /** After a deletion of a key that is there. */
  function AfterDelete(s: Shape, alloc: bool): Shape
    requires s.count > 0
  {
    if s.nbuckets > s.cap && s.count - 1 <= ShrinkAt(s.nbuckets) && alloc
    then s.(nbuckets := s.nbuckets / 2, count := s.count - 1, moved := s.moved + (s.count - 1))
    else s.(count := s.count - 1)
  }

  lemma SetKeepsShape(s: Shape, present: bool, alloc: bool)
    requires ValidShape(s)
    ensures ValidShape(AfterSet(s, present, alloc))
  {
    ShiftKeepsPower(s.nbuckets, s.growpower);
  }

  lemma DeleteKeepsShape(s: Shape, alloc: bool)
    requires ValidShape(s) && s.count > 0
    ensures ValidShape(AfterDelete(s, alloc))
  {
    if s.nbuckets > s.cap { PowersApart(s.nbuckets, s.cap); }
  }

  // What resizing costs over a run.

  /** `alloc` says whether a resize, should there be one, gets its memory. */
  datatype Op = Set(present: bool, alloc: bool) | Delete(present: bool, alloc: bool)

  /** Only a map with entries has keys that are present. */
  predicate Possible(s: Shape, op: Op) {
    op.present ==> s.count > 0
  }

  function After(s: Shape, op: Op): Shape
    requires Possible(s, op)
  {
    match op
    case Set(present, alloc) => AfterSet(s, present, alloc)
    case Delete(present, alloc) => if present then AfterDelete(s, alloc) else s
  }

  predicate Runs(s: Shape, ops: seq<Op>)
    decreases |ops|
  {
    ops == [] || (Possible(s, ops[0]) && Runs(After(s, ops[0]), ops[1..]))
  }

  function Run(s: Shape, ops: seq<Op>): Shape
    requires Runs(s, ops)
    decreases |ops|
  {
    if ops == [] then s else Run(After(s, ops[0]), ops[1..])
  }

  function Max(a: int, b: int): int { if a < b then b else a }

  /** Work stored up for the next resize. */
  function Potential(s: Shape): int {
    Max(Max(0, 4 * s.count - 2 * GrowAt(s.nbuckets)),
        if s.nbuckets > s.cap then GrowAt(s.nbuckets) - 1 - 2 * s.count else 0)
  }

  lemma SetCost(s: Shape, present: bool, alloc: bool)
    requires ValidShape(s) && s.growpower == 1
    ensures var r := AfterSet(s, present, alloc);
      2 * (r.moved - s.moved) + Potential(r) - Potential(s) <= 4
  {
    assert Shift(s.nbuckets, 1) == 2 * s.nbuckets by { assert Shift(2 * s.nbuckets, 0) == 2 * s.nbuckets; }
  }

  lemma DeleteCost(s: Shape, alloc: bool)
    requires ValidShape(s) && s.count > 0
    ensures var r := AfterDelete(s, alloc);
      2 * (r.moved - s.moved) + Potential(r) - Potential(s) <= 4
  {
    if s.nbuckets > s.cap { PowersApart(s.nbuckets, s.cap); }
  }

  lemma {:induction false} RunCost(s: Shape, ops: seq<Op>)
    requires ValidShape(s) && s.growpower == 1 && Runs(s, ops)
    ensures 2 * (Run(s, ops).moved - s.moved) + Potential(Run(s, ops)) <= 4 * |ops| + Potential(s)
    decreases |ops|
  {
    hide Potential, ValidShape, AfterSet, AfterDelete, PowerOfTwo;
    if ops != [] {
      var r := After(s, ops[0]);
      assert ValidShape(r) && r.growpower == 1 && 2 * (r.moved - s.moved) + Potential(r) - Potential(s) <= 4 by {
        AfterKeeps(s, ops[0]);
      }
      RunCost(r, ops[1..]);
    }
  }

  lemma AfterKeeps(s: Shape, op: Op)
    requires ValidShape(s) && Possible(s, op)
    ensures ValidShape(After(s, op)) && After(s, op).growpower == s.growpower
    ensures s.growpower == 1 ==> 2 * (After(s, op).moved - s.moved) + Potential(After(s, op)) - Potential(s) <= 4
  {
    hide Potential, ValidShape, PowerOfTwo;
    match op
    case Set(present, alloc) =>
      SetKeepsShape(s, present, alloc);
      if s.growpower == 1 { SetCost(s, present, alloc); }
    case Delete(present, alloc) =>
      if present {
        DeleteKeepsShape(s, alloc);
        DeleteCost(s, alloc);
      }
  }

  /** From a new map with the default grow power, whatever sets and deletions follow, and whichever
      resizes fail, resizing moves at most two entries an operation. */
  lemma AmortisedResizing(s: Shape, ops: seq<Op>)
    requires ValidShape(s) && s.count == 0 && s.nbuckets == s.cap && s.growpower == 1 && Runs(s, ops)
    ensures Run(s, ops).moved - s.moved <= 2 * |ops|
  {
    RunCost(s, ops);
  }
}
