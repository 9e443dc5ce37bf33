// initialize_nand_pipeline_scheme: from a configuration to a scheme.
module SchemeBuilder {
  import opened Wrappers
  import opened Layout
  import opened Partitions
  import opened Demux
  import opened Selector
  import opened Pipelines
  import opened Requests
  import opened Creation
  import opened Schemes
  import RobinHood
  import HashMap

  datatype CfgNamed = CfgNamed(name: string, pipeline: CfgPipeline)

  datatype CfgScheme = CfgScheme(pipelines: seq<CfgNamed>, partitions: seq<CfgPartition>)

  datatype SchemeError =
    HasNoPipelines | PipelineIndexOverflow | PipelineRefused(error: CreateError) | PipelineNameTaken
    | HasNoPartitions | PartitionRefused(partition: PartitionError) | BoundaryViolation
    | NotSelectable(selection: Selection)

  predicate OfPipelines(e: SchemeError) {
    e.HasNoPipelines? || e.PipelineIndexOverflow? || e.PipelineRefused? || e.PipelineNameTaken?
  }

  predicate OfPartitions(e: SchemeError) {
    e.HasNoPartitions? || e.PartitionRefused? || e.BoundaryViolation?
  }

  datatype Building = BuiltScheme(scheme: Scheme) | NotBuilt(error: SchemeError)

  // The pipelines.

  predicate AllCodecsValid(cfg: seq<CfgNamed>) {
    forall i :: 0 <= i < |cfg| ==> ValidCodecs(cfg[i].pipeline)
  }

  predicate NamesDiffer(cfg: seq<CfgNamed>, n: nat)
    requires n <= |cfg|
  {
    forall i, j :: 0 <= i < j < n ==> cfg[i].name != cfg[j].name
  }

  predicate AllCreatable(pageSize: nat, cfg: seq<CfgNamed>, qsort: seq<Part> -> seq<Part>, h: string -> nat, n: nat)
    requires n <= |cfg| && AllCodecsValid(cfg)
  {
    forall i :: 0 <= i < n ==> Creatable(pageSize, cfg[i].pipeline, qsort, h)
  }

  predicate PipelinesAcceptable(pageSize: nat, cfg: seq<CfgNamed>, qsort: seq<Part> -> seq<Part>, h: string -> nat)
    requires AllCodecsValid(cfg)
  {
    0 < |cfg| <= 65534 && NamesDiffer(cfg, |cfg|) && AllCreatable(pageSize, cfg, qsort, h, |cfg|)
  }

  ghost predicate AllCreated(cfg: seq<CfgNamed>, qsort: seq<Part> -> seq<Part>, ps: seq<Pipeline>)
    requires AllCodecsValid(cfg)
  {
    && |ps| <= |cfg|
    && forall i :: 0 <= i < |ps| ==> CreatedBy(cfg[i].pipeline, qsort(Placed(cfg[i].pipeline.parts)), ps[i])
  }

  /** The index of each pipeline, by name; the first has index 1. */
  function Numbers(cfg: seq<CfgNamed>, n: nat): (numbers: map<string, nat>)
    requires n <= |cfg|
    ensures forall name :: name in numbers ==> 0 < numbers[name] <= n
  {
    if n == 0 then map[] else Numbers(cfg, n - 1)[cfg[n - 1].name := n]
  }

  lemma {:induction false} NumbersAreNames(cfg: seq<CfgNamed>, n: nat, name: string)
    requires n <= |cfg|
    ensures name in Numbers(cfg, n) <==> exists i :: 0 <= i < n && cfg[i].name == name
    ensures name in Numbers(cfg, n) ==> cfg[Numbers(cfg, n)[name] - 1].name == name
  {
    if n > 0 { NumbersAreNames(cfg, n - 1, name); }
  }

  lemma {:induction false} NextName(cfg: seq<CfgNamed>, n: nat)
    requires n < |cfg| && NamesDiffer(cfg, n)
    ensures NamesDiffer(cfg, n + 1) <==> cfg[n].name !in Numbers(cfg, n)
    ensures cfg[n].name in Numbers(cfg, n) ==> !NamesDiffer(cfg, |cfg|)
  {
    NumbersAreNames(cfg, n, cfg[n].name);
  }

  /** initialize_pipelines */
  method InitializePipelines(pageSize: nat, cfg: seq<CfgNamed>, qsort: seq<Part> -> seq<Part>, h: string -> nat)
    returns (error: Option<SchemeError>, pipelines: seq<Pipeline>, numbers: map<string, nat>)
    requires AllCodecsValid(cfg) && forall parts :: SortOf(parts, qsort(parts))
    ensures error == None <==>
      && 0 < |cfg| <= 65534 && (forall i, j :: 0 <= i < j < |cfg| ==> cfg[i].name != cfg[j].name)
      && forall i :: 0 <= i < |cfg| ==> Creatable(pageSize, cfg[i].pipeline, qsort, h)
    ensures error == None ==>
      |pipelines| == |cfg| && numbers == Numbers(cfg, |cfg|) && AllCreated(cfg, qsort, pipelines)
    ensures error == Some(HasNoPipelines) <==> cfg == []
    ensures error == Some(PipelineIndexOverflow) <==> |cfg| > 65534
    ensures error.Some? ==> OfPipelines(error.value)
    ensures error == Some(PipelineNameTaken) ==> !NamesDiffer(cfg, |cfg|)
    ensures error.Some? && error.value.PipelineRefused? ==> !AllCreatable(pageSize, cfg, qsort, h, |cfg|)
  {
    hide ValidCodecs, SortOf, Creatable, CreatedBy;
    pipelines, numbers := [], map[];
    if |cfg| == 0 {
      return Some(HasNoPipelines), [], map[];
    }
    if |cfg| > 65534 {
      return Some(PipelineIndexOverflow), [], map[];
    }
    for i := 0 to |cfg|
      invariant |pipelines| == i && AllCreated(cfg, qsort, pipelines) && numbers == Numbers(cfg, i)
      invariant NamesDiffer(cfg, i) && AllCreatable(pageSize, cfg, qsort, h, i)
    {
      NextName(cfg, i);
      var created := Create(pageSize, cfg[i].pipeline, qsort, h);
      if created.NotCreated? {
        return Some(PipelineRefused(created.error)), [], map[];
      }
      if cfg[i].name in numbers {
        return Some(PipelineNameTaken), [], map[];
      }
      pipelines, numbers := pipelines + [created.pipeline], numbers[cfg[i].name := i + 1];
    }
    error := None;
  }

  // The partitions.

  predicate AllParsed(cfg: seq<CfgPartition>) {
    forall i :: 0 <= i < |cfg| ==> Parsed(cfg[i].eraseblocks) && Parsed(cfg[i].pages)
  }

  function PartitionOf(cfg: CfgPartition, numbers: map<string, nat>): (p: Partition)
    ensures cfg.pipeline in numbers ==> IsPartition(cfg, numbers, p)
  {
    Partition(cfg.name, if cfg.pipeline in numbers then numbers[cfg.pipeline] else 0, cfg.eraseblocks, cfg.pages)
  }

  function Configure(cfg: seq<CfgPartition>, numbers: map<string, nat>): (ps: seq<Partition>)
    ensures |ps| == |cfg| && forall i :: 0 <= i < |cfg| ==> ps[i] == PartitionOf(cfg[i], numbers)
  {
    seq(|cfg|, (i: nat) requires i < |cfg| => PartitionOf(cfg[i], numbers))
  }

  function Fix(mtd: Mtd, ps: seq<Partition>): (fixed: seq<Partition>)
    ensures |fixed| == |ps| && forall i :: 0 <= i < |ps| ==> fixed[i] == Fixed(mtd, ps[i])
  {
    seq(|ps|, (i: nat) requires i < |ps| => Fixed(mtd, ps[i]))
  }

  /** `e` is why the first refused partition is refused. */
  predicate FirstRefusal(cfg: seq<CfgPartition>, numbers: map<string, nat>, rest: (Range, Range), e: PartitionError) {
    exists i :: 0 <= i < |cfg| && RefusalAt(cfg, numbers, rest, i) == Some(e)
      && forall j :: 0 <= j < i ==> RefusalAt(cfg, numbers, rest, j) == None
  }

  predicate AllAccepted(mtd: Mtd, ps: seq<Partition>) {
    forall i :: 0 <= i < |ps| ==> RangeAccepted(mtd, ps[i])
  }

  /** Every pipeline that is named exists, no two names are the same, and no record that is looked at ends
      past 64 bits. */
  predicate Addable(cfg: seq<CfgPartition>, numbers: map<string, nat>, rest: (Range, Range)) {
    && (forall i :: 0 <= i < |cfg| ==> cfg[i].pipeline in numbers)
    && (forall i, j :: 0 <= i < j < |cfg| ==> cfg[i].name != cfg[j].name) && RecordsFit(cfg, rest)
  }

  /** There is a partition, all can be added, and their ranges are accepted. */
  predicate PartitionsAcceptable(mtd: Mtd, cfg: seq<CfgPartition>, numbers: map<string, nat>, rest: (Range, Range)) {
    cfg != [] && Addable(cfg, numbers, rest) && AllAccepted(mtd, Configure(cfg, numbers))
  }

  ghost predicate NamedApart(ps: seq<Partition>) {
    forall i, j :: 0 <= i < j < |ps| ==> ps[i].name != ps[j].name
  }

  ghost function Elements(ps: seq<Partition>): (all: set<Partition>)
    ensures forall p :: p in all <==> p in ps
  {
    set p | p in ps
  }

  /** What the hash map of the partitions stores. */
  ghost predicate Keeps(ps: seq<Partition>, n: nat, m: map<string, RobinHood.Item<string, Partition>>) {
    && n <= |ps| && (forall i :: 0 <= i < n ==> ps[i].name in m && m[ps[i].name].value == ps[i])
    && forall name :: name in m ==> m[name].value in ps[..n] && m[name].value.name == name
  }

  lemma {:induction false} KeepsNext(ps: seq<Partition>, n: nat, m: map<string, RobinHood.Item<string, Partition>>)
    requires NamedApart(ps) && Keeps(ps, n, m) && n < |ps|
    ensures Keeps(ps, n + 1, m[ps[n].name := RobinHood.Item(ps[n].name, ps[n])])
  {
    assert ps[..n + 1] == ps[..n] + [ps[n]];
  }

  lemma {:induction false} KeptElements(ps: seq<Partition>, m: map<string, RobinHood.Item<string, Partition>>)
    requires Keeps(ps, |ps|, m)
    ensures (set name | name in m :: m[name].value) == Elements(ps)
  {
    assert ps[..|ps|] == ps;
    forall p | p in ps
      ensures p in set name | name in m :: m[name].value
    {
      assert p.name in m && m[p.name].value == p;
    }
  }

  /** The partitions in the order in which their hash map is scanned. */
  method ScanOrder(ps: seq<Partition>, h: string -> nat) returns (scan: seq<Partition>)
    requires NamedApart(ps)
    ensures Scan(scan, Elements(ps))
  {
    hide HashMap.Good, Keeps, HashMap.PutFirst, RobinHood.DistinctKeys,
         RobinHood.Represents, RobinHood.Inv, HashMap.Items, Scan;
    var blank := RobinHood.Item("", Partition("", 0, Range(0, 0), Range(0, 0)));
    var partitions := new HashMap.Map(|ps|, h, blank);
    KeepsNothing(ps);
    for i := 0 to |ps|
      invariant partitions.Valid() && fresh(partitions) && fresh(partitions.buckets)
      invariant Keeps(ps, i, partitions.contents)
    {
      KeepsNext(ps, i, partitions.contents);
      var _ := partitions.Set(RobinHood.Item(ps[i].name, ps[i]), true);
    }
    var _, items := partitions.Scan((item: RobinHood.Item<string, Partition>) => true);
    ghost var t := partitions.buckets[..partitions.nbuckets];
    HashMap.GoodTable(partitions);
    KeptElements(ps, partitions.contents);
    KeyedByName(ps, partitions.contents);
    HashMapScans(t, partitions.contents);
    scan := Values(items);
  }

  lemma {:induction false} KeepsNothing(ps: seq<Partition>)
    ensures Keeps(ps, 0, map[])
  {
  }

  lemma {:induction false} KeyedByName(ps: seq<Partition>, m: map<string, RobinHood.Item<string, Partition>>)
    requires Keeps(ps, |ps|, m)
    ensures forall name :: name in m ==> m[name].value.name == name
  {
  }

  /** Whatever is added has names of its own. */
  lemma {:induction false} NotTaken(cfg: seq<CfgPartition>, numbers: map<string, nat>, rest: (Range, Range))
    requires Addable(cfg, numbers, rest)
    ensures NamedApart(Configure(cfg, numbers))
    ensures forall i :: 0 <= i < |cfg| ==> cfg[i].pipeline in numbers
  {
  }

  /** Fixing a scan gives a scan of the fixed partitions. */
  lemma {:induction false} FixedScan(mtd: Mtd, ps: seq<Partition>, scan: seq<Partition>)
    requires NamedApart(ps) && Scan(scan, Elements(ps))
    ensures Scan(Fix(mtd, scan), Elements(Fix(mtd, ps)))
    ensures AllAccepted(mtd, scan) <==> AllAccepted(mtd, ps)
  {
    hide Fixed, RangeAccepted;
    SameMembers(ps, scan);
    SameFixed(mtd, ps, scan);
    SameFixed(mtd, scan, ps);
    forall i, j | 0 <= i < j < |scan|
      ensures Fix(mtd, scan)[i] != Fix(mtd, scan)[j]
    {
      assert scan[i] in ps && scan[j] in ps;
      var a :| 0 <= a < |ps| && ps[a] == scan[i];
      var b :| 0 <= b < |ps| && ps[b] == scan[j];
      assert ps[if a < b then a else b].name != ps[if a < b then b else a].name;
      FixedKeepsName(mtd, scan[i]);
      FixedKeepsName(mtd, scan[j]);
    }
  }

  lemma {:induction false} FixedKeepsName(mtd: Mtd, p: Partition)
    ensures Fixed(mtd, p).name == p.name && Fixed(mtd, p).pipeline == p.pipeline
  {
  }

  lemma {:induction false} SameMembers(ps: seq<Partition>, scan: seq<Partition>)
    requires Scan(scan, Elements(ps))
    ensures forall p :: p in ps <==> p in scan
  {
  }

  lemma {:induction false} SameFixed(mtd: Mtd, ps: seq<Partition>, qs: seq<Partition>)
    requires forall p :: p in ps ==> p in qs
    ensures forall f :: f in Fix(mtd, ps) ==> f in Fix(mtd, qs)
    ensures AllAccepted(mtd, qs) ==> AllAccepted(mtd, ps)
  {
    hide Fixed, RangeAccepted;
    forall f | f in Fix(mtd, ps)
      ensures f in Fix(mtd, qs)
    {
      var i :| 0 <= i < |ps| && Fix(mtd, ps)[i] == f;
      assert ps[i] in qs;
      var j :| 0 <= j < |qs| && qs[j] == ps[i];
      assert Fix(mtd, qs)[j] == f;
    }
    if AllAccepted(mtd, qs) {
      forall i | 0 <= i < |ps|
        ensures RangeAccepted(mtd, ps[i])
      {
        assert ps[i] in qs;
      }
    }
  }

  /** The partitions of the scheme, in the order of the configuration. */
  function PartitionsOf(mtd: Mtd, cfg: CfgScheme): seq<Partition> {
    Fix(mtd, Configure(cfg.partitions, Numbers(cfg.pipelines, |cfg.pipelines|)))
  }

  /** initialize_partitions; `rest` are the ranges the record of the first partition holds before. */
  method InitializePartitions(mtd: Mtd, cfg: seq<CfgPartition>, numbers: map<string, nat>, rest: (Range, Range),
                              h: string -> nat) returns (error: Option<SchemeError>, scan: seq<Partition>)
    ensures error == None <==> PartitionsAcceptable(mtd, cfg, numbers, rest)
    ensures error == None ==> Scan(scan, Elements(Fix(mtd, Configure(cfg, numbers))))
    ensures error == Some(HasNoPartitions) <==> cfg == []
    ensures error == Some(BoundaryViolation) <==>
      cfg != [] && Addable(cfg, numbers, rest) && !AllAccepted(mtd, Configure(cfg, numbers))
    ensures error == Some(PartitionRefused(PipelineNotFound)) ==>
      exists i :: 0 <= i < |cfg| && cfg[i].pipeline !in numbers
    ensures error == Some(PartitionRefused(HasExistingEntry)) ==>
      exists i, j :: 0 <= i < j < |cfg| && cfg[i].name == cfg[j].name
    ensures error == Some(PartitionRefused(AdditionWouldOverflow)) ==> !RecordsFit(cfg, rest)
    ensures error.Some? ==> OfPartitions(error.value)
    ensures error.Some? && error.value.PartitionRefused? ==> FirstRefusal(cfg, numbers, rest, error.value.partition)
  {
    hide Scan, RefusalAt, RangeAccepted, Fixed, NamedApart, RecordsFit;
    if |cfg| == 0 {
      return Some(HasNoPartitions), [];
    }
    var added := AddPartitions(cfg, numbers, rest);
    if added.NotAdded? {
      return Some(PartitionRefused(added.error)), [];
    }
    NotTaken(cfg, numbers, rest);
    assert added.partitions == Configure(cfg, numbers);
    var order := ScanOrder(added.partitions, h);
    FixedScan(mtd, added.partitions, order);
    var ok, fixed := FixPartitions(mtd, order);
    if !ok {
      return Some(BoundaryViolation), [];
    }
    assert fixed == Fix(mtd, order);
    return None, fixed;
  }

  // All of it.

  /** When a scheme is built. */
  ghost predicate SchemeAcceptable(geo: Geometry, mtd: Mtd, cfg: CfgScheme, rest: (Range, Range),
                                   qsort: seq<Part> -> seq<Part>, h: string -> nat)
    requires AllCodecsValid(cfg.pipelines)
  {
    && PipelinesAcceptable(geo.pageSize, cfg.pipelines, qsort, h)
    && PartitionsAcceptable(mtd, cfg.partitions, Numbers(cfg.pipelines, |cfg.pipelines|), rest)
    && Selectable(mtd, PartitionsOf(mtd, cfg))
  }

  /** What it then is. */
  ghost predicate SchemeOf(geo: Geometry, mtd: Mtd, cfg: CfgScheme, qsort: seq<Part> -> seq<Part>, scheme: Scheme)
    requires AllCodecsValid(cfg.pipelines)
  {
    && scheme.mtd == mtd && |scheme.pipelines| == |cfg.pipelines| + 1
    && scheme.pipelines[0] == AutomaticNack(geo.pageSize)
    && AllCreated(cfg.pipelines, qsort, scheme.pipelines[1..])
    && HasPipelines(scheme, PartitionsOf(mtd, cfg))
  }

  lemma {:induction false} AllNumbered(mtd: Mtd, cfg: CfgScheme)
    requires forall i :: 0 <= i < |cfg.partitions| ==>
      cfg.partitions[i].pipeline in Numbers(cfg.pipelines, |cfg.pipelines|)
    ensures Named(PartitionsOf(mtd, cfg))
    ensures forall i :: 0 <= i < |PartitionsOf(mtd, cfg)| ==>
      PartitionsOf(mtd, cfg)[i].pipeline <= |cfg.pipelines|
  {
    hide FixLength;
  }

  lemma {:induction false} AcceptedAreChecked(mtd: Mtd, cfg: seq<CfgPartition>, numbers: map<string, nat>)
    requires ValidMtd(mtd) && AllParsed(cfg) && AllAccepted(mtd, Configure(cfg, numbers))
    ensures AllChecked(mtd, Fix(mtd, Configure(cfg, numbers)))
  {
    hide RangeAccepted, Fixed, Parsed, ValidMtd, Checked;
    forall i | 0 <= i < |cfg|
      ensures Checked(mtd, Fixed(mtd, Configure(cfg, numbers)[i]))
    {
      RangeCheckExactly(mtd, Configure(cfg, numbers)[i]);
    }
  }

  /** What is asked of a list of partitions, of any scan of them. */
  lemma {:induction false} ScanUsable(mtd: Mtd, ps: seq<Partition>, scan: seq<Partition>)
    requires Scan(scan, Elements(ps)) && AllChecked(mtd, ps) && Named(ps) && ps != []
    ensures AllChecked(mtd, scan) && Named(scan) && scan != []
    ensures AllInBounds(mtd, scan) <==> AllInBounds(mtd, ps)
  {
    hide Checked, InBounds;
    SameMembers(ps, scan);
    forall i | 0 <= i < |scan|
      ensures scan[i] in ps
    {
      assert scan[i] in scan;
    }
    assert ps[0] in scan;
    forall i | 0 <= i < |ps|
      ensures ps[i] in scan
    {
      assert ps[i] in ps;
    }
  }

  /** A list without repetitions scans its own elements. */
  lemma {:induction false} OwnScan(mtd: Mtd, ps: seq<Partition>)
    requires NamedApart(ps)
    ensures Scan(Fix(mtd, ps), Elements(Fix(mtd, ps)))
  {
    hide FixLength;
  }

  /** On the device, whichever scan a selector was made from, it serves all. */
  lemma {:induction false} ServesInAnyOrder(mtd: Mtd, ps: seq<Partition>, scan: seq<Partition>, select: Select)
    requires Scan(scan, Elements(ps)) && Scan(ps, Elements(ps)) && Selectable(mtd, ps) && AllInBounds(mtd, ps)
    requires Serves(mtd, scan, select)
    ensures Serves(mtd, ps, select)
  {
    hide Scan, Owner, Selectable, InBounds, Disjoint, AllDisjoint, Answers, Selected;
    SelectableOnDevice(mtd, ps);
    DisjointInAnyOrder(ps, Elements(ps));
    forall e: nat, g: nat | e < mtd.sectors && g < mtd.pagesPerSector
      ensures Owner(ps, |ps|, e, g) == Owner(scan, |scan|, e, g)
    {
      SameOwnerInAnyOrder(ps, scan, Elements(ps), e, g);
    }
  }

  /** initialize_nand_pipeline_scheme. The scan of the partitions may have any order. */
  method Build(geo: Geometry, mtd: Mtd, cfg: CfgScheme, rest: (Range, Range), qsort: seq<Part> -> seq<Part>,
               h: string -> nat) returns (r: Building, ghost scan: seq<Partition>)
    requires ValidMtd(mtd) && AllCodecsValid(cfg.pipelines) && AllParsed(cfg.partitions)
    requires forall parts :: SortOf(parts, qsort(parts))
    ensures r.BuiltScheme? <==> SchemeAcceptable(geo, mtd, cfg, rest, qsort, h)
    ensures r.BuiltScheme? ==> SchemeOf(geo, mtd, cfg, qsort, r.scheme)
    ensures r.BuiltScheme? ==>
      && Scan(scan, Elements(PartitionsOf(mtd, cfg))) && SelectorOf(mtd, scan, r.scheme.select)
      && (Serves(mtd, scan, r.scheme.select) <==> AllInBounds(mtd, PartitionsOf(mtd, cfg)))
    ensures r.BuiltScheme? && AllInBounds(mtd, PartitionsOf(mtd, cfg)) ==>
      Serves(mtd, PartitionsOf(mtd, cfg), r.scheme.select)
    ensures r.NotBuilt? ==>
      (OfPipelines(r.error) <==> !PipelinesAcceptable(geo.pageSize, cfg.pipelines, qsort, h))
    ensures r.NotBuilt? && PipelinesAcceptable(geo.pageSize, cfg.pipelines, qsort, h) ==>
      (OfPartitions(r.error) <==>
        !PartitionsAcceptable(mtd, cfg.partitions, Numbers(cfg.pipelines, |cfg.pipelines|), rest))
  {
    hide Creatable, Addable, AllAccepted, Selectable, SelectorOf, Serves, AllInBounds, Scan, SortOf,
         ValidMtd, AllCreated, AllChecked, Named, NamedApart, AllParsed;
    ghost var ps := PartitionsOf(mtd, cfg);
    var error, pipelines, named := InitializePipelines(geo.pageSize, cfg.pipelines, qsort, h);
    if error.Some? {
      return NotBuilt(error.value), [];
    }
    var refused, order := InitializePartitions(mtd, cfg.partitions, named, rest, h);
    if refused.Some? {
      return NotBuilt(refused.value), [];
    }
    scan := order;
    NotTaken(cfg.partitions, named, rest);
    AllNumbered(mtd, cfg);
    AcceptedAreChecked(mtd, cfg.partitions, named);
    ScanUsable(mtd, ps, order);
    OwnScan(mtd, Configure(cfg.partitions, named));
    SelectableInAnyOrder(mtd, Elements(ps), ps, order);
    var selection := Initialize(mtd, order);
    if !selection.Selecting? {
      return NotBuilt(NotSelectable(selection)), order;
    }
    if AllInBounds(mtd, ps) { ServesInAnyOrder(mtd, ps, order, selection.select); }
    var all := [AutomaticNack(geo.pageSize)] + pipelines;
    assert all[1..] == pipelines;
    return BuiltScheme(Scheme(mtd, selection.select, all)), order;
  }
}
