// Creating a pipeline from its configuration.
module Creation {
  import opened Wrappers
  import opened Layout
  import opened LayoutBuilder
  import opened SpanPointers
  import opened Pipelines

  datatype CfgMapping = CfgMapping(dataSpan: string, oobSpan: string)

  datatype CfgReadCodec = CfgReadCodec(codec: Codec, data: CfgSpan, oob: Option<CfgSpan>)

  datatype CfgWriteCodec = CfgWriteCodec(codec: Codec, dest: CfgSpan, src: Option<CfgSpan>)

  /** The codecs are those their names refer to. */
  datatype CfgPipeline = CfgPipeline(parts: seq<CfgPart>, readMapping: CfgMapping, writeMapping: Option<CfgMapping>,
                                     readCodecs: seq<CfgReadCodec>, writeCodecs: seq<CfgWriteCodec>)

  datatype CreateError =
    LayoutRefused(layout: LayoutError) | LayoutAborted | LayoutStrayed | SpanMissing | CodecRefused(codec: CodecError)

  datatype Creating = Created(pipeline: Pipeline) | NotCreated(error: CreateError)

  predicate ValidCodecs(cfg: CfgPipeline) {
    && (forall i :: 0 <= i < |cfg.readCodecs| ==> ValidCodec(cfg.readCodecs[i].codec))
    && (forall i :: 0 <= i < |cfg.writeCodecs| ==> ValidCodec(cfg.writeCodecs[i].codec))
  }

  function NamesOf(cfg: CfgPipeline): map<string, nat> {
    Names(cfg.parts, |cfg.parts|)
  }

  predicate Mapped(names: map<string, nat>, mapping: CfgMapping) {
    mapping.dataSpan in names && mapping.oobSpan in names
  }

  function MappingOf(names: map<string, nat>, mapping: CfgMapping): Mapping
    requires Mapped(names, mapping)
  {
    Mapping(names[mapping.dataSpan], names[mapping.oobSpan])
  }

  /** All codecs, and the spans of the mappings, are acceptable: only the names of the spans matter. */
  predicate PartsAcceptable(cfg: CfgPipeline, spans: SpanMap)
    requires ValidCodecs(cfg)
  {
    && Mapped(spans.names, cfg.readMapping)
    && (cfg.writeMapping.Some? ==> Mapped(spans.names, cfg.writeMapping.value))
    && (forall i :: 0 <= i < |cfg.readCodecs| ==>
          ReadAcceptable(spans, cfg.readCodecs[i].codec, cfg.readCodecs[i].data, cfg.readCodecs[i].oob))
    && (forall i :: 0 <= i < |cfg.writeCodecs| ==>
          WriteAcceptable(spans, cfg.writeCodecs[i].codec, cfg.writeCodecs[i].dest, cfg.writeCodecs[i].src))
  }

  predicate ReadsOf(spans: SpanMap, cfgs: seq<CfgReadCodec>, ctxs: seq<ReadContext>)
    requires forall i :: 0 <= i < |cfgs| ==> ValidCodec(cfgs[i].codec)
    requires forall i :: 0 <= i < |cfgs| ==> ReadAcceptable(spans, cfgs[i].codec, cfgs[i].data, cfgs[i].oob)
  {
    |ctxs| == |cfgs| && forall i :: 0 <= i < |cfgs| ==>
      ctxs[i] == ReadContextOf(spans, cfgs[i].codec, cfgs[i].data, cfgs[i].oob)
  }

  predicate WritesOf(spans: SpanMap, cfgs: seq<CfgWriteCodec>, ctxs: seq<WriteContext>)
    requires forall i :: 0 <= i < |cfgs| ==> ValidCodec(cfgs[i].codec)
    requires forall i :: 0 <= i < |cfgs| ==> WriteAcceptable(spans, cfgs[i].codec, cfgs[i].dest, cfgs[i].src)
  {
    |ctxs| == |cfgs| && forall i :: 0 <= i < |cfgs| ==>
      ctxs[i] == WriteContextOf(spans, cfgs[i].codec, cfgs[i].dest, cfgs[i].src)
  }

  /** What is created. */
  ghost predicate PipelineOf(cfg: CfgPipeline, sorted: seq<Part>, p: Pipeline)
    requires ValidCodecs(cfg) && PartsAcceptable(cfg, SpanMap(NamesOf(cfg), p.layout.totals))
  {
    var names, spans := NamesOf(cfg), SpanMap(NamesOf(cfg), p.layout.totals);
    && BuiltFrom(cfg.parts, sorted, p.layout)
    && p.readSpans == MappingOf(names, cfg.readMapping)
    && (p.writeSpans == if cfg.writeMapping.Some? then Some(MappingOf(names, cfg.writeMapping.value)) else None)
    && ReadsOf(spans, cfg.readCodecs, p.readCodecs) && WritesOf(spans, cfg.writeCodecs, p.writeCodecs)
  }

  /** The layout is built, and everything else is acceptable. */
  predicate Creatable(pageSize: nat, cfg: CfgPipeline, qsort: seq<Part> -> seq<Part>, h: string -> nat)
    requires ValidCodecs(cfg)
  {
    && LayoutAcceptable(pageSize, cfg.parts, qsort(Placed(cfg.parts)), h)
    && PartsAcceptable(cfg, SpanMap(NamesOf(cfg), []))
  }

  ghost predicate CreatedBy(cfg: CfgPipeline, sorted: seq<Part>, p: Pipeline)
    requires ValidCodecs(cfg)
  {
    PartsAcceptable(cfg, SpanMap(NamesOf(cfg), p.layout.totals)) && PipelineOf(cfg, sorted, p)
  }

  /** The refusal of the first of `n` read codecs that is refused. */
  function ReadsRefusal(spans: SpanMap, cfgs: seq<CfgReadCodec>, n: nat): (r: Option<CodecError>)
    requires n <= |cfgs| && forall i :: 0 <= i < |cfgs| ==> ValidCodec(cfgs[i].codec)
    ensures r == None <==>
      forall i :: 0 <= i < n ==> ReadAcceptable(spans, cfgs[i].codec, cfgs[i].data, cfgs[i].oob)
  {
    if n == 0 then None
    else if ReadsRefusal(spans, cfgs, n - 1) != None then ReadsRefusal(spans, cfgs, n - 1)
    else ReadRefusal(spans, cfgs[n - 1].codec, cfgs[n - 1].data, cfgs[n - 1].oob)
  }

  lemma {:induction false} ReadRefusalKept(spans: SpanMap, cfgs: seq<CfgReadCodec>, k: nat, n: nat)
    requires k <= n <= |cfgs| && forall i :: 0 <= i < |cfgs| ==> ValidCodec(cfgs[i].codec)
    requires ReadsRefusal(spans, cfgs, k) != None
    ensures ReadsRefusal(spans, cfgs, n) == ReadsRefusal(spans, cfgs, k)
  {
    hide ReadRefusal, ReadAcceptable;
    if k < n { ReadRefusalKept(spans, cfgs, k, n - 1); }
  }

  /** If the first `k` read codecs are accepted and the next is not, the refusal is the next one's. */
  lemma FirstReadRefusal(spans: SpanMap, cfgs: seq<CfgReadCodec>, k: nat)
    requires k < |cfgs| && forall i :: 0 <= i < |cfgs| ==> ValidCodec(cfgs[i].codec)
    requires forall i :: 0 <= i < k ==> ReadAcceptable(spans, cfgs[i].codec, cfgs[i].data, cfgs[i].oob)
    requires !ReadAcceptable(spans, cfgs[k].codec, cfgs[k].data, cfgs[k].oob)
    ensures ReadsRefusal(spans, cfgs, |cfgs|)
         == ReadRefusal(spans, cfgs[k].codec, cfgs[k].data, cfgs[k].oob) != None
  {
    hide ReadRefusal, ReadAcceptable;
    ReadRefusalKept(spans, cfgs, k + 1, |cfgs|);
  }

  /** The refusal of the first of `n` write codecs that is refused. */
  function WritesRefusal(spans: SpanMap, cfgs: seq<CfgWriteCodec>, n: nat): (r: Option<CodecError>)
    requires n <= |cfgs| && forall i :: 0 <= i < |cfgs| ==> ValidCodec(cfgs[i].codec)
    ensures r == None <==>
      forall i :: 0 <= i < n ==> WriteAcceptable(spans, cfgs[i].codec, cfgs[i].dest, cfgs[i].src)
  {
    if n == 0 then None
    else if WritesRefusal(spans, cfgs, n - 1) != None then WritesRefusal(spans, cfgs, n - 1)
    else WriteRefusal(spans, cfgs[n - 1].codec, cfgs[n - 1].dest, cfgs[n - 1].src)
  }

  lemma {:induction false} WriteRefusalKept(spans: SpanMap, cfgs: seq<CfgWriteCodec>, k: nat, n: nat)
    requires k <= n <= |cfgs| && forall i :: 0 <= i < |cfgs| ==> ValidCodec(cfgs[i].codec)
    requires WritesRefusal(spans, cfgs, k) != None
    ensures WritesRefusal(spans, cfgs, n) == WritesRefusal(spans, cfgs, k)
  {
    hide WriteRefusal, WriteAcceptable;
    if k < n { WriteRefusalKept(spans, cfgs, k, n - 1); }
  }

  /** The same for write codecs. */
  lemma FirstWriteRefusal(spans: SpanMap, cfgs: seq<CfgWriteCodec>, k: nat)
    requires k < |cfgs| && forall i :: 0 <= i < |cfgs| ==> ValidCodec(cfgs[i].codec)
    requires forall i :: 0 <= i < k ==> WriteAcceptable(spans, cfgs[i].codec, cfgs[i].dest, cfgs[i].src)
    requires !WriteAcceptable(spans, cfgs[k].codec, cfgs[k].dest, cfgs[k].src)
    ensures WritesRefusal(spans, cfgs, |cfgs|)
         == WriteRefusal(spans, cfgs[k].codec, cfgs[k].dest, cfgs[k].src) != None
  {
    hide WriteRefusal, WriteAcceptable;
    WriteRefusalKept(spans, cfgs, k + 1, |cfgs|);
  }

  /** Why a pipeline with a layout is refused, if it is: mappings first, then read codecs, then write codecs. */
  function PartsRefusal(cfg: CfgPipeline, spans: SpanMap): (r: Option<CreateError>)
    requires ValidCodecs(cfg)
    ensures r == None <==> PartsAcceptable(cfg, spans)
  {
    var reading, writing := ReadsRefusal(spans, cfg.readCodecs, |cfg.readCodecs|),
                            WritesRefusal(spans, cfg.writeCodecs, |cfg.writeCodecs|);
    if !Mapped(spans.names, cfg.readMapping) then Some(SpanMissing)
    else if cfg.writeMapping.Some? && !Mapped(spans.names, cfg.writeMapping.value) then Some(SpanMissing)
    else if reading.Some? then Some(CodecRefused(reading.value))
    else if writing.Some? then Some(CodecRefused(writing.value))
    else None
  }

  /** add_pipeline_read_codecs */
  method AddReadCodecs(spans: SpanMap, cfgs: seq<CfgReadCodec>)
    returns (error: Option<CodecError>, ctxs: seq<ReadContext>)
    requires ValidSpanMap(spans) && forall i :: 0 <= i < |cfgs| ==> ValidCodec(cfgs[i].codec)
    ensures error == ReadsRefusal(spans, cfgs, |cfgs|)
    ensures error.None? ==> ReadsOf(spans, cfgs, ctxs)
  {
    hide ReadAcceptable, ReadRefusal, ValidSpanMap, ValidCodec;
    ctxs := [];
    for i := 0 to |cfgs|
      invariant ReadsRefusal(spans, cfgs, i) == None
      invariant |ctxs| == i && forall j :: 0 <= j < i ==>
        ctxs[j] == ReadContextOf(spans, cfgs[j].codec, cfgs[j].data, cfgs[j].oob)
    {
      var failed, ctx := AddReadCodec(spans, cfgs[i].codec, cfgs[i].data, cfgs[i].oob);
      if failed.Some? {
        ReadRefusalKept(spans, cfgs, i + 1, |cfgs|);
        return failed, [];
      }
      ctxs := ctxs + [ctx.value];
    }
    return None, ctxs;
  }

  /** add_pipeline_write_codecs */
  method AddWriteCodecs(spans: SpanMap, cfgs: seq<CfgWriteCodec>)
    returns (error: Option<CodecError>, ctxs: seq<WriteContext>)
    requires ValidSpanMap(spans) && forall i :: 0 <= i < |cfgs| ==> ValidCodec(cfgs[i].codec)
    ensures error == WritesRefusal(spans, cfgs, |cfgs|)
    ensures error.None? ==> WritesOf(spans, cfgs, ctxs)
  {
    hide WriteAcceptable, WriteRefusal, ValidSpanMap, ValidCodec;
    ctxs := [];
    for i := 0 to |cfgs|
      invariant WritesRefusal(spans, cfgs, i) == None
      invariant |ctxs| == i && forall j :: 0 <= j < i ==>
        ctxs[j] == WriteContextOf(spans, cfgs[j].codec, cfgs[j].dest, cfgs[j].src)
    {
      var failed, ctx := AddWriteCodec(spans, cfgs[i].codec, cfgs[i].dest, cfgs[i].src);
      if failed.Some? {
        WriteRefusalKept(spans, cfgs, i + 1, |cfgs|);
        return failed, [];
      }
      ctxs := ctxs + [ctx.value];
    }
    return None, ctxs;
  }

  lemma SpansAreValid(parts: seq<CfgPart>, layout: PageLayout)
    requires |layout.totals| == |Names(parts, |parts|)|
    ensures ValidSpanMap(SpanMap(Names(parts, |parts|), layout.totals))
  {
    NamesCount(parts, |parts|);
  }

  /** create_pipeline_obj */
  method Create(pageSize: nat, cfg: CfgPipeline, qsort: seq<Part> -> seq<Part>, h: string -> nat) returns (r: Creating)
    requires ValidCodecs(cfg) && forall parts :: SortOf(parts, qsort(parts))
    ensures r.Created? <==> Creatable(pageSize, cfg, qsort, h)
    ensures r.Created? ==> CreatedBy(cfg, qsort(Placed(cfg.parts)), r.pipeline)
    ensures r.Created? ==>
      && cfg.readMapping.dataSpan in NamesOf(cfg) && cfg.readMapping.oobSpan in NamesOf(cfg)
      && r.pipeline.readSpans.dataSpan == NamesOf(cfg)[cfg.readMapping.dataSpan]
      && r.pipeline.readSpans.oobSpan == NamesOf(cfg)[cfg.readMapping.oobSpan]
      && (r.pipeline.writeSpans.Some? <==> cfg.writeMapping.Some?)
    ensures r.Created? && cfg.writeMapping.Some? ==>
      && cfg.writeMapping.value.dataSpan in NamesOf(cfg) && cfg.writeMapping.value.oobSpan in NamesOf(cfg)
      && r.pipeline.writeSpans.value.dataSpan == NamesOf(cfg)[cfg.writeMapping.value.dataSpan]
      && r.pipeline.writeSpans.value.oobSpan == NamesOf(cfg)[cfg.writeMapping.value.oobSpan]
    ensures LayoutAcceptable(pageSize, cfg.parts, qsort(Placed(cfg.parts)), h)
      && (cfg.readMapping.dataSpan !in NamesOf(cfg) || cfg.readMapping.oobSpan !in NamesOf(cfg))
      ==> r == NotCreated(SpanMissing)
    ensures r.NotCreated? && r.error.CodecRefused? ==>
      var spans := SpanMap(NamesOf(cfg), []);
      var reading := ReadsRefusal(spans, cfg.readCodecs, |cfg.readCodecs|);
      Some(r.error.codec) ==
      if reading.Some? then reading else WritesRefusal(spans, cfg.writeCodecs, |cfg.writeCodecs|)
    ensures r == NotCreated(SpanMissing) ==>
      || cfg.readMapping.dataSpan !in NamesOf(cfg) || cfg.readMapping.oobSpan !in NamesOf(cfg)
      || (cfg.writeMapping.Some?
          && (cfg.writeMapping.value.dataSpan !in NamesOf(cfg) || cfg.writeMapping.value.oobSpan !in NamesOf(cfg)))
    ensures r.NotCreated? && LayoutAcceptable(pageSize, cfg.parts, qsort(Placed(cfg.parts)), h) ==>
      PartsRefusal(cfg, SpanMap(NamesOf(cfg), [])) == Some(r.error)
    ensures r == NotCreated(LayoutStrayed) ==> !SpansStay(cfg.parts, h)
    ensures FirstError(pageSize, cfg.parts, |cfg.parts|) == None && !SpansStay(cfg.parts, h) ==>
      (AdjacentApart(qsort(Placed(cfg.parts))) ==> r == NotCreated(LayoutStrayed))
  {
    hide Names, ReadAcceptable, WriteAcceptable, SortOf, ReadsOf, WritesOf, BuiltFrom, HasEmptyName, AdjacentApart,
         SpansStay, ReadsRefusal, WritesRefusal;
    var built := AddParts(pageSize, cfg.parts, qsort, h);
    match built
    case Refused(error) => return NotCreated(LayoutRefused(error));
    case Aborted => return NotCreated(LayoutAborted);
    case Strayed => return NotCreated(LayoutStrayed);
    case Built(layout) =>
      LengthsDoNotMatter(cfg, layout.totals);
      TotalsCount(cfg.parts, qsort(Placed(cfg.parts)), layout);
      SpansAreValid(cfg.parts, layout);
      var names := NamesOf(cfg);
      var spans := SpanMap(names, layout.totals);
      if !Mapped(names, cfg.readMapping) {
        return NotCreated(SpanMissing);
      }
      var writeSpans: Option<Mapping> := None;
      if cfg.writeMapping.Some? {
        if !Mapped(names, cfg.writeMapping.value) {
          return NotCreated(SpanMissing);
        }
        writeSpans := Some(MappingOf(names, cfg.writeMapping.value));
      }
      var readError, readCtxs := AddReadCodecs(spans, cfg.readCodecs);
      if readError.Some? {
        return NotCreated(CodecRefused(readError.value));
      }
      var writeError, writeCtxs := AddWriteCodecs(spans, cfg.writeCodecs);
      if writeError.Some? {
        return NotCreated(CodecRefused(writeError.value));
      }
      return Created(Pipeline(layout, MappingOf(names, cfg.readMapping), writeSpans, readCtxs, writeCtxs));
  }

  lemma TotalsCount(parts: seq<CfgPart>, sorted: seq<Part>, layout: PageLayout)
    requires BuiltFrom(parts, sorted, layout)
    ensures |layout.totals| == |Names(parts, |parts|)|
  {
  }

  lemma {:induction false} ReadLengthsDoNotMatter(a: SpanMap, b: SpanMap, cfgs: seq<CfgReadCodec>, n: nat)
    requires a.names == b.names && n <= |cfgs| && forall i :: 0 <= i < |cfgs| ==> ValidCodec(cfgs[i].codec)
    ensures ReadsRefusal(a, cfgs, n) == ReadsRefusal(b, cfgs, n)
  {
    if n > 0 { ReadLengthsDoNotMatter(a, b, cfgs, n - 1); }
  }

  lemma {:induction false} WriteLengthsDoNotMatter(a: SpanMap, b: SpanMap, cfgs: seq<CfgWriteCodec>, n: nat)
    requires a.names == b.names && n <= |cfgs| && forall i :: 0 <= i < |cfgs| ==> ValidCodec(cfgs[i].codec)
    ensures WritesRefusal(a, cfgs, n) == WritesRefusal(b, cfgs, n)
  {
    if n > 0 { WriteLengthsDoNotMatter(a, b, cfgs, n - 1); }
  }

  lemma LengthsDoNotMatter(cfg: CfgPipeline, totals: seq<nat>)
    requires ValidCodecs(cfg)
    ensures PartsRefusal(cfg, SpanMap(NamesOf(cfg), [])) == PartsRefusal(cfg, SpanMap(NamesOf(cfg), totals))
  {
    hide Names, ReadsRefusal, WritesRefusal;
    var a, b := SpanMap(NamesOf(cfg), []), SpanMap(NamesOf(cfg), totals);
    ReadLengthsDoNotMatter(a, b, cfg.readCodecs, |cfg.readCodecs|);
    WriteLengthsDoNotMatter(a, b, cfg.writeCodecs, |cfg.writeCodecs|);
  }
}
