// Pipelines: a page layout, the spans that requests map to, and the chains of codecs.
module Pipelines {
  import opened Wrappers
  import opened Bits
  import opened Layout
  import opened HammingCodec

  datatype Codec = HammingCodec(config: Config) | MemsetCodec(pattern: Byte) | NackCodec

  /** Bytes of a span. */
  datatype SpanRange = SpanRange(span: nat, range: Range)

  datatype ReadContext = ReadContext(codec: Codec, data: SpanRange, oob: Option<SpanRange>)

  datatype WriteContext = WriteContext(codec: Codec, dest: SpanRange, src: Option<SpanRange>)

  /** Where the data and the out-of-band bytes of a request go. */
  datatype Mapping = Mapping(dataSpan: nat, oobSpan: nat)

  datatype Pipeline = Pipeline(layout: PageLayout, readSpans: Mapping, writeSpans: Option<Mapping>,
                               readCodecs: seq<ReadContext>, writeCodecs: seq<WriteContext>)

  // Adding codecs from the configuration.

  datatype CfgSpan = CfgSpan(name: string, range: Range)

  datatype CodecError = NotSupportingMethod | MissingOobSpan | MissingSourceSpan | SpanNotFound | LengthBoundaryInvalid

  /** The spans of a layout by name, and their lengths. */
  datatype SpanMap = SpanMap(names: map<string, nat>, totals: seq<nat>)

  predicate ValidSpanMap(spans: SpanMap) {
    forall name :: name in spans.names ==> spans.names[name] < |spans.totals|
  }

  /** validate_range_length_within_span */
  predicate RangeWithin(total: nat, r: Range) {
    Add64(r.start, r.length) <= total
  }

  /** What the range check is for. */
  predicate InItsSpan(spans: SpanMap, s: CfgSpan)
    requires ValidSpanMap(spans)
  {
    s.name in spans.names && End(s.range) <= spans.totals[spans.names[s.name]]
  }

  predicate CanRead(codec: Codec) {
    !codec.MemsetCodec?
  }

  predicate NeedsSecondSpan(codec: Codec) {
    codec.HammingCodec?
  }

  predicate ValidCodec(codec: Codec) {
    codec.HammingCodec? ==> ValidConfig(codec.config)
  }

  predicate SizesSufficient(codec: Codec, datalen: nat, ooblen: nat)
    requires ValidCodec(codec)
  {
    codec.HammingCodec? ==> EnoughOob(datalen, codec.config.stepSize, ooblen)
  }

  predicate ReadAcceptable(spans: SpanMap, codec: Codec, data: CfgSpan, oob: Option<CfgSpan>)
    requires ValidCodec(codec)
  {
    && CanRead(codec) && data.name in spans.names
    && (NeedsSecondSpan(codec) ==> oob.Some? && oob.value.name in spans.names)
    && SizesSufficient(codec, data.range.length,
                       if NeedsSecondSpan(codec) && oob.Some? then oob.value.range.length else 0)
  }

  /** Why a codec of the read chain is refused, if it is. */
  function ReadRefusal(spans: SpanMap, codec: Codec, data: CfgSpan, oob: Option<CfgSpan>): (r: Option<CodecError>)
    requires ValidCodec(codec)
    ensures r == None <==> ReadAcceptable(spans, codec, data, oob)
  {
    if !CanRead(codec) then Some(NotSupportingMethod)
    else if NeedsSecondSpan(codec) && oob.None? then Some(MissingOobSpan)
    else if NeedsSecondSpan(codec) && oob.value.name !in spans.names then Some(SpanNotFound)
    else if data.name !in spans.names then Some(SpanNotFound)
    else if !ReadAcceptable(spans, codec, data, oob) then Some(LengthBoundaryInvalid)
    else None
  }

  /** The context a codec of the read chain gets. */
  function ReadContextOf(spans: SpanMap, codec: Codec, data: CfgSpan, oob: Option<CfgSpan>): (ctx: ReadContext)
    requires ValidCodec(codec) && ReadAcceptable(spans, codec, data, oob)
  {
    ReadContext(codec, SpanRange(spans.names[data.name], data.range),
                if NeedsSecondSpan(codec) then Some(SpanRange(spans.names[oob.value.name], oob.value.range)) else None)
  }

  /** add_pipeline_read_codec: a range outside its span sets the error, and the end overwrites it. */
  method AddReadCodec(spans: SpanMap, codec: Codec, data: CfgSpan, oob: Option<CfgSpan>)
    returns (error: Option<CodecError>, context: Option<ReadContext>)
    requires ValidSpanMap(spans) && ValidCodec(codec)
    ensures error == ReadRefusal(spans, codec, data, oob)
    ensures error.None? <==> context.Some?
    ensures context.Some? ==> context.value == ReadContextOf(spans, codec, data, oob)
    ensures codec.HammingCodec? ==> (context.Some? <==>
      && oob.Some? && oob.value.name in spans.names && data.name in spans.names
      && forall k: nat :: Blocks(codec.config, k) < data.range.length ==> 3 * k + 3 <= oob.value.range.length)
    ensures codec.HammingCodec? && context.Some? ==>
      context.value == ReadContext(codec, SpanRange(spans.names[data.name], data.range),
                                   Some(SpanRange(spans.names[oob.value.name], oob.value.range)))
    ensures codec.NackCodec? ==> (context.Some? <==> data.name in spans.names)
    ensures codec.MemsetCodec? ==> error == Some(NotSupportingMethod)
    ensures error == Some(MissingOobSpan) <==> codec.HammingCodec? && oob.None?
    ensures error == Some(SpanNotFound) <==>
      && !codec.MemsetCodec? && (codec.HammingCodec? ==> oob.Some?)
      && (data.name !in spans.names || (codec.HammingCodec? && oob.value.name !in spans.names))
  {
    if codec.HammingCodec? && oob.Some? {
      EnoughOobExactly(codec.config, data.range.length, oob.value.range.length);
    }
    error, context := None, None;
    var oobSpan: Option<SpanRange>, used := None, 0;
    if !CanRead(codec) {
      return Some(NotSupportingMethod), None;
    }
    if NeedsSecondSpan(codec) {
      if oob.None? {
        return Some(MissingOobSpan), None;
      }
      if oob.value.name !in spans.names {
        return Some(SpanNotFound), None;
      }
      if !RangeWithin(spans.totals[spans.names[oob.value.name]], oob.value.range) {
        error := Some(LengthBoundaryInvalid);
      }
      oobSpan, used := Some(SpanRange(spans.names[oob.value.name], oob.value.range)), oob.value.range.length;
    }
    if data.name !in spans.names {
      return Some(SpanNotFound), None;
    }
    if !RangeWithin(spans.totals[spans.names[data.name]], data.range) {
      error := Some(LengthBoundaryInvalid);
    }
    if !SizesSufficient(codec, data.range.length, used) {
      return Some(LengthBoundaryInvalid), None;
    }
    context := Some(ReadContext(codec, SpanRange(spans.names[data.name], data.range), oobSpan));
    error := None;
  }

  predicate WriteAcceptable(spans: SpanMap, codec: Codec, dest: CfgSpan, src: Option<CfgSpan>)
    requires ValidCodec(codec)
  {
    && dest.name in spans.names
    && (NeedsSecondSpan(codec) ==> src.Some? && src.value.name in spans.names)
    && SizesSufficient(codec, if NeedsSecondSpan(codec) && src.Some? then src.value.range.length else 0,
                       dest.range.length)
  }

  /** Why a codec of the write chain is refused, if it is. */
  function WriteRefusal(spans: SpanMap, codec: Codec, dest: CfgSpan, src: Option<CfgSpan>): (r: Option<CodecError>)
    requires ValidCodec(codec)
    ensures r == None <==> WriteAcceptable(spans, codec, dest, src)
  {
    if NeedsSecondSpan(codec) && src.None? then Some(MissingSourceSpan)
    else if NeedsSecondSpan(codec) && src.value.name !in spans.names then Some(SpanNotFound)
    else if dest.name !in spans.names then Some(SpanNotFound)
    else if !WriteAcceptable(spans, codec, dest, src) then Some(LengthBoundaryInvalid)
    else None
  }

  /** The context a codec of the write chain gets. */
  function WriteContextOf(spans: SpanMap, codec: Codec, dest: CfgSpan, src: Option<CfgSpan>): (ctx: WriteContext)
    requires ValidCodec(codec) && WriteAcceptable(spans, codec, dest, src)
  {
    WriteContext(codec, SpanRange(spans.names[dest.name], dest.range),
                 if NeedsSecondSpan(codec) then Some(SpanRange(spans.names[src.value.name], src.value.range)) else None)
  }

  /** add_pipeline_write_codec: the same, with a source instead of out-of-band bytes. */
  method AddWriteCodec(spans: SpanMap, codec: Codec, dest: CfgSpan, src: Option<CfgSpan>)
    returns (error: Option<CodecError>, context: Option<WriteContext>)
    requires ValidSpanMap(spans) && ValidCodec(codec)
    ensures error == WriteRefusal(spans, codec, dest, src)
    ensures error.None? <==> context.Some?
    ensures context.Some? ==> context.value == WriteContextOf(spans, codec, dest, src)
    ensures codec.HammingCodec? ==> (context.Some? <==>
      && src.Some? && src.value.name in spans.names && dest.name in spans.names
      && forall k: nat :: Blocks(codec.config, k) < src.value.range.length ==> 3 * k + 3 <= dest.range.length)
    ensures codec.HammingCodec? && context.Some? ==>
      context.value == WriteContext(codec, SpanRange(spans.names[dest.name], dest.range),
                                    Some(SpanRange(spans.names[src.value.name], src.value.range)))
    ensures !codec.HammingCodec? ==> (context.Some? <==> dest.name in spans.names)
    ensures !codec.HammingCodec? && context.Some? ==>
      context.value == WriteContext(codec, SpanRange(spans.names[dest.name], dest.range), None)
    ensures error == Some(MissingSourceSpan) <==> codec.HammingCodec? && src.None?
    ensures error == Some(SpanNotFound) <==>
      && (codec.HammingCodec? ==> src.Some?)
      && (dest.name !in spans.names || (codec.HammingCodec? && src.value.name !in spans.names))
  {
    if codec.HammingCodec? && src.Some? {
      EnoughOobExactly(codec.config, src.value.range.length, dest.range.length);
    }
    error, context := None, None;
    var srcSpan: Option<SpanRange>, used := None, 0;
    if NeedsSecondSpan(codec) {
      if src.None? {
        return Some(MissingSourceSpan), None;
      }
      if src.value.name !in spans.names {
        return Some(SpanNotFound), None;
      }
      if !RangeWithin(spans.totals[spans.names[src.value.name]], src.value.range) {
        error := Some(LengthBoundaryInvalid);
      }
      srcSpan, used := Some(SpanRange(spans.names[src.value.name], src.value.range)), src.value.range.length;
    }
    if dest.name !in spans.names {
      return Some(SpanNotFound), None;
    }
    if !RangeWithin(spans.totals[spans.names[dest.name]], dest.range) {
      error := Some(LengthBoundaryInvalid);
    }
    if !SizesSufficient(codec, used, dest.range.length) {
      return Some(LengthBoundaryInvalid), None;
    }
    context := Some(WriteContext(codec, SpanRange(spans.names[dest.name], dest.range), srcSpan));
    error := None;
  }

  function Moved(s: CfgSpan, start: nat): CfgSpan {
    s.(range := s.range.(start := start))
  }

  /** A codec is accepted or refused without regard to where its ranges start and how long the spans are. */
  lemma RangesAreNotChecked(spans: SpanMap, other: SpanMap, codec: Codec, a: CfgSpan, b: Option<CfgSpan>,
                            start: nat, start': nat)
    requires ValidSpanMap(spans) && ValidSpanMap(other) && ValidCodec(codec) && other.names == spans.names
    ensures var a', b' := Moved(a, start), if b.Some? then Some(Moved(b.value, start')) else None;
      && (ReadAcceptable(spans, codec, a, b) <==> ReadAcceptable(other, codec, a', b'))
      && (WriteAcceptable(spans, codec, a, b) <==> WriteAcceptable(other, codec, a', b'))
  {
  }

  /** 256 bytes of data in a span of sixteen, and their code, are accepted. */
  lemma RangeOutsideSpanAccepted()
    ensures var spans := SpanMap(map["data" := 0, "ecc" := 1], [16, 3]);
      var codec := HammingCodec(Config(256, 1, false, false));
      var data, ecc := CfgSpan("data", Range(0, 256)), CfgSpan("ecc", Range(0, 3));
      && ValidSpanMap(spans) && ValidCodec(codec)
      && ReadAcceptable(spans, codec, data, Some(ecc)) && WriteAcceptable(spans, codec, ecc, Some(data))
      && !InItsSpan(spans, data)
  {
  }

  /** The check itself is right: it fails exactly for the ranges that leave their span. */
  lemma RangeCheckMeans(spans: SpanMap, s: CfgSpan)
    requires ValidSpanMap(spans) && s.name in spans.names && Configured(s.range)
    ensures RangeWithin(spans.totals[spans.names[s.name]], s.range) <==> InItsSpan(spans, s)
  {
  }
}
