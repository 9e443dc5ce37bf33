// A device served by several workers: every read returns what was last written to its page.
module DeviceRuns {
  import opened Wrappers
  import opened Bits
  import opened Spans
  import opened Layout
  import opened PageCopy
  import opened Pipelines
  import opened Requests
  import opened RoundTrip
  import opened RequestBytes
  import opened EndToEnd
  import opened Schemes

  datatype Address = Address(e: nat, g: nat)

  /** The blocks that a pipeline protects, and the codec of its write chain that encodes them. */
  datatype Guard = Guard(x: Protection, h: nat)

  /** What does not change during a run; the guards are those of the pipelines, by index. */
  datatype Setup = Setup(geo: Geometry, scheme: Scheme, guards: seq<Guard>, bigHost: bool)

  /** The raw pages of the device, and the spans of every worker by pipeline. */
  datatype State = State(spans: seq<seq<Memory>>, raw: map<Address, seq<Byte>>)

  datatype Event =
    | Writes(worker: nat, at: Address, page: seq<Byte>, req: Request)
    | Reads(worker: nat, at: Address, req: Request)
    | Damages(at: Address, raw: seq<Byte>)

  predicate OnDevice(s: Setup, a: Address) {
    Serviceable(s.scheme, a.e, a.g, |s.scheme.pipelines|)
  }

  function IndexOf(s: Setup, a: Address): (i: nat)
    requires OnDevice(s, a)
    ensures i < |s.scheme.pipelines|
  {
    PipelineAt(s.scheme, a.e, a.g)
  }

  function PipelineFor(s: Setup, a: Address): Pipeline
    requires OnDevice(s, a)
  {
    s.scheme.pipelines[IndexOf(s, a)]
  }

  predicate HasSpans(s: Setup, spans: seq<seq<Memory>>) {
    forall w :: 0 <= w < |spans| ==> |spans[w]| == |s.scheme.pipelines|
  }

  predicate HasPage(s: Setup, raw: map<Address, seq<Byte>>, a: Address) {
    a in raw && |raw[a]| == s.geo.pageSize
  }

  ghost predicate ValidState(s: Setup, st: State) {
    HasSpans(s, st.spans) && forall a :: OnDevice(s, a) ==> HasPage(s, st.raw, a)
  }

  predicate Reaches(s: Setup, spans: seq<seq<Memory>>, worker: nat, a: Address) {
    worker < |spans| && HasSpans(s, spans) && OnDevice(s, a)
  }

  function SpansFor(s: Setup, spans: seq<seq<Memory>>, worker: nat, a: Address): Memory
    requires Reaches(s, spans, worker, a)
  {
    spans[worker][IndexOf(s, a)]
  }

  /** The worker exists, the page is on the device, and the request fits. */
  predicate Possible(s: Setup, spans: seq<seq<Memory>>, ev: Event) {
    match ev
    case Writes(worker, at, page, req) =>
      && Reaches(s, spans, worker, at) && |page| == s.geo.pageSize
      && WriteReady(s.geo, PipelineFor(s, at), SpansFor(s, spans, worker, at), req)
    case Reads(worker, at, req) =>
      Reaches(s, spans, worker, at) && ReadReady(s.geo, PipelineFor(s, at), SpansFor(s, spans, worker, at), req)
    case Damages(at, raw) => OnDevice(s, at) && |raw| == s.geo.pageSize
  }

  function WithSpans(s: Setup, spans: seq<seq<Memory>>, worker: nat, a: Address, m: Memory): (r: seq<seq<Memory>>)
    requires Reaches(s, spans, worker, a)
    ensures HasSpans(s, r)
  {
    spans[worker := spans[worker][IndexOf(s, a) := m]]
  }

  /** One event: the state it leaves, and the answer. A page is only stored when its write is acknowledged. */
  function Step(s: Setup, st: State, ev: Event): (r: (State, Option<(Reply, seq<Byte>)>))
    requires ValidState(s, st) && Possible(s, st.spans, ev)
  {
    match ev
    case Writes(worker, at, page, req) =>
      var o := WriteOutcome(s.geo, PipelineFor(s, at), SpansFor(s, st.spans, worker, at), page, req, s.bigHost);
      var raw := if o.0.Acked? then st.raw[at := o.2] else st.raw;
      (State(WithSpans(s, st.spans, worker, at, o.1), raw), Some((o.0, o.2)))
    case Reads(worker, at, req) =>
      var o := ReadOutcome(s.geo, PipelineFor(s, at), SpansFor(s, st.spans, worker, at), st.raw[at], req, s.bigHost);
      (State(WithSpans(s, st.spans, worker, at, o.1), st.raw), Some((o.0, o.2)))
    case Damages(at, raw) => (st.(raw := st.raw[at := raw]), None)
  }

  // The spans keep their lengths.

  predicate Alike(a: seq<seq<Memory>>, b: seq<seq<Memory>>) {
    && |a| == |b|
    && forall w :: 0 <= w < |a| ==> |a[w]| == |b[w]| && forall i :: 0 <= i < |a[w]| ==> SameShape(a[w][i], b[w][i])
  }

  lemma {:induction false} AlikeTrans(a: seq<seq<Memory>>, b: seq<seq<Memory>>, c: seq<seq<Memory>>)
    requires Alike(a, b) && Alike(b, c)
    ensures Alike(a, c)
  {
    forall w | 0 <= w < |a|
      ensures |a[w]| == |c[w]| && forall i :: 0 <= i < |a[w]| ==> SameShape(a[w][i], c[w][i])
    {
      assert |b[w]| == |c[w]|;
      forall i | 0 <= i < |a[w]|
        ensures SameShape(a[w][i], c[w][i])
      {
        assert SameShape(a[w][i], b[w][i]) && SameShape(b[w][i], c[w][i]);
      }
    }
  }

  lemma {:induction false} PutAlike(s: Setup, spans: seq<seq<Memory>>, worker: nat, a: Address, m: Memory)
    requires Reaches(s, spans, worker, a) && SameShape(SpansFor(s, spans, worker, a), m)
    ensures Alike(spans, WithSpans(s, spans, worker, a, m))
  {
    hide OnDevice;
  }

  lemma {:induction false} StepKeeps(s: Setup, st: State, ev: Event)
    requires ValidState(s, st) && Possible(s, st.spans, ev)
    ensures ValidState(s, Step(s, st, ev).0) && Alike(st.spans, Step(s, st, ev).0.spans)
  {
    hide OnDevice, WriteReady, ReadReady, WriteOutcome, ReadOutcome, WithSpans, Alike;
    match ev
    case Writes(worker, at, page, req) =>
      var m := SpansFor(s, st.spans, worker, at);
      PutAlike(s, st.spans, worker, at, WriteOutcome(s.geo, PipelineFor(s, at), m, page, req, s.bigHost).1);
    case Reads(worker, at, req) =>
      var m := SpansFor(s, st.spans, worker, at);
      PutAlike(s, st.spans, worker, at, ReadOutcome(s.geo, PipelineFor(s, at), m, st.raw[at], req, s.bigHost).1);
    case Damages(at, raw) => SameAlike(st.spans);
  }

  lemma {:induction false} SameAlike(a: seq<seq<Memory>>)
    ensures Alike(a, a)
  {
  }

  lemma {:induction false} StaysPossible(s: Setup, a: seq<seq<Memory>>, b: seq<seq<Memory>>, ev: Event)
    requires Alike(a, b) && Possible(s, a, ev)
    ensures Possible(s, b, ev)
  {
    hide OnDevice, ReadReady, WriteReady;
    if !ev.Damages? {
      var m, n, p := SpansFor(s, a, ev.worker, ev.at), SpansFor(s, b, ev.worker, ev.at), PipelineFor(s, ev.at);
      ReadyKept(s.geo, p, m, n, ev.req);
    }
  }

  lemma {:induction false} ReadyKept(geo: Geometry, p: Pipeline, m: Memory, n: Memory, req: Request)
    requires SameShape(m, n)
    ensures ReadReady(geo, p, m, req) ==> ReadReady(geo, p, n, req)
    ensures WriteReady(geo, p, m, req) ==> WriteReady(geo, p, n, req)
  {
    hide ReadFits, WriteFits, FitsLayout, MappingFits, ValidLayout, SameShape;
    FitsKept(m, n);
  }

  predicate AllPossible(s: Setup, spans: seq<seq<Memory>>, run: seq<Event>) {
    forall k :: 0 <= k < |run| ==> Possible(s, spans, run[k])
  }

  /** The state after the first `n` events. */
  ghost function StateAfter(s: Setup, st: State, run: seq<Event>, n: nat): (r: State)
    requires ValidState(s, st) && AllPossible(s, st.spans, run) && n <= |run|
    ensures ValidState(s, r) && Alike(st.spans, r.spans)
  {
    if n == 0 then SameAlike(st.spans); st
    else
      var q := StateAfter(s, st, run, n - 1);
      StaysPossible(s, st.spans, q.spans, run[n - 1]);
      StepKeeps(s, q, run[n - 1]);
      AlikeTrans(st.spans, q.spans, Step(s, q, run[n - 1]).0.spans);
      Step(s, q, run[n - 1]).0
  }

  /** What event `k` answers. */
  ghost function Answer(s: Setup, st: State, run: seq<Event>, k: nat): Option<(Reply, seq<Byte>)>
    requires ValidState(s, st) && AllPossible(s, st.spans, run) && k < |run|
  {
    var q := StateAfter(s, st, run, k);
    StaysPossible(s, st.spans, q.spans, run[k]);
    Step(s, q, run[k]).1
  }

  // What was last written.

  /** The last of the first `n` events that writes to the page. */
  function LastWrite(run: seq<Event>, n: nat, a: Address): (j: Option<nat>)
    requires n <= |run|
    ensures j.Some? ==> j.value < n && run[j.value].Writes? && run[j.value].at == a
    ensures forall k :: (if j.Some? then j.value + 1 else 0) <= k < n ==> !(run[k].Writes? && run[k].at == a)
  {
    if n == 0 then None
    else if run[n - 1].Writes? && run[n - 1].at == a then Some(n - 1)
    else LastWrite(run, n - 1, a)
  }

  /** The pipeline of the page encodes the data of the write, and decodes it when read. */
  predicate Guarded(s: Setup, a: Address, write: Request) {
    && OnDevice(s, a) && IndexOf(s, a) < |s.guards|
    && var guard := s.guards[IndexOf(s, a)];
       Guards(PipelineFor(s, a), guard.x, guard.h, write, Request(write.datalen, 0), s.bigHost)
  }

  /** Of the page as it was stored, no decoded step has more than one flipped bit, and the data that no
      step protects is not damaged. */
  ghost predicate Harmless(s: Setup, a: Address, write: Request, stored: seq<Byte>, raw: seq<Byte>)
    requires Guarded(s, a, write)
  {
    var p, x := PipelineFor(s, a), s.guards[IndexOf(s, a)].x;
    && |raw| == |stored| && OneFlipEach(p.layout, x, stored, raw)
    && BareDataUnharmed(p.layout, x, stored, raw, p.readSpans.dataSpan, write.datalen)
  }

  /** After `n` events the page is the one its last write stored, with harmless damage. */
  ghost predicate Kept(s: Setup, st: State, run: seq<Event>, n: nat, a: Address, raw: seq<Byte>)
    requires ValidState(s, st) && AllPossible(s, st.spans, run) && n <= |run|
  {
    var last := LastWrite(run, n, a);
    last.Some? && Guarded(s, a, run[last.value].req) ==>
      Harmless(s, a, run[last.value].req, StateAfter(s, st, run, last.value + 1).raw[a], raw)
  }

  /** All the damage since the last write of a page, taken together, is harmless. */
  ghost predicate Gentle(s: Setup, st: State, run: seq<Event>)
    requires ValidState(s, st) && AllPossible(s, st.spans, run)
  {
    forall k :: 0 <= k < |run| && run[k].Damages? ==> Kept(s, st, run, k, run[k].at, run[k].raw)
  }

  lemma {:induction false} Undamaged(s: Setup, a: Address, write: Request, stored: seq<Byte>)
    requires Guarded(s, a, write)
    ensures Harmless(s, a, write, stored, stored)
  {
    var p, x := PipelineFor(s, a), s.guards[IndexOf(s, a)].x;
    hide Guarded;
    forall k: nat | k < x.c.steps
      ensures OneFlipAtMost(p.layout, x, stored, stored, k)
    {
      assert OnlyFlip(p.layout, x, stored, stored, k, 0, 0);
    }
  }

  /** Only writes and damage touch a page, and only the one they are for. */
  lemma {:induction false} OthersStay(s: Setup, st: State, ev: Event, a: Address)
    requires ValidState(s, st) && Possible(s, st.spans, ev) && OnDevice(s, a)
    requires ev.at != a || ev.Reads?
    ensures Step(s, st, ev).0.raw[a] == st.raw[a]
  {
    hide WriteOutcome, ReadOutcome, WriteReady, ReadReady;
  }

  lemma {:induction false} AlwaysKept(s: Setup, st: State, run: seq<Event>, n: nat, a: Address)
    requires ValidState(s, st) && AllPossible(s, st.spans, run) && n <= |run| && Gentle(s, st, run) && OnDevice(s, a)
    ensures Kept(s, st, run, n, a, StateAfter(s, st, run, n).raw[a])
  {
    hide Possible, Step, Guarded, Harmless, OnDevice, ValidState;
    if n > 0 {
      var ev, q := run[n - 1], StateAfter(s, st, run, n - 1);
      AlwaysKept(s, st, run, n - 1, a);
      StaysPossible(s, st.spans, q.spans, ev);
      if ev.at == a && ev.Writes? {
        PageThere(s, StateAfter(s, st, run, n), a);
        if Guarded(s, a, ev.req) { Undamaged(s, a, ev.req, StateAfter(s, st, run, n).raw[a]); }
      } else if ev.at == a && ev.Damages? {
        DamageIs(s, q, ev);
      } else {
        OthersStay(s, q, ev, a);
      }
    }
  }

  lemma {:induction false} PageThere(s: Setup, st: State, a: Address)
    requires ValidState(s, st) && OnDevice(s, a)
    ensures a in st.raw && |st.raw[a]| == s.geo.pageSize
  {
  }

  lemma {:induction false} DamageIs(s: Setup, st: State, ev: Event)
    requires ValidState(s, st) && Possible(s, st.spans, ev) && ev.Damages?
    ensures Step(s, st, ev).0.raw[ev.at] == ev.raw
  {
  }

  // What is read.

  function Least(a: nat, b: nat): nat {
    if a < b then a else b
  }

  /** How many bytes a read asks for matters neither to its verdict nor to the bytes. */
  lemma {:induction false} OtherLength(geo: Geometry, p: Pipeline, m: Memory, page: seq<Byte>, a: Request, b: Request,
                                       bigHost: bool)
    requires ReadReady(geo, p, m, a) && ReadReady(geo, p, m, b) && |page| == geo.pageSize
    requires ReadOutcome(geo, p, m, page, a, bigHost).0.Acked?
    ensures ReadOutcome(geo, p, m, page, b, bigHost).0 == Acked(b.datalen, b.ooblen)
    ensures var n := Least(a.datalen, b.datalen);
      ReadOutcome(geo, p, m, page, b, bigHost).2[..n] == ReadOutcome(geo, p, m, page, a, bigHost).2[..n]
  {
    hide Extracted, ReadChain, ReadFits, FitsLayout, ValidLayout, Given, Fetch;
    var r, n := ReadResult(geo, p, m, page, a, bigHost), Least(a.datalen, b.datalen);
    FitsKept(m, r.1);
    GivenBytes(p.readSpans, r.1, geo, a);
    GivenBytes(p.readSpans, r.1, geo, b);
    SameStart(r.1, p.readSpans.dataSpan, n, a.datalen);
    SameStart(r.1, p.readSpans.dataSpan, n, b.datalen);
    StartOf(Given(p.readSpans, r.1, geo, a), n, a.datalen);
    StartOf(Given(p.readSpans, r.1, geo, b), n, b.datalen);
  }

  lemma {:induction false} SameStart(m: Memory, span: nat, n: nat, len: nat)
    requires span < |m| && n <= len <= |m[span]|
    ensures Fetch(m, span, 0, len)[..n] == m[span][..n]
  {
  }

  lemma {:induction false} StartOf(page: seq<Byte>, n: nat, len: nat)
    requires n <= len <= |page|
    ensures page[..len][..n] == page[..n]
  {
  }

  /** A read of as many bytes as were written fits if the write fits. */
  lemma {:induction false} ReadBack(geo: Geometry, p: Pipeline, x: Protection, h: nat, m: Memory, write: Request,
                                    n: Memory, read: Request, bigHost: bool)
    requires WriteReady(geo, p, m, write) && ReadReady(geo, p, n, read)
    requires Guards(p, x, h, write, Request(write.datalen, 0), bigHost)
    ensures ReadReady(geo, p, n, Request(write.datalen, 0))
  {
    hide ValidLayout, ReadFits, WriteFits, WritesProtected, ReadsProtected;
    SameShapeOfLayout(p.layout, m, n);
  }

  /** One write and one read, each of any length. */
  lemma {:induction false} ReadsBack(geo: Geometry, p: Pipeline, x: Protection, h: nat, m: Memory, page: seq<Byte>,
                                     write: Request, n: Memory, r: seq<Byte>, read: Request, bigHost: bool)
    requires WriteReady(geo, p, m, write) && |page| == geo.pageSize
    requires ReadReady(geo, p, n, read) && |r| == geo.pageSize
    requires Guards(p, x, h, write, Request(write.datalen, 0), bigHost)
    requires var stored := WriteOutcome(geo, p, m, page, write, bigHost).2;
      && OneFlipEach(p.layout, x, stored, r)
      && BareDataUnharmed(p.layout, x, stored, r, p.readSpans.dataSpan, write.datalen)
    ensures ReadOutcome(geo, p, n, r, read, bigHost).0 == Acked(read.datalen, read.ooblen)
    ensures var len := Least(write.datalen, read.datalen);
      ReadOutcome(geo, p, n, r, read, bigHost).2[..len] == page[..len]
    ensures OobReturns(geo, p, page, write, WriteOutcome(geo, p, m, page, write, bigHost).2, r, read,
                       ReadOutcome(geo, p, n, r, read, bigHost).2)
  {
    hide WriteOutcome, ReadOutcome, WriteReady, ReadReady, Guards, OneFlipEach, BareDataUnharmed, OobReturns;
    var same, len := Request(write.datalen, 0), Least(write.datalen, read.datalen);
    ReadBack(geo, p, x, h, m, write, n, read, bigHost);
    LengthsOf(geo, p, m, write, n, read);
    DataSurvives(geo, p, x, h, m, page, write, n, r, same, bigHost);
    OtherLength(geo, p, n, r, same, read, bigHost);
    StartOf(ReadOutcome(geo, p, n, r, same, bigHost).2, len, write.datalen);
    StartOf(page, len, write.datalen);
    AllOobSurvives(geo, p, m, page, write, n, r, read, bigHost);
  }

  lemma {:induction false} LengthsOf(geo: Geometry, p: Pipeline, m: Memory, write: Request, n: Memory, read: Request)
    requires WriteReady(geo, p, m, write) && ReadReady(geo, p, n, read)
    ensures write.datalen <= geo.pageSize && read.datalen <= geo.pageSize
  {
  }

  /** A write to a guarded page is acknowledged, and its page is stored. */
  lemma {:induction false} WriteIsStored(s: Setup, st: State, ev: Event)
    requires ValidState(s, st) && Possible(s, st.spans, ev) && ev.Writes? && Guarded(s, ev.at, ev.req)
    ensures Step(s, st, ev).1.Some?
    ensures Step(s, st, ev).1.value.0 == Acked(s.geo.pageSize - s.geo.oobSize, s.geo.oobSize)
    ensures Step(s, st, ev).0.raw[ev.at] == Step(s, st, ev).1.value.1
  {
    hide WriteOutcome, Guards, FitsLayout, Composed, Fetch, InSpan, WriteReady;
    var guard, p := s.guards[IndexOf(s, ev.at)], PipelineFor(s, ev.at);
    WriteLeaves(s.geo, p, guard.x, guard.h, SpansFor(s, st.spans, ev.worker, ev.at), ev.page, ev.req,
                Request(ev.req.datalen, 0), s.bigHost);
  }

  /** After a write and its damage, any worker reads the data of the write. */
  lemma {:induction false} ReadAfterWrite(s: Setup, st: State, write: Event, now: State, read: Event)
    requires ValidState(s, st) && Possible(s, st.spans, write) && write.Writes? && Guarded(s, write.at, write.req)
    requires ValidState(s, now) && Possible(s, now.spans, read) && read.Reads? && read.at == write.at
    requires Harmless(s, write.at, write.req, Step(s, st, write).0.raw[write.at], now.raw[write.at])
    ensures Returns(Step(s, now, read).1, read.req, write)
    ensures OobReturns(s.geo, PipelineFor(s, write.at), write.page, write.req, Step(s, st, write).0.raw[write.at],
                       now.raw[write.at], read.req, Step(s, now, read).1.value.1)
  {
    hide WriteOutcome, ReadOutcome, Guards, OneFlipEach, BareDataUnharmed, WriteReady, ReadReady, OnDevice, OobReturns;
    var guard, p := s.guards[IndexOf(s, write.at)], PipelineFor(s, write.at);
    WriteIsStored(s, st, write);
    LengthsOf(s.geo, p, SpansFor(s, st.spans, write.worker, write.at), write.req,
              SpansFor(s, now.spans, read.worker, read.at), read.req);
    ReadsBack(s.geo, p, guard.x, guard.h, SpansFor(s, st.spans, write.worker, write.at), write.page, write.req,
              SpansFor(s, now.spans, read.worker, read.at), now.raw[read.at], read.req, s.bigHost);
  }

  /** The answer acknowledges the read, and has the data of the write, as far as both go. */
  predicate Returns(answer: Option<(Reply, seq<Byte>)>, read: Request, write: Event)
    requires write.Writes?
  {
    && answer.Some? && answer.value.0 == Acked(read.datalen, read.ooblen)
    && var len := Least(write.req.datalen, read.datalen);
       len <= |answer.value.1| && len <= |write.page| && answer.value.1[..len] == write.page[..len]
  }

  /** In every run of writes, reads and harmless damage, to any pages and by any workers, every read of a
      page returns the data last written to it, and the out-of-band bytes that no codec touches and no
      damage hits. */
  lemma {:induction false} ReadsReturnLastWrites(s: Setup, st: State, run: seq<Event>, k: nat)
    requires ValidState(s, st) && AllPossible(s, st.spans, run) && Gentle(s, st, run)
    requires k < |run| && run[k].Reads? && LastWrite(run, k, run[k].at).Some?
    requires Guarded(s, run[k].at, run[LastWrite(run, k, run[k].at).value].req)
    ensures Returns(Answer(s, st, run, k), run[k].req, run[LastWrite(run, k, run[k].at).value])
    ensures var a, j := run[k].at, LastWrite(run, k, run[k].at).value;
      OobReturns(s.geo, PipelineFor(s, a), run[j].page, run[j].req, StateAfter(s, st, run, j + 1).raw[a],
                 StateAfter(s, st, run, k).raw[a], run[k].req, Answer(s, st, run, k).value.1)
  {
    hide Possible, Step, Guarded, Harmless, OnDevice, ValidState, Returns, Gentle, OobReturns;
    var a := run[k].at;
    var j := LastWrite(run, k, a).value;
    assert OnDevice(s, a) by { GuardedIsOnDevice(s, a, run[j].req); }
    AlwaysKept(s, st, run, k, a);
    var before, now := StateAfter(s, st, run, j), StateAfter(s, st, run, k);
    StaysPossible(s, st.spans, before.spans, run[j]);
    StaysPossible(s, st.spans, now.spans, run[k]);
    assert StateAfter(s, st, run, j + 1) == Step(s, before, run[j]).0;
    ReadAfterWrite(s, before, run[j], now, run[k]);
  }

  lemma {:induction false} GuardedIsOnDevice(s: Setup, a: Address, write: Request)
    requires Guarded(s, a, write)
    ensures OnDevice(s, a)
  {
  }

  /** And every write to a guarded page is acknowledged. */
  lemma {:induction false} WritesAreAcknowledged(s: Setup, st: State, run: seq<Event>, k: nat)
    requires ValidState(s, st) && AllPossible(s, st.spans, run) && k < |run|
    requires run[k].Writes? && Guarded(s, run[k].at, run[k].req)
    ensures Answer(s, st, run, k).Some?
    ensures Answer(s, st, run, k).value.0 == Acked(s.geo.pageSize - s.geo.oobSize, s.geo.oobSize)
  {
    hide Possible, Step, Guarded, ValidState;
    var q := StateAfter(s, st, run, k);
    StaysPossible(s, st.spans, q.spans, run[k]);
    WriteIsStored(s, q, run[k]);
  }
}
