/** The model text of a run: what is fed and flushed, and what comes out. */
module SseContent {
  import opened Utf8
  import opened Sequences
  import opened Splicing
  import opened Detection
  import opened Scanning
  import opened AtRest
  import opened Releasing
  import opened Streaming
  import opened NoLeak
  import opened SameAsBatch
  import opened Sse
  import opened SseMachine
  import opened SseRun

  /** What an event asks of the buffer. */
  datatype Op = Feed(text: Text) | Flush

  predicate GoodOps(ops: seq<Op>) {
    forall op :: op in ops && op.Feed? ==> WellFormed(op.text)
  }

  function OpsOf(codec: Codec, event: Text): seq<Op> {
    match Decode(codec, event)
    case Ignored => []
    case Done => [Flush]
    case Unparseable(_) => []
    case Parsed(_, chunk) =>
      (if chunk.content.Some? then [Feed(chunk.content.value)] else []) + (if chunk.finish.Some? then [Flush] else [])
  }

  function AllOps(codec: Codec, events: seq<Text>): seq<Op> {
    if events == [] then [] else OpsOf(codec, events[0]) + AllOps(codec, events[1..])
  }

  function PayloadText(codec: Codec, payload: Text): Text {
    match codec.parse(payload)
    case None => []
    case Some(chunk) => OrDefault(chunk.content)
  }

  /** The model text a client reads in a frame; an unterminated tail is forwarded and so
      read as the event it has become. */
  function TextIn(codec: Codec, f: Frame): Text {
    match f
    case Content(_, _, text) => text
    case Finish(_, _, _) => []
    case Verbatim(payload) => PayloadText(codec, payload)
    case Tail(text) => Brings(codec, text)
    case DoneFrame => []
  }

  function ContentOf(codec: Codec, frames: seq<Frame>): Text {
    if frames == [] then [] else TextIn(codec, frames[0]) + ContentOf(codec, frames[1..])
  }

  // ---- Running the operations

  ghost predicate Operable(cfg: Config, pending: Text, ops: seq<Op>) {
    Scannable(cfg.ds, pending) && GoodOps(ops)
  }

  /** The buffer after one operation, and what it lets out. */
  function OpStep(cfg: Config, pending: Text, op: Op): Released
    requires Scannable(cfg.ds, pending) && (op.Feed? ==> WellFormed(op.text))
  {
    match op
    case Feed(text) =>
      WellFormedConcat(pending, text);
      ReleaseOf(cfg, pending + text, false)
    case Flush => ReleaseOf(cfg, pending, true)
  }

  lemma OpReady(cfg: Config, pending: Text, ops: seq<Op>)
    requires Operable(cfg, pending, ops) && ops != []
    ensures ops[0].Feed? ==> WellFormed(ops[0].text)
    ensures Operable(cfg, OpStep(cfg, pending, ops[0]).rest, ops[1..])
  {
    assert ops[0] in ops;
    match ops[0]
    case Feed(text) =>
      WellFormedConcat(pending, text);
      ReleaseWellFormed(cfg, pending + text, false);
    case Flush =>
      ReleaseWellFormed(cfg, pending, true);
  }

  function OpsOut(cfg: Config, pending: Text, ops: seq<Op>): Text
    requires Operable(cfg, pending, ops)
    decreases |ops|
  {
    if ops == [] then []
    else
      OpReady(cfg, pending, ops);
      var r := OpStep(cfg, pending, ops[0]);
      r.text + OpsOut(cfg, r.rest, ops[1..])
  }

  function OpsRest(cfg: Config, pending: Text, ops: seq<Op>): Text
    requires Operable(cfg, pending, ops)
    decreases |ops|
  {
    if ops == [] then pending
    else
      OpReady(cfg, pending, ops);
      OpsRest(cfg, OpStep(cfg, pending, ops[0]).rest, ops[1..])
  }

  lemma FirstOp(cfg: Config, pending: Text, ops: seq<Op>)
    requires Operable(cfg, pending, ops) && ops != []
    ensures ops[0].Feed? ==> WellFormed(ops[0].text)
    ensures var r := OpStep(cfg, pending, ops[0]);
            && Operable(cfg, r.rest, ops[1..])
            && OpsOut(cfg, pending, ops) == r.text + OpsOut(cfg, r.rest, ops[1..])
            && OpsRest(cfg, pending, ops) == OpsRest(cfg, r.rest, ops[1..])
  {
    hide Operable, OpStep, WellFormed;
    OpReady(cfg, pending, ops);
  }

  lemma NoOps(cfg: Config, pending: Text)
    requires Scannable(cfg.ds, pending)
    ensures Operable(cfg, pending, []) && OpsOut(cfg, pending, []) == [] && OpsRest(cfg, pending, []) == pending
  {
  }

  lemma GoodOpsConcat(a: seq<Op>, b: seq<Op>)
    ensures GoodOps(a + b) <==> GoodOps(a) && GoodOps(b)
  {
    assert forall op :: op in a ==> op in a + b;
    assert forall op :: op in b ==> op in a + b;
  }

  lemma OperableParts(cfg: Config, pending: Text, ops: seq<Op>)
    ensures Operable(cfg, pending, ops) <==> Scannable(cfg.ds, pending) && GoodOps(ops)
  {
  }

  lemma {:induction false} OpsConcat(cfg: Config, pending: Text, a: seq<Op>, b: seq<Op>)
    requires Operable(cfg, pending, a) && GoodOps(b)
    ensures Operable(cfg, pending, a + b) && Operable(cfg, OpsRest(cfg, pending, a), b)
    ensures OpsOut(cfg, pending, a + b) == OpsOut(cfg, pending, a) + OpsOut(cfg, OpsRest(cfg, pending, a), b)
    ensures OpsRest(cfg, pending, a + b) == OpsRest(cfg, OpsRest(cfg, pending, a), b)
    decreases |a|
  {
    hide *;
    OperableParts(cfg, pending, a);
    GoodOpsConcat(a, b);
    OperableParts(cfg, pending, a + b);
    if a == [] {
      NoOps(cfg, pending);
      assert a + b == b;
      OperableParts(cfg, pending, b);
    } else {
      FirstOp(cfg, pending, a);
      assert (a + b)[0] == a[0] && (a + b)[1..] == a[1..] + b;
      FirstOp(cfg, pending, a + b);
      OpsConcat(cfg, OpStep(cfg, pending, a[0]).rest, a[1..], b);
    }
  }

  // ---- Segments: from one flush to the next

  predicate HasFlush(ops: seq<Op>) {
    Flush in ops
  }

  /** The texts fed before the first flush. */
  function Deltas(ops: seq<Op>): seq<Text> {
    if ops == [] || ops[0].Flush? then [] else [ops[0].text] + Deltas(ops[1..])
  }

  function AfterFlush(ops: seq<Op>): seq<Op> {
    if ops == [] then [] else if ops[0].Flush? then ops[1..] else AfterFlush(ops[1..])
  }

  lemma {:induction false} SegmentGood(ops: seq<Op>)
    requires GoodOps(ops)
    ensures AllWellFormed(Deltas(ops)) && GoodOps(AfterFlush(ops))
    ensures HasFlush(ops) ==> |AfterFlush(ops)| < |ops|
  {
    if ops != [] {
      assert ops[0] in ops;
      assert ops == [ops[0]] + ops[1..];
      SegmentGood(ops[1..]);
    }
  }

  lemma SegmentStep(ops: seq<Op>)
    requires ops != [] && ops[0].Feed?
    ensures Deltas(ops) == [ops[0].text] + Deltas(ops[1..]) && AfterFlush(ops) == AfterFlush(ops[1..])
    ensures HasFlush(ops) <==> HasFlush(ops[1..])
  {
    assert ops == [ops[0]] + ops[1..];
  }

  /** Up to the first flush, the operations are one streamed text. */
  lemma {:induction false} SegmentIsStream(cfg: Config, pending: Text, ops: seq<Op>)
    requires Operable(cfg, pending, ops) && HasFlush(ops)
    ensures Runnable(cfg, pending, Deltas(ops)) && Operable(cfg, [], AfterFlush(ops))
    ensures OpsOut(cfg, pending, ops) == Stream(cfg, pending, Deltas(ops)) + OpsOut(cfg, [], AfterFlush(ops))
    decreases |ops|
  {
    hide *;
    OperableParts(cfg, pending, ops);
    SegmentGood(ops);
    RunnableFrom(cfg, pending, Deltas(ops));
    FlushAlone();
    FirstOp(cfg, pending, ops);
    match ops[0]
    case Flush =>
      FlushFirst(cfg, pending, ops);
      LastRelease(cfg, pending, 0, Deltas(ops));
    case Feed(text) =>
      SegmentStep(ops);
      FeedFirst(cfg, pending, text);
      SegmentIsStream(cfg, OpStep(cfg, pending, ops[0]).rest, ops[1..]);
      NextRelease(cfg, pending, 0, Deltas(ops));
      assert Deltas(ops)[0] == text && Deltas(ops)[1..] == Deltas(ops[1..]);
      Associate(OpStep(cfg, pending, ops[0]).text, Stream(cfg, OpStep(cfg, pending, ops[0]).rest, Deltas(ops[1..])),
                  OpsOut(cfg, [], AfterFlush(ops)));
  }

  lemma FlushAlone()
    ensures !HasFlush([]) && GoodOps([]) && GoodOps([Flush])
  {
  }

  lemma FeedFirst(cfg: Config, pending: Text, text: Text)
    requires Scannable(cfg.ds, pending) && WellFormed(text)
    ensures Scannable(cfg.ds, pending + text)
    ensures OpStep(cfg, pending, Feed(text)) == ReleaseOf(cfg, pending + text, false)
  {
    WellFormedConcat(pending, text);
  }

  lemma FlushFirst(cfg: Config, pending: Text, ops: seq<Op>)
    requires Scannable(cfg.ds, pending) && ops != [] && ops[0].Flush?
    ensures Deltas(ops) == [] && AfterFlush(ops) == ops[1..]
    ensures OpStep(cfg, pending, ops[0]) == ReleaseOf(cfg, pending, true) && ReleaseOf(cfg, pending, true).rest == []
  {
    FlushIsAtRest(cfg, pending);
  }

  function Segments(ops: seq<Op>): seq<seq<Text>>
    decreases |ops|
  {
    if HasFlush(ops) then
      AfterFlushShorter(ops);
      [Deltas(ops)] + Segments(AfterFlush(ops))
    else []
  }

  lemma {:induction false} AfterFlushShorter(ops: seq<Op>)
    requires HasFlush(ops)
    ensures |AfterFlush(ops)| < |ops|
  {
    if ops[0].Feed? {
      SegmentStep(ops);
      AfterFlushShorter(ops[1..]);
    }
  }

  predicate AllSegmentsGood(segments: seq<seq<Text>>) {
    forall deltas :: deltas in segments ==> AllWellFormed(deltas)
  }

  /** The segments streamed one by one, each from an empty buffer. */
  function StreamAll(cfg: Config, segments: seq<seq<Text>>): Text
    requires Registry(cfg.ds) && AllSegmentsGood(segments)
  {
    if segments == [] then []
    else
      assert segments[0] in segments;
      Stream(cfg, [], segments[0]) + StreamAll(cfg, segments[1..])
  }

  /** Each segment redacted as at rest. */
  function StoreAll(cfg: Config, segments: seq<seq<Text>>): Text
    requires Registry(cfg.ds) && AllSegmentsGood(segments)
  {
    if segments == [] then []
    else
      assert segments[0] in segments;
      ConcatWellFormed(segments[0]);
      HitsProper(cfg.ds, Concat(segments[0]), cfg.policies);
      MaskAll(Concat(segments[0]), Hits(cfg, Concat(segments[0]))) + StoreAll(cfg, segments[1..])
  }

  predicate Flushed(ops: seq<Op>) {
    ops == [] || ops[|ops| - 1].Flush?
  }

  lemma {:induction false} AfterFlushFlushed(ops: seq<Op>)
    requires ops != [] && Flushed(ops)
    ensures HasFlush(ops) && Flushed(AfterFlush(ops))
  {
    assert ops[|ops| - 1] in ops;
    if ops[0].Feed? {
      AfterFlushFlushed(ops[1..]);
    }
  }

  lemma {:induction false} SegmentsGood(ops: seq<Op>)
    requires GoodOps(ops)
    ensures AllSegmentsGood(Segments(ops))
    decreases |ops|
  {
    if HasFlush(ops) {
      SegmentGood(ops);
      SegmentsGood(AfterFlush(ops));
    }
  }

  /** Operations that end with a flush let out the streams of their segments. */
  lemma {:induction false} OpsAreSegments(cfg: Config, ops: seq<Op>)
    requires Operable(cfg, [], ops) && Flushed(ops)
    ensures Registry(cfg.ds) && AllSegmentsGood(Segments(ops))
    ensures OpsOut(cfg, [], ops) == StreamAll(cfg, Segments(ops))
    decreases |ops|
  {
    hide *;
    OperableParts(cfg, [], ops);
    SegmentsGood(ops);
    RegistryOf(cfg.ds, []);
    if ops == [] {
      NoOps(cfg, []);
      FlushAlone();
      NoSegments(cfg, ops);
    } else {
      AfterFlushFlushed(ops);
      SegmentIsStream(cfg, [], ops);
      SegmentGood(ops);
      OpsAreSegments(cfg, AfterFlush(ops));
      FirstSegment(cfg, ops);
    }
  }

  lemma RegistryOf(ds: seq<Detector>, text: Text)
    requires Scannable(ds, text)
    ensures Registry(ds)
  {
  }

  lemma NoSegments(cfg: Config, ops: seq<Op>)
    requires !HasFlush(ops) && Registry(cfg.ds)
    ensures Segments(ops) == [] && AllSegmentsGood([]) && StreamAll(cfg, []) == []
  {
  }

  lemma FirstSegment(cfg: Config, ops: seq<Op>)
    requires HasFlush(ops) && Registry(cfg.ds) && AllSegmentsGood(Segments(ops)) && AllSegmentsGood(Segments(AfterFlush(ops)))
    requires Runnable(cfg, [], Deltas(ops))
    ensures StreamAll(cfg, Segments(ops)) == Stream(cfg, [], Deltas(ops)) + StreamAll(cfg, Segments(AfterFlush(ops)))
  {
  }

  // ---- Events as operations

  lemma ContentConcat(codec: Codec, a: seq<Frame>, b: seq<Frame>)
    ensures ContentOf(codec, a + b) == ContentOf(codec, a) + ContentOf(codec, b)
  {
    hide TextIn;
    if a == [] {
      assert a + b == b;
    } else {
      assert (a + b)[1..] == a[1..] + b;
      ContentConcat(codec, a[1..], b);
    }
  }

  lemma ContentOfFrame(codec: Codec, id: Option<Text>, model: Option<Text>, text: Text)
    ensures ContentOf(codec, ContentFrame(id, model, text)) == text
  {
  }

  lemma ContentOfOne(codec: Codec, f: Frame)
    ensures ContentOf(codec, [f]) == TextIn(codec, f) && ContentOf(codec, []) == []
    ensures f.Finish? || f.DoneFrame? ==> TextIn(codec, f) == []
    ensures f.Verbatim? && (codec.parse(f.payload).None? || codec.parse(f.payload).value.content.None?) ==>
              TextIn(codec, f) == []
    ensures f.Tail? ==> TextIn(codec, f) == Brings(codec, f.text)
  {
    assert [f][1..] == [];
  }

  lemma FlushIsOp(su: Setup, core: Core)
    requires Ready(su, core)
    ensures Operable(su.cfg, core.pending, [Flush])
    ensures ContentOf(su.codec, FlushStep(su, core).out) == OpsOut(su.cfg, core.pending, [Flush])
    ensures FlushStep(su, core).core.pending == OpsRest(su.cfg, core.pending, [Flush])
  {
    FlushIs(su, core);
    FlushAlone();
    OperableParts(su.cfg, core.pending, [Flush]);
    hide *;
    FirstOp(su.cfg, core.pending, [Flush]);
    FlushFirst(su.cfg, core.pending, [Flush]);
    assert [Flush][1..] == [];
    var r := ReleaseOf(su.cfg, core.pending, true);
    OperableParts(su.cfg, r.rest, []);
    NoOps(su.cfg, r.rest);
    ContentOfFrame(su.codec, core.id, core.model, r.text);
  }

  lemma FeedIsOp(su: Setup, core: Core, content: Text)
    requires Ready(su, core) && WellFormed(content)
    ensures Operable(su.cfg, core.pending, [Feed(content)])
    ensures ContentOf(su.codec, FeedStep(su, core, content).out) == OpsOut(su.cfg, core.pending, [Feed(content)])
    ensures FeedStep(su, core, content).core.pending == OpsRest(su.cfg, core.pending, [Feed(content)])
  {
    FeedIs(su, core, content);
    FlushIs(su, core);
    assert GoodOps([Feed(content)]);
    OperableParts(su.cfg, core.pending, [Feed(content)]);
    hide *;
    FirstOp(su.cfg, core.pending, [Feed(content)]);
    FeedFirst(su.cfg, core.pending, content);
    assert [Feed(content)][1..] == [];
    var r := ReleaseOf(su.cfg, core.pending + content, false);
    OperableParts(su.cfg, r.rest, []);
    NoOps(su.cfg, r.rest);
    ContentOfFrame(su.codec, core.id, core.model, r.text);
  }

  /** Frames and buffer after a step are those of some operations. */
  ghost predicate Does(su: Setup, core: Core, step: Step, ops: seq<Op>) {
    && Operable(su.cfg, core.pending, ops)
    && ContentOf(su.codec, step.out) == OpsOut(su.cfg, core.pending, ops)
    && step.core.pending == OpsRest(su.cfg, core.pending, ops)
  }

  lemma DoesNothing(su: Setup, core: Core, step: Step)
    requires Ready(su, core) && step.core.pending == core.pending && ContentOf(su.codec, step.out) == []
    ensures Does(su, core, step, [])
  {
    NoOps(su.cfg, core.pending);
  }

  /** One step after another does their operations one after another. */
  lemma DoesBoth(su: Setup, core: Core, first: Step, second: Step, both: Step, a: seq<Op>, b: seq<Op>)
    requires Does(su, core, first, a) && Does(su, first.core, second, b)
    requires both.core.pending == second.core.pending && ContentOf(su.codec, both.out) == ContentOf(su.codec, first.out) + ContentOf(su.codec, second.out)
    ensures Does(su, core, both, a + b)
  {
    hide OpsOut, OpsRest, ContentOf, Scannable;
    OpsConcat(su.cfg, core.pending, a, b);
  }

  function FeedOps(chunk: Chunk): seq<Op> {
    if chunk.content.Some? then [Feed(chunk.content.value)] else []
  }

  function FlushOps(chunk: Chunk): seq<Op> {
    if chunk.finish.Some? then [Flush] else []
  }

  lemma DoesFlush(su: Setup, core: Core, step: Step)
    requires Ready(su, core)
    requires step.core.pending == FlushStep(su, core).core.pending && ContentOf(su.codec, step.out) == ContentOf(su.codec, FlushStep(su, core).out)
    ensures Does(su, core, step, [Flush])
  {
    FlushIsOp(su, core);
  }

  lemma FeedPartDoes(su: Setup, core: Core, chunk: Chunk)
    requires Ready(su, core) && GoodChunk(chunk)
    ensures Does(su, core, FeedPart(su, core, chunk), FeedOps(chunk))
  {
    FeedPartIs(su, core, chunk);
    if chunk.content.Some? {
      FeedIsOp(su, Named(core, chunk), chunk.content.value);
    } else {
      DoesNothing(su, core, FeedPart(su, core, chunk));
    }
  }

  lemma ChunkDoes(su: Setup, core: Core, payload: Text, chunk: Chunk)
    requires Ready(su, core) && GoodChunk(chunk) && su.codec.parse(payload) == Some(chunk)
    ensures Does(su, core, ChunkStep(su, core, payload, chunk), FeedOps(chunk) + FlushOps(chunk))
  {
    assert FlushOps(chunk) == if chunk.finish.Some? then [Flush] else [];
    hide *;
    ChunkIs(su, core, payload, chunk);
    FeedPartDoes(su, core, chunk);
    var fed := FeedPart(su, core, chunk);
    var step := ChunkStep(su, core, payload, chunk);
    var ending := Finish(OrDefault(fed.core.id), OrDefault(fed.core.model), OrDefault(chunk.finish));
    OrDefaultIs(chunk.finish);
    if chunk.finish.Some? {
      var flushed := FlushStep(su, fed.core);
      DoesFlush(su, fed.core, flushed);
      ContentOfOne(su.codec, ending);
      ContentConcat(su.codec, fed.out + flushed.out, [ending]);
      ContentConcat(su.codec, fed.out, flushed.out);
      assert ContentOf(su.codec, fed.out + flushed.out) + [] == ContentOf(su.codec, fed.out + flushed.out);
      DoesBoth(su, core, fed, flushed, step, FeedOps(chunk), [Flush]);
    } else {
      assert FeedOps(chunk) + [] == FeedOps(chunk);
      if chunk.content.None? {
        ContentOfOne(su.codec, Verbatim(payload));
        ContentOfOne(su.codec, DoneFrame);
        DoesSame(su, core, fed, step, FeedOps(chunk));
      }
    }
  }

  lemma DoesSame(su: Setup, core: Core, a: Step, b: Step, ops: seq<Op>)
    requires Does(su, core, a, ops) && a.core.pending == b.core.pending && ContentOf(su.codec, a.out) == ContentOf(su.codec, b.out)
    ensures Does(su, core, b, ops)
  {
  }

  lemma OpsOfIs(codec: Codec, event: Text)
    ensures var decoded := Decode(codec, event);
            && (decoded.Ignored? || decoded.Unparseable? ==> OpsOf(codec, event) == [])
            && (decoded.Done? ==> OpsOf(codec, event) == [Flush])
            && (decoded.Parsed? ==> OpsOf(codec, event) == FeedOps(decoded.chunk) + FlushOps(decoded.chunk))
  {
  }

  lemma DecodeParses(codec: Codec, event: Text)
    ensures var decoded := Decode(codec, event);
            && (decoded.Unparseable? ==> codec.parse(decoded.payload).None?)
            && (decoded.Parsed? ==> codec.parse(decoded.payload) == Some(decoded.chunk))
  {
  }

  lemma EventDoes(su: Setup, core: Core, event: Text)
    requires Ready(su, core)
    ensures Does(su, core, EventStep(su, core, event), OpsOf(su.codec, event))
  {
    hide *;
    EventIs(su, core, event);
    OpsOfIs(su.codec, event);
    DecodeParses(su.codec, event);
    ContentOfOne(su.codec, DoneFrame);
    match Decode(su.codec, event)
    case Ignored =>
      DoesNothing(su, core, EventStep(su, core, event));
    case Done =>
      ContentOfOne(su.codec, DoneFrame);
      ContentConcat(su.codec, FlushStep(su, core).out, [DoneFrame]);
      assert ContentOf(su.codec, FlushStep(su, core).out) + [] == ContentOf(su.codec, FlushStep(su, core).out);
      DoesFlush(su, core, EventStep(su, core, event));
    case Unparseable(payload) =>
      ContentOfOne(su.codec, Verbatim(payload));
      DoesNothing(su, core, EventStep(su, core, event));
    case Parsed(payload, chunk) =>
      ChunkDoes(su, core, payload, chunk);
  }

  lemma AllOpsFirst(codec: Codec, events: seq<Text>)
    requires events != []
    ensures AllOps(codec, events) == OpsOf(codec, events[0]) + AllOps(codec, events[1..])
  {
  }

  /** The content sent for the events, and the buffer left, are those of their operations. */
  lemma {:induction false} EventsDo(su: Setup, core: Core, events: seq<Text>)
    requires Ready(su, core)
    ensures Does(su, core, EventSteps(su, core, events), AllOps(su.codec, events))
    decreases |events|
  {
    if events == [] {
      NoEvents(su, core);
      DoesNothing(su, core, EventSteps(su, core, events));
    } else {
      hide *;
      FirstEvent(su, core, events);
      AllOpsFirst(su.codec, events);
      EventDoes(su, core, events[0]);
      var first := EventStep(su, core, events[0]);
      var rest := EventSteps(su, first.core, events[1..]);
      EventsDo(su, first.core, events[1..]);
      ContentConcat(su.codec, first.out, rest.out);
      DoesBoth(su, core, first, rest, EventSteps(su, core, events), OpsOf(su.codec, events[0]), AllOps(su.codec, events[1..]));
    }
  }

  // ---- The content of a whole run

  /** All operations of a run: those of its events, and a flush at the end of the upstream
      unless a `[DONE]` event brought one. */
  function RunOps(codec: Codec, total: Text): seq<Op> {
    AllOps(codec, Events(total)) + (if HasDone(codec, Events(total)) then [] else [Flush])
  }

  lemma {:induction false} DoneFlushes(codec: Codec, events: seq<Text>)
    requires DoneLast(codec, events) && HasDone(codec, events)
    ensures AllOps(codec, events) != [] && Flushed(AllOps(codec, events))
  {
    AllOpsFirst(codec, events);
    HasDoneFirst(codec, events);
    assert |events| > 1 ==> Decode(codec, events[0]) != Done && DoneLast(codec, events[1..]);
    assert |events| == 1 ==> events[1..] == [] && !HasDone(codec, []) && AllOps(codec, []) == [];
    OpsOfIs(codec, events[0]);
    hide Decode, OpsOf, HasDone, DoneLast, AllOps;
    if |events| > 1 {
      DoneFlushes(codec, events[1..]);
    }
  }

  lemma FinalContent(su: Setup, core: Core, raw: Text)
    requires Ready(su, core)
    ensures ContentOf(su.codec, FinalFrames(su, core, raw))
         == ContentOf(su.codec, FlushStep(su, core).out) + Brings(su.codec, su.codec.trim(raw))
  {
    var tail := su.codec.trim(raw);
    var out, extra := FlushStep(su, core).out, if tail == [] then [] else [Tail(tail)];
    assert FinalFrames(su, core, raw) == out + extra + [DoneFrame];
    NothingBrought(su.codec);
    hide *;
    ContentOfOne(su.codec, DoneFrame);
    if tail != [] {
      ContentOfOne(su.codec, Tail(tail));
    }
    ContentConcat(su.codec, out + extra, [DoneFrame]);
    ContentConcat(su.codec, out, extra);
    var sent := ContentOf(su.codec, out) + Brings(su.codec, tail);
    assert sent + [] == sent;
  }

  lemma NothingBrought(codec: Codec)
    ensures Brings(codec, []) == []
  {
  }

  lemma DoesParts(su: Setup, core: Core, step: Step, ops: seq<Op>)
    requires Does(su, core, step, ops)
    ensures Operable(su.cfg, core.pending, ops) && ContentOf(su.codec, step.out) == OpsOut(su.cfg, core.pending, ops)
  {
  }

  lemma RunOpsIs(codec: Codec, total: Text)
    ensures RunOps(codec, total) == AllOps(codec, Events(total)) + (if HasDone(codec, Events(total)) then [] else [Flush])
  {
  }

  lemma RunOpsFlushed(codec: Codec, total: Text)
    requires DoneLast(codec, Events(total))
    ensures Flushed(RunOps(codec, total))
  {
    var ops := AllOps(codec, Events(total));
    if HasDone(codec, Events(total)) {
      DoneFlushes(codec, Events(total));
      assert ops + [] == ops;
    }
  }

  /** The model text in an unterminated tail, which is forwarded as it is. */
  function TailText(codec: Codec, total: Text): Text {
    if HasDone(codec, Events(total)) then [] else Brings(codec, codec.trim(Leftover(total)))
  }

  lemma TailTextIs(codec: Codec, total: Text)
    ensures TailText(codec, total) == if HasDone(codec, Events(total)) then [] else Brings(codec, codec.trim(Leftover(total)))
  {
  }

  lemma WholeRunContent(su: Setup, total: Text)
    requires Ready(su, StartCore()) && DoneLast(su.codec, Events(total))
    ensures Operable(su.cfg, [], RunOps(su.codec, total))
    ensures ContentOf(su.codec, WholeRun(su, StartCore(), total))
         == OpsOut(su.cfg, [], RunOps(su.codec, total)) + TailText(su.codec, total)
  {
    hide *;
    var core, ops := StartCore(), AllOps(su.codec, Events(total));
    StartParts();
    WholeRunIs(su, core, total);
    EndsOnDone(su, core, Events(total));
    EventsDo(su, core, Events(total));
    RunOpsIs(su.codec, total);
    TailTextIs(su.codec, total);
    var drained := EventSteps(su, core, Events(total));
    if drained.core.emittedDone {
      assert ops + [] == ops && drained.out + [] == drained.out;
      DoesParts(su, core, drained, ops);
      assert ContentOf(su.codec, drained.out) + [] == ContentOf(su.codec, drained.out);
    } else {
      FlushedContent(su, core, drained, ops, Leftover(total));
    }
  }

  lemma FlushedContent(su: Setup, core: Core, drained: Step, ops: seq<Op>, raw: Text)
    requires Ready(su, drained.core) && Does(su, core, drained, ops)
    ensures Operable(su.cfg, core.pending, ops + [Flush])
    ensures ContentOf(su.codec, drained.out + FinalFrames(su, drained.core, raw))
         == OpsOut(su.cfg, core.pending, ops + [Flush]) + Brings(su.codec, su.codec.trim(raw))
  {
    hide *;
    var last := FlushStep(su, drained.core);
    var whole := Step(last.core, drained.out + last.out);
    DoesFlush(su, drained.core, last);
    ContentConcat(su.codec, drained.out, last.out);
    DoesBoth(su, core, drained, last, whole, ops, [Flush]);
    DoesParts(su, core, whole, ops + [Flush]);
    FinalContent(su, drained.core, raw);
    ContentConcat(su.codec, drained.out, FinalFrames(su, drained.core, raw));
    Associate(ContentOf(su.codec, drained.out), ContentOf(su.codec, last.out), Brings(su.codec, su.codec.trim(raw)));
  }

  /** The model text a client reads in a run without transport error: its segments, from
      flush to flush, streamed one by one from an empty buffer, and then the tail's text. */
  lemma RunStreamsItsSegments(su: Setup, upstream: seq<Item>)
    requires Registry(su.cfg.ds) && GoodCodec(su.codec) && NoError(upstream)
    requires DoneLast(su.codec, Events(Decoded(su.codec, upstream)))
    ensures Ready(su, StartCore())
    ensures var total := Decoded(su.codec, upstream);
            var segments := Segments(RunOps(su.codec, total));
            && AllSegmentsGood(segments)
            && ContentOf(su.codec, AllFrames(RunOf(su, StartCore(), [], upstream)))
               == StreamAll(su.cfg, segments) + TailText(su.codec, total)
  {
    StartReady(su);
    hide *;
    var total := Decoded(su.codec, upstream);
    StartParts();
    assert [] + total == total;
    RunIsWholeRun(su, StartCore(), [], upstream);
    WholeRunContent(su, total);
    RunOpsFlushed(su.codec, total);
    OpsAreSegments(su.cfg, RunOps(su.codec, total));
  }

  /** So what the client reads is what was streamed exactly when a terminated `[DONE]` came
      or the unterminated tail brings no text. */
  lemma OnlyStreamedIff(su: Setup, upstream: seq<Item>)
    requires Registry(su.cfg.ds) && GoodCodec(su.codec) && NoError(upstream)
    requires DoneLast(su.codec, Events(Decoded(su.codec, upstream)))
    ensures Ready(su, StartCore())
    ensures var total := Decoded(su.codec, upstream);
            var segments := Segments(RunOps(su.codec, total));
            && AllSegmentsGood(segments)
            && (ContentOf(su.codec, AllFrames(RunOf(su, StartCore(), [], upstream))) == StreamAll(su.cfg, segments)
                <==> HasDone(su.codec, Events(total)) || Brings(su.codec, su.codec.trim(Leftover(total))) == [])
  {
    hide *;
    var total := Decoded(su.codec, upstream);
    RunStreamsItsSegments(su, upstream);
    TailTextIs(su.codec, total);
    var streamed := StreamAll(su.cfg, Segments(RunOps(su.codec, total)));
    assert |streamed + TailText(su.codec, total)| == |streamed| + |TailText(su.codec, total)|;
    assert TailText(su.codec, total) == [] ==> streamed + TailText(su.codec, total) == streamed;
  }

  /** The text of an unterminated tail reaches the client unmasked, whatever the policies. */
  lemma TailGoesUnmasked(su: Setup, payload: Text)
    requires Registry(su.cfg.ds) && GoodCodec(su.codec)
    requires WellFormed(payload) && Visible(payload) && NL !in payload && payload != DONE && su.codec.parse(payload).Some?
    ensures Ready(su, StartCore())
    ensures ContentOf(su.codec, AllFrames(RunOf(su, StartCore(), [], [Received(DATA + payload)])))
         == OrDefault(su.codec.parse(payload).value.content)
  {
    var text := DATA + payload;
    DataVisible(payload);
    NoBreakWithout(text);
    hide *;
    TailIsForwarded(su, text);
    TextOfTail(su.codec, payload);
    ContentOfOne(su.codec, DoneFrame);
    ContentOfOne(su.codec, Tail(text));
    ContentConcat(su.codec, [Tail(text)], [DoneFrame]);
    assert [Tail(text)] + [DoneFrame] == [Tail(text), DoneFrame];
    assert Brings(su.codec, text) + [] == Brings(su.codec, text);
  }

  lemma DataVisible(payload: Text)
    requires WellFormed(payload) && Visible(payload) && NL !in payload
    ensures WellFormed(DATA + payload) && Visible(DATA + payload) && NL !in DATA + payload
  {
    hide WellFormed;
    AsciiWellFormed(DATA);
    WellFormedConcat(DATA, payload);
  }

  lemma TextOfTail(codec: Codec, payload: Text)
    requires GoodCodec(codec) && Visible(payload) && NL !in payload && payload != DONE && codec.parse(payload).Some?
    ensures Brings(codec, DATA + payload) == OrDefault(codec.parse(payload).value.content)
  {
    hide *;
    DataLineTaken(payload, []);
    TrimOf(codec, [], payload);
    assert [] + payload == payload;
    NothingIsBlank();
    DecodeIs(codec, DATA + payload);
  }

  lemma NothingIsBlank()
    ensures Blank([])
  {
  }

  // ---- Streamed as stored

  /** No cut of the segment's releases changes what the detectors see. */
  ghost predicate SegmentClean(cfg: Config, deltas: seq<Text>)
    requires Runnable(cfg, [], deltas)
  {
    Clean(cfg, Concat(deltas), 0) && AllClean(cfg, Concat(deltas), StreamCuts(cfg, [], 0, deltas))
  }

  ghost predicate SegmentsClean(cfg: Config, segments: seq<seq<Text>>) {
    forall deltas :: deltas in segments ==> Runnable(cfg, [], deltas) && SegmentClean(cfg, deltas)
  }

  lemma {:induction false} StreamedIsStored(cfg: Config, segments: seq<seq<Text>>)
    requires Registry(cfg.ds) && AllSegmentsGood(segments) && SegmentsClean(cfg, segments)
    ensures StreamAll(cfg, segments) == StoreAll(cfg, segments)
  {
    if segments != [] {
      assert segments[0] in segments;
      assert SegmentsClean(cfg, segments[1..]);
      hide Clean, AllClean;
      StreamingIsAtRest(cfg, segments[0]);
      StreamedIsStored(cfg, segments[1..]);
    }
  }

  /** When the segments are clean, what a client reads is, segment by segment, exactly what
      at-rest redaction stores, and then the tail's text. */
  lemma RunStoresItsSegments(su: Setup, upstream: seq<Item>)
    requires Registry(su.cfg.ds) && GoodCodec(su.codec) && NoError(upstream)
    requires DoneLast(su.codec, Events(Decoded(su.codec, upstream)))
    requires SegmentsClean(su.cfg, Segments(RunOps(su.codec, Decoded(su.codec, upstream))))
    ensures Ready(su, StartCore())
    ensures var total := Decoded(su.codec, upstream);
            var segments := Segments(RunOps(su.codec, total));
            && AllSegmentsGood(segments)
            && ContentOf(su.codec, AllFrames(RunOf(su, StartCore(), [], upstream)))
               == StoreAll(su.cfg, segments) + TailText(su.codec, total)
  {
    hide *;
    RunStreamsItsSegments(su, upstream);
    StreamedIsStored(su.cfg, Segments(RunOps(su.codec, Decoded(su.codec, upstream))));
  }

  /** With local detectors no segment of a run leaks a match: the client reads its masked
      segments, and besides them only the text of an unterminated tail. */
  lemma RunLeaksNothing(su: Setup, upstream: seq<Item>)
    requires Registry(su.cfg.ds) && GoodCodec(su.codec) && NoError(upstream)
    requires DoneLast(su.codec, Events(Decoded(su.codec, upstream)))
    requires forall d :: Uses(su.cfg, d) ==> Local(d)
    ensures Ready(su, StartCore())
    ensures var total := Decoded(su.codec, upstream);
            var segments := Segments(RunOps(su.codec, total));
            && AllSegmentsGood(segments)
            && ContentOf(su.codec, AllFrames(RunOf(su, StartCore(), [], upstream)))
               == StreamAll(su.cfg, segments) + TailText(su.codec, total)
            && forall deltas :: deltas in segments ==> LeaksNothing(su.cfg, deltas)
  {
    RunStreamsItsSegments(su, upstream);
    var segments := Segments(RunOps(su.codec, Decoded(su.codec, upstream)));
    hide Ready, RunOf, StreamAll, Local, Uses, Segments, RunOps, TailText, ContentOf;
    forall deltas | deltas in segments ensures LeaksNothing(su.cfg, deltas) {
      StartScannable(su.cfg);
      RunnableFrom(su.cfg, [], deltas);
      NothingLeaks(su.cfg, deltas);
    }
  }

  lemma StartScannable(cfg: Config)
    requires Registry(cfg.ds)
    ensures Scannable(cfg.ds, [])
  {
  }

  /** What a stream emits is its text with spans masked, every match inside one of them. */
  ghost predicate LeaksNothing(cfg: Config, deltas: seq<Text>) {
    && Runnable(cfg, [], deltas)
    && var masks := StreamMasks(cfg, [], 0, deltas);
    && Fits(Concat(deltas), masks, 0)
    && Stream(cfg, [], deltas) == Splice(Concat(deltas), masks, 0)
    && forall h :: h in Hits(cfg, Concat(deltas)) ==> Masks(masks, h.f.start, h.f.end)
  }

  // ---- Nothing the events bring is left out

  function FedText(ops: seq<Op>): Text {
    if ops == [] then [] else (if ops[0].Feed? then ops[0].text else []) + FedText(ops[1..])
  }

  function AllText(segments: seq<seq<Text>>): Text {
    if segments == [] then [] else Concat(segments[0]) + AllText(segments[1..])
  }

  lemma {:induction false} FedConcat(a: seq<Op>, b: seq<Op>)
    ensures FedText(a + b) == FedText(a) + FedText(b)
  {
    if a == [] {
      assert a + b == b;
    } else {
      assert (a + b)[1..] == a[1..] + b;
      FedConcat(a[1..], b);
    }
  }

  lemma {:induction false} OneSegment(ops: seq<Op>)
    requires HasFlush(ops)
    ensures FedText(ops) == Concat(Deltas(ops)) + FedText(AfterFlush(ops))
  {
    FedFirst(ops);
    hide HasFlush, Deltas, AfterFlush, FedText, Concat;
    if ops[0].Feed? {
      SegmentStep(ops);
      OneSegment(ops[1..]);
      ConcatMore(ops[0].text, Deltas(ops[1..]));
      Associate(ops[0].text, Concat(Deltas(ops[1..])), FedText(AfterFlush(ops[1..])));
    }
  }

  lemma FedFirst(ops: seq<Op>)
    requires HasFlush(ops)
    ensures ops != []
    ensures ops[0].Feed? ==> FedText(ops) == ops[0].text + FedText(ops[1..])
    ensures ops[0].Flush? ==> FedText(ops) == FedText(ops[1..]) && AfterFlush(ops) == ops[1..] && Concat(Deltas(ops)) == []
  {
  }

  lemma ConcatMore(t: Text, deltas: seq<Text>)
    ensures Concat([t] + deltas) == t + Concat(deltas)
  {
    assert ([t] + deltas)[1..] == deltas;
  }

  lemma {:induction false} SegmentsHoldAll(ops: seq<Op>)
    requires Flushed(ops)
    ensures AllText(Segments(ops)) == FedText(ops)
    decreases |ops|
  {
    if ops != [] {
      AfterFlushFlushed(ops);
      AfterFlushShorter(ops);
      OneSegment(ops);
      SegmentsHoldAll(AfterFlush(ops));
      assert Segments(ops)[1..] == Segments(AfterFlush(ops));
    } else {
      FlushAlone();
    }
  }

  lemma FedByEvent(codec: Codec, event: Text)
    ensures FedText(OpsOf(codec, event)) == Brings(codec, event)
  {
    assert [Flush][1..] == [];
    if Decode(codec, event).Parsed? {
      var chunk := Decode(codec, event).chunk;
      FedConcat(FeedOps(chunk), FlushOps(chunk));
      if chunk.content.Some? {
        assert [Feed(chunk.content.value)][1..] == [];
      }
    }
  }

  lemma {:induction false} FedByEvents(codec: Codec, events: seq<Text>)
    ensures FedText(AllOps(codec, events)) == BringsAll(codec, events)
  {
    if events != [] {
      FedByEvent(codec, events[0]);
      FedByEvents(codec, events[1..]);
      FedConcat(OpsOf(codec, events[0]), AllOps(codec, events[1..]));
    }
  }

  /** The segments of a run hold exactly the text its events bring, in order. */
  lemma SegmentsHoldWhatEventsBring(codec: Codec, total: Text)
    requires DoneLast(codec, Events(total))
    ensures AllText(Segments(RunOps(codec, total))) == BringsAll(codec, Events(total))
  {
    var ops := AllOps(codec, Events(total));
    RunOpsIs(codec, total);
    RunOpsFlushed(codec, total);
    hide AllOps, Events, HasDone, Segments, AllText, RunOps, BringsAll;
    SegmentsHoldAll(RunOps(codec, total));
    FedByEvents(codec, Events(total));
    FedConcat(ops, RunOps(codec, total)[|ops|..]);
    assert RunOps(codec, total) == ops + RunOps(codec, total)[|ops|..];
    FlushFeedsNothing();
  }

  lemma FlushFeedsNothing()
    ensures FedText([Flush]) == [] && FedText([]) == []
  {
    assert [Flush][1..] == [];
  }
}
