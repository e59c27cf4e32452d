/** The frames that are no release of model text: they go through in order whatever the
    policies. */
module SseFrames {
  import opened Sequences
  import opened Detection
  import opened Utf8
  import opened Sse
  import opened SseMachine
  import opened SseRun

  predicate IsOther(f: Frame) {
    !f.Content?
  }

  function Others(frames: seq<Frame>): seq<Frame> {
    Filter(IsOther, frames)
  }

  /** The id and model that frames are given. */
  datatype Names = Names(id: Option<Text>, model: Option<Text>)

  function Given(codec: Codec, event: Text): Names {
    var decoded := Decode(codec, event);
    if decoded.Parsed? then Names(decoded.chunk.id, decoded.chunk.model) else Names(None, None)
  }

  function Or(a: Names, b: Names): Names {
    Names(OrElse(a.id, b.id), OrElse(a.model, b.model))
  }

  /** The first id and the first model that the events give. */
  function First(codec: Codec, events: seq<Text>): Names {
    if events == [] then Names(None, None) else Or(Given(codec, events[0]), First(codec, events[1..]))
  }

  lemma {:induction false} FirstOfMore(codec: Codec, events: seq<Text>, event: Text)
    ensures First(codec, events + [event]) == Or(First(codec, events), Given(codec, event))
  {
    if events == [] {
      assert [] + [event] == [event] && [event][1..] == [];
    } else {
      assert (events + [event])[1..] == events[1..] + [event];
      FirstOfMore(codec, events[1..], event);
    }
  }

  /** What an event is itself replaced by, next to model text. */
  function PassedBy(codec: Codec, event: Text, names: Names): seq<Frame> {
    match Decode(codec, event)
    case Ignored => []
    case Done => [DoneFrame]
    case Unparseable(payload) => [Verbatim(payload)]
    case Parsed(payload, chunk) =>
      if chunk.finish.Some? then [Finish(OrDefault(names.id), OrDefault(names.model), chunk.finish.value)]
      else if chunk.content.None? then [Verbatim(payload)]
      else []
  }

  /** The same for all events from `i` on; names are the first ones given so far. */
  function Passed(codec: Codec, events: seq<Text>, i: nat): seq<Frame>
    requires i <= |events|
    decreases |events| - i
  {
    if i == |events| then []
    else PassedBy(codec, events[i], First(codec, events[..i + 1])) + Passed(codec, events, i + 1)
  }

  lemma OthersConcat(a: seq<Frame>, b: seq<Frame>)
    ensures Others(a + b) == Others(a) + Others(b)
  {
    FilterConcat(IsOther, a, b);
  }

  lemma OthersOfOne(f: Frame)
    requires !f.Content?
    ensures Others([f]) == [f] && Others([]) == []
  {
    assert [f][1..] == [];
  }

  function NamesOf(core: Core): Names {
    Names(core.id, core.model)
  }

  lemma FlushPasses(su: Setup, core: Core)
    requires Ready(su, core)
    ensures Others(FlushStep(su, core).out) == [] && NamesOf(FlushStep(su, core).core) == NamesOf(core)
  {
    FlushIs(su, core);
  }

  lemma FeedPartPasses(su: Setup, core: Core, chunk: Chunk)
    requires Ready(su, core) && GoodChunk(chunk)
    ensures Others(FeedPart(su, core, chunk).out) == []
    ensures NamesOf(FeedPart(su, core, chunk).core) == Or(NamesOf(core), Names(chunk.id, chunk.model))
  {
    FeedPartIs(su, core, chunk);
    if chunk.content.Some? {
      FeedIs(su, Named(core, chunk), chunk.content.value);
    }
  }

  lemma ChunkPasses(su: Setup, core: Core, payload: Text, chunk: Chunk)
    requires Ready(su, core) && GoodChunk(chunk)
    ensures var names := Or(NamesOf(core), Names(chunk.id, chunk.model));
            && NamesOf(ChunkStep(su, core, payload, chunk).core) == names
            && Others(ChunkStep(su, core, payload, chunk).out)
               == if chunk.finish.Some? then [Finish(OrDefault(names.id), OrDefault(names.model), chunk.finish.value)]
                  else if chunk.content.None? then [Verbatim(payload)] else []
  {
    hide Ready, FlushStep, FeedStep, FeedPart, ChunkStep, Filter, Others;
    ChunkIs(su, core, payload, chunk);
    FeedPartPasses(su, core, chunk);
    var fed := FeedPart(su, core, chunk);
    FlushPasses(su, fed.core);
    if chunk.finish.Some? {
      var ending := Finish(OrDefault(fed.core.id), OrDefault(fed.core.model), chunk.finish.value);
      OthersConcat(fed.out + FlushStep(su, fed.core).out, [ending]);
      OthersConcat(fed.out, FlushStep(su, fed.core).out);
      OthersOfOne(ending);
    } else if chunk.content.None? {
      OthersOfOne(Verbatim(payload));
    }
  }

  /** One event passes on its own frame, with the names known by then. */
  lemma EventPasses(su: Setup, core: Core, event: Text)
    requires Ready(su, core)
    ensures var names := Or(NamesOf(core), Given(su.codec, event));
            && NamesOf(EventStep(su, core, event).core) == names
            && Others(EventStep(su, core, event).out) == PassedBy(su.codec, event, names)
  {
    hide Ready, FlushStep, ChunkStep, EventStep, Filter, Others, Decode;
    EventIs(su, core, event);
    OthersOfOne(DoneFrame);
    match Decode(su.codec, event)
    case Ignored =>
    case Done =>
      FlushPasses(su, core);
      OthersConcat(FlushStep(su, core).out, [DoneFrame]);
    case Unparseable(payload) =>
      OthersOfOne(Verbatim(payload));
    case Parsed(payload, chunk) =>
      ChunkPasses(su, core, payload, chunk);
  }

  lemma PassedStep(codec: Codec, events: seq<Text>, i: nat)
    requires i < |events|
    ensures First(codec, events[..i + 1]) == Or(First(codec, events[..i]), Given(codec, events[i]))
    ensures Passed(codec, events, i)
         == PassedBy(codec, events[i], First(codec, events[..i + 1])) + Passed(codec, events, i + 1)
  {
    assert events[..i + 1] == events[..i] + [events[i]];
    FirstOfMore(codec, events[..i], events[i]);
  }

  lemma {:induction false} EventsPass(su: Setup, core: Core, events: seq<Text>, i: nat)
    requires Ready(su, core) && i <= |events| && NamesOf(core) == First(su.codec, events[..i])
    ensures Others(EventSteps(su, core, events[i..]).out) == Passed(su.codec, events, i)
    decreases |events| - i
  {
    if i == |events| {
      NoEvents(su, core);
    } else {
      assert events[i..][0] == events[i] && events[i..][1..] == events[i + 1..];
      hide *;
      FirstEvent(su, core, events[i..]);
      EventPasses(su, core, events[i]);
      PassedStep(su.codec, events, i);
      var first := EventStep(su, core, events[i]);
      EventsPass(su, first.core, events, i + 1);
      OthersConcat(first.out, EventSteps(su, first.core, events[i + 1..]).out);
    }
  }

  // ---- Whole runs

  /** What a run sends besides model text: a function of the received text alone. */
  function OthersOfRun(codec: Codec, total: Text): seq<Frame> {
    var events, tail := Events(total), codec.trim(Leftover(total));
    Passed(codec, events, 0)
    + if HasDone(codec, events) then [] else (if tail == [] then [] else [Tail(tail)]) + [DoneFrame]
  }

  lemma FinalPasses(su: Setup, core: Core, raw: Text)
    requires Ready(su, core)
    ensures var tail := su.codec.trim(raw);
            Others(FinalFrames(su, core, raw)) == (if tail == [] then [] else [Tail(tail)]) + [DoneFrame]
  {
    FinalIs(su, core, raw);
    FlushPasses(su, core);
    var tail := su.codec.trim(raw);
    var extra := if tail == [] then [] else [Tail(tail)];
    hide *;
    OthersConcat(FlushStep(su, core).out + extra, [DoneFrame]);
    OthersConcat(FlushStep(su, core).out, extra);
    OthersOfOne(DoneFrame);
    if tail != [] {
      OthersOfOne(Tail(tail));
    }
    assert [] + extra == extra;
  }

  lemma StartNames(codec: Codec, events: seq<Text>)
    ensures events[..0] == [] && events[0..] == events && NamesOf(StartCore()) == First(codec, [])
  {
  }

  /** They are forwarded unchanged and in order, finish frames under the first id and model
      seen; at an end without a terminated `[DONE]`, an unterminated tail follows as it is,
      and then `[DONE]`. */
  lemma OthersPassThrough(su: Setup, upstream: seq<Item>)
    requires Registry(su.cfg.ds) && GoodCodec(su.codec) && NoError(upstream)
    requires DoneLast(su.codec, Events(Decoded(su.codec, upstream)))
    ensures Ready(su, StartCore())
    ensures Others(AllFrames(RunOf(su, StartCore(), [], upstream))) == OthersOfRun(su.codec, Decoded(su.codec, upstream))
  {
    var total := Decoded(su.codec, upstream);
    var events, tail := Events(total), su.codec.trim(Leftover(total));
    StartReady(su);
    assert OthersOfRun(su.codec, total) == Passed(su.codec, events, 0)
      + if HasDone(su.codec, events) then [] else (if tail == [] then [] else [Tail(tail)]) + [DoneFrame];
    hide *;
    assert [] + total == total;
    RunIsWholeRun(su, StartCore(), [], upstream);
    WholeRunIs(su, StartCore(), total);
    EndsOnDone(su, StartCore(), events);
    StartParts();
    StartNames(su.codec, events);
    EventsPass(su, StartCore(), events, 0);
    var drained := EventSteps(su, StartCore(), events);
    var final := if drained.core.emittedDone then [] else FinalFrames(su, drained.core, Leftover(total));
    OthersConcat(drained.out, final);
    if drained.core.emittedDone {
      OthersOfOne(DoneFrame);
    } else {
      FinalPasses(su, drained.core, Leftover(total));
    }
  }

  /** So the policies and detectors change nothing but the releases of model text. */
  lemma PoliciesTouchOnlyContent(a: Setup, b: Setup, upstream: seq<Item>)
    requires Registry(a.cfg.ds) && Registry(b.cfg.ds) && GoodCodec(a.codec) && NoError(upstream)
    requires a.codec == b.codec && DoneLast(a.codec, Events(Decoded(a.codec, upstream)))
    ensures Ready(a, StartCore()) && Ready(b, StartCore())
    ensures Others(AllFrames(RunOf(a, StartCore(), [], upstream))) == Others(AllFrames(RunOf(b, StartCore(), [], upstream)))
  {
    OthersPassThrough(a, upstream);
    OthersPassThrough(b, upstream);
  }
}
