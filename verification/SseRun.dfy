/** Whole runs of the redacting stream: network chunking cannot be seen, when exactly one
    `[DONE]` comes and what follows it, and what is accepted after the end. */
module SseRun {
  import opened Utf8
  import opened Sequences
  import opened Splicing
  import opened Detection
  import opened Scanning
  import opened Releasing
  import opened Sse
  import opened SseMachine

  // ---- Network chunking

  predicate NoError(upstream: seq<Item>) {
    forall item :: item in upstream ==> item.Received?
  }

  /** The text the chunks decode to, chunk by chunk. */
  function Decoded(codec: Codec, upstream: seq<Item>): Text
    requires NoError(upstream)
  {
    if upstream == [] then [] else
    assert upstream[0] in upstream;
    codec.lossy(upstream[0].bytes) + Decoded(codec, upstream[1..])
  }

  function Bytes(upstream: seq<Item>): Text
    requires NoError(upstream)
  {
    if upstream == [] then [] else
    assert upstream[0] in upstream;
    upstream[0].bytes + Bytes(upstream[1..])
  }

  /** Chunks that split no character decode to the bytes they carry. */
  lemma {:induction false} DecodedIsBytes(codec: Codec, upstream: seq<Item>)
    requires GoodCodec(codec) && NoError(upstream)
    requires forall item :: item in upstream ==> WellFormed(item.bytes)
    ensures Decoded(codec, upstream) == Bytes(upstream)
  {
    if upstream != [] {
      assert upstream[0] in upstream;
      DecodedIsBytes(codec, upstream[1..]);
    }
  }

  function AllFrames(outputs: seq<Output>): seq<Frame> {
    if outputs == [] then []
    else (if outputs[0].Sent? then outputs[0].frames else []) + AllFrames(outputs[1..])
  }

  /** What the run would send if all bytes came at once. */
  function WholeRun(su: Setup, core: Core, total: Text): seq<Frame>
    requires Ready(su, core)
  {
    EventStepsReady(su, core, Events(total));
    var drained := EventSteps(su, core, Events(total));
    drained.out + (if drained.core.emittedDone then [] else FinalFrames(su, drained.core, Leftover(total)))
  }

  /** A `[DONE]` event, if there is one, is the last event. */
  predicate DoneLast(codec: Codec, events: seq<Text>) {
    forall i :: 0 <= i < |events| - 1 ==> Decode(codec, events[i]) != Done
  }

  predicate HasDone(codec: Codec, events: seq<Text>) {
    exists e :: e in events && Decode(codec, e) == Done
  }

  lemma EventEndsOnDone(su: Setup, core: Core, event: Text)
    requires Ready(su, core)
    ensures EventStep(su, core, event).core.emittedDone <==> core.emittedDone || Decode(su.codec, event) == Done
  {
    EventIs(su, core, event);
    var decoded := Decode(su.codec, event);
    if decoded.Parsed? {
      ChunkIs(su, core, decoded.payload, decoded.chunk);
      FeedPartIs(su, core, decoded.chunk);
    }
  }

  lemma HasDoneFirst(codec: Codec, events: seq<Text>)
    requires events != []
    ensures HasDone(codec, events) <==> Decode(codec, events[0]) == Done || HasDone(codec, events[1..])
  {
    assert events == [events[0]] + events[1..];
  }

  lemma {:induction false} EndsOnDone(su: Setup, core: Core, events: seq<Text>)
    requires Ready(su, core)
    ensures EventSteps(su, core, events).core.emittedDone <==> core.emittedDone || HasDone(su.codec, events)
    decreases |events|
  {
    if events == [] {
      NoEvents(su, core);
    } else {
      hide Ready, EventSteps, EventStep, HasDone, Decode;
      EventEndsOnDone(su, core, events[0]);
      FirstEvent(su, core, events);
      HasDoneFirst(su.codec, events);
      EndsOnDone(su, EventStep(su, core, events[0]).core, events[1..]);
    }
  }

  lemma {:induction false} LeftoverIsDrained(raw: Text)
    ensures Events(Leftover(raw)) == [] && Leftover(Leftover(raw)) == Leftover(raw)
    decreases |raw|
  {
    if FindBreak(raw).Some? {
      LeftoverIsDrained(raw[FindBreak(raw).value + 2..]);
    }
  }

  lemma DoneEnds(codec: Codec, a: seq<Text>, b: seq<Text>)
    requires DoneLast(codec, a + b)
    ensures HasDone(codec, a) ==> b == []
    ensures DoneLast(codec, b)
  {
    if e :| e in a && Decode(codec, e) == Done {
      var i :| 0 <= i < |a| && a[i] == e;
      assert (a + b)[i] == e;
    }
    forall i | 0 <= i < |b| - 1 ensures Decode(codec, b[i]) != Done {
      assert (a + b)[|a| + i] == b[i];
    }
  }

  /** Chunk by chunk, the run sends what it would send for all bytes at once. */
  lemma {:induction false} RunIsWholeRun(su: Setup, core: Core, raw: Text, upstream: seq<Item>)
    requires Ready(su, core) && !core.emittedDone && NoError(upstream)
    requires Events(raw) == [] && Leftover(raw) == raw
    requires DoneLast(su.codec, Events(raw + Decoded(su.codec, upstream)))
    ensures AllFrames(RunOf(su, core, raw, upstream)) == WholeRun(su, core, raw + Decoded(su.codec, upstream))
    decreases |upstream|
  {
    hide *;
    if upstream == [] {
      NothingMore(su, core, raw, upstream);
    } else {
      MoreToCome(su.codec, raw, upstream);
      var grown, rest := raw + su.codec.lossy(upstream[0].bytes), Decoded(su.codec, upstream[1..]);
      var drained := EventSteps(su, core, Events(grown));
      EventsOfConcat(grown, rest);
      LeftoverIsDrained(grown);
      DoneEnds(su.codec, Events(grown), Events(Leftover(grown) + rest));
      EndsOnDone(su, core, Events(grown));
      EventStepsConcat(su, core, Events(grown), Events(Leftover(grown) + rest));
      RunPulls(su, core, raw, upstream);
      FramesOfRun(drained.out, RunOf(su, drained.core, Leftover(grown), upstream[1..]));
      WholeRunIs(su, core, grown + rest);
      if drained.core.emittedDone {
        RunEnded(su, drained.core, Leftover(grown), upstream[1..]);
        NoEvents(su, drained.core);
        FramesOfOne([]);
        assert drained.out + [] == drained.out;
      } else {
        RunIsWholeRun(su, drained.core, Leftover(grown), upstream[1..]);
        WholeRunIs(su, drained.core, Leftover(grown) + rest);
        var second := EventSteps(su, drained.core, Events(Leftover(grown) + rest));
        Associate(drained.out, second.out,
                    if second.core.emittedDone then [] else FinalFrames(su, second.core, Leftover(grown + rest)));
      }
    }
  }

  lemma {:induction false} BringsConcat(codec: Codec, a: seq<Text>, b: seq<Text>)
    ensures BringsAll(codec, a + b) == BringsAll(codec, a) + BringsAll(codec, b)
  {
    if a == [] {
      assert a + b == b;
    } else {
      assert (a + b)[1..] == a[1..] + b;
      BringsConcat(codec, a[1..], b);
    }
  }

  /** And it accepts the text of all events of the bytes. */
  lemma {:induction false} RunAcceptsAll(su: Setup, core: Core, raw: Text, upstream: seq<Item>)
    requires Ready(su, core) && !core.emittedDone && NoError(upstream)
    requires Events(raw) == [] && Leftover(raw) == raw
    requires DoneLast(su.codec, Events(raw + Decoded(su.codec, upstream)))
    ensures RunBrings(su, core, raw, upstream) == BringsAll(su.codec, Events(raw + Decoded(su.codec, upstream)))
    decreases |upstream|
  {
    hide *;
    NothingBroughtYet(su.codec);
    if upstream == [] {
      RunFlushes(su, core, raw);
      NothingDecoded(su.codec);
      assert raw + [] == raw;
    } else {
      MoreToCome(su.codec, raw, upstream);
      var grown, rest := raw + su.codec.lossy(upstream[0].bytes), Decoded(su.codec, upstream[1..]);
      var drained := EventSteps(su, core, Events(grown));
      EventsOfConcat(grown, rest);
      LeftoverIsDrained(grown);
      DoneEnds(su.codec, Events(grown), Events(Leftover(grown) + rest));
      EndsOnDone(su, core, Events(grown));
      RunPulls(su, core, raw, upstream);
      BringsConcat(su.codec, Events(grown), Events(Leftover(grown) + rest));
      if drained.core.emittedDone {
        RunEnded(su, drained.core, Leftover(grown), upstream[1..]);
      } else {
        RunAcceptsAll(su, drained.core, Leftover(grown), upstream[1..]);
      }
    }
  }

  lemma NothingBroughtYet(codec: Codec)
    ensures BringsAll(codec, []) == []
  {
  }

  lemma NothingMore(su: Setup, core: Core, raw: Text, upstream: seq<Item>)
    requires Ready(su, core) && !core.emittedDone && upstream == []
    requires Events(raw) == [] && Leftover(raw) == raw
    ensures NoError(upstream)
    ensures AllFrames(RunOf(su, core, raw, upstream)) == WholeRun(su, core, raw + Decoded(su.codec, upstream))
  {
    assert raw + [] == raw;
    NoEvents(su, core);
    RunFlushes(su, core, raw);
    var frames := FinalFrames(su, core, raw);
    hide *;
    FramesOfOne(frames);
    WholeRunIs(su, core, raw);
    NothingDecoded(su.codec);
    assert [] + frames == frames;
  }

  lemma NothingDecoded(codec: Codec)
    ensures NoError([]) && Decoded(codec, []) == []
  {
  }

  lemma FramesOfOne(frames: seq<Frame>)
    ensures AllFrames([Sent(frames)]) == frames && AllFrames([]) == []
  {
    assert [Sent(frames)][1..] == [];
  }

  lemma FramesOfRun(out: seq<Frame>, rest: seq<Output>)
    ensures AllFrames((if out == [] then [] else [Sent(out)]) + rest) == out + AllFrames(rest)
  {
    if out == [] {
      assert [] + rest == rest;
    } else {
      assert ([Sent(out)] + rest)[1..] == rest;
    }
  }

  lemma MoreToCome(codec: Codec, raw: Text, upstream: seq<Item>)
    requires NoError(upstream) && upstream != []
    ensures upstream[0].Received? && NoError(upstream[1..])
    ensures raw + Decoded(codec, upstream)
         == (raw + codec.lossy(upstream[0].bytes)) + Decoded(codec, upstream[1..])
  {
    assert upstream[0] in upstream;
  }

  lemma WholeRunIs(su: Setup, core: Core, total: Text)
    requires Ready(su, core)
    ensures var drained := EventSteps(su, core, Events(total));
            && Ready(su, drained.core)
            && WholeRun(su, core, total)
               == drained.out + (if drained.core.emittedDone then [] else FinalFrames(su, drained.core, Leftover(total)))
  {
    EventStepsReady(su, core, Events(total));
  }

  function StartCore(): Core {
    Core([], None, None, false)
  }

  lemma StartParts()
    ensures StartCore().pending == [] && !StartCore().emittedDone
  {
  }

  lemma StartReady(su: Setup)
    requires Registry(su.cfg.ds) && GoodCodec(su.codec)
    ensures Ready(su, StartCore()) && Events([]) == [] && Leftover([]) == []
  {
  }

  /** Two splits of the same bytes at character boundaries send the same frames. */
  lemma ChunkingIsInvisible(su: Setup, upstream: seq<Item>, other: seq<Item>)
    requires Registry(su.cfg.ds) && GoodCodec(su.codec) && NoError(upstream) && NoError(other)
    requires forall item :: item in upstream || item in other ==> WellFormed(item.bytes)
    requires Bytes(upstream) == Bytes(other) && DoneLast(su.codec, Events(Bytes(upstream)))
    ensures Ready(su, StartCore())
    ensures AllFrames(RunOf(su, StartCore(), [], upstream)) == AllFrames(RunOf(su, StartCore(), [], other))
  {
    StartReady(su);
    DecodedIsBytes(su.codec, upstream);
    DecodedIsBytes(su.codec, other);
    hide *;
    assert [] + Bytes(upstream) == Bytes(upstream);
    RunIsWholeRun(su, StartCore(), [], upstream);
    RunIsWholeRun(su, StartCore(), [], other);
  }

  // ---- `[DONE]` once, and last

  /** The client reads `[DONE]` in this frame: one of the stream's own, or an unterminated
      last event that is forwarded and terminated. */
  predicate IsDone(codec: Codec, f: Frame) {
    match f
    case DoneFrame => true
    case Tail(text) => Decode(codec, text) == Done
    case Verbatim(payload) => payload == DONE
    case Content(_, _, _) => false
    case Finish(_, _, _) => false
  }

  predicate NoDone(codec: Codec, frames: seq<Frame>) {
    forall f :: f in frames ==> !IsDone(codec, f)
  }

  lemma NoDoneConcat(codec: Codec, a: seq<Frame>, b: seq<Frame>)
    ensures NoDone(codec, a + b) <==> NoDone(codec, a) && NoDone(codec, b)
  {
    assert forall f :: f in a + b <==> f in a || f in b;
  }

  lemma FlushNoDone(su: Setup, core: Core)
    requires Ready(su, core)
    ensures NoDone(su.codec, FlushStep(su, core).out)
  {
    FlushIs(su, core);
  }

  lemma DecodeNotDone(codec: Codec, event: Text)
    ensures var decoded := Decode(codec, event);
            decoded.Unparseable? || decoded.Parsed? ==> decoded.payload != DONE
  {
  }

  lemma EventNoDone(su: Setup, core: Core, event: Text)
    requires Ready(su, core)
    ensures Decode(su.codec, event) != Done ==> NoDone(su.codec, EventStep(su, core, event).out)
    ensures Decode(su.codec, event) == Done ==>
              && EventStep(su, core, event).out == FlushStep(su, core).out + [DoneFrame]
              && NoDone(su.codec, FlushStep(su, core).out)
  {
    hide Ready, ReleaseOf, FlushStep, FeedStep, FeedPart, ChunkStep, EventStep, Named, Decode;
    EventIs(su, core, event);
    FlushNoDone(su, core);
    DecodeNotDone(su.codec, event);
    var decoded := Decode(su.codec, event);
    if decoded.Parsed? {
      var chunk := decoded.chunk;
      FeedPartIs(su, core, chunk);
      ChunkIs(su, core, decoded.payload, chunk);
      FlushNoDone(su, FeedPart(su, core, chunk).core);
      if chunk.content.Some? {
        FeedIs(su, Named(core, chunk), chunk.content.value);
      }
    }
  }

  /** One `[DONE]`, at the very end. */
  predicate DoneAtEnd(codec: Codec, frames: seq<Frame>) {
    frames != [] && frames[|frames| - 1] == DoneFrame && NoDone(codec, frames[..|frames| - 1])
  }

  lemma DoneAppended(codec: Codec, a: seq<Frame>)
    ensures DoneAtEnd(codec, a + [DoneFrame]) <==> NoDone(codec, a)
  {
    assert (a + [DoneFrame])[..|a|] == a;
  }

  lemma DoneAtEndAfter(codec: Codec, a: seq<Frame>, b: seq<Frame>)
    requires b != []
    ensures DoneAtEnd(codec, a + b) <==> NoDone(codec, a) && DoneAtEnd(codec, b)
  {
    assert (a + b)[..|a + b| - 1] == a + b[..|b| - 1];
    NoDoneConcat(codec, a, b[..|b| - 1]);
  }

  lemma NotEmpty(codec: Codec, frames: seq<Frame>)
    ensures DoneAtEnd(codec, frames) ==> frames != []
    ensures NoDone(codec, [])
  {
  }

  lemma {:induction false} EventsDone(su: Setup, core: Core, events: seq<Text>)
    requires Ready(su, core) && DoneLast(su.codec, events)
    ensures HasDone(su.codec, events) ==> DoneAtEnd(su.codec, EventSteps(su, core, events).out)
    ensures !HasDone(su.codec, events) ==> NoDone(su.codec, EventSteps(su, core, events).out)
    decreases |events|
  {
    if events == [] {
      NoEvents(su, core);
    } else {
      assert DoneLast(su.codec, events[1..]);
      assert |events| > 1 ==> Decode(su.codec, events[0]) != Done;
      hide *;
      FirstEvent(su, core, events);
      HasDoneFirst(su.codec, events);
      EventNoDone(su, core, events[0]);
      var first := EventStep(su, core, events[0]);
      var rest := EventSteps(su, first.core, events[1..]);
      EventsDone(su, first.core, events[1..]);
      if Decode(su.codec, events[0]) == Done {
        DoneAppended(su.codec, FlushStep(su, core).out);
        assert events[1..] == [];
        NoEvents(su, first.core);
        assert first.out + [] == first.out;
      } else if HasDone(su.codec, events[1..]) {
        NotEmpty(su.codec, rest.out);
        DoneAtEndAfter(su.codec, first.out, rest.out);
      } else {
        NoDoneConcat(su.codec, first.out, rest.out);
      }
    }
  }

  lemma FinalDone(su: Setup, core: Core, raw: Text)
    requires Ready(su, core)
    ensures var frames := FinalFrames(su, core, raw);
            && frames != [] && frames[|frames| - 1] == DoneFrame
            && (DoneAtEnd(su.codec, frames) <==> Decode(su.codec, su.codec.trim(raw)) != Done)
  {
    hide *;
    FlushNoDone(su, core);
    var tail := su.codec.trim(raw);
    var out, extra := FlushStep(su, core).out, if tail == [] then [] else [Tail(tail)];
    FinalIs(su, core, raw);
    NoDoneConcat(su.codec, out, extra);
    DoneAppended(su.codec, out + extra);
    TailDone(su.codec, tail);
  }

  lemma FinalIs(su: Setup, core: Core, raw: Text)
    requires Ready(su, core)
    ensures var tail := su.codec.trim(raw);
            FinalFrames(su, core, raw) == FlushStep(su, core).out + (if tail == [] then [] else [Tail(tail)]) + [DoneFrame]
  {
  }

  lemma TailDone(codec: Codec, tail: Text)
    ensures NoDone(codec, if tail == [] then [] else [Tail(tail)]) <==> Decode(codec, tail) != Done
  {
    assert tail != [] ==> Tail(tail) in [Tail(tail)];
  }

  /** A run without a transport error sends `[DONE]` as its last frame; the client reads it
      once exactly when a terminated event brought it or the unterminated tail does not. */
  lemma OneDoneAtEnd(su: Setup, upstream: seq<Item>)
    requires Registry(su.cfg.ds) && GoodCodec(su.codec) && NoError(upstream)
    requires DoneLast(su.codec, Events(Decoded(su.codec, upstream)))
    ensures Ready(su, StartCore())
    ensures var total, frames := Decoded(su.codec, upstream), AllFrames(RunOf(su, StartCore(), [], upstream));
            && frames != [] && frames[|frames| - 1] == DoneFrame
            && (DoneAtEnd(su.codec, frames)
                <==> HasDone(su.codec, Events(total)) || Decode(su.codec, su.codec.trim(Leftover(total))) != Done)
  {
    var total := Decoded(su.codec, upstream);
    StartReady(su);
    hide *;
    assert [] + total == total;
    StartParts();
    RunIsWholeRun(su, StartCore(), [], upstream);
    WholeRunIs(su, StartCore(), total);
    var drained := EventSteps(su, StartCore(), Events(total));
    EndsOnDone(su, StartCore(), Events(total));
    EventsDone(su, StartCore(), Events(total));
    if drained.core.emittedDone {
      assert drained.out + [] == drained.out;
      LastOfDone(su.codec, drained.out);
    } else {
      FinalDone(su, drained.core, Leftover(total));
      DoneAtEndAfter(su.codec, drained.out, FinalFrames(su, drained.core, Leftover(total)));
    }
  }

  lemma LastOfDone(codec: Codec, frames: seq<Frame>)
    requires DoneAtEnd(codec, frames)
    ensures frames != [] && frames[|frames| - 1] == DoneFrame
  {
  }

  // ---- Text that ends without a blank line

  lemma TrimOf(codec: Codec, a: Text, t: Text)
    requires GoodCodec(codec) && Blank(a) && Visible(t)
    ensures codec.trim(a + t) == t
  {
    assert TrimsTo(codec.trim, a, t, []);
    assert a + t + [] == a + t;
  }

  /** Whatever the policies are, an upstream that is one unterminated text is forwarded, and
      terminated by the frame. */
  lemma TailIsForwarded(su: Setup, text: Text)
    requires Registry(su.cfg.ds) && GoodCodec(su.codec) && WellFormed(text) && Visible(text) && FindBreak(text).None?
    ensures Ready(su, StartCore())
    ensures AllFrames(RunOf(su, StartCore(), [], [Received(text)])) == [Tail(text), DoneFrame]
  {
    StartReady(su);
    TrimOf(su.codec, [], text);
    LossyKeeps(su.codec, text);
    assert [] + text == text && [Received(text)][1..] == [];
    NoBreak(su, StartCore(), text);
    StartParts();
    FlushOfNothing(su, StartCore());
    hide *;
    RunPulls(su, StartCore(), [], [Received(text)]);
    RunFlushes(su, StartCore(), text);
    FramesOfRun([], RunOf(su, StartCore(), text, []));
    FramesOfOne([Tail(text), DoneFrame]);
    assert text != [] ==> [] + [Tail(text)] + [DoneFrame] == [Tail(text), DoneFrame];
    assert [] + [Tail(text), DoneFrame] == [Tail(text), DoneFrame];
    VisibleIsText(text);
  }

  lemma VisibleIsText(text: Text)
    requires Visible(text)
    ensures text != []
  {
  }

  lemma FlushOfNothing(su: Setup, core: Core)
    requires Ready(su, core) && core.pending == []
    ensures FlushStep(su, core).out == []
  {
    EmptyRelease(su.cfg, true);
  }

  /** The frame of a tail reads as one complete event. */
  lemma TailIsAnEvent(text: Text)
    requires FindBreak(text).None? && (text != [] ==> text[|text| - 1] != NL)
    ensures Events(text + [NL, NL]) == [text] && Leftover(text + [NL, NL]) == []
  {
    var whole := text + [NL, NL];
    assert BreakAt(whole, |text|);
    forall j | 0 <= j < |text| ensures !BreakAt(whole, j) {
      assert !BreakAt(text, j);
    }
    assert FindBreak(whole) == Some(|text|);
    assert whole[..|text|] == text && whole[|text| + 2..] == [];
  }

  /** `data: [DONE]`, without the blank line after it */
  const UNTERMINATED: Text := DATA + [0x20] + DONE

  lemma UnterminatedText()
    ensures WellFormed(UNTERMINATED) && Visible(UNTERMINATED) && FindBreak(UNTERMINATED).None?
    ensures UNTERMINATED == DATA + ([0x20] + DONE) && NL !in [0x20] + DONE && Blank([0x20]) && Visible(DONE)
  {
    hide WellFormed, FindBreak;
    assert NL !in UNTERMINATED;
    AsciiWellFormed(UNTERMINATED);
    NoBreakWithout(UNTERMINATED);
  }

  lemma NoBreakWithout(text: Text)
    requires NL !in text
    ensures FindBreak(text).None?
  {
    forall k: nat | k < |text| ensures text[k] != NL {
      assert text[k] in text;
    }
  }

  lemma UnterminatedIs(codec: Codec)
    requires GoodCodec(codec)
    ensures Decode(codec, UNTERMINATED) == Done
  {
    hide *;
    UnterminatedText();
    DataLineTaken([0x20] + DONE, []);
    TrimOf(codec, [0x20], DONE);
    DecodeIs(codec, UNTERMINATED);
  }

  /** There the client reads `[DONE]` twice. */
  lemma UnterminatedDoneTwice(su: Setup)
    requires Registry(su.cfg.ds) && GoodCodec(su.codec)
    ensures Ready(su, StartCore())
    ensures var frames := AllFrames(RunOf(su, StartCore(), [], [Received(UNTERMINATED)]));
            frames == [Tail(UNTERMINATED), DoneFrame] && forall f :: f in frames ==> IsDone(su.codec, f)
  {
    hide UNTERMINATED, Decode, WellFormed, Visible, FindBreak, GoodCodec, RunOf, AllFrames;
    UnterminatedText();
    UnterminatedIs(su.codec);
    TailIsForwarded(su, UNTERMINATED);
  }

  /** A `[DONE]` in an earlier chunk ends the run: later chunks are not even read. */
  lemma LaterChunkIgnored(su: Setup, done: Text, upstream: seq<Item>)
    requires Registry(su.cfg.ds) && GoodCodec(su.codec) && WellFormed(done) && HasDone(su.codec, Events(done))
    ensures Ready(su, StartCore())
    ensures AllFrames(RunOf(su, StartCore(), [], [Received(done)] + upstream))
         == EventSteps(su, StartCore(), Events(done)).out
  {
    StartReady(su);
    hide *;
    var all := [Received(done)] + upstream;
    LossyKeeps(su.codec, done);
    StartParts();
    assert [] + done == done && all[1..] == upstream && all[0] == Received(done);
    RunPulls(su, StartCore(), [], all);
    var first := EventSteps(su, StartCore(), Events(done));
    EndsOnDone(su, StartCore(), Events(done));
    RunEnded(su, first.core, Leftover(done), upstream);
    FramesOfRun(first.out, []);
    FramesOfOne([]);
    assert first.out + [] == first.out;
  }

  // ---- What follows `[DONE]`

  /** Nothing is sent for these events when the buffer holds `held`: each is skipped, or
      brings text without finishing and too little for a release. */
  ghost predicate Silent(cfg: Config, codec: Codec, held: Text, events: seq<Text>)
    decreases |events|
  {
    if events == [] then true
    else
      var decoded := Decode(codec, events[0]);
      if decoded.Ignored? then Silent(cfg, codec, held, events[1..])
      else
        && decoded.Parsed? && decoded.chunk.content.Some? && decoded.chunk.finish.None?
        && CutOf(cfg, held + decoded.chunk.content.value, false) == 0
        && Silent(cfg, codec, held + decoded.chunk.content.value, events[1..])
  }

  lemma SilentStep(cfg: Config, codec: Codec, held: Text, events: seq<Text>)
    requires events != []
    ensures var decoded := Decode(codec, events[0]);
            Silent(cfg, codec, held, events)
            <==> (decoded.Ignored? && Silent(cfg, codec, held, events[1..]))
                 || (decoded.Parsed? && decoded.chunk.content.Some? && decoded.chunk.finish.None?
                     && CutOf(cfg, held + decoded.chunk.content.value, false) == 0
                     && Silent(cfg, codec, held + decoded.chunk.content.value, events[1..]))
  {
  }

  /** A release sends nothing exactly when it cuts nothing off, and then keeps the buffer. */
  lemma SilentRelease(cfg: Config, buffer: Text)
    requires Scannable(cfg.ds, buffer)
    ensures ReleaseOf(cfg, buffer, false).text == [] <==> CutOf(cfg, buffer, false) == 0
    ensures CutOf(cfg, buffer, false) == 0 ==> ReleaseOf(cfg, buffer, false).rest == buffer
  {
    hide Scannable, CutOf, MasksOf;
    ReleaseParts(cfg, buffer, false);
    var k := CutOf(cfg, buffer, false);
    SpliceHead(buffer[..k], MasksOf(cfg, buffer, false), 0);
    assert buffer[0..] == buffer;
  }

  lemma ContentFrameIs(id: Option<Text>, model: Option<Text>, text: Text)
    ensures ContentFrame(id, model, text) == [] <==> text == []
  {
  }

  /** Which single events send nothing, and what they leave in the buffer. */
  lemma SilentEvent(su: Setup, core: Core, event: Text)
    requires Ready(su, core)
    ensures var decoded, step := Decode(su.codec, event), EventStep(su, core, event);
            && (step.out == [] <==>
                  decoded.Ignored?
                  || (decoded.Parsed? && decoded.chunk.content.Some? && decoded.chunk.finish.None?
                      && CutOf(su.cfg, core.pending + decoded.chunk.content.value, false) == 0))
            && (step.out == [] && decoded.Ignored? ==> step.core.pending == core.pending)
            && (step.out == [] && decoded.Parsed? ==> step.core.pending == core.pending + decoded.chunk.content.value)
  {
    hide *;
    EventIs(su, core, event);
    var decoded := Decode(su.codec, event);
    if decoded.Parsed? {
      var chunk := decoded.chunk;
      FeedPartIs(su, core, chunk);
      ChunkIs(su, core, decoded.payload, chunk);
      if chunk.content.Some? {
        FeedIs(su, Named(core, chunk), chunk.content.value);
        SilentRelease(su.cfg, core.pending + chunk.content.value);
        ContentFrameIs(Named(core, chunk).id, Named(core, chunk).model,
                       ReleaseOf(su.cfg, core.pending + chunk.content.value, false).text);
      }
    }
  }

  lemma {:induction false} SilentIff(su: Setup, core: Core, events: seq<Text>)
    requires Ready(su, core)
    ensures EventSteps(su, core, events).out == [] <==> Silent(su.cfg, su.codec, core.pending, events)
    decreases |events|
  {
    if events == [] {
      NoEvents(su, core);
    } else {
      hide *;
      FirstEvent(su, core, events);
      SilentEvent(su, core, events[0]);
      SilentStep(su.cfg, su.codec, core.pending, events);
      SilentIff(su, EventStep(su, core, events[0]).core, events[1..]);
    }
  }

  /** After `[DONE]` as the last event the buffer is empty. */
  lemma {:induction false} EmptyAfterDone(su: Setup, core: Core, events: seq<Text>)
    requires Ready(su, core) && events != [] && Decode(su.codec, events[|events| - 1]) == Done
    ensures EventSteps(su, core, events).core.pending == []
    decreases |events|
  {
    hide *;
    FirstEvent(su, core, events);
    if |events| == 1 {
      assert events[1..] == [];
      EventIs(su, core, events[0]);
      FlushReady(su, core);
      NoEvents(su, EventStep(su, core, events[0]).core);
    } else {
      EmptyAfterDone(su, EventStep(su, core, events[0]).core, events[1..]);
    }
  }

  lemma TwoRuns(su: Setup, done: Text, later: Text)
    requires Registry(su.cfg.ds) && GoodCodec(su.codec)
    requires WellFormed(done) && WellFormed(later)
    requires Leftover(done) == [] && HasDone(su.codec, Events(done))
    ensures Ready(su, StartCore()) && Ready(su, EventSteps(su, StartCore(), Events(done)).core)
    ensures var first := EventSteps(su, StartCore(), Events(done));
            && AllFrames(RunOf(su, StartCore(), [], [Received(done)] + [Received(later)])) == first.out
            && AllFrames(RunOf(su, StartCore(), [], [Received(done + later)]))
               == first.out + EventSteps(su, first.core, Events(later)).out
  {
    StartReady(su);
    WellFormedConcat(done, later);
    hide *;
    EventsOfConcat(done, later);
    assert [] + later == later;
    EventStepsConcat(su, StartCore(), Events(done), Events(later));
    HasDoneLeft(su.codec, Events(done), Events(later));
    LaterChunkIgnored(su, done, [Received(later)]);
    LaterChunkIgnored(su, done + later, []);
    assert [Received(done + later)] + [] == [Received(done + later)];
  }

  lemma HasDoneSome(codec: Codec, events: seq<Text>)
    ensures HasDone(codec, events) ==> events != []
  {
  }

  lemma SameIffEmpty(a: seq<Frame>, b: seq<Frame>)
    ensures a + b == a <==> b == []
  {
    assert |a + b| == |a| + |b|;
  }

  /** What follows `[DONE]` in the same chunk is still processed; in the next chunk it is
      not. So the two runs agree exactly if it is silent. */
  lemma AfterDone(su: Setup, done: Text, later: Text)
    requires Registry(su.cfg.ds) && GoodCodec(su.codec)
    requires WellFormed(done) && WellFormed(later)
    requires Leftover(done) == [] && HasDone(su.codec, Events(done))
    ensures Ready(su, StartCore())
    ensures var held := EventSteps(su, StartCore(), Events(done)).core.pending;
            && (AllFrames(RunOf(su, StartCore(), [], [Received(done + later)]))
                == AllFrames(RunOf(su, StartCore(), [], [Received(done)] + [Received(later)]))
                <==> Silent(su.cfg, su.codec, held, Events(later)))
            && (Decode(su.codec, Events(done)[|Events(done)| - 1]) == Done ==> held == [])
  {
    hide *;
    HasDoneSome(su.codec, Events(done));
    TwoRuns(su, done, later);
    var first := EventSteps(su, StartCore(), Events(done));
    SameIffEmpty(first.out, EventSteps(su, first.core, Events(later)).out);
    SilentIff(su, first.core, Events(later));
    if Decode(su.codec, Events(done)[|Events(done)| - 1]) == Done {
      EmptyAfterDone(su, StartCore(), Events(done));
    }
  }

  /** `data: [DONE]` with the blank line */
  const TERMINATED: Text := UNTERMINATED + [NL, NL]

  lemma TerminatedIs(codec: Codec)
    requires GoodCodec(codec)
    ensures WellFormed(TERMINATED) && Events(TERMINATED) == [UNTERMINATED] && Leftover(TERMINATED) == []
    ensures Decode(codec, UNTERMINATED) == Done && HasDone(codec, Events(TERMINATED))
  {
    assert TERMINATED == UNTERMINATED + [NL, NL];
    assert NL < 0x80;
    hide *;
    UnterminatedText();
    UnterminatedIs(codec);
    VisibleEnds(UNTERMINATED);
    TailIsAnEvent(UNTERMINATED);
    NewlinesWellFormed();
    WellFormedConcat(UNTERMINATED, [NL, NL]);
    HasDoneHere(codec, UNTERMINATED);
  }

  lemma VisibleEnds(text: Text)
    requires Visible(text)
    ensures text != [] && text[|text| - 1] != NL
  {
  }

  lemma NewlinesWellFormed()
    ensures WellFormed([NL, NL])
  {
    hide WellFormed;
    AsciiWellFormed([NL, NL]);
  }

  lemma HasDoneHere(codec: Codec, event: Text)
    requires Decode(codec, event) == Done
    ensures HasDone(codec, [event])
  {
    assert event in [event];
  }

  /** A second `[DONE]` is sent when it comes in the same chunk, and not in the next. */
  lemma SecondDoneInChunk(su: Setup)
    requires Registry(su.cfg.ds) && GoodCodec(su.codec)
    ensures Ready(su, StartCore())
    ensures AllFrames(RunOf(su, StartCore(), [], [Received(TERMINATED + TERMINATED)]))
         != AllFrames(RunOf(su, StartCore(), [], [Received(TERMINATED)] + [Received(TERMINATED)]))
  {
    hide *;
    TerminatedIs(su.codec);
    AfterDone(su, TERMINATED, TERMINATED);
    var held := EventSteps(su, StartCore(), Events(TERMINATED)).core.pending;
    SilentStep(su.cfg, su.codec, held, [UNTERMINATED]);
  }

  lemma HasDoneLeft(codec: Codec, a: seq<Text>, b: seq<Text>)
    requires HasDone(codec, a)
    ensures HasDone(codec, a + b)
  {
    var e :| e in a && Decode(codec, e) == Done;
    assert e in a + b;
  }

  lemma LossyKeeps(codec: Codec, text: Text)
    requires GoodCodec(codec) && WellFormed(text)
    ensures codec.lossy(text) == text
  {
  }

  // ---- The buffer is empty when a message ends

  /** After a finish frame or `[DONE]` nothing is held back. */
  lemma NothingHeldAtEnd(su: Setup, core: Core, event: Text)
    requires Ready(su, core)
    ensures var decoded := Decode(su.codec, event);
            decoded.Done? || (decoded.Parsed? && decoded.chunk.finish.Some?) ==>
              EventStep(su, core, event).core.pending == []
  {
    hide Ready, ReleaseOf, FlushStep, FeedStep, FeedPart, ChunkStep, EventStep, Named;
    EventIs(su, core, event);
    FlushReady(su, core);
    var decoded := Decode(su.codec, event);
    if decoded.Parsed? {
      FeedPartIs(su, core, decoded.chunk);
      ChunkIs(su, core, decoded.payload, decoded.chunk);
      FlushReady(su, FeedPart(su, core, decoded.chunk).core);
    }
  }
}
