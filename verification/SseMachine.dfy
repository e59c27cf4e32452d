/** The redacting stream as a state machine that edits its buffers in place. */
module SseMachine {
  import opened Utf8
  import opened Sequences
  import opened Findings
  import opened Splicing
  import opened Detection
  import opened Scanning
  import opened Releasing
  import opened Sse

  /** What the upstream hands over: bytes, or a transport error. */
  datatype Item = Received(bytes: Text) | Broken(message: Text)

  datatype Output = Sent(frames: seq<Frame>) | Failed(message: Text)

  // ---- The whole run as a function

  function FinalFrames(su: Setup, core: Core, raw: Text): seq<Frame>
    requires Ready(su, core)
  {
    var tail := su.codec.trim(raw);
    FlushStep(su, core).out + (if tail == [] then [] else [Tail(tail)]) + [DoneFrame]
  }

  function Send(frames: seq<Frame>): seq<Output> {
    if frames == [] then [] else [Sent(frames)]
  }

  /** Everything the stream yields until it ends. */
  function RunOf(su: Setup, core: Core, raw: Text, upstream: seq<Item>): seq<Output>
    requires Ready(su, core)
    decreases |upstream|
  {
    if core.emittedDone then []
    else if upstream == [] then [Sent(FinalFrames(su, core, raw))]
    else
      match upstream[0]
      case Broken(message) => [Failed(message)]
      case Received(bytes) =>
        var grown := raw + su.codec.lossy(bytes);
        EventStepsReady(su, core, Events(grown));
        var drained := EventSteps(su, core, Events(grown));
        Send(drained.out) + RunOf(su, drained.core, Leftover(grown), upstream[1..])
  }

  /** The model text a run still has to accept. */
  function RunBrings(su: Setup, core: Core, raw: Text, upstream: seq<Item>): Text
    requires Ready(su, core)
    decreases |upstream|
  {
    if core.emittedDone || upstream == [] || upstream[0].Broken? then []
    else
      var grown := raw + su.codec.lossy(upstream[0].bytes);
      EventStepsReady(su, core, Events(grown));
      BringsAll(su.codec, Events(grown))
      + RunBrings(su, EventSteps(su, core, Events(grown)).core, Leftover(grown), upstream[1..])
  }

  // ---- Editing the prefix

  predicate LaterFirst(a: Finding, b: Finding) {
    a.start >= b.start
  }

  lemma SortReverses(fs: seq<Finding>)
    requires Ordered(fs) && Solid(fs)
    ensures Sort(LaterFirst, fs) == Reversed(fs)
  {
    forall i, j | 0 <= i < j < |fs| ensures !LaterFirst(fs[i], fs[j]) {
      assert fs[i] in fs;
    }
    SortOfReversed(LaterFirst, fs);
  }

  /** One turn of the right-to-left edit of the settled prefix. */
  lemma PrefixEdit(prefix: Text, fs: seq<Finding>, k: nat)
    requires Fits(prefix, fs, 0) && k < |fs| && Aligned(prefix, fs[k])
    ensures Fits(prefix, fs[k..], 0) && Fits(prefix, fs[k + 1..], 0)
    ensures var cur := Splice(prefix, fs[k + 1..], 0);
            && fs[k].start <= fs[k].end <= |cur| && IsBoundary(cur, fs[k].start) && IsBoundary(cur, fs[k].end)
            && ReplaceRange(cur, fs[k].start, fs[k].end, Token(fs[k].tag)) == Splice(prefix, fs[k..], 0)
  {
    assert fs[k] in fs;
    assert fs[k..][1..] == fs[k + 1..];
    ReplaceExtends(prefix, fs[k..]);
  }

  class Redactor {
    const setup: Setup
    var upstream: seq<Item>
    /** Received but not yet split into events. */
    var raw: Text
    /** Accepted model text not yet emitted. */
    var pending: Text
    var id: Option<Text>
    var model: Option<Text>
    var upstreamDone: bool
    var emittedDone: bool
    /** All model text accepted so far, and the part of it the releases took. */
    ghost var accepted: Text
    ghost var consumed: Text

    function State(): Core
      reads this
    {
      Core(pending, id, model, emittedDone)
    }

    ghost predicate Valid()
      reads this
    {
      && Ready(setup, State())
      && accepted == consumed + pending
      && (upstreamDone ==> upstream == [])
    }

    constructor (setup: Setup, upstream: seq<Item>)
      requires Registry(setup.cfg.ds) && GoodCodec(setup.codec)
      ensures Valid() && this.setup == setup && this.upstream == upstream
      ensures raw == [] && State() == Core([], None, None, false) && accepted == [] && !upstreamDone
    {
      this.setup, this.upstream := setup, upstream;
      raw, pending, id, model := [], [], None, None;
      upstreamDone, emittedDone := false, false;
      accepted, consumed := [], [];
    }

    /** Takes the settled text out of the buffer, redacted. */
    method Release(flushAll: bool) returns (text: Text)
      requires Scannable(setup.cfg.ds, pending)
      modifies `pending, `consumed
      ensures text == ReleaseOf(setup.cfg, old(pending), flushAll).text
      ensures pending == ReleaseOf(setup.cfg, old(pending), flushAll).rest
      ensures consumed + pending == old(consumed) + old(pending)
    {
      if pending == [] {
        EmptyRelease(setup.cfg, flushAll);
        return [];
      }
      var res := Scan(setup.cfg.ds, pending, setup.cfg.policies);
      assert res.findings == Found(setup.cfg, pending);
      hide *;
      var target := ChooseCut(pending, res.findings, flushAll);
      FoundGood(setup.cfg, pending);
      ReleaseParts(setup.cfg, pending, flushAll);
      CutOfFound(setup.cfg, pending, flushAll);
      if target == 0 {
        NothingReleased(setup.cfg, pending, flushAll);
        return [];
      }
      text := EditPrefix(pending, res.findings, target);
      Regroup(consumed, pending, target);
      consumed := consumed + pending[..target];
      pending := pending[target..];
    }

    /** The middle of `release`: where to cut. */
    method ChooseCut(text: Text, findings: seq<Finding>, flushAll: bool) returns (target: nat)
      ensures target == CutPoint(text, findings, flushAll)
    {
      target := if flushAll then |text| else if |text| < HOLDBACK then 0 else |text| - HOLDBACK;
      ghost var goal := target;
      for i := 0 to |findings|
        invariant target == PullBack(findings[..i], goal)
      {
        var f := findings[i];
        assert findings[..i + 1][..i] == findings[..i];
        if f.start < target && f.end > target {
          target := f.start;
        }
      }
      assert findings[..|findings|] == findings;
      ghost var pulled := target;
      while target > 0 && !IsBoundary(text, target)
        invariant target <= |text| && Snap(text, target) == Snap(text, pulled)
      {
        target := target - 1;
      }
    }

    /** The tail of `release`: the settled findings replaced from the right. */
    method EditPrefix(text: Text, findings: seq<Finding>, target: nat) returns (prefix: Text)
      requires target <= |text| && IsBoundary(text, target) && Ordered(findings) && Solid(findings)
      requires forall f :: f in findings ==> f.end <= |text| && Aligned(text, f)
      ensures Fits(text[..target], Settled(findings, target), 0)
      ensures prefix == Splice(text[..target], Settled(findings, target), 0)
    {
      hide *;
      prefix := text[..target];
      var settled := Settled(findings, target);
      ghost var fs, whole := settled, prefix;
      SettledFits(text, findings, target);
      FitsParts(whole, fs, 0);
      SettledSolid(findings, target);
      SortReverses(fs);
      ReversedMembers(fs);
      NothingSpliced(whole, fs);
      settled := Sort(LaterFirst, settled);
      for i := 0 to |settled|
        invariant Fits(whole, fs[|fs| - i..], 0)
        invariant prefix == Splice(whole, fs[|fs| - i..], 0)
      {
        var f := settled[i];
        ReversedAt(fs, i);
        assert f in fs;
        PrefixEdit(whole, fs, |fs| - 1 - i);
        prefix := ReplaceRange(prefix, f.start, f.end, Token(f.tag));
      }
      assert fs[0..] == fs;
    }

    lemma ValidParts()
      requires Valid()
      ensures Ready(setup, State()) && accepted == consumed + pending && (upstreamDone ==> upstream == [])
      ensures State() == Core(pending, id, model, emittedDone) && Scannable(setup.cfg.ds, pending)
    {
    }

    lemma StateParts()
      ensures State() == Core(pending, id, model, emittedDone)
    {
    }

    lemma MakeValid()
      requires Ready(setup, State()) && accepted == consumed + pending && (upstreamDone ==> upstream == [])
      ensures Valid()
    {
    }

    /** Flushes the buffer into a content frame. */
    method FlushFrame() returns (out: seq<Frame>)
      requires Valid()
      modifies `pending, `consumed
      ensures Valid()
      ensures State() == FlushStep(setup, old(State())).core && out == FlushStep(setup, old(State())).out
    {
      hide *;
      ValidParts();
      FlushReady(setup, State());
      FlushIs(setup, State());
      var text := Release(true);
      out := ContentFrame(id, model, text);
      StateParts();
      MakeValid();
    }

    /** Accepts model text and releases what is settled. */
    method FeedFrame(content: Text) returns (out: seq<Frame>)
      requires Valid() && WellFormed(content)
      modifies `pending, `accepted, `consumed
      ensures Valid()
      ensures State() == FeedStep(setup, old(State()), content).core && out == FeedStep(setup, old(State()), content).out
      ensures accepted == old(accepted) + content
    {
      hide *;
      ValidParts();
      FeedReady(setup, State(), content);
      FeedIs(setup, State(), content);
      pending := pending + content;
      accepted := accepted + content;
      var settled := Release(false);
      out := ContentFrame(id, model, settled);
      assert accepted == consumed + pending;
      StateParts();
      MakeValid();
    }

    method ProcessEvent(event: Text, out: seq<Frame>) returns (sent: seq<Frame>)
      requires Valid()
      modifies `pending, `id, `model, `emittedDone, `accepted, `consumed
      ensures Valid()
      ensures State() == EventStep(setup, old(State()), event).core
      ensures sent == out + EventStep(setup, old(State()), event).out
      ensures accepted == old(accepted) + Brings(setup.codec, event)
    {
      hide *;
      ValidParts();
      EventReady(setup, State(), event);
      EventIs(setup, State(), event);
      DecodeIs(setup.codec, event);
      sent := out;
      assert accepted + [] == accepted && out + [] == out;
      var line := DataLine(event);
      if line.None? {
        return;
      }
      var payload := setup.codec.trim(line.value);
      if payload == DONE {
        var text := FlushFrame();
        sent := sent + text;
        sent := sent + [DoneFrame];
        ValidParts();
        emittedDone := true;
        StateParts();
        MakeValid();
        return;
      }
      var chunk := setup.codec.parse(payload);
      if chunk.None? {
        sent := sent + [Verbatim(payload)];
        return;
      }
      OrDefaultIs(chunk.value.content);
      sent := ProcessChunk(payload, chunk.value, sent);
    }

    /** The rest of `process_event`, for a payload that is a chunk. */
    method ProcessChunk(payload: Text, chunk: Chunk, out: seq<Frame>) returns (sent: seq<Frame>)
      requires Valid() && GoodChunk(chunk)
      modifies `pending, `id, `model, `accepted, `consumed
      ensures Valid()
      ensures State() == ChunkStep(setup, old(State()), payload, chunk).core
      ensures sent == out + ChunkStep(setup, old(State()), payload, chunk).out
      ensures accepted == old(accepted) + OrDefault(chunk.content)
    {
      hide *;
      ValidParts();
      ghost var before := State();
      FeedPartIs(setup, before, chunk);
      ChunkIs(setup, before, payload, chunk);
      ghost var fed := FeedPart(setup, before, chunk);
      OrElseIs(id, chunk.id);
      OrElseIs(model, chunk.model);
      if id.None? {
        id := chunk.id;
      }
      if model.None? {
        model := chunk.model;
      }
      sent := out;
      StateParts();
      assert State() == Named(before, chunk);
      MakeValid();
      OrDefaultIs(chunk.content);
      if chunk.content.Some? {
        var settled := FeedFrame(chunk.content.value);
        sent := sent + settled;
      }
      assert State() == fed.core && sent == out + fed.out;
      StateParts();
      if chunk.finish.Some? {
        var text := FlushFrame();
        sent := sent + text;
        sent := sent + [Finish(OrDefault(id), OrDefault(model), chunk.finish.value)];
        Gather(out, fed.out, text, Finish(OrDefault(fed.core.id), OrDefault(fed.core.model), chunk.finish.value));
      } else if chunk.content.None? {
        sent := sent + [Verbatim(payload)];
      }
    }

    method DrainEvents() returns (out: seq<Frame>)
      requires Valid()
      modifies `raw, `pending, `id, `model, `emittedDone, `accepted, `consumed
      ensures Valid()
      ensures raw == Leftover(old(raw))
      ensures State() == EventSteps(setup, old(State()), Events(old(raw))).core
      ensures out == EventSteps(setup, old(State()), Events(old(raw))).out
      ensures accepted == old(accepted) + BringsAll(setup.codec, Events(old(raw)))
    {
      hide *;
      ValidParts();
      out := [];
      ghost var all := EventSteps(setup, State(), Events(raw));
      var found := FindBreak(raw);
      while found.Some?
        invariant Valid() && Ready(setup, State()) && found == FindBreak(raw)
        invariant Leftover(raw) == Leftover(old(raw))
        invariant EventSteps(setup, State(), Events(raw)).core == all.core
        invariant out + EventSteps(setup, State(), Events(raw)).out == all.out
        invariant accepted + BringsAll(setup.codec, Events(raw)) == old(accepted) + BringsAll(setup.codec, Events(old(raw)))
        decreases |raw|
      {
        BreakParts(raw);
        ValidParts();
        var event, rest := raw[..found.value], raw[found.value + 2..];
        FirstEvent(setup, State(), Events(raw));
        BringsFirst(setup.codec, Events(raw));
        ghost var before, step := State(), EventStep(setup, State(), event);
        ghost var soFar, took := out, accepted;
        raw := rest;
        StateParts();
        MakeValid();
        out := ProcessEvent(event, out);
        ValidParts();
        Associate(soFar, step.out, EventSteps(setup, State(), Events(raw)).out);
        Associate(took, Brings(setup.codec, event), BringsAll(setup.codec, Events(raw)));
        found := FindBreak(raw);
      }
      NoBreak(setup, State(), raw);
    }

    /** The closure of the stream: what the next poll yields, `None` once it has ended.
        Polling to the end yields `RunOf`, item by item, and accepts `RunBrings`. */
    method Poll() returns (next: Option<Output>)
      requires Valid()
      modifies this
      ensures Valid()
      ensures accepted + RunBrings(setup, State(), raw, upstream)
           == old(accepted) + old(RunBrings(setup, State(), raw, upstream))
      ensures next.None? ==> emittedDone && old(RunOf(setup, State(), raw, upstream)) == []
      ensures next.Some? ==>
                old(RunOf(setup, State(), raw, upstream)) == [next.value] + RunOf(setup, State(), raw, upstream)
    {
      hide *;
      ValidParts();
      ghost var all, text := RunOf(setup, State(), raw, upstream), accepted + RunBrings(setup, State(), raw, upstream);
      while true
        invariant Valid() && Ready(setup, State()) && RunOf(setup, State(), raw, upstream) == all
        invariant accepted + RunBrings(setup, State(), raw, upstream) == text
        decreases |upstream|, !upstreamDone
      {
        StateParts();
        ValidParts();
        if emittedDone {
          RunEnded(setup, State(), raw, upstream);
          return None;
        }
        if upstreamDone {
          RunFlushes(setup, State(), raw);
          FlushReady(setup, State());
          FlushIs(setup, State());
          ghost var before := State();
          emittedDone := true;
          StateParts();
          ReadyParts(setup, before, State());
          MakeValid();
          FlushIgnoresDone(setup, before);
          var out := FlushFrame();
          assert out + [] == out && upstream == [];
          assert State().emittedDone by { FlushIs(setup, before.(emittedDone := true)); }
          var tail := setup.codec.trim(raw);
          if tail != [] {
            out := out + [Tail(tail)];
          }
          out := out + [DoneFrame];
          ValidParts();
          FlushIs(setup, before.(emittedDone := true));
          RunEnded(setup, State(), raw, upstream);
          return Some(Sent(out));
        }
        if upstream == [] {
          upstreamDone := true;
          StateParts();
          MakeValid();
        } else {
          RunPulls(setup, State(), raw, upstream);
          var item := upstream[0];
          upstream := upstream[1..];
          StateParts();
          match item
          case Received(bytes) =>
            raw := raw + setup.codec.lossy(bytes);
            ghost var grown := raw;
            StateParts();
            MakeValid();
            ghost var before := accepted;
            var out := DrainEvents();
            ValidParts();
            Associate(before, BringsAll(setup.codec, Events(grown)), RunBrings(setup, State(), raw, upstream));
            if out != [] {
              return Some(Sent(out));
            }
          case Broken(message) =>
            ghost var before := State();
            emittedDone := true;
            StateParts();
            ReadyParts(setup, before, State());
            MakeValid();
            RunEnded(setup, State(), raw, upstream);
            return Some(Failed(message));
        }
      }
    }
  }

  lemma RunEnded(su: Setup, core: Core, raw: Text, upstream: seq<Item>)
    requires Ready(su, core) && core.emittedDone
    ensures RunOf(su, core, raw, upstream) == [] && RunBrings(su, core, raw, upstream) == []
  {
  }

  lemma RunFlushes(su: Setup, core: Core, raw: Text)
    requires Ready(su, core) && !core.emittedDone
    ensures RunOf(su, core, raw, []) == [Sent(FinalFrames(su, core, raw))] && RunBrings(su, core, raw, []) == []
    ensures FinalFrames(su, core, raw) == FlushStep(su, core).out
              + (if su.codec.trim(raw) == [] then [] else [Tail(su.codec.trim(raw))]) + [DoneFrame]
  {
  }

  lemma RunPulls(su: Setup, core: Core, raw: Text, upstream: seq<Item>)
    requires Ready(su, core) && !core.emittedDone && upstream != []
    ensures upstream[0].Broken? ==> RunOf(su, core, raw, upstream) == [Failed(upstream[0].message)]
    ensures upstream[0].Broken? ==> RunBrings(su, core, raw, upstream) == []
    ensures upstream[0].Received? ==>
              var grown := raw + su.codec.lossy(upstream[0].bytes);
              var drained := EventSteps(su, core, Events(grown));
              && Ready(su, drained.core)
              && RunOf(su, core, raw, upstream)
                 == (if drained.out == [] then [] else [Sent(drained.out)])
                    + RunOf(su, drained.core, Leftover(grown), upstream[1..])
              && RunBrings(su, core, raw, upstream)
                 == BringsAll(su.codec, Events(grown)) + RunBrings(su, drained.core, Leftover(grown), upstream[1..])
  {
    hide Ready;
    if upstream[0].Received? {
      EventStepsReady(su, core, Events(raw + su.codec.lossy(upstream[0].bytes)));
    }
  }

  /** Whether the stream has ended is no part of what a release needs. */
  lemma ReadyParts(su: Setup, a: Core, b: Core)
    requires Ready(su, a) && a.pending == b.pending
    ensures Ready(su, b)
  {
  }

  lemma FlushIgnoresDone(su: Setup, core: Core)
    requires Ready(su, core)
    ensures Ready(su, core.(emittedDone := true))
    ensures FlushStep(su, core.(emittedDone := true)).out == FlushStep(su, core).out
  {
  }

  lemma BreakParts(raw: Text)
    requires FindBreak(raw).Some?
    ensures var k := FindBreak(raw).value;
            && k + 2 <= |raw| && Events(raw) != [] && Events(raw)[0] == raw[..k]
            && Events(raw)[1..] == Events(raw[k + 2..]) && Leftover(raw) == Leftover(raw[k + 2..])
  {
  }

  lemma NoBreak(setup: Setup, core: Core, raw: Text)
    requires Ready(setup, core) && FindBreak(raw).None?
    ensures Leftover(raw) == raw && Events(raw) == []
    ensures EventSteps(setup, core, Events(raw)) == Step(core, []) && BringsAll(setup.codec, Events(raw)) == []
  {
  }

  lemma BringsFirst(codec: Codec, events: seq<Text>)
    requires events != []
    ensures BringsAll(codec, events) == Brings(codec, events[0]) + BringsAll(codec, events[1..])
  {
  }

  lemma DecodeIs(codec: Codec, event: Text)
    ensures var line := DataLine(event);
            && (line.None? ==> Decode(codec, event) == Ignored && Brings(codec, event) == [])
            && (line.Some? ==>
                  var payload := codec.trim(line.value);
                  && (payload == DONE ==> Decode(codec, event) == Done && Brings(codec, event) == [])
                  && (payload != DONE && codec.parse(payload).None? ==>
                        Decode(codec, event) == Unparseable(payload) && Brings(codec, event) == [])
                  && (payload != DONE && codec.parse(payload).Some? ==>
                        && Decode(codec, event) == Parsed(payload, codec.parse(payload).value)
                        && Brings(codec, event) == OrDefault(codec.parse(payload).value.content)))
  {
  }

  lemma OrElseIs(t: Option<Text>, other: Option<Text>)
    ensures OrElse(t, other) == if t.None? then other else t
  {
  }

  lemma OrDefaultIs(t: Option<Text>)
    ensures OrDefault(t) == if t.None? then [] else t.value
  {
  }

  lemma Gather(out: seq<Frame>, a: seq<Frame>, b: seq<Frame>, f: Frame)
    ensures out + a + b + [f] == out + (a + b + [f])
  {
  }

  lemma Regroup(before: Text, pending: Text, k: nat)
    requires k <= |pending|
    ensures before + pending[..k] + pending[k..] == before + pending
  {
    assert pending[..k] + pending[k..] == pending;
  }

  lemma EmptyRelease(cfg: Config, flush: bool)
    requires Scannable(cfg.ds, [])
    ensures ReleaseOf(cfg, [], flush) == Released([], [])
  {
    ReleaseParts(cfg, [], flush);
    NothingReleased(cfg, [], flush);
  }

  lemma NothingReleased(cfg: Config, pending: Text, flush: bool)
    requires Scannable(cfg.ds, pending) && CutOf(cfg, pending, flush) == 0
    ensures ReleaseOf(cfg, pending, flush) == Released([], pending)
  {
    ReleaseParts(cfg, pending, flush);
    SpliceHead(pending[..0], MasksOf(cfg, pending, flush), 0);
  }
}
