/** What the bytes of a stream say, without the loops that read them: which events they hold,
    what one event in its written form does, and how a run ends on a transport error. */
module SseEvents {
  import opened Utf8
  import opened Detection
  import opened Scanning
  import opened Releasing
  import opened Sse
  import opened SseMachine
  import opened SseRun
  import opened SseFrames
  import opened SseNames

  // ---- Framing

  /** Two line feeds in a row, somewhere before `n`. */
  ghost predicate BreaksBefore(s: Text, n: int) {
    exists k :: 0 <= k < n && BreakAt(s, k)
  }

  /** Written down with its blank line, the event ends there and not before. */
  ghost predicate OneEvent(event: Text) {
    !BreaksBefore(event + [NL, NL], |event|)
  }

  ghost predicate Framed(raw: Text, events: seq<Text>, rest: Text) {
    && raw == Reframe(events) + rest
    && (forall e :: e in events ==> OneEvent(e))
    && !BreaksBefore(rest, |rest|)
  }

  lemma BreakOfEvent(event: Text, rest: Text)
    requires OneEvent(event)
    ensures FindBreak(event + [NL, NL] + rest) == Some(|event|)
  {
    var raw, own := event + [NL, NL] + rest, event + [NL, NL];
    assert BreakAt(raw, |event|);
    forall k | 0 <= k < |event| ensures !BreakAt(raw, k) {
      assert raw[k] == own[k] && raw[k + 1] == own[k + 1];
      assert !BreakAt(own, k);
    }
    var found := FindBreak(raw);
    assert found.Some?;
    assert !(found.value < |event|);
  }

  lemma EventsOfFirst(event: Text, rest: Text)
    requires OneEvent(event)
    ensures Events(event + [NL, NL] + rest) == [event] + Events(rest)
    ensures Leftover(event + [NL, NL] + rest) == Leftover(rest)
  {
    var raw := event + [NL, NL] + rest;
    BreakOfEvent(event, rest);
    assert raw[..|event|] == event && raw[|event| + 2..] == rest;
  }

  lemma {:induction false} FramedIsRead(events: seq<Text>, rest: Text)
    requires Framed(Reframe(events) + rest, events, rest)
    ensures Events(Reframe(events) + rest) == events && Leftover(Reframe(events) + rest) == rest
  {
    if events == [] {
      assert [] + rest == rest;
      assert FindBreak(rest).None?;
    } else {
      var more := Reframe(events[1..]) + rest;
      assert Framed(more, events[1..], rest);
      hide OneEvent, Framed;
      FramedIsRead(events[1..], rest);
      assert Reframe(events) + rest == events[0] + [NL, NL] + more;
      FirstIsOne(events, rest);
      EventsOfFirst(events[0], more);
    }
  }

  lemma FirstIsOne(events: seq<Text>, rest: Text)
    requires Framed(Reframe(events) + rest, events, rest) && events != []
    ensures OneEvent(events[0])
  {
  }

  lemma FirstOfBreak(raw: Text, event: Text, rest: Text)
    requires FindBreak(raw).Some? && raw == event + [NL, NL] + rest && |event| == FindBreak(raw).value
    ensures OneEvent(event)
  {
    var own := event + [NL, NL];
    forall k | 0 <= k < |event| ensures !BreakAt(own, k) {
      assert own[k] == raw[k] && own[k + 1] == raw[k + 1];
      assert !BreakAt(raw, k);
    }
  }

  lemma {:induction false} ReadIsFramed(raw: Text)
    ensures forall e :: e in Events(raw) ==> OneEvent(e)
    ensures !BreaksBefore(Leftover(raw), |Leftover(raw)|)
    decreases |raw|
  {
    if FindBreak(raw).Some? {
      var k := FindBreak(raw).value;
      assert raw == raw[..k] + [NL, NL] + raw[k + 2..];
      FirstOfBreak(raw, raw[..k], raw[k + 2..]);
      ReadIsFramed(raw[k + 2..]);
      hide OneEvent;
    }
  }

  /** The events and what is left over are the one way to write the bytes as pieces that end
      with the first blank line in them and a rest without any. */
  lemma FramingExact(raw: Text, events: seq<Text>, rest: Text)
    ensures Framed(raw, events, rest) <==> events == Events(raw) && rest == Leftover(raw)
  {
    if Framed(raw, events, rest) {
      FramedIsRead(events, rest);
    }
    if events == Events(raw) && rest == Leftover(raw) {
      FramingLossless(raw);
      ReadIsFramed(raw);
    }
  }

  // ---- One event, as it is written

  /** `data:`, blanks, the payload and blanks in one line, whatever lines follow. */
  ghost predicate Writes(event: Text, payload: Text) {
    && Visible(payload) && NL !in payload
    && exists a, b :: Padded(event, a, payload, b)
  }

  ghost predicate Padded(event: Text, a: Text, payload: Text, b: Text) {
    && Blank(a) && NL !in a && Blank(b) && NL !in b
    && (event == DATA + (a + payload + b) || exists rest :: event == DATA + (a + payload + b) + [NL] + rest)
  }

  lemma BlankWithout(b: Text)
    requires Blank(b)
    ensures Blank(WithoutReturn(b))
  {
    forall x | x in WithoutReturn(b) ensures x == 0x20 || 9 <= x <= 13 {
      assert x in b;
    }
  }

  lemma WithoutReturnOf(a: Text, payload: Text, b: Text)
    requires Blank(a) && Visible(payload) && Blank(b)
    ensures WithoutReturn(a + payload + b) == a + payload + if b == [] then [] else WithoutReturn(b)
    ensures Blank(WithoutReturn(b))
  {
    BlankWithout(b);
    var line := a + payload + b;
    if b != [] && b[|b| - 1] == CR {
      assert line[..|line| - 1] == a + payload + b[..|b| - 1];
    } else if b == [] {
      assert line[|line| - 1] == payload[|payload| - 1];
    } else {
      assert line[|line| - 1] == b[|b| - 1];
    }
  }

  /** What an event says. */
  lemma WrittenIs(codec: Codec, event: Text, payload: Text)
    requires GoodCodec(codec) && Writes(event, payload)
    ensures DataLine(event).Some? && codec.trim(DataLine(event).value) == payload
    ensures Decode(codec, event)
         == if payload == DONE then Done
            else match codec.parse(payload) case None => Unparseable(payload) case Some(chunk) => Parsed(payload, chunk)
  {
    var a, b :| Padded(event, a, payload, b);
    var line := a + payload + b;
    assert NL !in line;
    if rest :| event == DATA + line + [NL] + rest {
      DataLineTaken(line, rest);
      WithoutReturnOf(a, payload, b);
      var c := if b == [] then [] else WithoutReturn(b);
      assert TrimsTo(codec.trim, a, payload, c);
    } else {
      DataLineTaken(line, []);
      assert TrimsTo(codec.trim, a, payload, b);
    }
  }

  /** What is looked at in the payload, unless it is `[DONE]`. */
  predicate Reads(codec: Codec, payload: Text, content: Option<Text>, finish: Option<Text>) {
    && payload != DONE && codec.parse(payload).Some?
    && codec.parse(payload).value.content == content && codec.parse(payload).value.finish == finish
  }

  /** `[DONE]` flushes and ends the stream; what does not parse, or has neither content nor a
      finish reason, goes out as it is; content goes to the buffer, and what that releases is
      sent; a finish reason flushes and then goes out itself. */
  lemma WrittenDoes(su: Setup, core: Core, event: Text, payload: Text)
    requires Ready(su, core) && Writes(event, payload)
    ensures var step := EventStep(su, core, event);
            && (payload == DONE ==>
                  && step.core.emittedDone && step.core.pending == []
                  && step.out == FlushStep(su, core).out + [DoneFrame])
            && (payload != DONE && su.codec.parse(payload).None? ==> step == Step(core, [Verbatim(payload)]))
            && (Reads(su.codec, payload, None, None) ==>
                  step.out == [Verbatim(payload)] && step.core.pending == core.pending)
    ensures forall content :: Reads(su.codec, payload, Some(content), None) ==>
              FeedsOnly(su, core, content, EventStep(su, core, event))
    ensures forall content, reason :: Reads(su.codec, payload, content, Some(reason)) ==>
              Finishes(reason, EventStep(su, core, event))
  {
    hide Ready, FlushStep, FeedStep, FeedPart, ChunkStep, EventStep, Decode, Writes, GoodTrim;
    CodecOf(su, core);
    WrittenIs(su.codec, event, payload);
    EventIs(su, core, event);
    FlushReady(su, core);
    if payload != DONE && su.codec.parse(payload).Some? {
      var chunk := su.codec.parse(payload).value;
      ChunkIs(su, core, payload, chunk);
      FeedPartIs(su, core, chunk);
      if chunk.content.Some? {
        FeedIs(su, Named(core, chunk), chunk.content.value);
      }
      if chunk.finish.Some? {
        FinishEnds(su, core, payload, chunk);
      }
    }
  }

  /** An event without a data line does nothing. */
  lemma UnwrittenDoesNothing(su: Setup, core: Core, event: Text)
    requires Ready(su, core) && DataLine(event) == None
    ensures EventStep(su, core, event) == Step(core, [])
  {
  }

  lemma FinishEnds(su: Setup, core: Core, payload: Text, chunk: Chunk)
    requires Ready(su, core) && GoodChunk(chunk) && chunk.finish.Some?
    ensures Finishes(chunk.finish.value, ChunkStep(su, core, payload, chunk))
  {
    ChunkIs(su, core, payload, chunk);
    var fed := FeedPart(su, core, chunk);
    FeedNames(su, core, chunk);
    FlushReady(su, fed.core);
    FlushNames(su, fed.core);
    hide *;
    AllContent(fed.out, Or(NamesOf(core), Names(chunk.id, chunk.model)));
    AllContent(FlushStep(su, fed.core).out, NamesOf(fed.core));
    FinishLast(fed.out, FlushStep(su, fed.core).out, ChunkStep(su, core, payload, chunk), chunk.finish.value);
  }

  lemma AllContent(frames: seq<Frame>, names: Names)
    requires HaveNames(frames, names)
    ensures forall f :: f in frames ==> f.Content?
  {
  }

  lemma FinishLast(a: seq<Frame>, b: seq<Frame>, step: Step, reason: Text)
    requires forall f :: f in a || f in b ==> f.Content?
    requires step.core.pending == [] && |step.out| == |a + b| + 1 && step.out[..|a + b|] == a + b
    requires step.out[|a + b|].Finish? && step.out[|a + b|].reason == reason
    ensures Finishes(reason, step)
  {
    forall i | 0 <= i < |step.out| - 1 ensures step.out[i].Content? {
      assert step.out[..|a + b|][i] == step.out[i];
      assert (a + b)[i] in a || (a + b)[i] in b;
    }
  }

  lemma CodecOf(su: Setup, core: Core)
    requires Ready(su, core)
    ensures GoodCodec(su.codec)
  {
  }

  ghost predicate FeedsOnly(su: Setup, core: Core, content: Text, step: Step) {
    && Scannable(su.cfg.ds, core.pending + content)
    && var r := ReleaseOf(su.cfg, core.pending + content, false);
       && step.core.pending == r.rest
       && if r.text == [] then step.out == []
          else |step.out| == 1 && step.out[0].Content? && step.out[0].text == r.text
  }

  predicate Finishes(reason: Text, step: Step) {
    var n := |step.out| - 1;
    && step.core.pending == [] && n >= 0 && step.out[n].Finish? && step.out[n].reason == reason
    && forall i :: 0 <= i < n ==> step.out[i].Content?
  }

  // ---- Outputs

  /** Every output carries frames. */
  predicate AllSent(outputs: seq<Output>) {
    forall o :: o in outputs ==> o.Sent? && o.frames != []
  }

  lemma SentBefore(out: seq<Frame>, rest: seq<Output>)
    ensures AllSent((if out == [] then [] else [Sent(out)]) + rest) <==> AllSent(rest)
  {
    var more := (if out == [] then [] else [Sent(out)]) + rest;
    assert forall o :: o in rest ==> o in more;
  }

  /** Without a transport error the stream yields no failure, and nothing empty. */
  lemma {:induction false} RunSendsOnly(su: Setup, core: Core, raw: Text, upstream: seq<Item>)
    requires Ready(su, core) && NoError(upstream)
    ensures AllSent(RunOf(su, core, raw, upstream))
    decreases |upstream|
  {
    hide Ready, EventSteps, RunOf, FinalFrames;
    if core.emittedDone {
      RunEnded(su, core, raw, upstream);
    } else if upstream == [] {
      RunFlushes(su, core, raw);
    } else {
      assert upstream[0] in upstream;
      RunPulls(su, core, raw, upstream);
      var grown := raw + su.codec.lossy(upstream[0].bytes);
      var drained := EventSteps(su, core, Events(grown));
      RunSendsOnly(su, drained.core, Leftover(grown), upstream[1..]);
      SentBefore(drained.out, RunOf(su, drained.core, Leftover(grown), upstream[1..]));
    }
  }

  /** The outputs end with the failure; before it come those that `frames` are made of. */
  ghost predicate FailsAfter(outputs: seq<Output>, frames: seq<Frame>, message: Text) {
    var n := |outputs| - 1;
    n >= 0 && outputs[n] == Failed(message) && AllSent(outputs[..n]) && AllFrames(outputs[..n]) == frames
  }

  lemma FailsLater(out: seq<Frame>, rest: seq<Output>, frames: seq<Frame>, message: Text)
    requires FailsAfter(rest, frames, message)
    ensures FailsAfter((if out == [] then [] else [Sent(out)]) + rest, out + frames, message)
  {
    var front := if out == [] then [] else [Sent(out)];
    var all, n := front + rest, |rest| - 1;
    assert all[..|front| + n] == front + rest[..n];
    hide AllSent;
    SentBefore(out, rest[..n]);
    FramesOfRun(out, rest[..n]);
  }

  lemma FailsNow(message: Text)
    ensures FailsAfter([Failed(message)], [], message)
  {
    assert [Failed(message)][..0] == [];
  }

  lemma NoDoneYet(codec: Codec, a: seq<Text>, b: seq<Text>)
    requires !HasDone(codec, a + b)
    ensures !HasDone(codec, a) && !HasDone(codec, b)
  {
    assert forall e :: e in a || e in b ==> e in a + b;
  }

  /** A transport error before any `[DONE]`: the frames of the events so far, the error, and
      nothing else. What was held back is not sent. */
  lemma {:induction false} RunBreaks(su: Setup, core: Core, raw: Text, before: seq<Item>, message: Text, after: seq<Item>)
    requires Ready(su, core) && !core.emittedDone && NoError(before)
    requires Events(raw) == [] && Leftover(raw) == raw
    requires !HasDone(su.codec, Events(raw + Decoded(su.codec, before)))
    ensures FailsAfter(RunOf(su, core, raw, before + [Broken(message)] + after),
                       EventSteps(su, core, Events(raw + Decoded(su.codec, before))).out, message)
    decreases |before|
  {
    hide *;
    var upstream := before + [Broken(message)] + after;
    RunPulls(su, core, raw, upstream);
    if before == [] {
      assert upstream[0] == Broken(message);
      NothingDecoded(su.codec);
      assert raw + [] == raw;
      NoEvents(su, core);
      FailsNow(message);
    } else {
      assert upstream[0] == before[0] && upstream[1..] == before[1..] + [Broken(message)] + after;
      MoreToCome(su.codec, raw, before);
      var grown, rest := raw + su.codec.lossy(before[0].bytes), Decoded(su.codec, before[1..]);
      var drained := EventSteps(su, core, Events(grown));
      EventsOfConcat(grown, rest);
      LeftoverIsDrained(grown);
      NoDoneYet(su.codec, Events(grown), Events(Leftover(grown) + rest));
      EndsOnDone(su, core, Events(grown));
      EventStepsConcat(su, core, Events(grown), Events(Leftover(grown) + rest));
      RunBreaks(su, drained.core, Leftover(grown), before[1..], message, after);
      FailsLater(drained.out, RunOf(su, drained.core, Leftover(grown), upstream[1..]),
                 EventSteps(su, drained.core, Events(Leftover(grown) + rest)).out, message);
    }
  }
}
