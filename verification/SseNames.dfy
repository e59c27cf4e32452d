/** Under which id and model each frame goes out, and where it stands: what an event releases
    comes before what it is itself replaced by. */
module SseNames {
  import opened Utf8
  import opened Detection
  import opened Sse
  import opened SseMachine
  import opened SseRun
  import opened SseFrames

  // ---- The names said without an algorithm

  /** `v` is the first value given, and nothing if none is. */
  ghost predicate IsFirst(given: seq<Option<Text>>, v: Text) {
    || (v == [] && forall i :: 0 <= i < |given| ==> given[i].None?)
    || exists i :: FirstSome(given, i) && given[i] == Some(v)
  }

  ghost predicate FirstSome(given: seq<Option<Text>>, i: int) {
    0 <= i < |given| && given[i].Some? && forall j :: 0 <= j < i ==> given[j].None?
  }

  /** The id each event gives, if any; */
  function Ids(codec: Codec, events: seq<Text>): (r: seq<Option<Text>>)
    ensures |r| == |events|
  {
    seq(|events|, i requires 0 <= i < |events| =>
      var decoded := Decode(codec, events[i]); if decoded.Parsed? then decoded.chunk.id else None)
  }

  /** and the model. */
  function Models(codec: Codec, events: seq<Text>): (r: seq<Option<Text>>)
    ensures |r| == |events|
  {
    seq(|events|, i requires 0 <= i < |events| =>
      var decoded := Decode(codec, events[i]); if decoded.Parsed? then decoded.chunk.model else None)
  }

  ghost predicate FirstNamed(codec: Codec, events: seq<Text>, id: Text, model: Text) {
    IsFirst(Ids(codec, events), id) && IsFirst(Models(codec, events), model)
  }

  /** The value that is kept up to date event by event. */
  ghost predicate Keeps(given: seq<Option<Text>>, kept: Option<Text>) {
    || (kept.None? && forall i :: 0 <= i < |given| ==> given[i].None?)
    || (kept.Some? && exists i :: FirstSome(given, i) && given[i] == kept)
  }

  lemma KeepsMore(given: seq<Option<Text>>, kept: Option<Text>, next: Option<Text>)
    requires Keeps(given, kept)
    ensures Keeps(given + [next], OrElse(kept, next))
  {
    if kept.Some? {
      var i :| FirstSome(given, i) && given[i] == kept;
      assert FirstSome(given + [next], i);
    } else if next.Some? {
      assert FirstSome(given + [next], |given|);
    }
  }

  lemma KeepsFirst(given: seq<Option<Text>>, kept: Option<Text>)
    requires Keeps(given, kept)
    ensures IsFirst(given, OrDefault(kept))
  {
  }

  lemma {:induction false} FirstKeeps(codec: Codec, events: seq<Text>)
    ensures Keeps(Ids(codec, events), First(codec, events).id)
    ensures Keeps(Models(codec, events), First(codec, events).model)
  {
    if events != [] {
      var n := |events| - 1;
      var before := events[..n];
      assert events == before + [events[n]];
      FirstKeeps(codec, before);
      FirstOfMore(codec, before, events[n]);
      var given := Given(codec, events[n]);
      GivenOfMore(codec, events);
      hide *;
      KeepsMore(Ids(codec, before), First(codec, before).id, given.id);
      KeepsMore(Models(codec, before), First(codec, before).model, given.model);
    }
  }

  lemma GivenOfMore(codec: Codec, events: seq<Text>)
    requires events != []
    ensures var before, given := events[..|events| - 1], Given(codec, events[|events| - 1]);
            && Ids(codec, events) == Ids(codec, before) + [given.id]
            && Models(codec, events) == Models(codec, before) + [given.model]
  {
  }

  lemma FirstIsNamed(codec: Codec, events: seq<Text>)
    ensures FirstNamed(codec, events, OrDefault(First(codec, events).id), OrDefault(First(codec, events).model))
  {
    hide *;
    FirstKeeps(codec, events);
    KeepsFirst(Ids(codec, events), First(codec, events).id);
    KeepsFirst(Models(codec, events), First(codec, events).model);
    FirstNamedIs(codec, events, OrDefault(First(codec, events).id), OrDefault(First(codec, events).model));
  }

  lemma FirstNamedIs(codec: Codec, events: seq<Text>, id: Text, model: Text)
    ensures FirstNamed(codec, events, id, model) <==> IsFirst(Ids(codec, events), id) && IsFirst(Models(codec, events), model)
  {
  }

  // ---- What the last of some events sends

  /** Frames of model text, none of them empty, under the first names the events give. */
  ghost predicate Contents(codec: Codec, events: seq<Text>, frames: seq<Frame>) {
    forall f :: f in frames ==> f.Content? && f.text != [] && FirstNamed(codec, events, f.id, f.model)
  }

  /** What the last of the events is itself replaced by. */
  ghost predicate Own(codec: Codec, events: seq<Text>, frames: seq<Frame>)
    requires events != []
  {
    match Decode(codec, events[|events| - 1])
    case Ignored => frames == []
    case Done => frames == [DoneFrame]
    case Unparseable(payload) => frames == [Verbatim(payload)]
    case Parsed(payload, chunk) =>
      if chunk.finish.Some? then
        |frames| == 1 && frames[0].Finish? && frames[0].reason == chunk.finish.value
        && FirstNamed(codec, events, frames[0].id, frames[0].model)
      else if chunk.content.None? then frames == [Verbatim(payload)]
      else frames == []
  }

  /** The last of the events sends releases of model text and then its own frame. */
  ghost predicate SentBy(codec: Codec, events: seq<Text>, frames: seq<Frame>)
    requires events != []
  {
    exists k :: 0 <= k <= |frames| && Contents(codec, events, frames[..k]) && Own(codec, events, frames[k..])
  }

  predicate HaveNames(frames: seq<Frame>, names: Names) {
    forall f :: f in frames ==>
      f.Content? && f.text != [] && f.id == OrDefault(names.id) && f.model == OrDefault(names.model)
  }

  lemma HaveNamesConcat(a: seq<Frame>, b: seq<Frame>, names: Names)
    requires HaveNames(a, names) && HaveNames(b, names)
    ensures HaveNames(a + b, names)
  {
  }

  lemma FlushNames(su: Setup, core: Core)
    requires Ready(su, core)
    ensures HaveNames(FlushStep(su, core).out, NamesOf(core))
  {
    FlushIs(su, core);
  }

  lemma FeedNames(su: Setup, core: Core, chunk: Chunk)
    requires Ready(su, core) && GoodChunk(chunk)
    ensures HaveNames(FeedPart(su, core, chunk).out, Or(NamesOf(core), Names(chunk.id, chunk.model)))
  {
    FeedPartIs(su, core, chunk);
    if chunk.content.Some? {
      FeedIs(su, Named(core, chunk), chunk.content.value);
    }
  }

  /** One event sends frames of model text under the names known by then, and then its own. */
  lemma EventSends(su: Setup, core: Core, event: Text) returns (contents: seq<Frame>)
    requires Ready(su, core)
    ensures HaveNames(contents, Or(NamesOf(core), Given(su.codec, event)))
    ensures EventStep(su, core, event).out
         == contents + PassedBy(su.codec, event, Or(NamesOf(core), Given(su.codec, event)))
    ensures NamesOf(EventStep(su, core, event).core) == Or(NamesOf(core), Given(su.codec, event))
  {
    hide Ready, FlushStep, FeedPart, ChunkStep, EventStep, Decode, HaveNames, Others;
    EventIs(su, core, event);
    EventPasses(su, core, event);
    contents := [];
    assert HaveNames([], Or(NamesOf(core), Given(su.codec, event))) by { NoneNamed(Or(NamesOf(core), Given(su.codec, event))); }
    match Decode(su.codec, event)
    case Ignored =>
    case Done =>
      FlushNames(su, core);
      contents := FlushStep(su, core).out;
    case Unparseable(payload) =>
    case Parsed(payload, chunk) =>
      ChunkIs(su, core, payload, chunk);
      FeedPartPasses(su, core, chunk);
      FeedNames(su, core, chunk);
      var fed := FeedPart(su, core, chunk);
      if chunk.finish.Some? {
        FlushNames(su, fed.core);
        contents := fed.out + FlushStep(su, fed.core).out;
        HaveNamesConcat(fed.out, FlushStep(su, fed.core).out, NamesOf(fed.core));
      } else if chunk.content.Some? {
        contents := fed.out;
      }
  }

  lemma NoneNamed(names: Names)
    ensures HaveNames([], names)
  {
  }

  lemma NamesAreFirst(codec: Codec, events: seq<Text>, frames: seq<Frame>)
    requires HaveNames(frames, First(codec, events))
    ensures Contents(codec, events, frames)
  {
    FirstIsNamed(codec, events);
  }

  lemma PassedIsOwn(codec: Codec, events: seq<Text>)
    requires events != []
    ensures Own(codec, events, PassedBy(codec, events[|events| - 1], First(codec, events)))
  {
    hide Decode, First;
    FirstIsNamed(codec, events);
  }

  // ---- All events of a run

  function Flat(parts: seq<seq<Frame>>): seq<Frame> {
    if parts == [] then [] else parts[0] + Flat(parts[1..])
  }

  ghost predicate AllSentBy(codec: Codec, events: seq<Text>, i: nat, parts: seq<seq<Frame>>) {
    && i + |parts| == |events|
    && forall k :: 0 <= k < |parts| ==> SentBy(codec, events[..i + k + 1], parts[k])
  }

  lemma OnePart(codec: Codec, events: seq<Text>, contents: seq<Frame>, own: seq<Frame>)
    requires events != [] && Contents(codec, events, contents) && Own(codec, events, own)
    ensures SentBy(codec, events, contents + own)
  {
    var all, k := contents + own, |contents|;
    hide Contents, Own;
    assert all[..k] == contents && all[k..] == own;
  }

  lemma FirstPart(codec: Codec, events: seq<Text>, i: nat, part: seq<Frame>, parts: seq<seq<Frame>>)
    requires i < |events| && SentBy(codec, events[..i + 1], part) && AllSentBy(codec, events, i + 1, parts)
    ensures AllSentBy(codec, events, i, [part] + parts) && Flat([part] + parts) == part + Flat(parts)
  {
    hide SentBy;
    var all := [part] + parts;
    assert all[1..] == parts;
    forall k | 0 <= k < |all| ensures SentBy(codec, events[..i + k + 1], all[k]) {
      if k > 0 {
        assert all[k] == parts[k - 1] && i + k + 1 == i + 1 + (k - 1) + 1;
      }
    }
  }

  lemma NoParts(su: Setup, core: Core, events: seq<Text>)
    requires Ready(su, core)
    ensures events[|events|..] == [] && EventSteps(su, core, []) == Step(core, []) && Flat([]) == []
    ensures AllSentBy(su.codec, events, |events|, []) && events[..|events|] == events
  {
  }

  lemma EventOfMany(events: seq<Text>, i: nat)
    requires i < |events|
    ensures events[i..] != [] && events[i..][0] == events[i] && events[i..][1..] == events[i + 1..]
    ensures events[..i + 1] != [] && events[..i + 1][i] == events[i] && |events[..i + 1]| == i + 1
  {
  }

  lemma {:induction false} EventsSend(su: Setup, core: Core, events: seq<Text>, i: nat) returns (parts: seq<seq<Frame>>)
    requires Ready(su, core) && i <= |events| && NamesOf(core) == First(su.codec, events[..i])
    ensures AllSentBy(su.codec, events, i, parts)
    ensures EventSteps(su, core, events[i..]).out == Flat(parts)
    ensures NamesOf(EventSteps(su, core, events[i..]).core) == First(su.codec, events)
    decreases |events| - i
  {
    hide *;
    if i == |events| {
      parts := [];
      NoParts(su, core, events);
      assert events[..i] == events;
    } else {
      EventOfMany(events, i);
      FirstEvent(su, core, events[i..]);
      PassedStep(su.codec, events, i);
      var contents := EventSends(su, core, events[i]);
      NamesAreFirst(su.codec, events[..i + 1], contents);
      PassedIsOwn(su.codec, events[..i + 1]);
      var own := PassedBy(su.codec, events[i], First(su.codec, events[..i + 1]));
      OnePart(su.codec, events[..i + 1], contents, own);
      var rest := EventsSend(su, EventStep(su, core, events[i]).core, events, i + 1);
      FirstPart(su.codec, events, i, contents + own, rest);
      parts := [contents + own] + rest;
    }
  }

  /** What the end of an unterminated run sends: the model text still held back under the names
      of all events, the tail as it is, and `[DONE]`. */
  ghost predicate Ending(codec: Codec, events: seq<Text>, tail: Text, frames: seq<Frame>) {
    exists k :: 0 <= k <= |frames| && Contents(codec, events, frames[..k])
             && frames[k..] == (if tail == [] then [] else [Tail(tail)]) + [DoneFrame]
  }

  lemma FinalSends(su: Setup, core: Core, events: seq<Text>, raw: Text)
    requires Ready(su, core) && NamesOf(core) == First(su.codec, events)
    ensures Ending(su.codec, events, su.codec.trim(raw), FinalFrames(su, core, raw))
  {
    FinalIs(su, core, raw);
    FlushNames(su, core);
    var contents := FlushStep(su, core).out;
    NamesAreFirst(su.codec, events, contents);
    var frames, k, tail := FinalFrames(su, core, raw), |contents|, su.codec.trim(raw);
    hide *;
    var ending := (if tail == [] then [] else [Tail(tail)]) + [DoneFrame];
    assert frames == contents + ending;
    assert frames[..k] == contents && frames[k..] == ending;
    EndingFrom(su.codec, events, tail, frames, k);
  }

  lemma EndingFrom(codec: Codec, events: seq<Text>, tail: Text, frames: seq<Frame>, k: nat)
    requires k <= |frames| && Contents(codec, events, frames[..k])
    requires frames[k..] == (if tail == [] then [] else [Tail(tail)]) + [DoneFrame]
    ensures Ending(codec, events, tail, frames)
  {
  }

  /** A whole run, event by event: each sends model text under the first id and the first model
      that the events up to it give, and then its own frame; and so does the end. */
  lemma RunSends(su: Setup, upstream: seq<Item>) returns (parts: seq<seq<Frame>>, last: seq<Frame>)
    requires Registry(su.cfg.ds) && GoodCodec(su.codec) && NoError(upstream)
    requires DoneLast(su.codec, Events(Decoded(su.codec, upstream)))
    ensures Ready(su, StartCore())
    ensures AllFrames(RunOf(su, StartCore(), [], upstream)) == Flat(parts) + last
    ensures var total := Decoded(su.codec, upstream);
            && AllSentBy(su.codec, Events(total), 0, parts)
            && if HasDone(su.codec, Events(total)) then last == []
               else Ending(su.codec, Events(total), su.codec.trim(Leftover(total)), last)
  {
    var total := Decoded(su.codec, upstream);
    var events := Events(total);
    StartReady(su);
    hide *;
    assert [] + total == total;
    RunIsWholeRun(su, StartCore(), [], upstream);
    WholeRunIs(su, StartCore(), total);
    EndsOnDone(su, StartCore(), events);
    StartParts();
    StartNames(su.codec, events);
    parts := EventsSend(su, StartCore(), events, 0);
    var drained := EventSteps(su, StartCore(), events);
    last := if drained.core.emittedDone then [] else FinalFrames(su, drained.core, Leftover(total));
    if !drained.core.emittedDone {
      FinalSends(su, drained.core, events, Leftover(total));
    }
  }
}
