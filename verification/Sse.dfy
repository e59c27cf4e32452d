/** Splitting the upstream bytes into server-sent events (the `\n\n` and `data:` subset of
    section 9.2.5 of the WHATWG HTML Standard) and what each event does. */
module Sse {
  import opened Utf8
  import opened Sequences
  import opened Detection
  import opened Scanning
  import opened Releasing

  const NL: byte := 0x0A
  const CR: byte := 0x0D
  /** `data:` */
  const DATA: Text := [0x64, 0x61, 0x74, 0x61, 0x3A]
  /** `[DONE]` */
  const DONE: Text := [0x5B, 0x44, 0x4F, 0x4E, 0x45, 0x5D]

  // ---- Framing

  predicate BreakAt(s: Text, k: nat) {
    k + 2 <= |s| && s[k] == NL && s[k + 1] == NL
  }

  /** `find("\n\n")` */
  function FindBreak(s: Text): (r: Option<nat>)
    ensures r.Some? ==> BreakAt(s, r.value) && forall j :: 0 <= j < r.value ==> !BreakAt(s, j)
    ensures r.None? ==> forall j :: !BreakAt(s, j)
  {
    FindBreakFrom(s, 0)
  }

  function FindBreakFrom(s: Text, k: nat): (r: Option<nat>)
    ensures r.Some? ==> k <= r.value && BreakAt(s, r.value) && forall j :: k <= j < r.value ==> !BreakAt(s, j)
    ensures r.None? ==> forall j :: k <= j ==> !BreakAt(s, j)
    decreases |s| - k
  {
    if k + 2 > |s| then None
    else if s[k] == NL && s[k + 1] == NL then Some(k)
    else FindBreakFrom(s, k + 1)
  }

  /** The complete events at the front of the buffer. */
  function Events(raw: Text): seq<Text>
    decreases |raw|
  {
    match FindBreak(raw)
    case None => []
    case Some(k) => [raw[..k]] + Events(raw[k + 2..])
  }

  /** What is left in the buffer after them. */
  function Leftover(raw: Text): Text
    decreases |raw|
  {
    match FindBreak(raw)
    case None => raw
    case Some(k) => Leftover(raw[k + 2..])
  }

  lemma BreakStays(a: Text, b: Text)
    requires FindBreak(a).Some?
    ensures FindBreak(a + b) == FindBreak(a)
    ensures (a + b)[..FindBreak(a).value] == a[..FindBreak(a).value]
    ensures (a + b)[FindBreak(a).value + 2..] == a[FindBreak(a).value + 2..] + b
  {
    var k := FindBreak(a).value;
    assert BreakAt(a + b, k);
    forall j | 0 <= j < k ensures !BreakAt(a + b, j) {
      assert !BreakAt(a, j);
    }
    assert FindBreak(a + b).Some?;
  }

  /** Draining after every chunk finds the events that draining once at the end would. */
  lemma {:induction false} EventsOfConcat(a: Text, b: Text)
    ensures Events(a + b) == Events(a) + Events(Leftover(a) + b)
    ensures Leftover(a + b) == Leftover(Leftover(a) + b)
    decreases |a|
  {
    if FindBreak(a).Some? {
      BreakStays(a, b);
      EventsOfConcat(a[FindBreak(a).value + 2..], b);
    }
  }

  /** Re-inserting the terminators gives the bytes back: framing loses nothing. */
  function Reframe(events: seq<Text>): Text {
    if events == [] then [] else events[0] + [NL, NL] + Reframe(events[1..])
  }

  lemma {:induction false} FramingLossless(raw: Text)
    ensures Reframe(Events(raw)) + Leftover(raw) == raw
    decreases |raw|
  {
    hide *;
    if FindBreak(raw).Some? {
      var event, rest := EventsFirst(raw);
      FramingLossless(rest);
      ReframeFirst(event, Events(rest));
      Associate(event + [NL, NL], Reframe(Events(rest)), Leftover(rest));
    } else {
      EventsNone(raw);
    }
  }

  lemma EventsFirst(raw: Text) returns (event: Text, rest: Text)
    requires FindBreak(raw).Some?
    ensures raw == event + [NL, NL] + rest && |rest| < |raw|
    ensures Events(raw) == [event] + Events(rest) && Leftover(raw) == Leftover(rest)
  {
    var k := FindBreak(raw).value;
    event, rest := raw[..k], raw[k + 2..];
  }

  lemma EventsNone(raw: Text)
    requires FindBreak(raw).None?
    ensures Events(raw) == [] && Leftover(raw) == raw && Reframe([]) + raw == raw
  {
  }

  lemma ReframeFirst(event: Text, events: seq<Text>)
    ensures Reframe([event] + events) == event + [NL, NL] + Reframe(events)
  {
    assert ([event] + events)[1..] == events;
  }

  // ---- The data line

  function LineEnd(s: Text): (k: nat)
    ensures k <= |s| && (k < |s| ==> s[k] == NL) && forall j :: 0 <= j < k ==> s[j] != NL
  {
    if s == [] || s[0] == NL then 0 else 1 + LineEnd(s[1..])
  }

  /** The first line, without `\n` or `\r\n`, as `str::lines` gives it. */
  function FirstLine(s: Text): Text {
    var k := LineEnd(s);
    if 0 < k < |s| && s[k - 1] == CR then s[..k - 1] else s[..k]
  }

  /** The first line that starts with `data:`, without that prefix. */
  function DataLine(event: Text): Option<Text>
    decreases |event|
  {
    if event == [] then None
    else
      var line, k := FirstLine(event), LineEnd(event);
      if DATA <= line then Some(line[|DATA|..])
      else if k == |event| then None
      else DataLine(event[k + 1..])
  }

  lemma LineEndIs(s: Text, k: nat)
    requires k <= |s| && NL !in s[..k] && (k < |s| ==> s[k] == NL)
    ensures LineEnd(s) == k
  {
    assert forall j :: 0 <= j < k ==> s[..k][j] == s[j];
    assert forall b :: b in s[..k] ==> b != NL;
  }

  /** A line without the carriage return before its line feed. */
  function WithoutReturn(line: Text): Text {
    if line != [] && line[|line| - 1] == CR then line[..|line| - 1] else line
  }

  /** Lines without the prefix are skipped, comments and other fields alike; */
  lemma OtherLinesSkipped(line: Text, rest: Text)
    requires NL !in line && !(DATA <= line)
    ensures DataLine(line + [NL] + rest) == DataLine(rest)
    ensures DataLine(line) == None
  {
    var event := line + [NL] + rest;
    assert event[..|line|] == line && event[|line| + 1..] == rest;
    LineEndIs(event, |line|);
    assert line[..|line|] == line;
    LineEndIs(line, |line|);
  }

  /** the first line with it is the payload, whatever follows. */
  lemma DataLineTaken(payload: Text, rest: Text)
    requires NL !in payload
    ensures DataLine(DATA + payload + [NL] + rest) == Some(WithoutReturn(payload))
    ensures DataLine(DATA + payload) == Some(payload)
  {
    var line := DATA + payload;
    var event := line + [NL] + rest;
    assert event[..|line|] == line && line[..|line|] == line;
    LineEndIs(event, |line|);
    LineEndIs(line, |line|);
    assert line[|DATA|..] == payload;
    if payload != [] && payload[|payload| - 1] == CR {
      assert line[|line| - 1] == CR;
      assert event[..|line| - 1] == DATA + payload[..|payload| - 1];
    }
  }

  // ---- What an event says

  /** The parts of a chat completion chunk that are looked at. */
  datatype Chunk = Chunk(id: Option<Text>, model: Option<Text>, content: Option<Text>, finish: Option<Text>)

  /** Library calls on text: `trim`, JSON decoding, and `from_utf8_lossy`. */
  datatype Codec = Codec(trim: Text -> Text, parse: Text -> Option<Chunk>, lossy: Text -> Text)

  predicate Blank(t: Text) {
    forall b :: b in t ==> b == 0x20 || 9 <= b <= 13
  }

  /** Starts and ends with a visible ASCII character. */
  predicate Visible(t: Text) {
    t != [] && 0x21 <= t[0] <= 0x7E && 0x21 <= t[|t| - 1] <= 0x7E
  }

  ghost predicate TrimsTo(trim: Text -> Text, a: Text, t: Text, b: Text) {
    trim(a + t + b) == t
  }

  /** What is used of `str::trim`: blanks around visible text go, and the result never ends
      in a line feed. */
  ghost predicate GoodTrim(trim: Text -> Text) {
    && (forall a, t, b :: Blank(a) && Visible(t) && Blank(b) ==> TrimsTo(trim, a, t, b))
    && forall t :: Trimmed(t, trim(t))
  }

  ghost predicate Trimmed(t: Text, u: Text) {
    (exists i, j :: 0 <= i <= j <= |t| && u == t[i..j]) && (u != [] ==> u[|u| - 1] != NL)
  }

  ghost predicate GoodCodec(codec: Codec) {
    && (forall p :: codec.parse(p).Some? && codec.parse(p).value.content.Some? ==>
          WellFormed(codec.parse(p).value.content.value))
    && (forall b :: WellFormed(b) ==> codec.lossy(b) == b)
    && GoodTrim(codec.trim)
  }

  datatype Event = Ignored | Done | Unparseable(payload: Text) | Parsed(payload: Text, chunk: Chunk)

  function Decode(codec: Codec, event: Text): Event {
    match DataLine(event)
    case None => Ignored
    case Some(line) =>
      var payload := codec.trim(line);
      if payload == DONE then Done
      else match codec.parse(payload)
        case None => Unparseable(payload)
        case Some(chunk) => Parsed(payload, chunk)
  }

  /** The model text an event brings. */
  function Brings(codec: Codec, event: Text): Text {
    var decoded := Decode(codec, event);
    if decoded.Parsed? && decoded.chunk.content.Some? then decoded.chunk.content.value else []
  }

  function BringsAll(codec: Codec, events: seq<Text>): Text {
    if events == [] then [] else Brings(codec, events[0]) + BringsAll(codec, events[1..])
  }

  // ---- What goes downstream

  datatype Frame =
    | Content(id: Text, model: Text, text: Text)
    | Finish(id: Text, model: Text, reason: Text)
    | Verbatim(payload: Text)
    | Tail(text: Text)
    | DoneFrame

  function OrDefault(t: Option<Text>): Text {
    match t
    case None => []
    case Some(v) => v
  }

  function OrElse(t: Option<Text>, other: Option<Text>): Option<Text> {
    if t.None? then other else t
  }

  function ContentFrame(id: Option<Text>, model: Option<Text>, text: Text): seq<Frame> {
    if text == [] then [] else [Content(OrDefault(id), OrDefault(model), text)]
  }

  // ---- One event

  datatype Setup = Setup(cfg: Config, codec: Codec)

  /** The state between events. */
  datatype Core = Core(pending: Text, id: Option<Text>, model: Option<Text>, emittedDone: bool)

  ghost predicate Ready(su: Setup, core: Core) {
    Scannable(su.cfg.ds, core.pending) && GoodCodec(su.codec)
  }

  datatype Step = Step(core: Core, out: seq<Frame>)

  /** Flush the buffer into a content frame. */
  function FlushStep(su: Setup, core: Core): Step
    requires Ready(su, core)
  {
    var r := ReleaseOf(su.cfg, core.pending, true);
    Step(core.(pending := r.rest), ContentFrame(core.id, core.model, r.text))
  }

  function FeedStep(su: Setup, core: Core, content: Text): Step
    requires Ready(su, core) && WellFormed(content)
  {
    WellFormedConcat(core.pending, content);
    var r := ReleaseOf(su.cfg, core.pending + content, false);
    Step(core.(pending := r.rest), ContentFrame(core.id, core.model, r.text))
  }

  lemma FlushIs(su: Setup, core: Core)
    requires Ready(su, core)
    ensures Scannable(su.cfg.ds, core.pending)
    ensures var r := ReleaseOf(su.cfg, core.pending, true);
            && FlushStep(su, core).core == core.(pending := r.rest)
            && FlushStep(su, core).out == ContentFrame(core.id, core.model, r.text)
  {
  }

  lemma FeedIs(su: Setup, core: Core, content: Text)
    requires Ready(su, core) && WellFormed(content)
    ensures Scannable(su.cfg.ds, core.pending + content)
    ensures var r := ReleaseOf(su.cfg, core.pending + content, false);
            && FeedStep(su, core, content).core == core.(pending := r.rest)
            && FeedStep(su, core, content).out == ContentFrame(core.id, core.model, r.text)
  {
    WellFormedConcat(core.pending, content);
  }

  lemma FlushReady(su: Setup, core: Core)
    requires Ready(su, core)
    ensures Ready(su, FlushStep(su, core).core) && FlushStep(su, core).core.pending == []
  {
    FlushIsAtRest(su.cfg, core.pending);
  }

  lemma FeedReady(su: Setup, core: Core, content: Text)
    requires Ready(su, core) && WellFormed(content)
    ensures Ready(su, FeedStep(su, core, content).core)
  {
    WellFormedConcat(core.pending, content);
    ReleaseWellFormed(su.cfg, core.pending + content, false);
  }

  function Named(core: Core, chunk: Chunk): Core {
    core.(id := OrElse(core.id, chunk.id), model := OrElse(core.model, chunk.model))
  }

  ghost predicate GoodChunk(chunk: Chunk) {
    chunk.content.Some? ==> WellFormed(chunk.content.value)
  }

  function FeedPart(su: Setup, core: Core, chunk: Chunk): Step
    requires Ready(su, core) && GoodChunk(chunk)
  {
    if chunk.content.Some? then FeedStep(su, Named(core, chunk), chunk.content.value) else Step(Named(core, chunk), [])
  }

  lemma FeedPartIs(su: Setup, core: Core, chunk: Chunk)
    requires Ready(su, core) && GoodChunk(chunk)
    ensures Ready(su, Named(core, chunk)) && Ready(su, FeedPart(su, core, chunk).core)
    ensures Named(core, chunk).pending == core.pending && Named(core, chunk).emittedDone == core.emittedDone
    ensures Named(core, chunk).id == OrElse(core.id, chunk.id) && Named(core, chunk).model == OrElse(core.model, chunk.model)
    ensures chunk.content.Some? ==> WellFormed(chunk.content.value)
    ensures chunk.content.Some? ==> FeedPart(su, core, chunk) == FeedStep(su, Named(core, chunk), chunk.content.value)
    ensures chunk.content.None? ==> FeedPart(su, core, chunk) == Step(Named(core, chunk), [])
  {
    FeedPartReady(su, core, chunk);
  }

  lemma FeedPartReady(su: Setup, core: Core, chunk: Chunk)
    requires Ready(su, core) && GoodChunk(chunk)
    ensures Ready(su, FeedPart(su, core, chunk).core)
  {
    if chunk.content.Some? {
      FeedReady(su, Named(core, chunk), chunk.content.value);
    }
  }

  function ChunkStep(su: Setup, core: Core, payload: Text, chunk: Chunk): Step
    requires Ready(su, core) && GoodChunk(chunk)
  {
    FeedPartReady(su, core, chunk);
    var fed := FeedPart(su, core, chunk);
    if chunk.finish.Some? then
      var flushed := FlushStep(su, fed.core);
      Step(flushed.core, fed.out + flushed.out
                         + [Finish(OrDefault(fed.core.id), OrDefault(fed.core.model), chunk.finish.value)])
    else if chunk.content.None? then Step(fed.core, [Verbatim(payload)])
    else fed
  }

  lemma ChunkIs(su: Setup, core: Core, payload: Text, chunk: Chunk)
    requires Ready(su, core) && GoodChunk(chunk)
    ensures Ready(su, FeedPart(su, core, chunk).core)
    ensures var fed := FeedPart(su, core, chunk);
            var flushed := FlushStep(su, fed.core);
            var step := ChunkStep(su, core, payload, chunk);
            && (chunk.finish.Some? ==> step.core == flushed.core)
            && (chunk.finish.Some? ==>
                  step.out == fed.out + flushed.out
                              + [Finish(OrDefault(fed.core.id), OrDefault(fed.core.model), chunk.finish.value)])
            && (chunk.finish.None? && chunk.content.None? ==> step == Step(fed.core, [Verbatim(payload)]) && fed.out == [])
            && (chunk.finish.None? && chunk.content.Some? ==> step == fed)
  {
    FeedPartReady(su, core, chunk);
  }

  function EventStep(su: Setup, core: Core, event: Text): Step
    requires Ready(su, core)
  {
    match Decode(su.codec, event)
    case Ignored => Step(core, [])
    case Done =>
      var flushed := FlushStep(su, core);
      Step(flushed.core.(emittedDone := true), flushed.out + [DoneFrame])
    case Unparseable(payload) => Step(core, [Verbatim(payload)])
    case Parsed(payload, chunk) => ChunkStep(su, core, payload, chunk)
  }

  lemma EventIs(su: Setup, core: Core, event: Text)
    requires Ready(su, core)
    ensures Decode(su.codec, event).Ignored? ==> EventStep(su, core, event) == Step(core, [])
    ensures Decode(su.codec, event).Done? ==>
              EventStep(su, core, event) == Step(FlushStep(su, core).core.(emittedDone := true),
                                                 FlushStep(su, core).out + [DoneFrame])
    ensures Decode(su.codec, event).Unparseable? ==>
              EventStep(su, core, event) == Step(core, [Verbatim(Decode(su.codec, event).payload)])
    ensures Decode(su.codec, event).Parsed? ==> GoodChunk(Decode(su.codec, event).chunk)
    ensures Decode(su.codec, event).Parsed? ==>
              EventStep(su, core, event) == ChunkStep(su, core, Decode(su.codec, event).payload, Decode(su.codec, event).chunk)
  {
  }

  lemma EventReady(su: Setup, core: Core, event: Text)
    requires Ready(su, core)
    ensures Ready(su, EventStep(su, core, event).core)
  {
    match Decode(su.codec, event)
    case Ignored =>
    case Done =>
      FlushReady(su, core);
    case Unparseable(payload) =>
    case Parsed(payload, chunk) =>
      FeedPartReady(su, core, chunk);
      if chunk.finish.Some? {
        FlushReady(su, FeedPart(su, core, chunk).core);
      }
  }

  /** All events, one after another. */
  function EventSteps(su: Setup, core: Core, events: seq<Text>): Step
    requires Ready(su, core)
    decreases |events|
  {
    if events == [] then Step(core, [])
    else
      EventReady(su, core, events[0]);
      var first := EventStep(su, core, events[0]);
      var rest := EventSteps(su, first.core, events[1..]);
      Step(rest.core, first.out + rest.out)
  }

  lemma {:induction false} EventStepsReady(su: Setup, core: Core, events: seq<Text>)
    requires Ready(su, core)
    ensures Ready(su, EventSteps(su, core, events).core)
    decreases |events|
  {
    if events != [] {
      EventReady(su, core, events[0]);
      EventStepsReady(su, EventStep(su, core, events[0]).core, events[1..]);
    }
  }

  lemma FirstEvent(su: Setup, core: Core, events: seq<Text>)
    requires Ready(su, core) && events != []
    ensures Ready(su, EventStep(su, core, events[0]).core)
    ensures var first := EventStep(su, core, events[0]);
            var rest := EventSteps(su, first.core, events[1..]);
            EventSteps(su, core, events).core == rest.core && EventSteps(su, core, events).out == first.out + rest.out
  {
    hide Ready, EventStep;
    EventReady(su, core, events[0]);
  }

  lemma NoEvents(su: Setup, core: Core)
    requires Ready(su, core)
    ensures EventSteps(su, core, []) == Step(core, [])
  {
  }

  /** Handling events in two batches is handling them in one. */
  lemma {:induction false} EventStepsConcat(su: Setup, core: Core, a: seq<Text>, b: seq<Text>)
    requires Ready(su, core)
    ensures Ready(su, EventSteps(su, core, a).core)
    ensures var first := EventSteps(su, core, a);
            var second := EventSteps(su, first.core, b);
            var both := EventSteps(su, core, a + b);
            both.core == second.core && both.out == first.out + second.out
    decreases |a|
  {
    hide *;
    EventStepsReady(su, core, a);
    if a == [] {
      NoEvents(su, core);
      assert a + b == b;
    } else {
      FirstEvent(su, core, a);
      FirstEvent(su, core, a + b);
      assert (a + b)[0] == a[0] && (a + b)[1..] == a[1..] + b;
      EventStepsConcat(su, EventStep(su, core, a[0]).core, a[1..], b);
    }
  }
}
