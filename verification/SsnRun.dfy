/** Whole runs of the redacting stream with the Social Security Number policy. */
module SsnRuns {
  import opened Utf8
  import opened Characters
  import opened Findings
  import opened SpliceLaws
  import opened Detection
  import opened Scanning
  import opened AtRest
  import opened Releasing
  import opened Streaming
  import opened Patterns
  import opened Ssn
  import opened SsnStreaming
  import opened SsnDeltas
  import opened Sse
  import opened SseMachine
  import opened SseRun
  import opened SseContent

  /** A false end sends tokens that at-rest redaction does not store. */
  lemma FalseEndMore(cls: Classes, action: Action, deltas: seq<Text>)
    requires GoodClasses(cls) && AllWellFormed(deltas)
    ensures Runnable(SsnOnly(cls, action), [], deltas) && Nonempty(Hits(SsnOnly(cls, action), Concat(deltas)))
    ensures var cfg, text := SsnOnly(cls, action), Concat(deltas);
            var streamed, stored := Stream(cfg, [], deltas), MaskAll(text, Hits(cfg, text));
            && (NoFalseEnd(cls, text, Ends(0, deltas)) ==> streamed == stored)
            && (!NoFalseEnd(cls, text, Ends(0, deltas)) ==> Openings(stored) < Openings(streamed))
  {
    hide *;
    var cfg, text := SsnOnly(cls, action), Concat(deltas);
    SsnRunnable(cls, action, deltas);
    Start(deltas);
    StartIsClean(cls, text);
    FalseCutIff(cls, action, text, [], 0, deltas);
    StreamOpenings(cls, deltas, action);
    if NoFalseEnd(cls, text, Ends(0, deltas)) {
      SameWhenNoFalseCut(cls, deltas, action);
    } else {
      var k := AFalseCut(cls, text, StreamCuts(cfg, [], 0, deltas));
      FalseCutMasksMore(cls, deltas, action, k);
    }
  }

  lemma AFalseCut(cls: Classes, text: Text, cuts: seq<nat>) returns (k: nat)
    requires !NoFalseCut(cls, text, cuts)
    ensures k in cuts && FalseStart(cls, text, k)
  {
    k :| k in cuts && FalseStart(cls, text, k);
  }

  ghost predicate NoneFalse(cls: Classes, segments: seq<seq<Text>>) {
    forall deltas :: deltas in segments ==> NoFalseEnd(cls, Concat(deltas), Ends(0, deltas))
  }

  lemma NoneFalseStep(cls: Classes, segments: seq<seq<Text>>)
    requires segments != []
    ensures NoneFalse(cls, segments)
       <==> NoFalseEnd(cls, Concat(segments[0]), Ends(0, segments[0])) && NoneFalse(cls, segments[1..])
  {
    hide NoFalseEnd;
    assert segments == [segments[0]] + segments[1..];
  }

  lemma SegmentsStep(cfg: Config, segments: seq<seq<Text>>)
    requires segments != [] && AllSegmentsGood(segments) && Registry(cfg.ds)
    ensures AllWellFormed(segments[0]) && AllSegmentsGood(segments[1..])
    ensures Runnable(cfg, [], segments[0]) && Nonempty(Hits(cfg, Concat(segments[0])))
    ensures StreamAll(cfg, segments) == Stream(cfg, [], segments[0]) + StreamAll(cfg, segments[1..])
    ensures StoreAll(cfg, segments)
         == MaskAll(Concat(segments[0]), Hits(cfg, Concat(segments[0]))) + StoreAll(cfg, segments[1..])
  {
    assert segments[0] in segments;
    hide MaskAll, Hits;
    ConcatWellFormed(segments[0]);
    HitsProper(cfg.ds, Concat(segments[0]), cfg.policies);
  }

  lemma NoSegment(cls: Classes, cfg: Config)
    requires Registry(cfg.ds)
    ensures AllSegmentsGood([]) && StreamAll(cfg, []) == [] && StoreAll(cfg, []) == [] && NoneFalse(cls, [])
  {
  }

  lemma {:induction false} AllStoredIff(cls: Classes, action: Action, segments: seq<seq<Text>>)
    requires GoodClasses(cls) && AllSegmentsGood(segments)
    ensures Registry(SsnOnly(cls, action).ds)
    ensures var streamed, stored := StreamAll(SsnOnly(cls, action), segments), StoreAll(SsnOnly(cls, action), segments);
            && Openings(stored) <= Openings(streamed)
            && (NoneFalse(cls, segments) ==> streamed == stored)
            && (!NoneFalse(cls, segments) ==> Openings(stored) < Openings(streamed))
  {
    hide *;
    var cfg := SsnOnly(cls, action);
    SsnRegistry(cls, action);
    if segments == [] {
      NoSegment(cls, cfg);
    } else {
      SegmentsStep(cfg, segments);
      NoneFalseStep(cls, segments);
      var first, text := segments[0], Concat(segments[0]);
      FalseEndMore(cls, action, first);
      AllStoredIff(cls, action, segments[1..]);
      OpeningsConcat(Stream(cfg, [], first), StreamAll(cfg, segments[1..]));
      OpeningsConcat(MaskAll(text, Hits(cfg, text)), StoreAll(cfg, segments[1..]));
    }
  }

  lemma SsnRegistry(cls: Classes, action: Action)
    ensures Registry(SsnOnly(cls, action).ds)
  {
    SsnIsDetector(cls);
  }

  lemma SameFront(a: Text, b: Text, c: Text)
    ensures a + c == b + c <==> a == b
  {
    if a + c == b + c {
      assert |a + c| == |a| + |c| && |b + c| == |b| + |c|;
      assert (a + c)[..|a|] == a && (b + c)[..|b|] == b;
    }
  }

  /** What a client reads in a run is what at-rest redaction stores of its segments, and then
      the tail's text, exactly when no segment has a delta that ends falsely. */
  lemma RunStoredIff(cls: Classes, action: Action, codec: Codec, upstream: seq<Item>)
    requires GoodClasses(cls) && GoodCodec(codec) && NoError(upstream)
    requires DoneLast(codec, Events(Decoded(codec, upstream)))
    ensures var su, total := Setup(SsnOnly(cls, action), codec), Decoded(codec, upstream);
            var segments := Segments(RunOps(codec, total));
            && Registry(su.cfg.ds) && Ready(su, StartCore()) && AllSegmentsGood(segments)
            && (ContentOf(codec, AllFrames(RunOf(su, StartCore(), [], upstream)))
                == StoreAll(su.cfg, segments) + TailText(codec, total)
                <==> NoneFalse(cls, segments))
  {
    hide *;
    var su, total := Setup(SsnOnly(cls, action), codec), Decoded(codec, upstream);
    var segments := Segments(RunOps(codec, total));
    SsnRegistry(cls, action);
    RunStreamsItsSegments(su, upstream);
    AllStoredIff(cls, action, segments);
    SameFront(StreamAll(su.cfg, segments), StoreAll(su.cfg, segments), TailText(codec, total));
  }

  // ---- A number in an unterminated tail

  /** `123-45-6789` */
  const NUMBER: Text := [0x31, 0x32, 0x33, 0x2D, 0x34, 0x35, 0x2D, 0x36, 0x37, 0x38, 0x39]

  lemma NumberShape(cls: Classes, chars: seq<Text>)
    requires GoodClasses(cls) && |chars| == 11 && forall i :: 0 <= i < 11 ==> chars[i] == [NUMBER[i]]
    ensures Shape(cls, chars) && EndsWord(cls, chars, SIZE)
  {
    assert cls.digit(chars[0]) && cls.digit(chars[1]) && cls.digit(chars[2]) && chars[3] == DASH;
    assert cls.digit(chars[4]) && cls.digit(chars[5]) && chars[6] == DASH;
    assert cls.digit(chars[7]) && cls.digit(chars[8]) && cls.digit(chars[9]) && cls.digit(chars[10]);
  }

  lemma WholeMatches(cls: Classes, text: Text)
    requires WellFormed(text) && Shape(cls, Chars(text)) && EndsWord(cls, Chars(text), SIZE) && |Chars(text)| == SIZE
    ensures MatchAt(cls, text, 0) && ShapeEnd(text, 0) == |text|
  {
    assert text[0..] == text && text[..0] == [];
    CharsOfNothing();
    assert StartsWord(cls, Chars([]));
    assert Chars(text)[..SIZE] == Chars(text);
    hide Chars, WellFormed, Width, Shape, EndsWord, StartsWord;
    WidthIs(text, SIZE);
    CharsGiveText(text);
  }

  lemma NumberMatches(cls: Classes, text: Text)
    requires GoodClasses(cls) && text == NUMBER
    ensures WellFormed(text) && MatchAt(cls, text, 0) && ShapeEnd(text, 0) == 11
  {
    assert SIZE == 11;
    hide *;
    NumberIsAscii(text);
    AsciiChars(text);
    NumberShape(cls, Chars(text));
    WholeMatches(cls, text);
  }

  lemma NumberIsAscii(text: Text)
    requires text == NUMBER
    ensures |text| == 11 && forall i :: 0 <= i < |text| ==> text[i] < 0x80
  {
  }

  /** A client reads it as it is, although the policy asks for it to be masked. */
  lemma TailNumberUnmasked(cls: Classes, action: Action, codec: Codec, payload: Text)
    requires GoodClasses(cls) && GoodCodec(codec) && WellFormed(payload) && Visible(payload) && NL !in payload
    requires payload != DONE && codec.parse(payload).Some? && codec.parse(payload).value.content == Some(NUMBER)
    ensures var su := Setup(SsnOnly(cls, action), codec);
            && Registry(su.cfg.ds) && Ready(su, StartCore())
            && ContentOf(codec, AllFrames(RunOf(su, StartCore(), [], [Received(DATA + payload)]))) == NUMBER
    ensures Masks(Found(SsnOnly(cls, action), NUMBER), 0, |NUMBER|)
  {
    hide *;
    var su := Setup(SsnOnly(cls, action), codec);
    SsnRegistry(cls, action);
    TailGoesUnmasked(su, payload);
    OrDefaultIs(codec.parse(payload).value.content);
    NumberMatches(cls, NUMBER);
    NumberIsAscii(NUMBER);
    SsnFound(cls, NUMBER, action, Finding(TAG, 0, 11));
    MasksItself(Found(SsnOnly(cls, action), NUMBER), Finding(TAG, 0, 11));
  }
}
