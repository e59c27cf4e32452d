/** Exactly when the streamed text is the stored text, said of the text and of where its
    deltas end, before anything is sent. */
module SsnDeltas {
  import opened Utf8
  import opened Characters
  import opened Findings
  import opened Splicing
  import opened AtRest
  import opened Releasing
  import opened Streaming
  import opened NoLeak
  import opened Patterns
  import opened Ssn
  import opened SsnStreaming

  ghost predicate InsideMatch(cls: Classes, text: Text, k: nat) {
    exists i: nat :: MatchAt(cls, text, i) && i < k < ShapeEnd(text, i)
  }

  /** When the text has arrived up to `n`, the tail starts with a false start that no match
      holds back. */
  ghost predicate FalseEnd(cls: Classes, text: Text, n: nat) {
    && HOLDBACK <= n <= |text|
    && var k := Snap(text, n - HOLDBACK);
    FalseStart(cls, text, k) && !InsideMatch(cls, text, k)
  }

  ghost predicate NoFalseEnd(cls: Classes, text: Text, ends: seq<nat>) {
    forall n :: n in ends ==> !FalseEnd(cls, text, n)
  }

  // ---- One release

  /** A match that starts 65 bytes before what has arrived is found in the buffer. */
  lemma MatchIsFound(cls: Classes, text: Text, action: Action, at: nat, i: nat, n: nat)
    requires WellFormed(text) && GoodClasses(cls) && at <= i <= n <= |text|
    requires IsBoundary(text, at) && IsBoundary(text, n) && IsBoundary(text, i)
    requires i + HOLDBACK + 1 <= n && !FalseStart(cls, text, at) && MatchAt(cls, text, i)
    ensures at <= ShapeEnd(text, i)
    ensures Finding(TAG, i - at, ShapeEnd(text, i) - at) in Found(SsnOnly(cls, action), text[at..n])
  {
    hide *;
    SliceMatches(cls, text, at, i, n);
    MatchBounds(cls, text, i);
    WellFormedSlice(text, at, n);
    SsnFound(cls, text[at..n], action, Finding(TAG, i - at, ShapeEnd(text, i) - at));
  }

  lemma FoundIsMatch(cls: Classes, text: Text, action: Action, at: nat, n: nat, f: Finding)
    requires WellFormed(text) && GoodClasses(cls) && at <= n <= |text|
    requires IsBoundary(text, at) && IsBoundary(text, n)
    requires at + f.start + HOLDBACK + 1 <= n && !FalseStart(cls, text, at)
    requires f in Found(SsnOnly(cls, action), text[at..n])
    ensures MatchAt(cls, text, at + f.start) && ShapeEnd(text, at + f.start) == at + f.end
  {
    hide *;
    WellFormedSlice(text, at, n);
    SsnFound(cls, text[at..n], action, f);
    MatchParts(cls, text[at..n], f.start);
    SliceBoundary(text, at, n, f.start);
    SliceMatches(cls, text, at, at + f.start, n);
  }

  lemma NotInside(cls: Classes, text: Text, i: nat)
    requires WellFormed(text) && GoodClasses(cls) && MatchAt(cls, text, i)
    ensures !InsideMatch(cls, text, i) && !FalseStart(cls, text, i)
  {
    hide ShapeEnd, Chars, WellFormed, IsBoundary, GoodClasses, ShapeAt;
    forall j: nat | MatchAt(cls, text, j) && j < i ensures ShapeEnd(text, j) <= i {
      NoOverlap(cls, text, j, i);
    }
  }

  lemma Inside(cls: Classes, text: Text, i: nat, k: nat)
    requires MatchAt(cls, text, i) && i < k < ShapeEnd(text, i)
    ensures InsideMatch(cls, text, k)
  {
  }

  lemma InsideWitness(cls: Classes, text: Text, k: nat) returns (i: nat)
    requires InsideMatch(cls, text, k)
    ensures MatchAt(cls, text, i) && i < k < ShapeEnd(text, i)
  {
    i :| MatchAt(cls, text, i) && i < k < ShapeEnd(text, i);
  }

  lemma FalseEndIs(cls: Classes, text: Text, n: nat)
    ensures FalseEnd(cls, text, n)
       <==> HOLDBACK <= n <= |text| && FalseStart(cls, text, Snap(text, n - HOLDBACK))
            && !InsideMatch(cls, text, Snap(text, n - HOLDBACK))
  {
  }

  lemma CutIs(cfg: Config, buffer: Text, t: nat)
    requires |buffer| == t + HOLDBACK
    ensures CutOf(cfg, buffer, false) == Snap(buffer, PullBack(Found(cfg, buffer), t))
  {
  }

  /** A match around the start of the tail is a finding across the target. */
  lemma InsideIsHeld(cls: Classes, text: Text, action: Action, at: nat, n: nat) returns (f: Finding)
    requires WellFormed(text) && GoodClasses(cls) && at + HOLDBACK <= n <= |text|
    requires IsBoundary(text, at) && IsBoundary(text, n) && !FalseStart(cls, text, at) && !InsideMatch(cls, text, at)
    requires InsideMatch(cls, text, Snap(text, n - HOLDBACK))
    ensures f in Found(SsnOnly(cls, action), text[at..n]) && Straddles(f, n - HOLDBACK - at)
  {
    hide *;
    var t, k := n - HOLDBACK - at, Snap(text, n - HOLDBACK);
    var i := InsideWitness(cls, text, k);
    MatchBounds(cls, text, i);
    SnapAligned(text, at);
    SnapAscends(text, at, n - HOLDBACK);
    if i < at {
      Inside(cls, text, i, at);
    }
    MatchIsFound(cls, text, action, at, i, n);
    f := Finding(TAG, i - at, ShapeEnd(text, i) - at);
    StraddlesIs(f, t);
  }

  /** With no finding across the target, the cut is the tail's start itself. */
  lemma FreeCut(cls: Classes, text: Text, action: Action, at: nat, n: nat)
    requires WellFormed(text) && GoodClasses(cls) && at + HOLDBACK <= n <= |text|
    requires IsBoundary(text, at) && IsBoundary(text, n) && !FalseStart(cls, text, at) && !InsideMatch(cls, text, at)
    requires var fs, t := Found(SsnOnly(cls, action), text[at..n]), n - HOLDBACK - at;
             PullBack(fs, t) == t && NoneOver(fs, t)
    ensures at + CutOf(SsnOnly(cls, action), text[at..n], false) == Snap(text, n - HOLDBACK)
    ensures !InsideMatch(cls, text, Snap(text, n - HOLDBACK))
  {
    hide *;
    CutIs(SsnOnly(cls, action), text[at..n], n - HOLDBACK - at);
    SnapInSlice(text, at, n, n - HOLDBACK - at);
    if InsideMatch(cls, text, Snap(text, n - HOLDBACK)) {
      var f := InsideIsHeld(cls, text, action, at, n);
      NotOver(Found(SsnOnly(cls, action), text[at..n]), n - HOLDBACK - at, f);
    }
  }

  lemma NotOver(fs: seq<Finding>, t: nat, f: Finding)
    requires NoneOver(fs, t) && f in fs
    ensures !Straddles(f, t)
  {
  }

  lemma PulledOrFree(fs: seq<Finding>, t: nat)
    requires Ordered(fs)
    ensures PullBack(fs, t) == t ==> NoneOver(fs, t)
    ensures PullBack(fs, t) == t || exists f :: f in fs && f.start == PullBack(fs, t) && t < f.end
    ensures PullBack(fs, t) <= t
  {
    PullBackSafe(fs, t);
  }

  lemma StraddlesIs(f: Finding, t: nat)
    ensures Straddles(f, t) <==> f.start < t < f.end
  {
  }

  /** Otherwise it is the start of a match of the text. */
  lemma HeldCut(cls: Classes, text: Text, action: Action, at: nat, n: nat, f: Finding)
    requires WellFormed(text) && GoodClasses(cls) && at + HOLDBACK <= n <= |text|
    requires IsBoundary(text, at) && IsBoundary(text, n) && !FalseStart(cls, text, at)
    requires var fs, t := Found(SsnOnly(cls, action), text[at..n]), n - HOLDBACK - at;
             f in fs && f.start == PullBack(fs, t) < t < f.end
    ensures var cut := at + CutOf(SsnOnly(cls, action), text[at..n], false);
            && !FalseStart(cls, text, cut) && !InsideMatch(cls, text, cut) && !FalseEnd(cls, text, n)
  {
    hide *;
    var cfg, k, i := SsnOnly(cls, action), Snap(text, n - HOLDBACK), at + f.start;
    FoundIsMatch(cls, text, action, at, n, f);
    MatchParts(cls, text, i);
    SliceBoundary(text, at, n, f.start);
    CutIs(cfg, text[at..n], n - HOLDBACK - at);
    SnapAligned(text[at..n], f.start);
    NotInside(cls, text, i);
    FalseEndIs(cls, text, n);
    if i < k {
      Inside(cls, text, i, k);
    }
  }

  /** A release cuts in front of a false start exactly when the delta ends falsely. */
  lemma CutIsFalse(cls: Classes, text: Text, action: Action, at: nat, n: nat)
    requires WellFormed(text) && GoodClasses(cls) && at <= n <= |text|
    requires IsBoundary(text, at) && IsBoundary(text, n) && !FalseStart(cls, text, at) && !InsideMatch(cls, text, at)
    requires at == 0 || at + HOLDBACK <= n
    ensures var cut := at + CutOf(SsnOnly(cls, action), text[at..n], false);
            && (FalseStart(cls, text, cut) <==> FalseEnd(cls, text, n))
            && (!FalseStart(cls, text, cut) ==> !InsideMatch(cls, text, cut))
  {
    hide *;
    var cfg := SsnOnly(cls, action);
    var fs := Found(cfg, text[at..n]);
    FalseEndIs(cls, text, n);
    HoldsBack(cfg, text[at..n]);
    if at + HOLDBACK <= n {
      var t := n - HOLDBACK - at;
      WellFormedSlice(text, at, n);
      SsnScannable(cls, text[at..n], action);
      FoundGood(cfg, text[at..n]);
      PulledOrFree(fs, t);
      if PullBack(fs, t) == t {
        FreeCut(cls, text, action, at, n);
      } else {
        var f :| f in fs && f.start == PullBack(fs, t) && t < f.end;
        HeldCut(cls, text, action, at, n, f);
      }
    }
  }

  // ---- The whole run

  lemma {:induction false} FalseCutIff(cls: Classes, action: Action, text: Text, pending: Text, at: nat, deltas: seq<Text>)
    requires GoodClasses(cls) && Runnable(SsnOnly(cls, action), pending, deltas) && Ahead(text, at, pending, deltas)
    requires !FalseStart(cls, text, at) && !InsideMatch(cls, text, at) && (at == 0 || HOLDBACK <= |pending|)
    ensures NoFalseCut(cls, text, StreamCuts(SsnOnly(cls, action), pending, at, deltas))
       <==> NoFalseEnd(cls, text, Ends(at + |pending|, deltas))
    decreases |deltas|
  {
    hide *;
    var cfg := SsnOnly(cls, action);
    AheadParts(text, at, pending, deltas);
    if deltas == [] {
      LastRelease(cfg, pending, at, deltas);
      EndsAfter(at + |pending|, deltas);
      NothingFalse(cls, text);
    } else {
      AheadStep(cfg, text, at, pending, deltas);
      NextRelease(cfg, pending, at, deltas);
      var buffer := pending + deltas[0];
      var n, cut, rest := at + |buffer|, at + CutOf(cfg, buffer, false), ReleaseOf(cfg, buffer, false).rest;
      RestLength(cfg, buffer);
      HoldsBack(cfg, buffer);
      CutIsFalse(cls, text, action, at, n);
      NoFalseCons(cls, text, cut, StreamCuts(cfg, rest, cut, deltas[1..]), at + |pending|, deltas);
      if !FalseStart(cls, text, cut) {
        FalseCutIff(cls, action, text, rest, cut, deltas[1..]);
      }
    }
  }

  lemma NothingFalse(cls: Classes, text: Text)
    ensures NoFalseCut(cls, text, []) && NoFalseEnd(cls, text, [])
  {
  }

  lemma NoFalseCons(cls: Classes, text: Text, cut: nat, later: seq<nat>, from: nat, deltas: seq<Text>)
    requires deltas != []
    ensures NoFalseCut(cls, text, [cut] + later) <==> !FalseStart(cls, text, cut) && NoFalseCut(cls, text, later)
    ensures var n := from + |deltas[0]|;
            NoFalseEnd(cls, text, Ends(from, deltas)) <==> !FalseEnd(cls, text, n) && NoFalseEnd(cls, text, Ends(n, deltas[1..]))
  {
    hide FalseStart, FalseEnd, Ends;
    NoFalseCutCons(cls, text, cut, later);
    EndsStep(from, deltas);
  }

  lemma NoFalseCutCons(cls: Classes, text: Text, cut: nat, later: seq<nat>)
    ensures NoFalseCut(cls, text, [cut] + later) <==> !FalseStart(cls, text, cut) && NoFalseCut(cls, text, later)
  {
    hide FalseStart;
    assert forall k :: k in [cut] + later <==> k == cut || k in later;
  }

  ghost predicate StreamsAsStored(cls: Classes, action: Action, deltas: seq<Text>) {
    var cfg := SsnOnly(cls, action);
    && Runnable(cfg, [], deltas) && Nonempty(Hits(cfg, Concat(deltas)))
    && Stream(cfg, [], deltas) == MaskAll(Concat(deltas), Hits(cfg, Concat(deltas)))
  }

  lemma StartIsClean(cls: Classes, text: Text)
    ensures !FalseStart(cls, text, 0) && !InsideMatch(cls, text, 0)
  {
    NoFalseStartAtZero(cls, text);
  }

  lemma SsnRunnable(cls: Classes, action: Action, deltas: seq<Text>)
    requires AllWellFormed(deltas)
    ensures Runnable(SsnOnly(cls, action), [], deltas)
  {
    SsnScannable(cls, [], action);
  }

  lemma StreamsAsStoredIs(cls: Classes, action: Action, deltas: seq<Text>)
    requires Runnable(SsnOnly(cls, action), [], deltas) && Nonempty(Hits(SsnOnly(cls, action), Concat(deltas)))
    ensures StreamsAsStored(cls, action, deltas)
       <==> Stream(SsnOnly(cls, action), [], deltas) == MaskAll(Concat(deltas), Hits(SsnOnly(cls, action), Concat(deltas)))
  {
  }

  /** The streamed text is the stored text exactly when no delta ends 64 bytes after a false
      start that lies in no match. */
  lemma StreamedIsStoredIff(cls: Classes, action: Action, deltas: seq<Text>)
    requires GoodClasses(cls) && AllWellFormed(deltas)
    ensures StreamsAsStored(cls, action, deltas) <==> NoFalseEnd(cls, Concat(deltas), Ends(0, deltas))
  {
    hide *;
    SsnRunnable(cls, action, deltas);
    Start(deltas);
    StartIsClean(cls, Concat(deltas));
    FalseCutIff(cls, action, Concat(deltas), [], 0, deltas);
    SameIffNoFalseCut(cls, deltas, action);
    StreamsAsStoredIs(cls, action, deltas);
  }

  /** And a text is streamed as it is stored however it is split exactly when it has no
      place where a delta could end falsely. */
  lemma EverySplitIff(cls: Classes, action: Action, text: Text)
    requires GoodClasses(cls) && WellFormed(text)
    ensures (forall deltas :: AllWellFormed(deltas) && Concat(deltas) == text ==> StreamsAsStored(cls, action, deltas))
       <==> forall n: nat :: n <= |text| && IsBoundary(text, n) ==> !FalseEnd(cls, text, n)
  {
    hide *;
    if n: nat :| n <= |text| && IsBoundary(text, n) && FalseEnd(cls, text, n) {
      WellFormedSplit(text, n);
      TwoDeltas(text[..n], text[n..]);
      assert text[..n] + text[n..] == text;
      StreamedIsStoredIff(cls, action, [text[..n], text[n..]]);
      if StreamsAsStored(cls, action, [text[..n], text[n..]]) {
        NoFalseEndAt(cls, text, Ends(0, [text[..n], text[n..]]), n);
      }
    } else {
      forall deltas | AllWellFormed(deltas) && Concat(deltas) == text ensures StreamsAsStored(cls, action, deltas) {
        SsnRunnable(cls, action, deltas);
        Start(deltas);
        EndsAligned(SsnOnly(cls, action), text, [], 0, 0, deltas);
        NoFalseEndFrom(cls, text, Ends(0, deltas));
        StreamedIsStoredIff(cls, action, deltas);
      }
    }
  }

  lemma NoFalseEndAt(cls: Classes, text: Text, ends: seq<nat>, n: nat)
    requires NoFalseEnd(cls, text, ends) && n in ends
    ensures !FalseEnd(cls, text, n)
  {
  }

  lemma NoFalseEndFrom(cls: Classes, text: Text, ends: seq<nat>)
    requires forall n: nat :: n <= |text| && IsBoundary(text, n) ==> !FalseEnd(cls, text, n)
    requires forall n :: n in ends ==> n <= |text| && IsBoundary(text, n)
    ensures NoFalseEnd(cls, text, ends)
  {
  }

  // ---- A text on which they differ

  /** `A123-45-6789`, then spaces up to 65 bytes. */
  function SampleByte(i: nat): byte {
    if i == 0 then 0x41
    else if i == 4 || i == 7 then 0x2D
    else if i < 4 then 0x30 + i
    else if i < 7 then 0x2F + i
    else if i < 12 then 0x2E + i
    else 0x20
  }

  const SAMPLE: Text := seq(65, (i: nat) => SampleByte(i))

  lemma SampleDigits(cls: Classes, chars: seq<Text>)
    requires GoodClasses(cls) && |chars| == 64 && forall i :: 0 <= i < 64 ==> chars[i] == [SampleByte(i + 1)]
    ensures Shape(cls, chars) && EndsWord(cls, chars, SIZE)
  {
    assert cls.digit(chars[0]) && cls.digit(chars[1]) && cls.digit(chars[2]) && chars[3] == DASH;
    assert cls.digit(chars[4]) && cls.digit(chars[5]) && chars[6] == DASH;
    assert cls.digit(chars[7]) && cls.digit(chars[8]) && cls.digit(chars[9]) && cls.digit(chars[10]);
    assert !cls.word(chars[11]);
  }

  lemma LetterFirst(cls: Classes, first: seq<Text>)
    requires GoodClasses(cls) && first != [] && first[0] == [0x41]
    ensures !Shape(cls, first) && (|first| == 1 ==> !StartsWord(cls, first))
  {
    assert cls.word([0x41]) && !cls.digit([0x41]);
  }

  lemma SampleShape(cls: Classes, text: Text)
    requires GoodClasses(cls) && |text| == 65 && forall i :: 0 <= i < 65 ==> text[i] == SampleByte(i)
    ensures WellFormed(text) && FalseStart(cls, text, 1) && !MatchAt(cls, text, 0)
  {
    var rest, first := text[1..], text[..1];
    assert text[0..] == text && IsBoundary(text, 1) && SampleByte(0) == 0x41;
    hide Chars, WellFormed, IsBoundary, Shape, EndsWord, StartsWord;
    SampleChars(text);
    SampleDigits(cls, Chars(rest));
    LetterFirst(cls, Chars(text));
    LetterFirst(cls, Chars(first));
  }

  lemma SampleChars(text: Text)
    requires |text| == 65 && forall i :: 0 <= i < 65 ==> text[i] == SampleByte(i)
    ensures WellFormed(text) && |Chars(text)| == 65 && Chars(text)[0] == [text[0]] && Chars(text[..1]) == [[text[0]]]
    ensures |Chars(text[1..])| == 64 && forall i :: 0 <= i < 64 ==> Chars(text[1..])[i] == [SampleByte(i + 1)]
  {
    hide Chars, WellFormed;
    AsciiChars(text);
    AsciiChars(text[1..]);
    AsciiChars(text[..1]);
  }

  lemma SampleEndsFalsely(cls: Classes)
    requires GoodClasses(cls)
    ensures WellFormed(SAMPLE) && |SAMPLE| == 65 && FalseEnd(cls, SAMPLE, 65)
  {
    SampleShape(cls, SAMPLE);
    assert |SAMPLE| == 65 && HOLDBACK == 64;
    hide *;
    SampleAligned(cls, SAMPLE);
    SnapAligned(SAMPLE, 1);
    FalseEndIs(cls, SAMPLE, 65);
    NotInsideAtOne(cls, SAMPLE);
  }

  lemma NotInsideAtOne(cls: Classes, text: Text)
    requires !MatchAt(cls, text, 0)
    ensures !InsideMatch(cls, text, 1)
  {
    hide MatchAt, ShapeEnd;
  }

  lemma SampleAligned(cls: Classes, text: Text)
    requires FalseStart(cls, text, 1)
    ensures 1 <= |text| && IsBoundary(text, 1)
  {
  }

  /** Streaming `A123-45-6789` followed by 53 spaces as one delta and a flush masks what
      at-rest redaction leaves alone. */
  lemma StreamingCanMaskMore(cls: Classes, action: Action)
    requires GoodClasses(cls)
    ensures AllWellFormed([SAMPLE]) && Concat([SAMPLE]) == SAMPLE && !StreamsAsStored(cls, action, [SAMPLE])
  {
    hide *;
    SampleEndsFalsely(cls);
    OneDelta(SAMPLE);
    StreamedIsStoredIff(cls, action, [SAMPLE]);
    if NoFalseEnd(cls, SAMPLE, Ends(0, [SAMPLE])) {
      NoFalseEndAt(cls, SAMPLE, Ends(0, [SAMPLE]), |SAMPLE|);
    }
  }
}
