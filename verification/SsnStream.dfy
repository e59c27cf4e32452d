/** The Social Security Number policy on its own: what a cut in front of a false start
    changes, and that nothing else does. */
module SsnStreaming {
  import opened Utf8
  import opened Characters
  import opened Findings
  import opened Splicing
  import opened SpliceLaws
  import opened Detection
  import opened Scanning
  import opened AtRest
  import opened Releasing
  import opened Streaming
  import opened NoLeak
  import opened SameAsBatch
  import opened OnePolicy
  import opened Patterns
  import opened Ssn

  function SsnOnly(cls: Classes, action: Action): Config {
    Only(SsnDetector(cls), action)
  }

  // ---- Its findings

  /** `f` has the form of a Social Security Number in the text. */
  predicate IsSsn(cls: Classes, text: Text, f: Finding) {
    && f.tag == TAG && f.start <= |text| && IsBoundary(text, f.start)
    && Shape(cls, Chars(text[f.start..])) && f.end == ShapeEnd(text, f.start)
  }

  ghost predicate AllSsn(cls: Classes, text: Text, fs: seq<Finding>) {
    forall f :: f in fs ==> IsSsn(cls, text, f)
  }

  lemma SsnTag(cls: Classes)
    ensures SsnDetector(cls).tag == TAG && Registry([SsnDetector(cls)])
  {
    SsnIsDetector(cls);
  }

  lemma SsnFound(cls: Classes, text: Text, action: Action, f: Finding)
    requires WellFormed(text) && GoodClasses(cls)
    ensures f in Found(SsnOnly(cls, action), text)
       <==> f.tag == TAG && MatchAt(cls, text, f.start) && f.end == ShapeEnd(text, f.start)
  {
    hide *;
    SsnTag(cls);
    SsnConfig(cls, action);
    OnlyFound(SsnDetector(cls), action, text, f);
    FindExact(cls, text, Span(f.start, f.end));
  }

  lemma SsnConfig(cls: Classes, action: Action)
    ensures SsnOnly(cls, action) == Only(SsnDetector(cls), action)
  {
  }

  lemma SsnScannable(cls: Classes, text: Text, action: Action)
    requires WellFormed(text)
    ensures Scannable(SsnOnly(cls, action).ds, text)
  {
    SsnIsDetector(cls);
  }

  /** The form does not depend on where the text ends behind it. */
  lemma ShapeInText(cls: Classes, text: Text, i: nat, n: nat)
    requires WellFormed(text) && i <= n <= |text| && IsBoundary(text, i) && IsBoundary(text, n)
    requires Shape(cls, Chars(text[i..n]))
    ensures Shape(cls, Chars(text[i..])) && SIZE <= |Chars(text[i..n])| && SIZE <= |Chars(text[i..])|
    ensures Width(text[i..n], SIZE) == Width(text[i..], SIZE)
  {
    hide *;
    StartIsBoundary(text);
    SliceChars(text, 0, i, n);
    ShapeNeedsAll(cls, Chars(text[i..n]));
    ShapeOfPrefix(cls, Chars(text[i..n]), Chars(text[n..]));
    SliceParts(text, 0, i, n);
    WellFormedSlice(text, i, n);
    WellFormedSplit(text, i);
    WidthIs(text[i..n], SIZE);
    WidthIs(text[i..], SIZE);
  }

  lemma IsSsnFrom(cls: Classes, text: Text, f: Finding)
    requires f.tag == TAG && f.start <= |text| && IsBoundary(text, f.start) && Shape(cls, Chars(text[f.start..]))
    requires SIZE <= |Chars(text[f.start..])| && f.end == f.start + Width(text[f.start..], SIZE)
    ensures IsSsn(cls, text, f)
  {
  }

  lemma MatchParts(cls: Classes, text: Text, i: nat)
    requires MatchAt(cls, text, i)
    ensures i <= |text| && IsBoundary(text, i) && ShapeAt(cls, text, i)
  {
  }

  /** A finding of a slice has the form in the whole text too. */
  lemma FoundInSlice(cls: Classes, text: Text, action: Action, c: nat, n: nat, f: Finding)
    requires WellFormed(text) && GoodClasses(cls) && c <= n <= |text| && IsBoundary(text, c) && IsBoundary(text, n)
    requires f in Found(SsnOnly(cls, action), text[c..n])
    ensures IsSsn(cls, text, Move(f, c))
  {
    hide *;
    WellFormedSlice(text, c, n);
    SsnFound(cls, text[c..n], action, f);
    MatchParts(cls, text[c..n], f.start);
    SliceBoundary(text, c, n, f.start);
    var i := f.start + c;
    SliceSees(cls, text, c, i, n);
    ShapeInText(cls, text, i, n);
    MoveIs(f, c);
    IsSsnFrom(cls, text, Move(f, c));
  }

  lemma MoveIs(f: Finding, c: nat)
    ensures Move(f, c) == Finding(f.tag, f.start + c, f.end + c)
  {
  }

  lemma FoundAreSsn(cls: Classes, text: Text, action: Action)
    requires WellFormed(text) && GoodClasses(cls)
    ensures AllSsn(cls, text, Found(SsnOnly(cls, action), text))
  {
    StartIsBoundary(text);
    EndIsBoundary(text);
    assert text[0..|text|] == text;
    hide IsSsn, Found, WellFormed, GoodClasses, IsBoundary;
    forall f | f in Found(SsnOnly(cls, action), text) ensures IsSsn(cls, text, f) {
      FoundInSlice(cls, text, action, 0, |text|, f);
      MoveIs(f, 0);
    }
  }

  lemma ReleaseIsSsn(cls: Classes, text: Text, action: Action, c: nat, n: nat, flush: bool)
    requires WellFormed(text) && GoodClasses(cls) && c <= n <= |text| && IsBoundary(text, c) && IsBoundary(text, n)
    ensures AllSsn(cls, text, MoveAll(MasksOf(SsnOnly(cls, action), text[c..n], flush), c))
  {
    var cfg := SsnOnly(cls, action);
    var masks := MasksOf(cfg, text[c..n], flush);
    MoveMembers(masks, c);
    hide IsSsn, Found, WellFormed, GoodClasses, IsBoundary, MoveAll, SsnOnly, CutOf;
    forall f | f in MoveAll(masks, c) ensures IsSsn(cls, text, f) {
      var g :| g in masks && f == Move(g, c);
      FoundInSlice(cls, text, action, c, n, g);
    }
  }

  lemma ConcatAreSsn(cls: Classes, text: Text, fs: seq<Finding>, gs: seq<Finding>)
    requires AllSsn(cls, text, fs) && AllSsn(cls, text, gs)
    ensures AllSsn(cls, text, fs + gs)
  {
  }

  lemma {:induction false} MasksAreSsn(cls: Classes, action: Action, text: Text, pending: Text, at: nat, deltas: seq<Text>)
    requires GoodClasses(cls) && Runnable(SsnOnly(cls, action), pending, deltas) && Ahead(text, at, pending, deltas)
    ensures AllSsn(cls, text, StreamMasks(SsnOnly(cls, action), pending, at, deltas))
    decreases |deltas|
  {
    hide *;
    var cfg := SsnOnly(cls, action);
    AheadParts(text, at, pending, deltas);
    if deltas == [] {
      LastRelease(cfg, pending, at, deltas);
      NothingAhead(pending, deltas);
      EndIsBoundary(text);
      assert pending == text[at..|text|];
      ReleaseIsSsn(cls, text, action, at, |text|, true);
    } else {
      AheadStep(cfg, text, at, pending, deltas);
      NextRelease(cfg, pending, at, deltas);
      var buffer := pending + deltas[0];
      var cut, rest := at + CutOf(cfg, buffer, false), ReleaseOf(cfg, buffer, false).rest;
      ReleaseIsSsn(cls, text, action, at, at + |buffer|, false);
      MasksAreSsn(cls, action, text, rest, cut, deltas[1..]);
      ConcatAreSsn(cls, text, MoveAll(MasksOf(cfg, buffer, false), at), StreamMasks(cfg, rest, cut, deltas[1..]));
    }
  }

  lemma SsnParts(cls: Classes, text: Text, f: Finding)
    requires WellFormed(text) && IsSsn(cls, text, f)
    ensures f.start + SIZE <= f.end <= |text| && IsBoundary(text, f.start) && IsBoundary(text, f.end)
    ensures Shape(cls, Chars(text[f.start..])) && SIZE <= |Chars(text[f.start..])|
    ensures Chars(text[f.start..f.end]) == Chars(text[f.start..])[..SIZE]
  {
    hide Chars, WellFormed, Width, IsBoundary, Shape;
    ShapeNeedsAll(cls, Chars(text[f.start..]));
    After(text, f.start, SIZE);
  }

  /** One of these spans around another is that other. */
  lemma SameSsn(cls: Classes, text: Text, outer: Finding, inner: Finding)
    requires WellFormed(text) && IsSsn(cls, text, outer) && IsSsn(cls, text, inner)
    requires outer.start <= inner.start && inner.end <= outer.end
    ensures outer == inner
  {
    hide *;
    SsnParts(cls, text, outer);
    SsnParts(cls, text, inner);
    Squeezed(text, outer.start, inner.start, inner.end, outer.end);
    SameTag(cls, text, outer, inner);
  }

  lemma Squeezed(text: Text, a: nat, b: nat, c: nat, d: nat)
    requires WellFormed(text) && a <= b <= c <= d <= |text|
    requires IsBoundary(text, a) && IsBoundary(text, b) && IsBoundary(text, c) && IsBoundary(text, d)
    requires |Chars(text[a..d])| == |Chars(text[b..c])|
    ensures a == b && c == d
  {
    hide *;
    WellFormedSlice(text, a, b);
    WellFormedSlice(text, b, c);
    WellFormedSlice(text, c, d);
    WellFormedSlice(text, b, d);
    CharsJoin(text, a, b, d);
    CharsJoin(text, b, c, d);
    CharsGiveText(text[a..b]);
    CharsGiveText(text[c..d]);
  }

  lemma SameTag(cls: Classes, text: Text, a: Finding, b: Finding)
    requires IsSsn(cls, text, a) && IsSsn(cls, text, b)
    ensures a.tag == b.tag
  {
  }

  // ---- Nothing in them is `[`

  lemma CharWithoutOpening(cls: Classes, text: Text)
    requires GoodClasses(cls) && CharLen(text) > 0
    requires cls.digit(text[..CharLen(text)]) || text[..CharLen(text)] == DASH
    ensures 0x5B !in text[..CharLen(text)]
  {
    var c := text[..CharLen(text)];
    if CharLen(text) == 1 {
      assert c == [text[0]];
    }
  }

  lemma {:induction false} CharsWithoutOpening(cls: Classes, text: Text)
    requires GoodClasses(cls) && WellFormed(text)
    requires forall c :: c in Chars(text) ==> cls.digit(c) || c == DASH
    ensures 0x5B !in text
    decreases |text|
  {
    if text != [] {
      var n := CharLen(text);
      FirstOfChars(text);
      assert text[..n] in Chars(text);
      hide Chars, WellFormed, CharLen, GoodClasses;
      CharWithoutOpening(cls, text);
      CharsWithoutOpening(cls, text[n..]);
      assert text == text[..n] + text[n..];
    }
  }

  lemma ShapeIsPlain(cls: Classes, after: seq<Text>)
    requires Shape(cls, after)
    ensures forall c :: c in after[..SIZE] ==> cls.digit(c) || c == DASH
  {
  }

  lemma SsnIsPlain(cls: Classes, text: Text, fs: seq<Finding>)
    requires WellFormed(text) && GoodClasses(cls) && AllSsn(cls, text, fs)
    ensures Plain(text, fs)
  {
    hide Chars, WellFormed, IsBoundary, GoodClasses, Shape, ShapeEnd;
    forall f | f in fs
      ensures 0x5B !in f.tag && forall k :: f.start <= k < f.end && k < |text| ==> text[k] != 0x5B
    {
      assert IsSsn(cls, text, f);
      SsnSpan(cls, text, f);
      var span := text[f.start..f.end];
      CharsWithoutOpening(cls, span);
      forall k | f.start <= k < f.end ensures text[k] != 0x5B {
        assert span[k - f.start] in span;
      }
    }
  }

  lemma SsnSpan(cls: Classes, text: Text, f: Finding)
    requires WellFormed(text) && IsSsn(cls, text, f)
    ensures f.start < f.end <= |text| && WellFormed(text[f.start..f.end])
    ensures forall c :: c in Chars(text[f.start..f.end]) ==> cls.digit(c) || c == DASH
  {
    assert SIZE > 0;
    hide *;
    SsnParts(cls, text, f);
    WellFormedSlice(text, f.start, f.end);
    ShapeIsPlain(cls, Chars(text[f.start..]));
  }

  // ---- Counting masked spans

  lemma {:induction false} OrderedCardinality(fs: seq<Finding>)
    requires Ordered(fs) && Solid(fs)
    ensures |set f | f in fs| == |fs|
  {
    if fs != [] {
      var rest := fs[1..];
      OrderedCardinality(rest);
      assert fs[0] in fs;
      forall i | 0 <= i < |rest| ensures rest[i] != fs[0] {
        assert fs[0].end <= fs[i + 1].start;
      }
      hide Ordered;
      assert (set f | f in fs) == {fs[0]} + (set f | f in rest);
    }
  }

  lemma MoreSpans(fs: seq<Finding>, gs: seq<Finding>, x: Finding)
    requires Ordered(fs) && Solid(fs) && Ordered(gs) && Solid(gs)
    requires (forall g :: g in gs ==> g in fs) && x in fs && x !in gs
    ensures |gs| < |fs|
  {
    OrderedCardinality(fs);
    OrderedCardinality(gs);
    var small, large := set g | g in gs, set f | f in fs;
    SmallerSet(small, large - {x});
  }

  lemma {:induction false} SmallerSet(a: set<Finding>, b: set<Finding>)
    requires a <= b
    ensures |a| <= |b|
  {
    if a != {} {
      var x :| x in a;
      SmallerSet(a - {x}, b - {x});
    }
  }

  // ---- A false start is masked

  lemma FalseStartRobust(cls: Classes, text: Text, action: Action, k: nat)
    requires WellFormed(text) && GoodClasses(cls) && FalseStart(cls, text, k)
    ensures ShapeEnd(text, k) <= k + HOLDBACK
    ensures Robust(SsnOnly(cls, action), text, k, k, ShapeEnd(text, k), ShapeEnd(text, k))
  {
    var cfg, e := SsnOnly(cls, action), ShapeEnd(text, k);
    assert SIZE == 11 && HOLDBACK == 64 && ShapeAt(cls, text, k);
    hide *;
    ShapeEndIs(cls, text, k);
    forall n: nat | e <= n <= |text| && IsBoundary(text, n) ensures Masks(Found(cfg, text[k..n]), 0, e - k) {
      FalseStartFound(cls, text, action, k, n);
    }
    RobustFrom(cfg, text, k, e);
  }

  lemma RobustFrom(cfg: Config, text: Text, k: nat, e: nat)
    requires k < e <= |text|
    requires forall n: nat :: e <= n <= |text| && IsBoundary(text, n) ==> Masks(Found(cfg, text[k..n]), 0, e - k)
    ensures Robust(cfg, text, k, k, e, e)
  {
    hide Found, IsBoundary, Masks;
    forall c: nat, n: nat | k <= c <= k && e <= n <= |text| && IsBoundary(text, c) && IsBoundary(text, n)
      ensures Masks(Found(cfg, text[c..n]), k - c, e - c)
    {
      assert c == k;
    }
  }

  lemma FalseStartFound(cls: Classes, text: Text, action: Action, k: nat, n: nat)
    requires WellFormed(text) && GoodClasses(cls) && FalseStart(cls, text, k)
    requires n <= |text| && IsBoundary(text, n) && ShapeEnd(text, k) <= n
    ensures k <= n && Masks(Found(SsnOnly(cls, action), text[k..n]), 0, ShapeEnd(text, k) - k)
  {
    assert IsBoundary(text, k);
    FalseStartMatches(cls, text, k, n);
    var f := Finding(TAG, 0, ShapeEnd(text, k) - k);
    hide *;
    WellFormedSlice(text, k, n);
    SsnFound(cls, text[k..n], action, f);
    MasksItself(Found(SsnOnly(cls, action), text[k..n]), f);
  }

  lemma MasksItself(fs: seq<Finding>, f: Finding)
    requires f in fs
    ensures Masks(fs, f.start, f.end)
  {
  }

  lemma {:induction false} MaskedFromCut(cfg: Config, text: Text, k: nat, e: nat, pending: Text, at: nat, deltas: seq<Text>)
    requires Runnable(cfg, pending, deltas) && Ahead(text, at, pending, deltas)
    requires k in StreamCuts(cfg, pending, at, deltas) && Robust(cfg, text, k, k, e, e) && e <= k + HOLDBACK
    ensures Masks(StreamMasks(cfg, pending, at, deltas), k, e)
    decreases |deltas|
  {
    hide *;
    if deltas == [] {
      LastRelease(cfg, pending, at, deltas);
    } else {
      AheadStep(cfg, text, at, pending, deltas);
      NextRelease(cfg, pending, at, deltas);
      var buffer := pending + deltas[0];
      var cut, rest := at + CutOf(cfg, buffer, false), ReleaseOf(cfg, buffer, false).rest;
      if cut == k {
        ShortIsHeld(cfg, text, k, k, e, Ends(cut + |rest|, deltas[1..]));
        MatchMasked(cfg, text, k, k, e, e, rest, cut, deltas[1..]);
      } else {
        MaskedFromCut(cfg, text, k, e, rest, cut, deltas[1..]);
      }
      MasksRight(MoveAll(MasksOf(cfg, buffer, false), at), StreamMasks(cfg, rest, cut, deltas[1..]), k, e);
    }
  }

  // ---- Exactly when the streamed text is the stored text, by its cuts

  predicate NoFalseCut(cls: Classes, text: Text, cuts: seq<nat>) {
    forall k :: k in cuts ==> !FalseStart(cls, text, k)
  }

  lemma CleanIff(cls: Classes, text: Text, action: Action, c: nat)
    requires WellFormed(text) && GoodClasses(cls) && c <= |text| && IsBoundary(text, c)
    ensures Clean(SsnOnly(cls, action), text, c) <==> !FalseStart(cls, text, c)
  {
    OnlyUses(SsnDetector(cls), action);
    assert Uses(SsnOnly(cls, action), SsnDetector(cls));
    hide Uses, Asks, ExactFrom, FalseStart, SsnDetector;
    ExactIffNoFalseStart(cls, text, c);
  }

  lemma NoFalseStartAtZero(cls: Classes, text: Text)
    ensures !FalseStart(cls, text, 0)
  {
    assert text[..0] == [];
    CharsOfNothing();
  }

  lemma SameWhenNoFalseCut(cls: Classes, deltas: seq<Text>, action: Action)
    requires GoodClasses(cls) && Runnable(SsnOnly(cls, action), [], deltas)
    requires NoFalseCut(cls, Concat(deltas), StreamCuts(SsnOnly(cls, action), [], 0, deltas))
    ensures Nonempty(Hits(SsnOnly(cls, action), Concat(deltas)))
    ensures Stream(SsnOnly(cls, action), [], deltas) == MaskAll(Concat(deltas), Hits(SsnOnly(cls, action), Concat(deltas)))
    ensures AllClean(SsnOnly(cls, action), Concat(deltas), StreamCuts(SsnOnly(cls, action), [], 0, deltas))
    ensures Clean(SsnOnly(cls, action), Concat(deltas), 0)
  {
    var cfg, text := SsnOnly(cls, action), Concat(deltas);
    var cuts := StreamCuts(cfg, [], 0, deltas);
    RunParts(cfg, [], deltas);
    Start(deltas);
    ConcatWellFormed(deltas);
    CutsAligned(cfg, text, [], 0, deltas);
    NoFalseStartAtZero(cls, text);
    StartIsBoundary(text);
    CleanIff(cls, text, action, 0);
    hide Clean, FalseStart, WellFormed, IsBoundary, GoodClasses;
    forall k | k in cuts ensures Clean(cfg, text, k) {
      CleanIff(cls, text, action, k);
    }
    StreamingIsAtRest(cfg, deltas);
  }

  lemma SsnUsesLocal(cls: Classes, action: Action)
    requires GoodClasses(cls)
    ensures forall d :: Uses(SsnOnly(cls, action), d) ==> Local(d)
  {
    OnlyUses(SsnDetector(cls), action);
    SsnIsLocal(cls);
  }

  lemma FoundAmongMasks(cls: Classes, deltas: seq<Text>, action: Action, f: Finding)
    requires GoodClasses(cls) && Runnable(SsnOnly(cls, action), [], deltas)
    requires f in Found(SsnOnly(cls, action), Concat(deltas))
    ensures f in StreamMasks(SsnOnly(cls, action), [], 0, deltas)
  {
    hide *;
    var cfg, text := SsnOnly(cls, action), Concat(deltas);
    var masks := StreamMasks(cfg, [], 0, deltas);
    RunParts(cfg, [], deltas);
    Start(deltas);
    ConcatWellFormed(deltas);
    SsnUsesLocal(cls, action);
    NothingLeaks(cfg, deltas);
    MasksAreSsn(cls, action, text, [], 0, deltas);
    FoundAreSsn(cls, text, action);
    SsnIsDetector(cls);
    SsnConfig(cls, action);
    OnlyFound(SsnDetector(cls), action, text, f);
    SsnMask(cls, text, masks, Found(cfg, text), f);
  }

  lemma SsnMask(cls: Classes, text: Text, masks: seq<Finding>, fs: seq<Finding>, f: Finding)
    requires WellFormed(text) && AllSsn(cls, text, masks) && AllSsn(cls, text, fs) && f in fs
    requires Masks(masks, f.start, f.end)
    ensures f in masks
  {
    hide IsSsn, WellFormed;
    var m :| m in masks && m.start <= f.start && f.end <= m.end;
    SameSsn(cls, text, m, f);
  }

  /** Every finding of the whole text is masked as it is, and a false start besides. */
  lemma FalseCutMasksMore(cls: Classes, deltas: seq<Text>, action: Action, k: nat)
    requires GoodClasses(cls) && Runnable(SsnOnly(cls, action), [], deltas)
    requires k in StreamCuts(SsnOnly(cls, action), [], 0, deltas) && FalseStart(cls, Concat(deltas), k)
    ensures var found, masks := Found(SsnOnly(cls, action), Concat(deltas)), StreamMasks(SsnOnly(cls, action), [], 0, deltas);
            && (forall f :: f in found ==> f in masks)
            && Finding(TAG, k, ShapeEnd(Concat(deltas), k)) in masks
            && |found| < |masks|
  {
    hide *;
    var cfg, text := SsnOnly(cls, action), Concat(deltas);
    var masks := StreamMasks(cfg, [], 0, deltas);
    var x := Finding(TAG, k, ShapeEnd(text, k));
    RunParts(cfg, [], deltas);
    Start(deltas);
    ConcatWellFormed(deltas);
    SsnScannable(cls, text, action);
    StreamIsSplice(cfg, text, 0, [], deltas);
    FitsParts(text, masks, 0);
    MasksAreSsn(cls, action, text, [], 0, deltas);
    forall f | f in Found(cfg, text) ensures f in masks {
      FoundAmongMasks(cls, deltas, action, f);
    }
    FalseStartRobust(cls, text, action, k);
    MaskedFromCut(cfg, text, k, x.end, [], 0, deltas);
    FalseIsSsn(cls, text, x);
    SsnMask(cls, text, masks, [x], x);
    SsnFound(cls, text, action, x);
    FoundGood(cfg, text);
    SsnSolid(cls, text, masks);
    MoreSpans(masks, Found(cfg, text), x);
  }

  lemma SsnSolid(cls: Classes, text: Text, fs: seq<Finding>)
    requires WellFormed(text) && AllSsn(cls, text, fs)
    ensures Solid(fs)
  {
    hide IsSsn, WellFormed;
    forall f | f in fs ensures f.start < f.end {
      SsnParts(cls, text, f);
    }
  }

  lemma FalseIsSsn(cls: Classes, text: Text, x: Finding)
    requires FalseStart(cls, text, x.start) && x.end == ShapeEnd(text, x.start) && x.tag == TAG
    ensures AllSsn(cls, text, [x]) && !MatchAt(cls, text, x.start)
  {
  }

  lemma StreamOpenings(cls: Classes, deltas: seq<Text>, action: Action)
    requires GoodClasses(cls) && Runnable(SsnOnly(cls, action), [], deltas)
    ensures var cfg, text := SsnOnly(cls, action), Concat(deltas);
            && Nonempty(Hits(cfg, text))
            && Openings(Stream(cfg, [], deltas)) == Openings(text) + |StreamMasks(cfg, [], 0, deltas)|
            && Openings(MaskAll(text, Hits(cfg, text))) == Openings(text) + |Found(cfg, text)|
  {
    hide *;
    var cfg, text := SsnOnly(cls, action), Concat(deltas);
    var masks := StreamMasks(cfg, [], 0, deltas);
    RunParts(cfg, [], deltas);
    Start(deltas);
    ConcatWellFormed(deltas);
    SsnScannable(cls, text, action);
    StreamIsSplice(cfg, text, 0, [], deltas);
    MasksAreSsn(cls, action, text, [], 0, deltas);
    SsnIsPlain(cls, text, masks);
    SpliceOpenings(text, masks, 0);
    FoundAreSsn(cls, text, action);
    SsnIsPlain(cls, text, Found(cfg, text));
    MaskAllIsSplice(cfg, text);
    SpliceOpenings(text, Found(cfg, text), 0);
    assert text[0..] == text;
  }

  lemma MaskAllIsSplice(cfg: Config, text: Text)
    requires Scannable(cfg.ds, text)
    ensures Nonempty(Hits(cfg, text)) && Fits(text, Found(cfg, text), 0)
    ensures MaskAll(text, Hits(cfg, text)) == Splice(text, Found(cfg, text), 0)
  {
    FoundGood(cfg, text);
    ReachableAll(Found(cfg, text), |text|);
  }

  /** By its cuts: the streamed text is the stored text exactly when no release cuts in
      front of a false start. */
  lemma SameIffNoFalseCut(cls: Classes, deltas: seq<Text>, action: Action)
    requires GoodClasses(cls) && Runnable(SsnOnly(cls, action), [], deltas)
    ensures Nonempty(Hits(SsnOnly(cls, action), Concat(deltas)))
    ensures Stream(SsnOnly(cls, action), [], deltas) == MaskAll(Concat(deltas), Hits(SsnOnly(cls, action), Concat(deltas)))
       <==> NoFalseCut(cls, Concat(deltas), StreamCuts(SsnOnly(cls, action), [], 0, deltas))
  {
    var cfg, text := SsnOnly(cls, action), Concat(deltas);
    hide FalseStart, Stream, StreamCuts, StreamMasks, MaskAll, Runnable, Found, Hits, SsnOnly, GoodClasses;
    StreamOpenings(cls, deltas, action);
    if NoFalseCut(cls, text, StreamCuts(cfg, [], 0, deltas)) {
      SameWhenNoFalseCut(cls, deltas, action);
    } else {
      var k :| k in StreamCuts(cfg, [], 0, deltas) && FalseStart(cls, text, k);
      FalseCutMasksMore(cls, deltas, action, k);
    }
  }
}
