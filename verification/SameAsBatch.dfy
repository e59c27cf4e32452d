/** When streaming emits exactly what redacting the whole text at once would. */
module SameAsBatch {
  import opened Utf8
  import opened Sequences
  import opened Findings
  import opened Splicing
  import opened SpliceLaws
  import opened Clustering
  import opened Detection
  import opened Scanning
  import opened AtRest
  import opened Releasing
  import opened Streaming
  import opened NoLeak

  ghost predicate ExactAt(d: Detector, text: Text, c: nat, n: nat, s: Span) {
    c <= n <= |text| && IsBoundary(text, n) && (s.start + HOLDBACK + 1 <= n - c || n == |text|) ==>
      (s in d.find(text[c..n]) <==> Span(s.start + c, s.end + c) in d.find(text))
  }

  /** Starting the text at `c` changes no match, as far as it starts more than 64 bytes before
      the end of what has arrived: none is lost and none appears. */
  ghost predicate ExactFrom(d: Detector, text: Text, c: nat) {
    forall n: nat, s: Span :: ExactAt(d, text, c, n, s)
  }

  ghost predicate Clean(cfg: Config, text: Text, c: nat) {
    forall d :: Uses(cfg, d) ==> ExactFrom(d, text, c)
  }

  function Later(c: nat): Hit -> Hit {
    (h: Hit) => Hit(Move(h.f, c), h.action)
  }

  lemma LaterRespects(c: nat)
    ensures Respects(Later(c))
  {
    forall x, y ensures RespectsAt(Later(c), x, y) {
    }
  }

  // ---- The matches of a slice and of the text, between two cuts

  lemma {:induction false} TagAllAt(tag: Text, spans: seq<Span>, action: Action, i: nat)
    requires i < |spans|
    ensures |TagAll(tag, spans, action)| == |spans|
    ensures TagAll(tag, spans, action)[i] == Hit(Finding(tag, spans[i].start, spans[i].end), action)
  {
    var n := |spans| - 1;
    if n > 0 {
      TagAllAt(tag, spans[..n], action, if i < n then i else 0);
    }
  }

  lemma TagAllSeparated(tag: Text, spans: seq<Span>, action: Action)
    requires Successive(spans) && forall s :: s in spans ==> s.start < s.end
    ensures Separated(TagAll(tag, spans, action))
  {
    var m := TagAll(tag, spans, action);
    if spans != [] {
      TagAllAt(tag, spans, action, 0);
    }
    forall h | h in m ensures h.f.start < h.f.end {
      TagAllMembers(tag, spans, action, h);
    }
    forall i, j | 0 <= i < j < |m| ensures m[i].f.end <= m[j].f.start {
      TagAllAt(tag, spans, action, i);
      TagAllAt(tag, spans, action, j);
    }
  }

  lemma MapSeparated(c: nat, m: seq<Hit>)
    requires Separated(m)
    ensures Separated(Map(Later(c), m))
  {
    var r := Map(Later(c), m);
    forall h | h in r ensures h.f.start < h.f.end {
      var i :| 0 <= i < |r| && r[i] == h;
      assert m[i] in m;
    }
  }

  lemma MapMembers(c: nat, m: seq<Hit>, h: Hit)
    ensures h in Map(Later(c), m) <==> exists g :: g in m && Later(c)(g) == h
  {
    if h in Map(Later(c), m) {
      var i :| 0 <= i < |m| && Map(Later(c), m)[i] == h;
      assert m[i] in m && Later(c)(m[i]) == h;
    }
    if g :| g in m && Later(c)(g) == h {
      var i :| 0 <= i < |m| && m[i] == g;
      assert Map(Later(c), m)[i] == h;
    }
  }

  /** The hits of the slice from `c` that end by `c2` are the hits of the text between
      `c` and `c2`, in the same order. */
  ghost predicate SameWindow(slice: seq<Hit>, whole: seq<Hit>, c: nat, c2: nat) {
    c <= c2 && Map(Later(c), Window(slice, 0, c2 - c)) == Window(whole, c, c2)
  }

  lemma SameWindowConcat(s1: seq<Hit>, w1: seq<Hit>, s2: seq<Hit>, w2: seq<Hit>, c: nat, c2: nat)
    requires SameWindow(s1, w1, c, c2) && SameWindow(s2, w2, c, c2)
    ensures SameWindow(s1 + s2, w1 + w2, c, c2)
  {
    FilterConcat(Inside(0, c2 - c), s1, s2);
    FilterConcat(Inside(c, c2), w1, w2);
    MapConcat(Later(c), Window(s1, 0, c2 - c), Window(s2, 0, c2 - c));
  }

  /** Where the slice ends far enough behind `c2`, or where the text ends. */
  predicate Seen(text: Text, c: nat, n: nat, c2: nat) {
    && c <= c2 <= n <= |text| && IsBoundary(text, c) && IsBoundary(text, n)
    && (c2 + HOLDBACK <= n || n == |text|)
  }

  lemma DetectorWindow(d: Detector, text: Text, c: nat, n: nat, c2: nat, tag: Text, action: Action)
    requires WellFormed(text) && FindIter(d) && ExactFrom(d, text, c) && Seen(text, c, n, c2)
    ensures SameWindow(TagAll(tag, d.find(text[c..n]), action), TagAll(tag, d.find(text), action), c, c2)
  {
    var slice := text[c..n];
    WellFormedSlice(text, c, n);
    var a, b := TagAll(tag, d.find(slice), action), TagAll(tag, d.find(text), action);
    TagAllSeparated(tag, d.find(slice), action);
    TagAllSeparated(tag, d.find(text), action);
    FilterSeparated(Inside(0, c2 - c), a);
    FilterSeparated(Inside(c, c2), b);
    MapSeparated(c, Window(a, 0, c2 - c));
    forall h ensures h in Map(Later(c), Window(a, 0, c2 - c)) <==> h in Window(b, c, c2) {
      MapMembers(c, Window(a, 0, c2 - c), h);
      if g :| g in Window(a, 0, c2 - c) && Later(c)(g) == h {
        HitForward(d, text, c, n, c2, tag, action, g);
      }
      if h in Window(b, c, c2) {
        var g := HitBack(d, text, c, n, c2, tag, action, h);
      }
    }
    SeparatedExtensional(Map(Later(c), Window(a, 0, c2 - c)), Window(b, c, c2));
  }

  lemma FoundSpan(d: Detector, text: Text, s: Span)
    requires FindIter(d) && WellFormed(text) && s in d.find(text)
    ensures s.start < s.end <= |text|
  {
    assert GoodSpan(text, s);
  }

  lemma HitForward(d: Detector, text: Text, c: nat, n: nat, c2: nat, tag: Text, action: Action, g: Hit)
    requires WellFormed(text) && FindIter(d) && ExactFrom(d, text, c) && Seen(text, c, n, c2)
    requires g in Window(TagAll(tag, d.find(text[c..n]), action), 0, c2 - c)
    ensures Later(c)(g) in Window(TagAll(tag, d.find(text), action), c, c2)
  {
    hide FindIter, WellFormed, TagAll;
    var h, s := Later(c)(g), Span(g.f.start, g.f.end);
    WellFormedSlice(text, c, n);
    TagAllMembers(tag, d.find(text[c..n]), action, g);
    TagAllMembers(tag, d.find(text), action, h);
    FoundSpan(d, text[c..n], s);
    assert ExactAt(d, text, c, n, s);
  }

  lemma HitBack(d: Detector, text: Text, c: nat, n: nat, c2: nat, tag: Text, action: Action, h: Hit) returns (g: Hit)
    requires WellFormed(text) && FindIter(d) && ExactFrom(d, text, c) && Seen(text, c, n, c2)
    requires h in Window(TagAll(tag, d.find(text), action), c, c2)
    ensures g in Window(TagAll(tag, d.find(text[c..n]), action), 0, c2 - c) && Later(c)(g) == h
  {
    hide FindIter, WellFormed, TagAll;
    TagAllMembers(tag, d.find(text), action, h);
    FoundSpan(d, text, Span(h.f.start, h.f.end));
    var s := Span(h.f.start - c, h.f.end - c);
    g := Hit(Finding(tag, s.start, s.end), action);
    TagAllMembers(tag, d.find(text[c..n]), action, g);
    assert ExactAt(d, text, c, n, s);
  }

  lemma PatternWindow(cfg: Config, text: Text, c: nat, n: nat, c2: nat, pattern: string, action: Action)
    requires Scannable(cfg.ds, text) && Seen(text, c, n, c2)
    requires forall d :: Answers(cfg.ds, pattern, d) ==> ExactFrom(d, text, c)
    ensures SameWindow(PatternHits(cfg.ds, text[c..n], pattern, action), PatternHits(cfg.ds, text, pattern, action), c, c2)
  {
    if Lookup(cfg.ds, pattern).Some? {
      var d := Lookup(cfg.ds, pattern).value;
      LookupIs(cfg.ds, pattern, d);
      assert d in cfg.ds;
      DetectorWindow(d, text, c, n, c2, d.tag, action);
    }
  }

  lemma {:induction false} PatternsWindow(cfg: Config, text: Text, c: nat, n: nat, c2: nat,
                                          patterns: seq<string>, action: Action)
    requires Scannable(cfg.ds, text) && Seen(text, c, n, c2)
    requires forall pattern, d :: pattern in patterns && Answers(cfg.ds, pattern, d) ==> ExactFrom(d, text, c)
    ensures SameWindow(PatternsHits(cfg.ds, text[c..n], patterns, action), PatternsHits(cfg.ds, text, patterns, action), c, c2)
  {
    if patterns != [] {
      var i := |patterns| - 1;
      var slice := text[c..n];
      PatternsWindow(cfg, text, c, n, c2, patterns[..i], action);
      PatternWindow(cfg, text, c, n, c2, patterns[i], action);
      SameWindowConcat(PatternsHits(cfg.ds, slice, patterns[..i], action), PatternsHits(cfg.ds, text, patterns[..i], action),
                       PatternHits(cfg.ds, slice, patterns[i], action), PatternHits(cfg.ds, text, patterns[i], action), c, c2);
    }
  }

  lemma PolicyWindow(cfg: Config, text: Text, c: nat, n: nat, c2: nat, p: Policy)
    requires Scannable(cfg.ds, text) && Seen(text, c, n, c2) && Clean(cfg, text, c) && p in cfg.policies
    ensures SameWindow(PolicyHits(cfg.ds, text[c..n], p), PolicyHits(cfg.ds, text, p), c, c2)
  {
    if p.enabled {
      hide ExactFrom;
      forall pattern, d | pattern in p.patterns && Answers(cfg.ds, pattern, d) ensures ExactFrom(d, text, c) {
        assert Asks(cfg, p, pattern, d);
        assert Uses(cfg, d);
      }
      PatternsWindow(cfg, text, c, n, c2, p.patterns, p.action);
    }
  }

  lemma {:induction false} AllHitsWindow(cfg: Config, text: Text, c: nat, n: nat, c2: nat, policies: seq<Policy>)
    requires Scannable(cfg.ds, text) && Seen(text, c, n, c2) && Clean(cfg, text, c)
    requires forall p :: p in policies ==> p in cfg.policies
    ensures SameWindow(AllHits(cfg.ds, text[c..n], policies), AllHits(cfg.ds, text, policies), c, c2)
  {
    if policies != [] {
      var i := |policies| - 1;
      var p, slice := policies[i], text[c..n];
      AllHitsWindow(cfg, text, c, n, c2, policies[..i]);
      PolicyWindow(cfg, text, c, n, c2, p);
      SameWindowConcat(AllHits(cfg.ds, slice, policies[..i]), AllHits(cfg.ds, text, policies[..i]),
                       PolicyHits(cfg.ds, slice, p), PolicyHits(cfg.ds, text, p), c, c2);
    }
  }

  lemma HitsWindow(cfg: Config, text: Text, c: nat, n: nat, c2: nat)
    requires Scannable(cfg.ds, text) && Seen(text, c, n, c2) && Clean(cfg, text, c)
    ensures SameWindow(Hits(cfg, text[c..n]), Hits(cfg, text), c, c2)
  {
    AllHitsWindow(cfg, text, c, n, c2, cfg.policies);
  }

  // ---- One release

  /** A match of the text that starts far enough before `n` is a match of the slice. */
  lemma HitInSlice(cfg: Config, text: Text, c: nat, n: nat, h: Hit) returns (g: Hit)
    requires Scannable(cfg.ds, text) && Clean(cfg, text, c)
    requires c <= n <= |text| && IsBoundary(text, c) && IsBoundary(text, n)
    requires h in Hits(cfg, text) && c <= h.f.start && (h.f.start + HOLDBACK + 1 <= n || n == |text|)
    ensures g in Hits(cfg, text[c..n]) && g.f.start + c == h.f.start && g.f.end + c == h.f.end
  {
    HitsProper(cfg.ds, text, cfg.policies);
    hide Scannable, Asks, Uses, Hits;
    var p, pattern, d := HitSource(cfg, text, h);
    var s := Span(h.f.start - c, h.f.end - c);
    assert ExactAt(d, text, c, n, s);
    HitFrom(cfg, text[c..n], p, pattern, d, s);
    g := Hit(Finding(d.tag, s.start, s.end), p.action);
  }

  lemma CutUncrossed(cfg: Config, buffer: Text, flush: bool)
    requires Scannable(cfg.ds, buffer)
    ensures Nonempty(Hits(cfg, buffer)) && !CrossedBy(Hits(cfg, buffer), CutOf(cfg, buffer, flush))
  {
    var hits, k := Hits(cfg, buffer), CutOf(cfg, buffer, flush);
    FoundGood(cfg, buffer);
    CutSafe(buffer, Found(cfg, buffer), flush);
    ClustersAreClustering(hits);
    InteriorIffCrossed(hits, Clusters(hits), k);
    forall c | c in Clusters(hits) ensures !Crosses(c, k) {
      ToFindings(Clusters(hits), c);
      assert !Straddles(c.f, k);
    }
  }

  /** A cut that no match of the buffer crosses is crossed by no match of the text. */
  lemma CutUncrossedInText(cfg: Config, text: Text, at: nat, n: nat, flush: bool)
    requires Scannable(cfg.ds, text) && Clean(cfg, text, at) && !CrossedBy(Hits(cfg, text), at)
    requires at <= n <= |text| && IsBoundary(text, at) && IsBoundary(text, n) && (flush ==> n == |text|)
    ensures !CrossedBy(Hits(cfg, text), at + CutOf(cfg, text[at..n], flush))
  {
    var buffer := text[at..n];
    var k := CutOf(cfg, buffer, flush);
    WellFormedSlice(text, at, n);
    CutUncrossed(cfg, buffer, flush);
    if k > 0 && CrossedBy(Hits(cfg, text), at + k) {
      HoldsBack(cfg, buffer);
      var h :| h in Hits(cfg, text) && Crosses(h, at + k);
      assert !Crosses(h, at);
      var g := HitInSlice(cfg, text, at, n, h);
      assert Crosses(g, k);
    }
  }

  lemma FindingsConcat(a: seq<Hit>, b: seq<Hit>)
    ensures FindingsOf(a + b) == FindingsOf(a) + FindingsOf(b)
  {
  }

  lemma FindingsMoved(m: seq<Hit>, c: nat)
    ensures MoveAll(FindingsOf(m), c) == FindingsOf(Map(Later(c), m))
  {
  }

  /** The findings a release settles are the clusters of the hits before its cut. */
  lemma SettledAreClusters(hits: seq<Hit>, k: nat)
    requires Nonempty(hits) && !CrossedBy(hits, k)
    ensures Settled(FindingsOf(Clusters(hits)), k) == FindingsOf(Clusters(Window(hits, 0, k)))
  {
    var low, high := Filter(EndingBy(k), hits), Filter(StartingFrom(k), hits);
    ClustersSplit(hits, k);
    ClusterBounds(low, 0, k);
    ClustersAfter(high, k);
    FindingsConcat(Clusters(low), Clusters(high));
    FilterSame(EndingBy(k), Inside(0, k), hits);
    hide *;
    SettledConcat(Clusters(low), Clusters(high), k);
  }

  lemma SettledConcat(a: seq<Hit>, b: seq<Hit>, k: nat)
    requires (forall c :: c in a ==> c.f.end <= k) && (forall c :: c in b ==> k < c.f.end)
    ensures Settled(FindingsOf(a) + FindingsOf(b), k) == FindingsOf(a)
  {
    var fa, fb := FindingsOf(a), FindingsOf(b);
    forall f | f in fa ensures EndsWithin(k)(f) {
      var c := FromFindings(a, f);
    }
    forall f | f in fb ensures !EndsWithin(k)(f) {
      var c := FromFindings(b, f);
    }
    FilterConcat(EndsWithin(k), fa, fb);
    FilterAll(EndsWithin(k), fa);
    FilterNone(EndsWithin(k), fb);
  }

  lemma EmptyWindow(hits: seq<Hit>, c: nat)
    requires Nonempty(hits)
    ensures Window(hits, c, c) == []
  {
    FilterNone(Inside(c, c), hits);
  }

  /** What one release masks is what the text as a whole has between its two cuts. */
  lemma ReleaseMasksAre(cfg: Config, text: Text, at: nat, n: nat, flush: bool)
    requires Scannable(cfg.ds, text) && Clean(cfg, text, at)
    requires at <= n <= |text| && IsBoundary(text, at) && IsBoundary(text, n) && (flush ==> n == |text|)
    ensures var cut := at + CutOf(cfg, text[at..n], flush);
            MoveAll(MasksOf(cfg, text[at..n], flush), at) == FindingsOf(Clusters(Window(Hits(cfg, text), at, cut)))
  {
    hide *;
    var buffer := text[at..n];
    var k, hits := CutOf(cfg, buffer, flush), Hits(cfg, buffer);
    ScannableSlice(cfg, text, at, n);
    CutUncrossed(cfg, buffer, flush);
    CutOfFound(cfg, buffer, flush);
    SettledAreClusters(hits, k);
    LaterRespects(at);
    ClustersMapped(Later(at), Window(hits, 0, k));
    FindingsMoved(Clusters(Window(hits, 0, k)), at);
    SliceWindow(cfg, text, at, n, flush);
  }

  lemma SliceWindow(cfg: Config, text: Text, at: nat, n: nat, flush: bool)
    requires Scannable(cfg.ds, text) && Clean(cfg, text, at)
    requires at <= n <= |text| && IsBoundary(text, at) && IsBoundary(text, n) && (flush ==> n == |text|)
    ensures var k := CutOf(cfg, text[at..n], flush);
            Map(Later(at), Window(Hits(cfg, text[at..n]), 0, k)) == Window(Hits(cfg, text), at, at + k)
  {
    hide CutPoint, Found, AllHits, Clean, Registry, WellFormed, IsBoundary, Window;
    var buffer := text[at..n];
    ScannableSlice(cfg, text, at, n);
    HoldsBack(cfg, buffer);
    if !flush && CutOf(cfg, buffer, flush) == 0 {
      hide Scannable;
      HitsNonempty(cfg, text);
      HitsNonempty(cfg, buffer);
      EmptyWindow(Hits(cfg, buffer), 0);
      EmptyWindow(Hits(cfg, text), at);
    } else {
      HitsWindow(cfg, text, at, n, at + CutOf(cfg, buffer, flush));
    }
  }

  lemma HitsNonempty(cfg: Config, text: Text)
    requires Scannable(cfg.ds, text)
    ensures Nonempty(Hits(cfg, text))
  {
    HitsProper(cfg.ds, text, cfg.policies);
  }

  lemma SuffixSplit(hits: seq<Hit>, at: nat, cut: nat)
    requires Nonempty(hits) && at <= cut && !CrossedBy(hits, cut)
    ensures Clusters(Filter(StartingFrom(at), hits))
         == Clusters(Window(hits, at, cut)) + Clusters(Filter(StartingFrom(cut), hits))
  {
    var suffix := Filter(StartingFrom(at), hits);
    FilterUncrossed(StartingFrom(at), hits, cut);
    ClustersSplit(suffix, cut);
    FilterTwice(EndingBy(cut), StartingFrom(at), Inside(at, cut), hits);
    FilterTwice(StartingFrom(cut), StartingFrom(at), StartingFrom(cut), hits);
  }

  lemma LastWindow(cfg: Config, text: Text, at: nat)
    requires Scannable(cfg.ds, text)
    ensures Window(Hits(cfg, text), at, |text|) == Filter(StartingFrom(at), Hits(cfg, text))
  {
    HitsProper(cfg.ds, text, cfg.policies);
    FilterSame(Inside(at, |text|), StartingFrom(at), Hits(cfg, text));
  }

  ghost predicate AllClean(cfg: Config, text: Text, cuts: seq<nat>) {
    forall k :: k in cuts ==> Clean(cfg, text, k)
  }

  lemma AllCleanCons(cfg: Config, text: Text, cut: nat, later: seq<nat>)
    requires AllClean(cfg, text, [cut] + later)
    ensures Clean(cfg, text, cut) && AllClean(cfg, text, later)
  {
    assert cut in [cut] + later;
    forall k | k in later ensures Clean(cfg, text, k) {
      assert k in [cut] + later;
    }
  }

  lemma {:induction false} MasksAreClusters(cfg: Config, text: Text, pending: Text, at: nat, deltas: seq<Text>)
    requires Runnable(cfg, pending, deltas) && Ahead(text, at, pending, deltas) && Scannable(cfg.ds, text)
    requires Clean(cfg, text, at) && AllClean(cfg, text, StreamCuts(cfg, pending, at, deltas))
    requires !CrossedBy(Hits(cfg, text), at)
    ensures StreamMasks(cfg, pending, at, deltas) == FindingsOf(Clusters(Filter(StartingFrom(at), Hits(cfg, text))))
    decreases |deltas|
  {
    hide *;
    RunParts(cfg, pending, deltas);
    AheadParts(text, at, pending, deltas);
    if deltas == [] {
      NothingAhead(pending, deltas);
      LastRelease(cfg, pending, at, deltas);
      FlushTakesAll(cfg, pending);
      EndIsBoundary(text);
      assert pending == text[at..|text|];
      ReleaseMasksAre(cfg, text, at, |text|, true);
      LastWindow(cfg, text, at);
    } else {
      AheadStep(cfg, text, at, pending, deltas);
      NextRelease(cfg, pending, at, deltas);
      var buffer := pending + deltas[0];
      var n, cut := at + |buffer|, at + CutOf(cfg, buffer, false);
      var rest := ReleaseOf(cfg, buffer, false).rest;
      AllCleanCons(cfg, text, cut, StreamCuts(cfg, rest, cut, deltas[1..]));
      CutUncrossedInText(cfg, text, at, n, false);
      ReleaseMasksAre(cfg, text, at, n, false);
      MasksAreClusters(cfg, text, rest, cut, deltas[1..]);
      CutUncrossed(cfg, text, false);
      SuffixSplit(Hits(cfg, text), at, cut);
      FindingsConcat(Clusters(Window(Hits(cfg, text), at, cut)), Clusters(Filter(StartingFrom(cut), Hits(cfg, text))));
    }
  }

  /** When no cut changes what the detectors see after it, streaming masks exactly the
      findings of the whole text and emits exactly what at-rest redaction of it stores. */
  lemma StreamingIsAtRest(cfg: Config, deltas: seq<Text>)
    requires Runnable(cfg, [], deltas)
    requires Clean(cfg, Concat(deltas), 0) && AllClean(cfg, Concat(deltas), StreamCuts(cfg, [], 0, deltas))
    ensures var text := Concat(deltas);
            && Nonempty(Hits(cfg, text))
            && StreamMasks(cfg, [], 0, deltas) == Found(cfg, text)
            && Stream(cfg, [], deltas) == MaskAll(text, Hits(cfg, text))
  {
    var text := Concat(deltas);
    Start(deltas);
    ConcatWellFormed(deltas);
    HitsProper(cfg.ds, text, cfg.policies);
    assert !CrossedBy(Hits(cfg, text), 0);
    MasksAreClusters(cfg, text, [], 0, deltas);
    FilterAll(StartingFrom(0), Hits(cfg, text));
    StreamIsSplice(cfg, text, 0, [], deltas);
    FoundGood(cfg, text);
    ReachableAll(Found(cfg, text), |text|);
  }

  // ---- Every split

  lemma {:induction false} CutsAligned(cfg: Config, text: Text, pending: Text, at: nat, deltas: seq<Text>)
    requires Runnable(cfg, pending, deltas) && Ahead(text, at, pending, deltas)
    ensures forall k :: k in StreamCuts(cfg, pending, at, deltas) ==> k <= |text| && IsBoundary(text, k)
    decreases |deltas|
  {
    hide *;
    if deltas == [] {
      LastRelease(cfg, pending, at, deltas);
    } else {
      AheadStep(cfg, text, at, pending, deltas);
      NextRelease(cfg, pending, at, deltas);
      var buffer := pending + deltas[0];
      var cut, rest := at + CutOf(cfg, buffer, false), ReleaseOf(cfg, buffer, false).rest;
      AheadParts(text, cut, rest, deltas[1..]);
      CutsAligned(cfg, text, rest, cut, deltas[1..]);
    }
  }

  /** Wherever a release may cut the text, the detectors see the same matches after it. */
  ghost predicate CleanEverywhere(cfg: Config, text: Text) {
    forall k: nat :: k <= |text| && IsBoundary(text, k) ==> Clean(cfg, text, k)
  }

  /** Then streaming emits what at-rest redaction stores, */
  lemma EverySplitIsAtRest(cfg: Config, deltas: seq<Text>)
    requires Runnable(cfg, [], deltas) && CleanEverywhere(cfg, Concat(deltas))
    ensures Nonempty(Hits(cfg, Concat(deltas)))
    ensures Stream(cfg, [], deltas) == MaskAll(Concat(deltas), Hits(cfg, Concat(deltas)))
  {
    Start(deltas);
    CutsAligned(cfg, Concat(deltas), [], 0, deltas);
    hide Clean;
    StreamingIsAtRest(cfg, deltas);
  }

  /** and how the text is split into deltas cannot be seen in what is emitted. */
  lemma SplitDoesNotMatter(cfg: Config, deltas: seq<Text>, others: seq<Text>)
    requires Runnable(cfg, [], deltas) && Runnable(cfg, [], others) && Concat(deltas) == Concat(others)
    requires CleanEverywhere(cfg, Concat(deltas))
    ensures Stream(cfg, [], deltas) == Stream(cfg, [], others)
  {
    EverySplitIsAtRest(cfg, deltas);
    EverySplitIsAtRest(cfg, others);
  }
}
