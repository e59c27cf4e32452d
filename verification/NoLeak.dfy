/** No match is emitted in the clear, however the text is split into deltas. */
module NoLeak {
  import opened Utf8
  import opened Findings
  import opened Splicing
  import opened SpliceLaws
  import opened Detection
  import opened Scanning
  import opened AtRest
  import opened Releasing
  import opened Streaming

  /** The bytes from `s` to `e` are found, as part of one finding, in every slice of the
      text that starts at `lo` or later and holds them and what follows up to `r`. */
  ghost predicate Robust(cfg: Config, text: Text, lo: nat, s: nat, e: nat, r: nat) {
    && s < e <= r <= |text|
    && forall c: nat, n: nat :: lo <= c <= s && r <= n <= |text| && IsBoundary(text, c) && IsBoundary(text, n) ==>
         Masks(Found(cfg, text[c..n]), s - c, e - c)
  }

  predicate Uncut(cuts: seq<nat>, s: nat, e: nat) {
    forall k :: k in cuts ==> !(s < k < e)
  }

  lemma MoveHas(fs: seq<Finding>, c: nat, f: Finding)
    requires f in fs
    ensures Move(f, c) in MoveAll(fs, c)
  {
    var i :| 0 <= i < |fs| && fs[i] == f;
    assert MoveAll(fs, c)[i] == Move(f, c);
  }

  /** A release that lets out the first byte of a robust match masks all of it. */
  lemma ReleaseMasks(cfg: Config, text: Text, lo: nat, s: nat, e: nat, r: nat, c: nat, n: nat, flush: bool)
    requires lo <= c <= s && r <= n <= |text| && IsBoundary(text, c) && IsBoundary(text, n)
    requires Robust(cfg, text, lo, s, e, r) && Scannable(cfg.ds, text[c..n])
    ensures s < c + CutOf(cfg, text[c..n], flush) ==>
              && e <= c + CutOf(cfg, text[c..n], flush)
              && Masks(MoveAll(MasksOf(cfg, text[c..n], flush), c), s, e)
  {
    var buffer := text[c..n];
    var fs, k := Found(cfg, buffer), CutOf(cfg, buffer, flush);
    FoundGood(cfg, buffer);
    CutSafe(buffer, fs, flush);
    var f :| f in fs && f.start <= s - c && e - c <= f.end;
    if s < c + k {
      assert !Straddles(f, k);
      assert f in Settled(fs, k);
      MoveHas(Settled(fs, k), c, f);
    }
  }

  lemma {:induction false} CutsAfter(cfg: Config, pending: Text, at: nat, deltas: seq<Text>)
    requires Runnable(cfg, pending, deltas)
    ensures forall k :: k in StreamCuts(cfg, pending, at, deltas) ==> at <= k
    decreases |deltas|
  {
    hide *;
    if deltas == [] {
      LastRelease(cfg, pending, at, deltas);
    } else {
      NextRelease(cfg, pending, at, deltas);
      var buffer := pending + deltas[0];
      CutsAfter(cfg, ReleaseOf(cfg, buffer, false).rest, at + CutOf(cfg, buffer, false), deltas[1..]);
    }
  }

  /** What is let out without a flush is at least 64 bytes from the end of the buffer. */
  lemma HoldsBack(cfg: Config, buffer: Text)
    ensures CutOf(cfg, buffer, false) == 0 || CutOf(cfg, buffer, false) + HOLDBACK <= |buffer|
  {
  }

  // ---- Held back until it is complete

  /** Some finding starts at `s` or before and goes on past `t`. */
  ghost predicate Reaches(fs: seq<Finding>, s: int, t: int) {
    exists f :: f in fs && f.start <= s && t < f.end
  }

  /** Once the text has arrived up to `n`, all of it but the tail would go out, the byte
      at `s` included. */
  predicate Passes(text: Text, s: nat, n: nat) {
    HOLDBACK <= n <= |text| && s < Snap(text, n - HOLDBACK)
  }

  /** Wherever the buffer starts, a finding holds the byte at `s` back. */
  ghost predicate HeldFrom(cfg: Config, text: Text, lo: nat, s: nat, n: nat)
    requires n <= |text|
  {
    forall c: nat :: lo <= c <= s && c <= n && IsBoundary(text, c) ==>
      Reaches(Found(cfg, text[c..n]), s - c, n - HOLDBACK - c)
  }

  ghost predicate HeldAtEnds(cfg: Config, text: Text, lo: nat, s: nat, r: nat, ends: seq<nat>) {
    forall n :: n in ends && Passes(text, s, n) && n < r ==> HeldFrom(cfg, text, lo, s, n)
  }

  lemma HeldStep(cfg: Config, text: Text, lo: nat, s: nat, r: nat, from: nat, deltas: seq<Text>)
    requires deltas != [] && HeldAtEnds(cfg, text, lo, s, r, Ends(from, deltas))
    ensures var n := from + |deltas[0]|;
            && HeldAtEnds(cfg, text, lo, s, r, Ends(n, deltas[1..]))
            && (Passes(text, s, n) && n < r ==> HeldFrom(cfg, text, lo, s, n))
  {
    EndsStep(from, deltas);
  }

  lemma ShortIsHeld(cfg: Config, text: Text, lo: nat, s: nat, r: nat, ends: seq<nat>)
    requires r <= s + HOLDBACK + 1
    ensures HeldAtEnds(cfg, text, lo, s, r, ends)
  {
  }

  /** A release goes past `s` only if the target does, and no finding holds it. */
  lemma ReleaseHolds(cfg: Config, text: Text, lo: nat, s: nat, c: nat, n: nat)
    requires lo <= c <= s && c <= n <= |text| && IsBoundary(text, c) && IsBoundary(text, n)
    requires Scannable(cfg.ds, text[c..n])
    requires Passes(text, s, n) ==> HeldFrom(cfg, text, lo, s, n)
    ensures c + CutOf(cfg, text[c..n], false) <= s
  {
    var buffer := text[c..n];
    var fs, t := Found(cfg, buffer), Target(|buffer|, false);
    FoundGood(cfg, buffer);
    hide Scannable, Found;
    PullBackSafe(fs, t);
    var u := PullBack(fs, t);
    if Passes(text, s, n) {
      var f :| f in fs && f.start <= s - c && n - HOLDBACK - c < f.end;
      assert !Straddles(f, u);
    } else if HOLDBACK <= n - c {
      SnapInSlice(text, c, n, u);
      SnapAscends(text, c + u, n - HOLDBACK);
    }
  }

  /** Otherwise it does go past `s`. */
  lemma ReleasePasses(cfg: Config, text: Text, s: nat, c: nat, n: nat)
    requires c <= s && c <= n <= |text| && IsBoundary(text, c) && IsBoundary(text, n)
    requires Scannable(cfg.ds, text[c..n])
    requires Passes(text, s, n) && !Reaches(Found(cfg, text[c..n]), s - c, n - HOLDBACK - c)
    ensures s < c + CutOf(cfg, text[c..n], false)
  {
    var buffer := text[c..n];
    var fs, t := Found(cfg, buffer), Target(|buffer|, false);
    FoundGood(cfg, buffer);
    hide Scannable, Found;
    PullBackSafe(fs, t);
    if PullBack(fs, t) == t {
      SnapInSlice(text, c, n, t);
    } else {
      var f :| f in fs && f.start == PullBack(fs, t) && t < f.end;
      assert IsBoundary(buffer, f.start);
    }
  }

  /** A robust match that is held back at every delta that comes before its end is masked
      whole, and no cut goes through it. */
  lemma {:induction false} MatchMasked(cfg: Config, text: Text, lo: nat, s: nat, e: nat, r: nat,
                                       pending: Text, at: nat, deltas: seq<Text>)
    requires Runnable(cfg, pending, deltas) && Ahead(text, at, pending, deltas)
    requires lo <= at <= s && Robust(cfg, text, lo, s, e, r)
    requires HeldAtEnds(cfg, text, lo, s, r, Ends(at + |pending|, deltas))
    ensures Masks(StreamMasks(cfg, pending, at, deltas), s, e)
    ensures Uncut(StreamCuts(cfg, pending, at, deltas), s, e)
    decreases |deltas|
  {
    hide *;
    RunParts(cfg, pending, deltas);
    AheadParts(text, at, pending, deltas);
    RobustParts(cfg, text, lo, s, e, r);
    if deltas == [] {
      NothingAhead(pending, deltas);
      LastRelease(cfg, pending, at, deltas);
      FlushTakesAll(cfg, pending);
      UncutCons(0, [], s, e);
      assert pending == text[at..|text|];
      EndIsBoundary(text);
      ReleaseMasks(cfg, text, lo, s, e, r, at, |text|, true);
    } else {
      AheadStep(cfg, text, at, pending, deltas);
      NextRelease(cfg, pending, at, deltas);
      HeldStep(cfg, text, lo, s, r, at + |pending|, deltas);
      var buffer := pending + deltas[0];
      var n, cut := at + |buffer|, at + CutOf(cfg, buffer, false);
      var rest := ReleaseOf(cfg, buffer, false).rest;
      RestLength(cfg, buffer);
      CutsAfter(cfg, rest, cut, deltas[1..]);
      var later := StreamCuts(cfg, rest, cut, deltas[1..]);
      UncutCons(cut, later, s, e);
      if n < r {
        ReleaseHolds(cfg, text, lo, s, at, n);
      } else {
        ReleaseMasks(cfg, text, lo, s, e, r, at, n, false);
      }
      if cut <= s {
        MatchMasked(cfg, text, lo, s, e, r, rest, cut, deltas[1..]);
        MasksRight(MoveAll(MasksOf(cfg, buffer, false), at), StreamMasks(cfg, rest, cut, deltas[1..]), s, e);
      } else {
        UncutBeyond(later, s, e, cut);
        MasksLeft(MoveAll(MasksOf(cfg, buffer, false), at), StreamMasks(cfg, rest, cut, deltas[1..]), s, e);
      }
    }
  }

  lemma RobustParts(cfg: Config, text: Text, lo: nat, s: nat, e: nat, r: nat)
    requires Robust(cfg, text, lo, s, e, r)
    ensures s < e <= r <= |text|
  {
  }

  lemma UncutCons(cut: nat, later: seq<nat>, s: nat, e: nat)
    ensures Uncut([cut] + later, s, e) <==> Uncut(later, s, e) && !(s < cut < e)
    ensures Uncut([], s, e)
  {
    assert cut in [cut] + later;
    assert forall k :: k in later ==> k in [cut] + later;
  }

  lemma UncutBeyond(later: seq<nat>, s: nat, e: nat, cut: nat)
    requires e <= cut && forall k :: k in later ==> cut <= k
    ensures Uncut(later, s, e)
  {
  }

  lemma MasksLeft(a: seq<Finding>, b: seq<Finding>, s: nat, e: nat)
    requires Masks(a, s, e)
    ensures Masks(a + b, s, e)
  {
    var f :| f in a && f.start <= s && e <= f.end;
    assert f in a + b;
  }

  lemma MasksRight(a: seq<Finding>, b: seq<Finding>, s: nat, e: nat)
    requires Masks(b, s, e)
    ensures Masks(a + b, s, e)
  {
    var f :| f in b && f.start <= s && e <= f.end;
    assert f in a + b;
  }

  // ---- Masked exactly when it is held back

  predicate NoneCut(fs: seq<Finding>, cuts: seq<nat>) {
    forall f, k :: f in fs && k in cuts ==> !Straddles(f, k)
  }

  lemma NoneCutJoin(a: seq<Finding>, b: seq<Finding>, cut: nat, later: seq<nat>)
    requires NoneCut(b, later)
    requires (forall f :: f in a ==> f.end <= cut) && (forall f :: f in b ==> cut <= f.start)
    requires forall k :: k in later ==> cut <= k
    ensures NoneCut(a + b, [cut] + later)
  {
  }

  lemma NoneCutYet(fs: seq<Finding>)
    ensures NoneCut(fs, [])
  {
  }

  /** No masked span straddles a cut: a finding is never let out in pieces. */
  lemma {:induction false} MasksNeverCut(cfg: Config, text: Text, pending: Text, at: nat, deltas: seq<Text>)
    requires Runnable(cfg, pending, deltas) && Ahead(text, at, pending, deltas)
    ensures NoneCut(StreamMasks(cfg, pending, at, deltas), StreamCuts(cfg, pending, at, deltas))
    decreases |deltas|
  {
    hide *;
    if deltas == [] {
      LastRelease(cfg, pending, at, deltas);
      NoneCutYet(StreamMasks(cfg, pending, at, deltas));
    } else {
      AheadStep(cfg, text, at, pending, deltas);
      NextRelease(cfg, pending, at, deltas);
      var buffer := pending + deltas[0];
      var cut := at + CutOf(cfg, buffer, false);
      var rest := ReleaseOf(cfg, buffer, false).rest;
      AheadParts(text, cut, rest, deltas[1..]);
      ReleaseInText(cfg, text, at, at + |buffer|, false);
      FitsParts(text[..cut], MoveAll(MasksOf(cfg, buffer, false), at), at);
      StreamIsSplice(cfg, text, cut, rest, deltas[1..]);
      FitsParts(text, StreamMasks(cfg, rest, cut, deltas[1..]), cut);
      CutsAfter(cfg, rest, cut, deltas[1..]);
      MasksNeverCut(cfg, text, rest, cut, deltas[1..]);
      NoneCutJoin(MoveAll(MasksOf(cfg, buffer, false), at), StreamMasks(cfg, rest, cut, deltas[1..]),
                  cut, StreamCuts(cfg, rest, cut, deltas[1..]));
    }
  }

  /** What is found at `s` in the text arrived so far does not depend on where before `s`
      the buffer starts. */
  ghost predicate LeftBlind(cfg: Config, text: Text, s: nat, n: nat)
    requires n <= |text|
  {
    forall c: nat :: c <= s && c <= n && IsBoundary(text, c) ==>
      (Reaches(Found(cfg, text[c..n]), s - c, n - HOLDBACK - c) <==> Reaches(Found(cfg, text[0..n]), s, n - HOLDBACK))
  }

  /** If at some delta nothing holds `s` back, a cut falls inside the match. */
  lemma {:induction false} CutInside(cfg: Config, text: Text, s: nat, e: nat, stop: nat,
                                     pending: Text, at: nat, deltas: seq<Text>)
    requires Runnable(cfg, pending, deltas) && Ahead(text, at, pending, deltas) && at <= s
    requires stop in Ends(at + |pending|, deltas) && Passes(text, s, stop) && stop < e
    requires LeftBlind(cfg, text, s, stop) && !Reaches(Found(cfg, text[0..stop]), s, stop - HOLDBACK)
    ensures !Uncut(StreamCuts(cfg, pending, at, deltas), s, e)
    decreases |deltas|
  {
    hide *;
    EndsAfter(at + |pending|, deltas);
    if deltas != [] {
      AheadStep(cfg, text, at, pending, deltas);
      NextRelease(cfg, pending, at, deltas);
      EndsStep(at + |pending|, deltas);
      AheadParts(text, at, pending, deltas);
      var buffer := pending + deltas[0];
      var n, cut := at + |buffer|, at + CutOf(cfg, buffer, false);
      var rest := ReleaseOf(cfg, buffer, false).rest;
      RestLength(cfg, buffer);
      EndsAfter(n, deltas[1..]);
      UncutCons(cut, StreamCuts(cfg, rest, cut, deltas[1..]), s, e);
      if cut <= s {
        if n == stop {
          BlindAt(cfg, text, s, stop, at);
          ReleasePasses(cfg, text, s, at, n);
        }
        CutInside(cfg, text, s, e, stop, rest, cut, deltas[1..]);
      }
    }
  }

  lemma BlindAt(cfg: Config, text: Text, s: nat, n: nat, c: nat)
    requires c <= s && c <= n <= |text| && IsBoundary(text, c) && LeftBlind(cfg, text, s, n)
    ensures Reaches(Found(cfg, text[c..n]), s - c, n - HOLDBACK - c) <==> Reaches(Found(cfg, text[0..n]), s, n - HOLDBACK)
  {
  }

  /** Every delta that ends before the match does, and lets the target pass its start, has
      brought enough of it for a finding to reach past the target. */
  ghost predicate HeldByPrefixes(cfg: Config, text: Text, s: nat, e: nat, ends: seq<nat>) {
    forall n :: n in ends && Passes(text, s, n) && n < e ==> Reaches(Found(cfg, text[0..n]), s, n - HOLDBACK)
  }

  /** A match of any length that is found in every context is masked whole exactly when
      each prefix of the text that a delta completes holds it back by itself. */
  lemma MaskedIffHeld(cfg: Config, deltas: seq<Text>, s: nat, e: nat)
    requires Runnable(cfg, [], deltas) && Robust(cfg, Concat(deltas), 0, s, e, e)
    requires forall n: nat :: Passes(Concat(deltas), s, n) && n < e && IsBoundary(Concat(deltas), n) ==>
               LeftBlind(cfg, Concat(deltas), s, n)
    ensures Masks(StreamMasks(cfg, [], 0, deltas), s, e)
       <==> HeldByPrefixes(cfg, Concat(deltas), s, e, Ends(0, deltas))
  {
    hide *;
    var text, ends := Concat(deltas), Ends(0, deltas);
    RunParts(cfg, [], deltas);
    Start(deltas);
    EndsAligned(cfg, text, [], 0, 0, deltas);
    MasksNeverCut(cfg, text, [], 0, deltas);
    RobustParts(cfg, text, 0, s, e, e);
    if HeldByPrefixes(cfg, text, s, e, ends) {
      BlindIsHeld(cfg, text, s, e, ends);
      MatchMasked(cfg, text, 0, s, e, e, [], 0, deltas);
    } else {
      var n := NotHeld(cfg, text, s, e, ends);
      CutInside(cfg, text, s, e, n, [], 0, deltas);
      if Masks(StreamMasks(cfg, [], 0, deltas), s, e) {
        MaskedIsUncut(StreamMasks(cfg, [], 0, deltas), StreamCuts(cfg, [], 0, deltas), s, e);
      }
    }
  }

  lemma BlindIsHeld(cfg: Config, text: Text, s: nat, e: nat, ends: seq<nat>)
    requires HeldByPrefixes(cfg, text, s, e, ends)
    requires forall n :: n in ends && Passes(text, s, n) && n < e ==> LeftBlind(cfg, text, s, n)
    ensures HeldAtEnds(cfg, text, 0, s, e, ends)
  {
    hide Found, Reaches, Passes, IsBoundary;
  }

  lemma NotHeld(cfg: Config, text: Text, s: nat, e: nat, ends: seq<nat>) returns (n: nat)
    requires !HeldByPrefixes(cfg, text, s, e, ends)
    ensures n in ends && Passes(text, s, n) && n < e && n <= |text| && !Reaches(Found(cfg, text[0..n]), s, n - HOLDBACK)
  {
    n :| n in ends && Passes(text, s, n) && n < e && !Reaches(Found(cfg, text[0..n]), s, n - HOLDBACK);
  }

  lemma MaskedIsUncut(masks: seq<Finding>, cuts: seq<nat>, s: nat, e: nat)
    requires NoneCut(masks, cuts) && Masks(masks, s, e)
    ensures Uncut(cuts, s, e)
  {
    var f :| f in masks && f.start <= s && e <= f.end;
    forall k | k in cuts ensures !(s < k < e) {
      assert !Straddles(f, k);
    }
  }

  // ---- Local detectors

  ghost predicate SpansCover(spans: seq<Span>, s: int, e: int) {
    exists x :: x in spans && x.start <= s && e <= x.end
  }

  ghost predicate SpansReach(spans: seq<Span>, s: int, t: int) {
    exists x :: x in spans && x.start <= s && t < x.end
  }

  /** `x` with its right context, up to `r`, is found in every slice that holds it; and if
      that is more than the tail, what has arrived of it is a match that reaches the tail. */
  ghost predicate LocalMatch(d: Detector, text: Text, x: Span, r: nat) {
    && x.start < x.end <= r <= |text|
    && forall c: nat, n: nat :: c <= x.start && c <= n <= |text| && IsBoundary(text, c) && IsBoundary(text, n) ==>
         && (r <= n ==> SpansCover(d.find(text[c..n]), x.start - c, x.end - c))
         && (x.start + HOLDBACK < n < r ==> SpansReach(d.find(text[c..n]), x.start - c, n - HOLDBACK - c))
  }

  ghost predicate Local(d: Detector) {
    forall text, x :: WellFormed(text) && x in d.find(text) ==> exists r :: LocalMatch(d, text, x, r)
  }

  /** `d` answers for `pattern` of `p`, and `p` is enabled. */
  ghost predicate Asks(cfg: Config, p: Policy, pattern: string, d: Detector) {
    p in cfg.policies && p.enabled && pattern in p.patterns && Answers(cfg.ds, pattern, d)
  }

  /** `d` answers for a pattern of an enabled policy. */
  ghost predicate Uses(cfg: Config, d: Detector) {
    exists p, pattern :: Asks(cfg, p, pattern, d)
  }

  lemma HitFrom(cfg: Config, text: Text, p: Policy, pattern: string, d: Detector, s: Span)
    requires Asks(cfg, p, pattern, d) && s in d.find(text)
    ensures Hit(Finding(d.tag, s.start, s.end), p.action) in Hits(cfg, text)
  {
    var h := Hit(Finding(d.tag, s.start, s.end), p.action);
    assert Span(h.f.start, h.f.end) == s;
    var i :| FirstAt(cfg.ds, pattern, i) && cfg.ds[i] == d;
    assert DetectedBy(cfg.ds, text, pattern, p.action, h);
    assert Detects(cfg.ds, text, p, h);
    Collected(cfg.ds, text, cfg.policies, h);
  }

  lemma HitSource(cfg: Config, text: Text, h: Hit) returns (p: Policy, pattern: string, d: Detector)
    requires h in Hits(cfg, text)
    ensures Asks(cfg, p, pattern, d) && Uses(cfg, d)
    ensures Span(h.f.start, h.f.end) in d.find(text) && h.f.tag == d.tag && h.action == p.action
  {
    Collected(cfg.ds, text, cfg.policies, h);
    p :| p in cfg.policies && p.enabled && Detects(cfg.ds, text, p, h);
    pattern :| pattern in p.patterns && DetectedBy(cfg.ds, text, pattern, p.action, h);
    var i :| FirstAt(cfg.ds, pattern, i)
             && h.action == p.action && h.f.tag == cfg.ds[i].tag && Span(h.f.start, h.f.end) in cfg.ds[i].find(text);
    d := cfg.ds[i];
    assert Asks(cfg, p, pattern, d);
  }

  /** A match in a slice is masked by a release of that slice. */
  lemma FoundCovers(cfg: Config, text: Text, p: Policy, pattern: string, d: Detector, s: nat, e: nat)
    requires Scannable(cfg.ds, text) && Asks(cfg, p, pattern, d)
    requires SpansCover(d.find(text), s, e)
    ensures Masks(Found(cfg, text), s, e)
  {
    var x :| x in d.find(text) && x.start <= s && e <= x.end;
    HitFrom(cfg, text, p, pattern, d, x);
    HitsProper(cfg.ds, text, cfg.policies);
    HitIsCovered(Hits(cfg, text), Hit(Finding(d.tag, x.start, x.end), p.action));
  }

  lemma FoundReaches(cfg: Config, text: Text, p: Policy, pattern: string, d: Detector, s: nat, t: int)
    requires Scannable(cfg.ds, text) && Asks(cfg, p, pattern, d)
    requires SpansReach(d.find(text), s, t)
    ensures Reaches(Found(cfg, text), s, t)
  {
    var x :| x in d.find(text) && x.start <= s && t < x.end;
    FoundCovers(cfg, text, p, pattern, d, x.start, x.end);
  }

  lemma LocalIsRobust(cfg: Config, text: Text, p: Policy, pattern: string, d: Detector, x: Span, r: nat)
    requires Scannable(cfg.ds, text) && Asks(cfg, p, pattern, d)
    requires LocalMatch(d, text, x, r)
    ensures Robust(cfg, text, 0, x.start, x.end, r)
  {
    forall c: nat, n: nat | c <= x.start && r <= n <= |text| && IsBoundary(text, c) && IsBoundary(text, n)
      ensures Masks(Found(cfg, text[c..n]), x.start - c, x.end - c)
    {
      WellFormedSlice(text, c, n);
      FoundCovers(cfg, text[c..n], p, pattern, d, x.start - c, x.end - c);
    }
  }

  lemma LocalIsHeld(cfg: Config, text: Text, p: Policy, pattern: string, d: Detector, x: Span, r: nat, n: nat)
    requires Scannable(cfg.ds, text) && Asks(cfg, p, pattern, d)
    requires LocalMatch(d, text, x, r)
    requires n <= |text| && IsBoundary(text, n) && Passes(text, x.start, n) && n < r
    ensures HeldFrom(cfg, text, 0, x.start, n)
  {
    hide Found, Scannable, Asks, IsBoundary;
    forall c: nat | c <= x.start && c <= n && IsBoundary(text, c)
      ensures Reaches(Found(cfg, text[c..n]), x.start - c, n - HOLDBACK - c)
    {
      ScannableSlice(cfg, text, c, n);
      FoundReaches(cfg, text[c..n], p, pattern, d, x.start - c, n - HOLDBACK - c);
    }
  }

  lemma ScannableSlice(cfg: Config, text: Text, at: nat, n: nat)
    requires Scannable(cfg.ds, text) && at <= n <= |text| && IsBoundary(text, at) && IsBoundary(text, n)
    ensures Scannable(cfg.ds, text[at..n])
  {
    WellFormedSlice(text, at, n);
  }

  /** One match of one detector; the others need not be local. */
  lemma MatchNotLeaked(cfg: Config, deltas: seq<Text>, h: Hit)
    requires Runnable(cfg, [], deltas) && h in Hits(cfg, Concat(deltas))
    requires forall d :: Uses(cfg, d) && Span(h.f.start, h.f.end) in d.find(Concat(deltas)) ==>
               exists r :: LocalMatch(d, Concat(deltas), Span(h.f.start, h.f.end), r)
    ensures Masks(StreamMasks(cfg, [], 0, deltas), h.f.start, h.f.end)
    ensures Uncut(StreamCuts(cfg, [], 0, deltas), h.f.start, h.f.end)
  {
    var text, x := Concat(deltas), Span(h.f.start, h.f.end);
    Start(deltas);
    HitsProper(cfg.ds, text, cfg.policies);
    var p, pattern, d := HitSource(cfg, text, h);
    var r :| LocalMatch(d, text, x, r);
    LocalIsRobust(cfg, text, p, pattern, d, x, r);
    EndsAligned(cfg, text, [], 0, 0, deltas);
    forall n | n in Ends(0, deltas) && Passes(text, x.start, n) && n < r ensures HeldFrom(cfg, text, 0, x.start, n) {
      LocalIsHeld(cfg, text, p, pattern, d, x, r, n);
    }
    MatchMasked(cfg, text, 0, x.start, x.end, r, [], 0, deltas);
  }

  /** With local detectors, however a text is split into deltas: what is emitted is the
      text with spans replaced by tokens, every match of the whole text lies inside one
      of those spans, and none is ever cut. */
  lemma NothingLeaks(cfg: Config, deltas: seq<Text>)
    requires Runnable(cfg, [], deltas) && forall d :: Uses(cfg, d) ==> Local(d)
    ensures var text, masks := Concat(deltas), StreamMasks(cfg, [], 0, deltas);
            && Fits(text, masks, 0)
            && Stream(cfg, [], deltas) == Splice(text, masks, 0)
            && (forall h :: h in Hits(cfg, text) ==> Masks(masks, h.f.start, h.f.end))
            && (forall h :: h in Hits(cfg, text) ==> Uncut(StreamCuts(cfg, [], 0, deltas), h.f.start, h.f.end))
  {
    var text := Concat(deltas);
    Start(deltas);
    StreamIsSplice(cfg, text, 0, [], deltas);
    forall h | h in Hits(cfg, text)
      ensures Masks(StreamMasks(cfg, [], 0, deltas), h.f.start, h.f.end)
      ensures Uncut(StreamCuts(cfg, [], 0, deltas), h.f.start, h.f.end)
    {
      ConcatWellFormed(deltas);
      MatchNotLeaked(cfg, deltas, h);
    }
  }
}
