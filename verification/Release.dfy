/** The cut point of `release` and what it lets out. */
module Releasing {
  import opened Utf8
  import opened Sequences
  import opened Findings
  import opened Splicing
  import opened Clustering
  import opened Detection
  import opened Scanning
  import opened AtRest

  /** Bytes kept unsent at the tail. */
  const HOLDBACK: nat := 64

  datatype Config = Config(ds: seq<Detector>, policies: seq<Policy>)

  function Hits(cfg: Config, text: Text): seq<Hit> {
    AllHits(cfg.ds, text, cfg.policies)
  }

  /** All merged findings, whatever their action. */
  function Found(cfg: Config, text: Text): seq<Finding> {
    FindingsOf(Clusters(Hits(cfg, text)))
  }

  function Target(size: nat, flush: bool): (t: nat)
    ensures t <= size
  {
    if flush then size else if size < HOLDBACK then 0 else size - HOLDBACK
  }

  function Pull(f: Finding, t: nat): nat {
    if f.start < t && t < f.end then f.start else t
  }

  /** The loop that moves the target back to the start of a finding it would cut. */
  function PullBack(fs: seq<Finding>, t: nat): (r: nat)
    ensures r <= t
  {
    if fs == [] then t else Pull(fs[|fs| - 1], PullBack(fs[..|fs| - 1], t))
  }

  function CutPoint(text: Text, fs: seq<Finding>, flush: bool): (cut: nat)
    ensures cut <= |text|
  {
    Snap(text, PullBack(fs, Target(|text|, flush)))
  }

  function EndsWithin(cut: nat): Finding -> bool {
    (f: Finding) => f.end <= cut
  }

  function Settled(fs: seq<Finding>, cut: nat): seq<Finding> {
    Filter(EndsWithin(cut), fs)
  }

  datatype Released = Released(text: Text, rest: Text)

  predicate Straddles(f: Finding, k: nat) {
    f.start < k < f.end
  }

  ghost predicate NoneOver(fs: seq<Finding>, k: nat) {
    forall f :: f in fs ==> !Straddles(f, k)
  }

  // ---- The cut is safe

  /** One pass is enough: afterwards no finding straddles the target, and it moved only
      if one straddled it before. */
  lemma {:induction false} PullBackSafe(fs: seq<Finding>, t: nat)
    requires Ordered(fs)
    ensures forall f :: f in fs ==> !Straddles(f, PullBack(fs, t))
    ensures PullBack(fs, t) == t || exists f :: f in fs && f.start == PullBack(fs, t) && t < f.end
  {
    if fs != [] {
      var init, last := fs[..|fs| - 1], fs[|fs| - 1];
      OrderedInit(fs);
      hide Ordered;
      PullBackSafe(init, t);
      assert PullBack(fs, t) == Pull(last, PullBack(init, t));
    }
  }

  lemma OrderedInit(fs: seq<Finding>)
    requires Ordered(fs) && fs != []
    ensures var init, last := fs[..|fs| - 1], fs[|fs| - 1];
            && Ordered(init) && last.start <= last.end
            && (forall f :: f in init ==> f.end <= last.start)
            && forall f :: f in fs <==> f in init || f == last
  {
    var n := |fs| - 1;
    assert fs[n] in fs && fs == fs[..n] + [fs[n]];
    forall f | f in fs[..n] ensures f.end <= fs[n].start {
      var i :| 0 <= i < n && fs[i] == f;
    }
  }

  /** Snapping back to a character boundary cuts no finding either, and settles exactly
      the findings that the pulled-back target settles. */
  lemma CutSafe(text: Text, fs: seq<Finding>, flush: bool)
    requires Ordered(fs) && forall f :: f in fs ==> f.end <= |text| && Aligned(text, f)
    ensures var cut := CutPoint(text, fs, flush);
            forall f :: f in fs ==> !Straddles(f, cut) && (f.end <= cut <==> f.end <= PullBack(fs, Target(|text|, flush)))
  {
    PullBackSafe(fs, Target(|text|, flush));
  }

  /** Without a flush, either little more than the tail is held back (67 bytes at most),
      or what is held back starts with a finding that reaches into the tail. */
  lemma HeldBack(text: Text, fs: seq<Finding>)
    requires WellFormed(text)
    requires Ordered(fs) && forall f :: f in fs ==> f.end <= |text| && Aligned(text, f)
    ensures var cut := CutPoint(text, fs, false);
            || |text| - cut <= HOLDBACK + 3
            || exists f :: f in fs && f.start == cut && |text| - HOLDBACK < f.end
  {
    var t := Target(|text|, false);
    PullBackSafe(fs, t);
    SnapIsClose(text, PullBack(fs, t));
    if PullBack(fs, t) != t {
      var f :| f in fs && f.start == PullBack(fs, t) && t < f.end;
      assert IsBoundary(text, f.start);
    }
  }

  lemma FlushCutsAtEnd(text: Text, fs: seq<Finding>)
    requires Ordered(fs) && forall f :: f in fs ==> f.end <= |text|
    ensures CutPoint(text, fs, true) == |text| && Settled(fs, |text|) == fs
  {
    PullBackSafe(fs, |text|);
    FilterAll(EndsWithin(|text|), fs);
  }

  // ---- What a release emits

  lemma FoundGood(cfg: Config, text: Text)
    requires Scannable(cfg.ds, text)
    ensures Nonempty(Hits(cfg, text)) && Ordered(Found(cfg, text)) && Solid(Found(cfg, text))
    ensures forall f :: f in Found(cfg, text) ==> f.end <= |text| && Aligned(text, f) && WellFormed(f.tag)
  {
    var m := Clusters(Hits(cfg, text));
    HitsProper(cfg.ds, text, cfg.policies);
    ClustersAreClustering(Hits(cfg, text));
    assert Separated(m);
    hide IsClustering, AllHits, Clusters, Registry;
    SeparatedOrdered(m);
    forall f | f in FindingsOf(m) ensures f.end <= |text| && Aligned(text, f) && WellFormed(f.tag) {
      var c := FromFindings(m, f);
      ClusterInside(text, Hits(cfg, text), c);
    }
  }

  lemma ConsOrdered(f: Finding, fs: seq<Finding>)
    requires Ordered(fs) && f.start <= f.end && forall g :: g in fs ==> f.end <= g.start
    ensures Ordered([f] + fs)
  {
  }

  lemma {:induction false} FilterOrdered(keep: Finding -> bool, fs: seq<Finding>)
    requires Ordered(fs)
    ensures Ordered(Filter(keep, fs))
  {
    if fs != [] {
      var rest := fs[1..];
      assert fs[0] in fs;
      forall f | f in rest ensures fs[0].end <= f.start {
        var i :| 0 <= i < |rest| && rest[i] == f;
        assert fs[0].end <= fs[i + 1].start;
      }
      FilterOrdered(keep, rest);
      if keep(fs[0]) {
        ConsOrdered(fs[0], Filter(keep, rest));
      }
    }
  }

  lemma SettledFits(text: Text, fs: seq<Finding>, cut: nat)
    requires Ordered(fs) && cut <= |text| && IsBoundary(text, cut)
    requires forall f :: f in fs ==> f.end <= |text| && Aligned(text, f)
    ensures Fits(text[..cut], Settled(fs, cut), 0)
    ensures forall f :: f in Settled(fs, cut) ==> f in fs && f.end <= cut && Aligned(text[..cut], f)
  {
    FilterOrdered(EndsWithin(cut), fs);
  }

  lemma SettledSolid(fs: seq<Finding>, cut: nat)
    requires Solid(fs)
    ensures Solid(Settled(fs, cut))
  {
  }

  function CutOf(cfg: Config, pending: Text, flush: bool): (cut: nat)
    ensures cut <= |pending|
  {
    CutPoint(pending, Found(cfg, pending), flush)
  }

  /** The spans masked by a release, in the coordinates of the buffer. */
  function MasksOf(cfg: Config, pending: Text, flush: bool): seq<Finding> {
    Settled(Found(cfg, pending), CutOf(cfg, pending, flush))
  }

  lemma CutOfFound(cfg: Config, pending: Text, flush: bool)
    ensures CutOf(cfg, pending, flush) == CutPoint(pending, Found(cfg, pending), flush)
    ensures MasksOf(cfg, pending, flush) == Settled(Found(cfg, pending), CutOf(cfg, pending, flush))
    ensures Found(cfg, pending) == FindingsOf(Clusters(Hits(cfg, pending)))
  {
  }

  function ReleaseOf(cfg: Config, pending: Text, flush: bool): Released
    requires Scannable(cfg.ds, pending)
  {
    var cut := CutOf(cfg, pending, flush);
    FoundGood(cfg, pending);
    SettledFits(pending, Found(cfg, pending), cut);
    Released(Splice(pending[..cut], MasksOf(cfg, pending, flush), 0), pending[cut..])
  }

  lemma ReleaseParts(cfg: Config, pending: Text, flush: bool)
    requires Scannable(cfg.ds, pending)
    ensures var k := CutOf(cfg, pending, flush);
            && IsBoundary(pending, k)
            && Fits(pending[..k], MasksOf(cfg, pending, flush), 0) && Solid(MasksOf(cfg, pending, flush))
            && ReleaseOf(cfg, pending, flush).text == Splice(pending[..k], MasksOf(cfg, pending, flush), 0)
            && ReleaseOf(cfg, pending, flush).rest == pending[k..]
  {
    FoundGood(cfg, pending);
    SettledFits(pending, Found(cfg, pending), CutOf(cfg, pending, flush));
  }

  /** What stays buffered is still valid text, and so is what goes out. */
  lemma ReleaseWellFormed(cfg: Config, pending: Text, flush: bool)
    requires Scannable(cfg.ds, pending)
    ensures WellFormed(ReleaseOf(cfg, pending, flush).rest)
  {
    WellFormedSplit(pending, CutOf(cfg, pending, flush));
  }

  /** A flush emits what at-rest redaction would store, and empties the buffer. */
  lemma FlushIsAtRest(cfg: Config, pending: Text)
    requires Scannable(cfg.ds, pending)
    ensures Nonempty(Hits(cfg, pending))
    ensures ReleaseOf(cfg, pending, true) == Released(MaskAll(pending, Hits(cfg, pending)), [])
  {
    var fs := Found(cfg, pending);
    FoundGood(cfg, pending);
    FlushCutsAtEnd(pending, fs);
    ReachableAll(fs, |pending|);
    assert pending[..|pending|] == pending;
  }

  lemma CoversAll(fs: seq<Finding>, f: Finding)
    requires Ordered(fs) && Solid(fs) && f in fs && f.start == 0 && forall g :: g in fs ==> g.end <= f.end
    ensures fs == [f]
  {
    assert fs[0] in fs && fs[|fs| - 1] in fs;
  }

  lemma WholeSpliced(text: Text, f: Finding)
    requires f.start == 0 && f.end == |text| && 0 < |text|
    ensures text[..|text|] == text && Fits(text, [f], 0) && Splice(text, [f], 0) == Token(f.tag)
  {
    assert [f][1..] == [] && text[0..0] == [] && text[|text|..] == [];
  }
}
