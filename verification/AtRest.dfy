/** At-rest redaction: force every action to Redact, then scan. */
module AtRest {
  import opened Utf8
  import opened Sequences
  import opened Findings
  import opened Splicing
  import opened SpliceLaws
  import opened Clustering
  import opened EmptySpans
  import opened Detection
  import opened Scanning

  /** Every merged span replaced by its token, whatever its action. */
  function MaskAll(text: Text, hits: seq<Hit>): Text
    requires Nonempty(hits)
  {
    ClustersAreClustering(hits);
    SeparatedOrdered(Clusters(hits));
    Masked(text, FindingsOf(Clusters(hits)))
  }

  function Force(h: Hit): Hit {
    Hit(h.f, Redact)
  }

  function ForcePolicy(p: Policy): Policy {
    p.(action := Redact)
  }

  lemma ForceRespects()
    ensures Respects(Force)
  {
    forall x, y ensures RespectsAt(Force, x, y) {
    }
  }

  lemma {:induction false} MapConcat(g: Hit -> Hit, a: seq<Hit>, b: seq<Hit>)
    ensures Map(g, a + b) == Map(g, a) + Map(g, b)
  {
  }

  lemma {:induction false} TagAllForced(tag: Text, spans: seq<Span>, action: Action)
    ensures TagAll(tag, spans, Redact) == Map(Force, TagAll(tag, spans, action))
  {
    if spans != [] {
      var n := |spans| - 1;
      TagAllForced(tag, spans[..n], action);
      var h := Hit(Finding(tag, spans[n].start, spans[n].end), action);
      MapConcat(Force, TagAll(tag, spans[..n], action), [h]);
    }
  }

  lemma {:induction false} PatternsForced(ds: seq<Detector>, text: Text, patterns: seq<string>, action: Action)
    ensures PatternsHits(ds, text, patterns, Redact) == Map(Force, PatternsHits(ds, text, patterns, action))
  {
    if patterns != [] {
      var n := |patterns| - 1;
      PatternsForced(ds, text, patterns[..n], action);
      PatternForced(ds, text, patterns[n], action);
      MapConcat(Force, PatternsHits(ds, text, patterns[..n], action), PatternHits(ds, text, patterns[n], action));
    }
  }

  lemma PatternForced(ds: seq<Detector>, text: Text, pattern: string, action: Action)
    ensures PatternHits(ds, text, pattern, Redact) == Map(Force, PatternHits(ds, text, pattern, action))
  {
    if Lookup(ds, pattern).Some? {
      var d := Lookup(ds, pattern).value;
      TagAllForced(d.tag, d.find(text), action);
    }
  }

  lemma {:induction false} AllHitsForced(ds: seq<Detector>, text: Text, policies: seq<Policy>)
    ensures AllHits(ds, text, Map(ForcePolicy, policies)) == Map(Force, AllHits(ds, text, policies))
  {
    if policies != [] {
      var n := |policies| - 1;
      var p := policies[n];
      AllHitsForced(ds, text, policies[..n]);
      assert Map(ForcePolicy, policies)[..n] == Map(ForcePolicy, policies[..n]);
      PatternsForced(ds, text, p.patterns, p.action);
      assert PolicyHits(ds, text, ForcePolicy(p)) == Map(Force, PolicyHits(ds, text, p));
      hide PolicyHits;
      MapConcat(Force, AllHits(ds, text, policies[..n]), PolicyHits(ds, text, p));
    }
  }

  /** Clustering and labels do not look at actions, so forcing them only unmasks nothing. */
  lemma MaskListForced(hits: seq<Hit>)
    ensures MaskList(Map(Force, hits)) == FindingsOf(Clusters(hits))
  {
    ForceRespects();
    ClustersMapped(Force, hits);
    var m := Map(Force, Clusters(hits));
    FilterAll(IsRedact, m);
  }

  method RedactForStore(ds: seq<Detector>, text: Text, policies: seq<Policy>) returns (stored: Text)
    requires Scannable(ds, text)
    ensures Nonempty(AllHits(ds, text, policies))
    ensures stored == MaskAll(text, AllHits(ds, text, policies))
  {
    var forced := policies;
    for i := 0 to |forced|
      invariant |forced| == |policies|
      invariant forall j :: 0 <= j < i ==> forced[j] == ForcePolicy(policies[j])
      invariant forall j :: i <= j < |policies| ==> forced[j] == policies[j]
    {
      forced := forced[i := forced[i].(action := Redact)];
    }
    assert forced == Map(ForcePolicy, policies);
    hide *;
    var r := Scan(ds, text, forced);
    stored := r.text;
    ForcedText(ds, text, policies);
  }

  lemma ForcedText(ds: seq<Detector>, text: Text, policies: seq<Policy>)
    requires Scannable(ds, text)
    ensures var forced := AllHits(ds, text, Map(ForcePolicy, policies));
            && Spans(forced) && Nonempty(AllHits(ds, text, policies))
            && Outcome(text, forced).text == MaskAll(text, AllHits(ds, text, policies))
  {
    var forced := AllHits(ds, text, Map(ForcePolicy, policies));
    HitsProper(ds, text, policies);
    HitsProper(ds, text, Map(ForcePolicy, policies));
    hide AllHits, Clusters, Masked, Outcome;
    OutcomeOf(text, forced);
    AllHitsForced(ds, text, policies);
    MaskListForced(AllHits(ds, text, policies));
  }

  /** The stored text is the given one with every merged span replaced by its label in
      brackets, byte by byte; it is a valid string. */
  lemma StoredReplaced(ds: seq<Detector>, text: Text, policies: seq<Policy>)
    requires Scannable(ds, text)
    ensures var hits := AllHits(ds, text, policies);
            && Nonempty(hits) && WellFormed(MaskAll(text, hits))
            && Replaced(text, FindingsOf(Clusters(hits)), MaskAll(text, hits))
  {
    hide *;
    ForcedText(ds, text, policies);
    ScanKeepsTheRest(ds, text, Map(ForcePolicy, policies));
    AllHitsForced(ds, text, policies);
    MaskListForced(AllHits(ds, text, policies));
  }

  lemma HitIsCovered(hits: seq<Hit>, h: Hit)
    requires Nonempty(hits) && h in hits
    ensures Masks(FindingsOf(Clusters(hits)), h.f.start, h.f.end)
  {
    var c := ClusterOf(hits, h);
    ToFindings(Clusters(hits), c);
  }

  /** What is stored has every match of every enabled policy masked whole, Block and
      Flag policies included. */
  lemma StoredMasksEveryMatch(ds: seq<Detector>, text: Text, policies: seq<Policy>, p: Policy, h: Hit)
    requires Scannable(ds, text) && p in policies && p.enabled && Detects(ds, text, p, h)
    ensures Masks(FindingsOf(Clusters(AllHits(ds, text, policies))), h.f.start, h.f.end)
  {
    HitsProper(ds, text, policies);
    Collected(ds, text, policies, h);
    HitIsCovered(AllHits(ds, text, policies), h);
  }
}
