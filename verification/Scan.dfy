/** `scan` and at-rest redaction. */
module Scanning {
  import opened Utf8
  import opened Sequences
  import opened Findings
  import opened Splicing
  import opened SpliceLaws
  import opened Clustering
  import opened EmptySpans
  import opened Detection

  datatype ScanResult = ScanResult(text: Text, findings: seq<Finding>, blocked: bool)

  // ---- The result for given findings

  /** The spans that are masked: the clusters whose joined action is Redact. */
  function MaskList(hits: seq<Hit>): seq<Finding> {
    FindingsOf(Filter(IsRedact, Clusters(hits)))
  }

  /** The findings may be empty here, as entities from outside can be. */
  function Outcome(input: Text, hits: seq<Hit>): ScanResult
    requires Spans(hits)
  {
    ClustersLined(hits);
    EditsOrdered(Clusters(hits));
    ScanResult(Masked(input, Edits(Clusters(hits))), FindingsOf(Clusters(hits)), Blocks(hits))
  }

  lemma OutcomeParts(input: Text, hits: seq<Hit>)
    requires Spans(hits)
    ensures Ordered(Edits(Clusters(hits)))
    ensures Outcome(input, hits) == ScanResult(Masked(input, Edits(Clusters(hits))), FindingsOf(Clusters(hits)), Blocks(hits))
  {
    ClustersLined(hits);
    EditsOrdered(Clusters(hits));
  }

  /** The resulting text, byte by byte, for findings that may be empty or end past the input:
      those inside it give way to their labels in brackets. */
  lemma OutcomeReplaced(input: Text, hits: seq<Hit>)
    requires Spans(hits)
    ensures Ordered(Edits(Clusters(hits)))
    ensures Replaced(input, Reachable(Edits(Clusters(hits)), |input|), Outcome(input, hits).text)
  {
    hide *;
    OutcomeParts(input, hits);
    var fs := Edits(Clusters(hits));
    ReachableFits(input, fs);
    ReplacedIff(input, Reachable(fs, |input|), Splice(input, Reachable(fs, |input|), 0));
    MaskedIs(input, fs);
  }

  lemma MaskedIs(input: Text, fs: seq<Finding>)
    requires Ordered(fs) && Fits(input, Reachable(fs, |input|), 0)
    ensures Masked(input, fs) == Splice(input, Reachable(fs, |input|), 0)
  {
  }

  lemma NonemptySpans(hits: seq<Hit>)
    requires Nonempty(hits)
    ensures Spans(hits)
  {
  }

  lemma OutcomeOf(input: Text, hits: seq<Hit>)
    requires Nonempty(hits)
    ensures Spans(hits) && Ordered(MaskList(hits)) && Edits(Clusters(hits)) == MaskList(hits)
    ensures Outcome(input, hits) == ScanResult(Masked(input, MaskList(hits)), FindingsOf(Clusters(hits)), Blocks(hits))
  {
    hide *;
    NonemptySpans(hits);
    OutcomeParts(input, hits);
    ClustersSeparated(hits);
    EditsOfSeparated(Clusters(hits));
    MaskListIs(hits);
  }

  lemma MaskListIs(hits: seq<Hit>)
    ensures MaskList(hits) == FindingsOf(Filter(IsRedact, Clusters(hits)))
  {
  }

  /** A merged finding inside the text starts and ends on character boundaries if all
      findings inside it do. */
  lemma ClustersAligned(text: Text, hits: seq<Hit>, c: Hit)
    requires Spans(hits) && c in Clusters(hits) && c.f.end <= |text|
    requires forall h :: h in hits && h.f.end <= |text| ==> Aligned(text, h.f)
    ensures Aligned(text, c.f)
  {
    ClustersLined(hits);
    hide Clusters, Lined;
    var l :| l in hits && l.f.start == c.f.start && l.f.end <= c.f.end;
    var e :| e in hits && c.f.start <= e.f.start && e.f.end == c.f.end;
  }

  /** The end of `scan` and `scan_deep`: merge, edit and report. */
  method Finish(input: Text, hits: seq<Hit>, blocked: bool) returns (r: ScanResult)
    requires Spans(hits) && (blocked <==> Blocks(hits))
    requires forall h :: h in hits && h.f.end <= |input| ==> Aligned(input, h.f)
    ensures r == Outcome(input, hits)
  {
    hide *;
    var findings := DedupeFindings(hits);
    ClustersLined(hits);
    forall c | c in findings && c.f.end <= |input| ensures Aligned(input, c.f) {
      ClustersAligned(input, hits, c);
    }
    var text := ApplyRedactions(input, findings);
    OutcomeParts(input, hits);
    r := ScanResult(text, FindingsOf(findings), blocked);
  }

  /** A cluster inside the text starts and ends where findings do. */
  lemma ClustersProper(text: Text, hits: seq<Hit>, c: Hit)
    requires Nonempty(hits) && c in Clusters(hits) && c.f.end <= |text|
    requires forall h :: h in hits && h.f.end <= |text| ==> Proper(text, h)
    ensures Proper(text, c)
  {
    hide IsClustering, IsCluster, Clusters;
    ClustersAreClustering(hits);
    InClustering(hits, Clusters(hits), c);
    var l := Leader(hits, c);
    var e := Closer(hits, c);
  }

  ghost predicate Scannable(ds: seq<Detector>, text: Text) {
    Registry(ds) && WellFormed(text)
  }

  method Scan(ds: seq<Detector>, input: Text, policies: seq<Policy>) returns (r: ScanResult)
    requires Scannable(ds, input)
    ensures Nonempty(AllHits(ds, input, policies)) && Spans(AllHits(ds, input, policies))
    ensures r == Outcome(input, AllHits(ds, input, policies))
  {
    var findings, blocked := CollectFindings(ds, input, policies);
    HitsProper(ds, input, policies);
    ProperSpans(input, findings);
    r := Finish(input, findings, blocked);
  }

  lemma ProperSpans(text: Text, hits: seq<Hit>)
    requires forall h :: h in hits ==> Proper(text, h)
    ensures Nonempty(hits) && Spans(hits) && forall h :: h in hits ==> Aligned(text, h.f)
  {
  }

  // ---- What scan masks and keeps

  /** A request is blocked exactly when some merged span ends up with action Block. */
  lemma BlockedIffBlockCluster(input: Text, hits: seq<Hit>)
    requires Nonempty(hits)
    ensures Outcome(input, hits).blocked <==> exists c :: c in Clusters(hits) && c.action == Block
  {
    if h :| h in hits && h.action == Block {
      var c := ClusterOf(hits, h);
    }
    if c :| c in Clusters(hits) && c.action == Block {
      ClustersAreClustering(hits);
      var h := Lender(hits, c);
    }
  }

  lemma MaskListFits(text: Text, hits: seq<Hit>)
    requires forall h :: h in hits ==> Proper(text, h)
    ensures Nonempty(hits) && Fits(text, MaskList(hits), 0)
    ensures forall f :: f in MaskList(hits) ==> Aligned(text, f) && WellFormed(f.tag)
    ensures Outcome(text, hits).text == Splice(text, MaskList(hits), 0)
  {
    OutcomeOf(text, hits);
    var redacted := Filter(IsRedact, Clusters(hits));
    hide Outcome;
    forall f | f in MaskList(hits) ensures f.end <= |text| && Aligned(text, f) && WellFormed(f.tag) {
      var c := FromFindings(redacted, f);
      ClusterInside(text, hits, c);
    }
    ReachableAll(MaskList(hits), |text|);
  }

  lemma ClusterInside(text: Text, hits: seq<Hit>, c: Hit)
    requires c in Clusters(hits) && forall h :: h in hits ==> Proper(text, h)
    ensures Proper(text, c)
  {
    ClustersAreClustering(hits);
    var e := Closer(hits, c);
    ClustersProper(text, hits, c);
  }

  ghost predicate Masks(fs: seq<Finding>, start: nat, end: nat) {
    exists f :: f in fs && f.start <= start && end <= f.end
  }

  lemma MaskedCluster(hits: seq<Hit>, c: Hit)
    requires c in Clusters(hits) && IsRedact(c)
    ensures c.f in MaskList(hits)
  {
    ToFindings(Filter(IsRedact, Clusters(hits)), c);
  }

  /** Unless the request is blocked, every match of an enabled Redact policy is masked whole. */
  lemma RedactMatchesAreMasked(ds: seq<Detector>, text: Text, policies: seq<Policy>, p: Policy, h: Hit)
    requires Scannable(ds, text)
    requires p in policies && p.enabled && p.action == Redact && Detects(ds, text, p, h)
    requires !Blocks(AllHits(ds, text, policies))
    ensures Masks(MaskList(AllHits(ds, text, policies)), h.f.start, h.f.end)
  {
    var hits := AllHits(ds, text, policies);
    HitsProper(ds, text, policies);
    Collected(ds, text, policies, h);
    assert h.action == Redact;
    var c := ClusterOf(hits, h);
    ClustersAreClustering(hits);
    var d := Lender(hits, c);
    MaskedCluster(hits, c);
  }

  lemma FromMaskList(hits: seq<Hit>, f: Finding) returns (c: Hit)
    requires f in MaskList(hits)
    ensures c in Clusters(hits) && c.action == Redact && c.f == f
  {
    var redacted := Filter(IsRedact, Clusters(hits));
    c := FromFindings(redacted, f);
  }

  /** Every masked span has a Redact finding in it, */
  lemma MaskHasRedactFinding(hits: seq<Hit>, f: Finding) returns (h: Hit)
    requires Nonempty(hits) && f in MaskList(hits)
    ensures h in hits && h.action == Redact && f.start <= h.f.start && h.f.end <= f.end
  {
    var c := FromMaskList(hits, f);
    ClustersAreClustering(hits);
    h := Lender(hits, c);
  }

  /** and every masked byte belongs to a finding. */
  lemma OnlyFindingsAreMasked(hits: seq<Hit>, k: int)
    requires Nonempty(hits) && Hidden(MaskList(hits), k)
    ensures exists h :: h in hits && h.f.start <= k < h.f.end
  {
    var f :| f in MaskList(hits) && f.start <= k < f.end;
    var c := FromMaskList(hits, f);
    hide MaskList, Clusters, IsClustering;
    ClustersAreClustering(hits);
    SameBytes(hits, Clusters(hits), k);
  }

  /** The result is the text with each masked span replaced by its label in brackets, byte by
      byte and with nothing else changed; it is a valid string. */
  lemma ScanKeepsTheRest(ds: seq<Detector>, text: Text, policies: seq<Policy>)
    requires Scannable(ds, text)
    ensures var hits := AllHits(ds, text, policies);
            && Nonempty(hits)
            && var out := Outcome(text, hits).text;
            && WellFormed(out)
            && Replaced(text, MaskList(hits), out)
  {
    var hits := AllHits(ds, text, policies);
    HitsProper(ds, text, policies);
    MaskListFits(text, hits);
    assert IsBoundary(text, 0);
    hide *;
    var fs := MaskList(hits);
    SpliceWellFormed(text, fs, 0);
    ReplacedIff(text, fs, Splice(text, fs, 0));
  }
}
