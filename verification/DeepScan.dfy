/** `scan_deep`: the regex findings plus entities from the Presidio sidecar. */
module DeepScanning {
  import opened Utf8
  import opened Sequences
  import opened Findings
  import opened Splicing
  import opened Clustering
  import opened EmptySpans
  import opened Detection
  import opened Scanning

  /** What the sidecar did: not configured, failed, or answered. */
  datatype Sidecar = Absent | Failing | Answer(entities: seq<Finding>)

  // ---- Accepting entities

  predicate Clashes(hits: seq<Hit>, f: Finding) {
    exists g :: g in hits && SpansOverlap(f.start, f.end, g.f.start, g.f.end)
  }

  /** The entities that are taken: each is disjoint from everything before it. */
  function Accepted(hits: seq<Hit>, entities: seq<Finding>): seq<Hit>
    decreases |entities|
  {
    if entities == [] then []
    else if Clashes(hits, entities[0]) then Accepted(hits, entities[1..])
    else
      var h := Hit(entities[0], Redact);
      [h] + Accepted(hits + [h], entities[1..])
  }

  function Added(hits: seq<Hit>, sidecar: Sidecar): seq<Hit> {
    if sidecar.Answer? && !Blocks(hits) then Accepted(hits, sidecar.entities) else []
  }

  function DeepHits(hits: seq<Hit>, sidecar: Sidecar): seq<Hit> {
    hits + Added(hits, sidecar)
  }

  /** What the edits need of the entities that are taken: `replace_range` panics on a span
      inside the text that ends before it starts or is not on character boundaries. The
      guard skips spans past the end, and an empty span is an insertion. */
  ghost predicate Editable(text: Text, more: seq<Hit>) {
    Spans(more) && forall a :: a in more && a.f.end <= |text| ==> Aligned(text, a.f)
  }

  method AnyOverlap(findings: seq<Hit>, f: Finding) returns (overlaps: bool)
    ensures overlaps <==> Clashes(findings, f)
  {
    overlaps := false;
    for i := 0 to |findings|
      invariant overlaps <==> Clashes(findings[..i], f)
    {
      assert findings[..i + 1] == findings[..i] + [findings[i]];
      if SpansOverlap(f.start, f.end, findings[i].f.start, findings[i].f.end) {
        assert findings[i] in findings[..i + 1];
        overlaps := true;
      }
    }
    assert findings[..|findings|] == findings;
  }

  method AcceptEntities(regex: seq<Hit>, entities: seq<Finding>) returns (findings: seq<Hit>)
    ensures findings == regex + Accepted(regex, entities)
  {
    findings := regex;
    for i := 0 to |entities|
      invariant findings + Accepted(findings, entities[i..]) == regex + Accepted(regex, entities)
    {
      var f := entities[i];
      assert entities[i..][1..] == entities[i + 1..];
      var overlaps := AnyOverlap(findings, f);
      if !overlaps {
        var h := Hit(f, Redact);
        assert findings + ([h] + Accepted(findings + [h], entities[i + 1..]))
               == findings + [h] + Accepted(findings + [h], entities[i + 1..]);
        findings := findings + [h];
      }
    }
    assert entities[|entities|..] == [];
  }

  lemma {:induction false} AcceptedAreEntities(hits: seq<Hit>, entities: seq<Finding>, a: Hit)
    requires a in Accepted(hits, entities)
    ensures a.f in entities && a.action == Redact && !Clashes(hits, a.f)
    decreases |entities|
  {
    if Clashes(hits, entities[0]) {
      AcceptedAreEntities(hits, entities[1..], a);
    } else {
      var h := Hit(entities[0], Redact);
      if a != h {
        AcceptedAreEntities(hits + [h], entities[1..], a);
        assert forall g :: g in hits ==> g in hits + [h];
      }
    }
  }

  lemma DeepHitsGood(text: Text, hits: seq<Hit>, sidecar: Sidecar)
    requires Editable(text, Added(hits, sidecar)) && forall h :: h in hits ==> Proper(text, h)
    ensures Spans(DeepHits(hits, sidecar))
    ensures forall h :: h in DeepHits(hits, sidecar) && h.f.end <= |text| ==> Aligned(text, h.f)
    ensures Blocks(DeepHits(hits, sidecar)) <==> Blocks(hits)
  {
    var more := Added(hits, sidecar);
    BlocksConcat(hits, more);
    if sidecar.Answer? && !Blocks(hits) {
      forall a | a in more ensures a.action == Redact {
        AcceptedAreEntities(hits, sidecar.entities, a);
      }
    }
  }

  method ScanDeep(ds: seq<Detector>, input: Text, policies: seq<Policy>, sidecar: Sidecar) returns (r: ScanResult)
    requires Scannable(ds, input) && Editable(input, Added(AllHits(ds, input, policies), sidecar))
    ensures Spans(DeepHits(AllHits(ds, input, policies), sidecar))
    ensures r == Outcome(input, DeepHits(AllHits(ds, input, policies), sidecar))
  {
    var findings, blocked := CollectFindings(ds, input, policies);
    HitsProper(ds, input, policies);
    DeepHitsGood(input, findings, sidecar);
    assert findings + [] == findings;
    if sidecar.Answer? && !blocked {
      findings := AcceptEntities(findings, sidecar.entities);
    }
    r := Finish(input, findings, blocked);
  }

  // ---- It only adds to scan

  lemma {:induction false} AcceptedApart(hits: seq<Hit>, entities: seq<Finding>, i: nat, j: nat)
    requires i < j < |Accepted(hits, entities)|
    ensures !Overlap(Accepted(hits, entities)[i], Accepted(hits, entities)[j])
    decreases |entities|
  {
    if Clashes(hits, entities[0]) {
      AcceptedApart(hits, entities[1..], i, j);
    } else {
      var h := Hit(entities[0], Redact);
      var more := Accepted(hits + [h], entities[1..]);
      if i == 0 {
        AcceptedAreEntities(hits + [h], entities[1..], more[j - 1]);
        assert h in hits + [h];
      } else {
        AcceptedApart(hits + [h], entities[1..], i - 1, j - 1);
      }
    }
  }

  ghost predicate PairwiseApart(m: seq<Hit>) {
    forall i, j :: 0 <= i < j < |m| ==> !Overlap(m[i], m[j])
  }

  /** Accepted entities next to the regex findings they were checked against. */
  ghost predicate Extends(hits: seq<Hit>, more: seq<Hit>) {
    && Nonempty(hits) && Spans(more)
    && (forall a :: a in more ==> a.action == Redact)
    && (forall a, r :: a in more && r in hits ==> !Overlap(a, r))
    && PairwiseApart(more)
  }

  lemma AcceptedExtends(hits: seq<Hit>, entities: seq<Finding>)
    requires Nonempty(hits) && Spans(Accepted(hits, entities))
    ensures Extends(hits, Accepted(hits, entities))
  {
    var more := Accepted(hits, entities);
    forall a | a in more ensures a.action == Redact && forall r :: r in hits ==> !Overlap(a, r) {
      AcceptedAreEntities(hits, entities, a);
    }
    forall i, j | 0 <= i < j < |more| ensures !Overlap(more[i], more[j]) {
      AcceptedApart(hits, entities, i, j);
    }
  }

  /** What overlaps a merged finding overlaps one of its members. */
  lemma OverlapsMember(hits: seq<Hit>, a: Hit, c: Hit)
    requires Nonempty(hits) && c in Clusters(hits) && a.f.start <= a.f.end && Overlap(a, c)
    ensures exists r :: r in hits && Overlap(a, r)
  {
    hide Clusters, IsClustering;
    ClustersAreClustering(hits);
    InClustering(hits, Clusters(hits), c);
    if a.f.start < a.f.end {
      var k := if a.f.start < c.f.start then c.f.start else a.f.start;
      SameBytes(hits, Clusters(hits), k);
      assert c in Clusters(hits) && c.f.start <= k < c.f.end;
      var r :| r in hits && r.f.start <= k < r.f.end;
      assert Overlap(a, r);
    } else {
      assert CrossedBy(hits, a.f.start);
      var r :| r in hits && Crosses(r, a.f.start);
      assert Overlap(a, r);
    }
  }

  /** An accepted entity shares no byte with a merged regex finding, and stands in none. */
  lemma EntityOutsideClusters(hits: seq<Hit>, more: seq<Hit>, a: Hit, c: Hit)
    requires Extends(hits, more) && a in more && c in Clusters(hits)
    ensures !Overlap(a, c)
  {
    hide Clusters, Overlap;
    if Overlap(a, c) {
      OverlapsMember(hits, a, c);
    }
  }

  // ---- Entities that are not empty

  /** Every merged regex finding survives unchanged. */
  lemma FullSurvives(hits: seq<Hit>, more: seq<Hit>, c: Hit)
    requires Extends(hits, more) && Nonempty(more) && c in Clusters(hits)
    ensures c in Clusters(hits + more)
  {
    var lo, hi := c.f.start, c.f.end;
    ClusterEdges(hits, c);
    hide Clusters, CrossedBy;
    forall a | a in more ensures !Crosses(a, lo) && !Crosses(a, hi) && !Inside(lo, hi)(a) {
      EntityOutsideClusters(hits, more, a, c);
    }
    assert Nonempty(hits + more);
    hide Extends, Inside, Filter, Crosses;
    UncrossedConcat(hits, more, lo);
    UncrossedConcat(hits, more, hi);
    FilterConcat(Inside(lo, hi), hits, more);
    FilterNone(Inside(lo, hi), more);
    assert Window(hits + more, lo, hi) == Window(hits, lo, hi);
    WindowKeepsClusters(hits, lo, hi, c);
    WindowKeepsClusters(hits + more, lo, hi, c);
  }

  lemma UncrossedConcat(a: seq<Hit>, b: seq<Hit>, k: int)
    requires !CrossedBy(a, k) && forall h :: h in b ==> !Crosses(h, k)
    ensures !CrossedBy(a + b, k)
  {
  }

  /** Every accepted entity becomes a merged finding of its own. */
  lemma EntityAdded(hits: seq<Hit>, more: seq<Hit>, i: nat)
    requires Extends(hits, more) && Nonempty(more) && i < |more|
    ensures more[i] in Clusters(hits + more)
  {
    var a := more[i];
    var lo, hi := a.f.start, a.f.end;
    var pre, post := hits + more[..i], more[i + 1..];
    assert pre + ([a] + post) == hits + more;
    assert a in more;
    forall h | h in pre || h in post ensures !Overlap(h, a) {
      if h in pre && h !in hits {
        var j :| 0 <= j < i && more[j] == h;
      } else if h in post {
        var j :| i < j < |more| && more[j] == h;
      }
    }
    assert Nonempty(hits + more);
    forall h | h in hits + more ensures !Crosses(h, lo) && !Crosses(h, hi) {
    }
    hide Extends;
    FilterNone(Inside(lo, hi), pre);
    FilterNone(Inside(lo, hi), post);
    FilterConcat(Inside(lo, hi), pre, [a] + post);
    FilterConcat(Inside(lo, hi), [a], post);
    FilterAll(Inside(lo, hi), [a]);
    assert Window(hits + more, lo, hi) == [a];
    ClustersOfSeparated([a]);
    WindowKeepsClusters(hits + more, lo, hi, a);
  }

  /** Nothing else appears. */
  lemma NothingElseAdded(hits: seq<Hit>, more: seq<Hit>, c: Hit)
    requires Extends(hits, more) && Nonempty(more) && c in Clusters(hits + more)
    ensures c in Clusters(hits) || c in more
  {
    var all := hits + more;
    assert Nonempty(all);
    ClustersAreClustering(all);
    InClustering(all, Clusters(all), c);
    var l := Leader(all, c);
    if l in hits {
      var d := ClusterOf(hits, l);
      FullSurvives(hits, more, d);
      Disjoint(Clusters(all), c, d, l.f.start);
    } else {
      var i :| 0 <= i < |more| && more[i] == l;
      EntityAdded(hits, more, i);
      Disjoint(Clusters(all), c, l, l.f.start);
    }
  }

  lemma FullMerged(hits: seq<Hit>, more: seq<Hit>, c: Hit)
    requires Extends(hits, more) && Nonempty(more)
    ensures c in Clusters(hits + more) <==> c in Clusters(hits) || c in more
  {
    hide Extends, Clusters;
    if c in Clusters(hits + more) {
      NothingElseAdded(hits, more, c);
    }
    if c in Clusters(hits) {
      FullSurvives(hits, more, c);
    }
    if c in more {
      var i :| 0 <= i < |more| && more[i] == c;
      EntityAdded(hits, more, i);
    }
  }

  // ---- Entities that may be empty

  lemma {:induction false} FilterApart(keep: Hit -> bool, more: seq<Hit>)
    requires PairwiseApart(more)
    ensures PairwiseApart(Filter(keep, more))
  {
    if more != [] {
      var rest := more[1..];
      forall b | b in rest ensures !Overlap(more[0], b) {
        var k :| 0 <= k < |rest| && rest[k] == b;
        assert more[k + 1] == b;
      }
      assert PairwiseApart(rest);
      FilterApart(keep, rest);
      var tail := Filter(keep, rest);
      if keep(more[0]) {
        ConsApart(more[0], tail);
      } else {
        assert [] + tail == tail;
      }
    }
  }

  lemma ConsApart(a: Hit, m: seq<Hit>)
    requires PairwiseApart(m) && forall b :: b in m ==> !Overlap(a, b)
    ensures PairwiseApart([a] + m)
  {
    var r := [a] + m;
    forall i, j | 0 <= i < j < |r| ensures !Overlap(r[i], r[j]) {
      assert r[j] == m[j - 1] && m[j - 1] in m;
      assert i > 0 ==> r[i] == m[i - 1];
    }
  }

  lemma FullOfExtends(hits: seq<Hit>, more: seq<Hit>)
    requires Extends(hits, more)
    ensures Extends(hits, Filter(Full, more)) && Nonempty(Filter(Full, more))
    ensures Filter(Full, hits + more) == hits + Filter(Full, more)
  {
    FilterApart(Full, more);
    FilterConcat(Full, hits, more);
    FilterAll(Full, hits);
  }

  lemma ExtendsClear(hits: seq<Hit>, more: seq<Hit>)
    requires Extends(hits, more)
    ensures Spans(hits + more) && Clear(hits + more)
    ensures forall c :: Raised(hits + more)(c) == Raised(more)(c)
  {
    var all := hits + more;
    assert forall h :: h in all <==> h in hits || h in more;
    forall e, g | e in all && g in all && Hollow(e) && Full(g) ensures !Crosses(g, e.f.start) {
      assert e in more;
      if g in more {
        var i :| 0 <= i < |more| && more[i] == e;
        var j :| 0 <= j < |more| && more[j] == g;
        assert i < j ==> !Overlap(more[i], more[j]);
        assert j < i ==> !Overlap(more[j], more[i]);
      } else {
        assert !Overlap(e, g);
      }
    }
    forall c ensures Raises(all, c) == Raises(more, c) {
    }
  }

  /** The merged findings of a deep scan: the merged regex findings, each with its action
      raised to Redact if an empty entity stands at its start, and of the accepted entities
      all that are not empty, and the empty ones at whose place nothing else starts. */
  lemma DeepMerged(hits: seq<Hit>, more: seq<Hit>, d: Hit)
    requires Extends(hits, more)
    ensures d in Clusters(hits + more)
       <==> (exists c :: c in Clusters(hits) && Raised(more)(c) == d) || (d in more && (Full(d) || Free(hits + more, d)))
  {
    hide *;
    var all, fulls := hits + more, Filter(Full, more);
    FullOfExtends(hits, more);
    ExtendsClear(hits, more);
    ClustersWithEmpty(all, d);
    if d in more && Full(d) {
      FullMerged(hits, fulls, d);
      RedactStays(hits, more, d);
      assert d in Clusters(Filter(Full, all));
    }
    if c :| c in Clusters(hits) && Raised(more)(c) == d {
      FullMerged(hits, fulls, c);
      ClusterIsFull(hits, c);
      RaisedSpan(more, c);
      SameSpan(c, d);
      assert c in Clusters(Filter(Full, all));
    }
    if c :| c in Clusters(Filter(Full, all)) && Full(d) && Raised(all)(c) == d {
      FullMerged(hits, fulls, c);
      if c in fulls {
        RedactStays(hits, more, c);
      }
    }
    NoneHollow(hits, more, d);
  }

  lemma SameSpan(c: Hit, d: Hit)
    requires c.f == d.f
    ensures Full(c) <==> Full(d)
  {
  }

  lemma ClusterIsFull(hits: seq<Hit>, c: Hit)
    requires Nonempty(hits) && c in Clusters(hits)
    ensures Full(c)
  {
    ClusterEdges(hits, c);
  }

  lemma NoneHollow(hits: seq<Hit>, more: seq<Hit>, d: Hit)
    requires Nonempty(hits)
    ensures d in hits + more && Free(hits + more, d) ==> d in more
  {
  }

  lemma RedactStays(hits: seq<Hit>, more: seq<Hit>, a: Hit)
    requires Extends(hits, more) && a in more
    ensures Raised(more)(a) == a
  {
  }

  /** Every merged regex finding survives with its span and label; its action changes, to
      Redact, only if an empty entity stands at its start. */
  lemma ClusterSurvives(hits: seq<Hit>, more: seq<Hit>, c: Hit)
    requires Extends(hits, more) && c in Clusters(hits)
    ensures exists d :: d in Clusters(hits + more) && d.f == c.f
                        && d.action == if Raises(more, c) then Stronger(c.action, Redact) else c.action
  {
    DeepMerged(hits, more, Raised(more)(c));
  }

  ghost predicate OnlyAdds(hits: seq<Hit>, more: seq<Hit>) {
    forall c :: c in Clusters(hits + more) <==> c in Clusters(hits) || c in more
  }

  /** A deep scan only adds its entities exactly when no other finding starts at the place
      of an empty one. */
  lemma OnlyAddsIff(hits: seq<Hit>, more: seq<Hit>)
    requires Extends(hits, more)
    ensures OnlyAdds(hits, more) <==> forall e :: e in more && Hollow(e) ==> Free(hits + more, e)
  {
    forall c | c in Clusters(hits) ensures Full(c) {
      ClusterEdges(hits, c);
    }
    if forall e :: e in more && Hollow(e) ==> Free(hits + more, e) {
      forall c | c in Clusters(hits) ensures Raised(more)(c) == c {
        NotRaisedWhenFree(hits, more, c);
      }
      hide Clusters, Raised, Free, Extends;
      forall d ensures d in Clusters(hits + more) <==> d in Clusters(hits) || d in more {
        DeepMerged(hits, more, d);
        if d in more {
          EntitySpan(hits, more, d);
        }
      }
    } else {
      var e :| e in more && Hollow(e) && !Free(hits + more, e);
      DeepMerged(hits, more, e);
      forall c | c in Clusters(hits) ensures c != e && Raised(more)(c) != e {
        RaisedSpan(more, c);
      }
    }
  }

  /** An empty entity at the start of a Flag finding makes it a Redact finding. */
  lemma EmptyEntityRaises(f: Finding, e: Finding)
    requires f.start < f.end && e.start == e.end == f.start
    ensures var hits := [Hit(f, Flag)];
            var more := Accepted(hits, [e]);
            && more == [Hit(e, Redact)] && Extends(hits, more)
            && Hit(f, Redact) in Clusters(hits + more) && !OnlyAdds(hits, more)
  {
    var hits, a := [Hit(f, Flag)], Hit(e, Redact);
    assert [e][1..] == [];
    assert Accepted(hits, [e]) == [a];
    assert hits[0] in hits && a in [a];
    assert !Free(hits + [a], a) by { assert hits[0] in hits + [a]; }
    assert Raises([a], hits[0]);
    assert Separated(hits);
    assert Extends(hits, [a]);
    hide *;
    ClustersOfSeparated(hits);
    ClusterSurvives(hits, [a], hits[0]);
    OnlyAddsIff(hits, [a]);
    HollowIs(a);
  }

  lemma HollowIs(a: Hit)
    ensures Hollow(a) <==> a.f.start == a.f.end
    ensures Stronger(Flag, Redact) == Redact
  {
  }

  lemma EntitySpan(hits: seq<Hit>, more: seq<Hit>, d: Hit)
    requires Extends(hits, more) && d in more
    ensures Full(d) || Hollow(d)
  {
  }

  lemma NotRaisedWhenFree(hits: seq<Hit>, more: seq<Hit>, c: Hit)
    requires Nonempty(hits) && c in Clusters(hits) && forall e :: e in more && Hollow(e) ==> Free(hits + more, e)
    ensures Raised(more)(c) == c
  {
    ClustersAreClustering(hits);
    InClustering(hits, Clusters(hits), c);
    var l := Leader(hits, c);
    assert l in hits + more;
  }

  lemma {:induction false} ReachableHas(fs: seq<Finding>, n: nat, f: Finding)
    requires Ordered(fs) && f in fs && f.end <= n
    ensures f in Reachable(fs, n)
  {
    var i :| 0 <= i < |fs| && fs[i] == f;
    if i > 0 {
      assert fs[0] in fs && fs[0].end <= fs[i].start;
      assert fs[1..][i - 1] == f;
      ReachableHas(fs[1..], n, f);
    }
  }

  /** A deep scan blocks exactly when the scan does; its merged findings are those of the
      scan plus the accepted entities exactly when no empty one stands where another finding
      starts; and every byte the scan masks it masks too. */
  lemma DeepExtendsScan(ds: seq<Detector>, text: Text, policies: seq<Policy>, sidecar: Sidecar)
    requires Scannable(ds, text) && Editable(text, Added(AllHits(ds, text, policies), sidecar))
    ensures var hits := AllHits(ds, text, policies);
            var added, deep := Added(hits, sidecar), DeepHits(hits, sidecar);
            && Nonempty(hits) && Spans(deep) && Ordered(Edits(Clusters(deep)))
            && Outcome(text, deep).blocked == Outcome(text, hits).blocked
            && Extends(hits, added)
            && (OnlyAdds(hits, added) <==> forall e :: e in added && Hollow(e) ==> Free(deep, e))
            && (forall f :: f in MaskList(hits) ==> f in Reachable(Edits(Clusters(deep)), |text|))
            && (!sidecar.Answer? || Blocks(hits) ==> Outcome(text, deep) == Outcome(text, hits))
  {
    var hits := AllHits(ds, text, policies);
    var added, deep := Added(hits, sidecar), DeepHits(hits, sidecar);
    HitsProper(ds, text, policies);
    DeepHitsGood(text, hits, sidecar);
    AddedExtends(hits, sidecar, text);
    assert deep == hits + added && (added == [] ==> deep == hits);
    assert !sidecar.Answer? || Blocks(hits) ==> added == [];
    hide *;
    NonemptySpans(hits);
    OutcomeParts(text, deep);
    OutcomeParts(text, hits);
    OnlyAddsIff(hits, added);
    DeepMasks(text, hits, added);
  }

  lemma AddedExtends(hits: seq<Hit>, sidecar: Sidecar, text: Text)
    requires Nonempty(hits) && Editable(text, Added(hits, sidecar))
    ensures Extends(hits, Added(hits, sidecar))
  {
    if sidecar.Answer? && !Blocks(hits) {
      AcceptedExtends(hits, sidecar.entities);
    }
  }

  lemma DeepMasks(text: Text, hits: seq<Hit>, more: seq<Hit>)
    requires Extends(hits, more) && forall h :: h in hits ==> Proper(text, h)
    ensures Spans(hits + more) && Ordered(Edits(Clusters(hits + more)))
    ensures forall f :: f in MaskList(hits) ==> f in Reachable(Edits(Clusters(hits + more)), |text|)
  {
    hide *;
    ExtendsClear(hits, more);
    OutcomeParts(text, hits + more);
    MaskListFits(text, hits);
    FitsParts(text, MaskList(hits), 0);
    forall f | f in MaskList(hits) ensures f in Reachable(Edits(Clusters(hits + more)), |text|) {
      var c := FromMaskList(hits, f);
      ClusterSurvives(hits, more, c);
      var d :| d in Clusters(hits + more) && d.f == c.f
               && d.action == if Raises(more, c) then Stronger(c.action, Redact) else c.action;
      RedactBoth(c, d, Raises(more, c));
      EditsMembers(Clusters(hits + more), f);
      ReachableHas(Edits(Clusters(hits + more)), |text|, f);
    }
  }

  lemma RedactBoth(c: Hit, d: Hit, raised: bool)
    requires c.action == Redact && d.action == if raised then Stronger(c.action, Redact) else c.action
    ensures IsRedact(d)
  {
  }
}
