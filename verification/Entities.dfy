/** What becomes of the entities of a deep scan: which are accepted, said without an
    algorithm, and what each of them leaves among the merged findings. */
module Entities {
  import opened Utf8
  import opened Findings
  import opened Splicing
  import opened Clustering
  import opened EmptySpans
  import opened Sequences
  import opened Detection
  import opened DeepScanning

  // ---- Which entities are accepted

  predicate Shares(a: Finding, b: Finding) {
    a.start < b.end && b.start < a.end
  }

  /** Entity `i` overlaps no finding and none of the entities in `picks` that come before it. */
  ghost predicate Stands(hits: seq<Hit>, entities: seq<Finding>, picks: seq<nat>, i: nat)
    requires i < |entities|
  {
    && (forall g :: g in hits ==> !Shares(entities[i], g.f))
    && forall j: nat :: j in picks && j < i ==> !Shares(entities[i], entities[j])
  }

  ghost predicate Rising(picks: seq<nat>) {
    forall m, n :: 0 <= m < n < |picks| ==> picks[m] < picks[n]
  }

  /** Of the first `n` entities exactly those that stand are picked, in their order. */
  ghost predicate Picks(hits: seq<Hit>, entities: seq<Finding>, picks: seq<nat>, n: nat) {
    && n <= |entities| && Rising(picks) && (forall i :: i in picks ==> i < n)
    && forall i: nat :: i < n ==> (i in picks <==> Stands(hits, entities, picks, i))
  }

  /** The picked entities, each as a Redact finding. */
  ghost predicate ArePicked(entities: seq<Finding>, picks: seq<nat>, more: seq<Hit>) {
    && |more| == |picks|
    && forall m :: 0 <= m < |picks| ==> picks[m] < |entities| && more[m].f == entities[picks[m]] && more[m].action == Redact
  }

  lemma {:induction false} AcceptedSnoc(hits: seq<Hit>, es: seq<Finding>, e: Finding)
    ensures var more := Accepted(hits, es);
            Accepted(hits, es + [e]) == more + if Clashes(hits + more, e) then [] else [Hit(e, Redact)]
    decreases |es|
  {
    if es == [] {
      assert es + [e] == [e] && [e][1..] == [] && hits + [] == hits;
    } else {
      var h := Hit(es[0], Redact);
      assert (es + [e])[0] == es[0] && (es + [e])[1..] == es[1..] + [e];
      if Clashes(hits, es[0]) {
        AcceptedSnoc(hits, es[1..], e);
      } else {
        AcceptedSnoc(hits + [h], es[1..], e);
        var rest := Accepted(hits + [h], es[1..]);
        assert hits + [h] + rest == hits + ([h] + rest);
      }
    }
  }

  lemma ClashesIff(hits: seq<Hit>, entities: seq<Finding>, picks: seq<nat>, more: seq<Hit>, i: nat)
    requires Picks(hits, entities, picks, i) && ArePicked(entities, picks, more) && i < |entities|
    ensures Clashes(hits + more, entities[i]) <==> !Stands(hits, entities, picks, i)
  {
    if Clashes(hits + more, entities[i]) {
      var g :| g in hits + more && SpansOverlap(entities[i].start, entities[i].end, g.f.start, g.f.end);
      if g !in hits {
        var m :| 0 <= m < |more| && more[m] == g;
        assert picks[m] in picks && Shares(entities[i], entities[picks[m]]);
      } else {
        assert Shares(entities[i], g.f);
      }
    }
    if !Stands(hits, entities, picks, i) {
      if g :| g in hits && Shares(entities[i], g.f) {
        assert g in hits + more;
      } else {
        var j :| j in picks && j < i && Shares(entities[i], entities[j]);
        var m :| 0 <= m < |picks| && picks[m] == j;
        assert more[m] in hits + more;
      }
    }
  }

  lemma PickNext(hits: seq<Hit>, entities: seq<Finding>, picks: seq<nat>, i: nat)
    requires Picks(hits, entities, picks, i) && i < |entities|
    ensures Picks(hits, entities, if Stands(hits, entities, picks, i) then picks + [i] else picks, i + 1)
  {
    var next := if Stands(hits, entities, picks, i) then picks + [i] else picks;
    hide Stands;
    forall m, n | 0 <= m < n < |next| ensures next[m] < next[n] {
      assert picks[m] in picks;
    }
    assert forall j: nat :: j < i ==> (j in next <==> j in picks);
    forall k: nat | k < i + 1 ensures k in next <==> Stands(hits, entities, next, k) {
      StandsSame(hits, entities, picks, next, k);
      assert k < i ==> (k in picks <==> Stands(hits, entities, picks, k));
    }
  }

  lemma StandsSame(hits: seq<Hit>, entities: seq<Finding>, a: seq<nat>, b: seq<nat>, k: nat)
    requires k < |entities| && forall j: nat :: j < k ==> (j in a <==> j in b)
    ensures Stands(hits, entities, a, k) <==> Stands(hits, entities, b, k)
  {
  }

  /** An entity is accepted exactly when it overlaps no finding and no accepted entity before
      it, and the accepted ones keep their order. */
  lemma AcceptedExactly(hits: seq<Hit>, entities: seq<Finding>) returns (picks: seq<nat>)
    ensures Picks(hits, entities, picks, |entities|) && ArePicked(entities, picks, Accepted(hits, entities))
  {
    hide *;
    picks := [];
    NothingPicked(hits, entities);
    for i := 0 to |entities|
      invariant Picks(hits, entities, picks, i) && ArePicked(entities, picks, Accepted(hits, entities[..i]))
    {
      var more := Accepted(hits, entities[..i]);
      AcceptedSnoc(hits, entities[..i], entities[i]);
      assert entities[..i] + [entities[i]] == entities[..i + 1];
      ClashesIff(hits, entities, picks, more, i);
      PickNext(hits, entities, picks, i);
      if Stands(hits, entities, picks, i) {
        PickedNext(entities, picks, more, i);
        picks := picks + [i];
      } else {
        assert more + [] == more;
      }
    }
    assert entities[..|entities|] == entities;
  }

  lemma NothingPicked(hits: seq<Hit>, entities: seq<Finding>)
    ensures Picks(hits, entities, [], 0) && ArePicked(entities, [], Accepted(hits, entities[..0]))
  {
  }

  lemma PickedNext(entities: seq<Finding>, picks: seq<nat>, more: seq<Hit>, i: nat)
    requires ArePicked(entities, picks, more) && i < |entities|
    ensures ArePicked(entities, picks + [i], more + [Hit(entities[i], Redact)])
  {
  }

  // ---- No other choice meets that

  lemma SameChoice(hits: seq<Hit>, entities: seq<Finding>, a: seq<nat>, b: seq<nat>, i: nat)
    requires Picks(hits, entities, a, |entities|) && Picks(hits, entities, b, |entities|) && i <= |entities|
    ensures forall k: nat :: k < i ==> (k in a <==> k in b)
  {
    if i > 0 {
      SameChoice(hits, entities, a, b, i - 1);
      assert Stands(hits, entities, a, i - 1) <==> Stands(hits, entities, b, i - 1);
    }
  }

  lemma NotBehind(a: seq<nat>, b: seq<nat>, n: nat)
    requires Rising(a) && Rising(b) && n < |a| && n <= |b| && a[..n] == b[..n] && a[n] in b
    ensures n < |b| && b[n] <= a[n]
  {
    assert forall k :: 0 <= k < n ==> a[..n][k] == a[k] && b[..n][k] == b[k];
    var m :| 0 <= m < |b| && b[m] == a[n];
    assert m >= n;
  }

  lemma SameRising(a: seq<nat>, b: seq<nat>, n: nat)
    requires Rising(a) && Rising(b) && n <= |a| && forall x :: x in a <==> x in b
    ensures n <= |b| && a[..n] == b[..n]
  {
    if n > 0 {
      SameRising(a, b, n - 1);
      NotBehind(a, b, n - 1);
      NotBehind(b, a, n - 1);
    }
  }

  lemma PicksAreExact(hits: seq<Hit>, entities: seq<Finding>, picks: seq<nat>, more: seq<Hit>)
    requires Picks(hits, entities, picks, |entities|) && ArePicked(entities, picks, more)
    ensures more == Accepted(hits, entities)
  {
    hide Accepted, Stands;
    var all := AcceptedExactly(hits, entities);
    SameChoice(hits, entities, picks, all, |entities|);
    SameRising(picks, all, |picks|);
    SameRising(all, picks, |all|);
    assert picks[..|picks|] == picks && all[..|all|] == all;
  }

  // ---- What they leave among the merged findings

  lemma CoveredWithEmpty(all: seq<Hit>, h: Hit) returns (d: Hit)
    requires Spans(all) && Clear(all) && h in all
    ensures d in Clusters(all) && Within(h, d)
  {
    var fulls := Filter(Full, all);
    var g := h;
    d := h;
    if !Free(all, h) {
      if Hollow(h) {
        g :| g in all && Full(g) && g.f.start == h.f.start;
      }
      var c := ClusterOf(fulls, g);
      d := Raised(all)(c);
      RaisedSpan(all, c);
    }
    hide Clusters, Clear;
    ClustersWithEmpty(all, d);
  }

  ghost predicate Covers(m: seq<Hit>, e: Finding, d: Hit) {
    d in m && d.action == Redact && d.f.start <= e.start && e.end <= d.f.end && (e.start < e.end ==> d.f == e)
  }

  lemma TakenIsMasked(hits: seq<Hit>, more: seq<Hit>, a: Hit) returns (d: Hit)
    requires Extends(hits, more) && !Blocks(hits) && a in more
    ensures Covers(Clusters(hits + more), a.f, d)
  {
    d := a;
    DeepMerged(hits, more, a);
    assert Full(a) || Hollow(a);
    if !Full(a) && !Free(hits + more, a) {
      var g :| g in hits + more && Full(g) && g.f.start == a.f.start;
      if g in more {
        d := g;
        DeepMerged(hits, more, g);
      } else {
        var c := ClusterOf(hits, g);
        EntityOutsideClusters(hits, more, a, c);
        d := Raised(more)(c);
        DeepMerged(hits, more, d);
        var l := ClusterLender(hits, c);
        assert Raises(more, c);
        assert l.action != Block;
      }
    }
  }

  lemma ClusterLender(hits: seq<Hit>, c: Hit) returns (l: Hit)
    requires Nonempty(hits) && c in Clusters(hits)
    ensures l in hits && l.action == c.action
  {
    ClustersAreClustering(hits);
    l := Lender(hits, c);
  }

  /** A Redact merged finding that ends inside the text is replaced by its label. */
  lemma CoverIsEdited(text: Text, m: seq<Hit>, e: Finding, d: Hit)
    requires Covers(m, e, d) && Ordered(Edits(m)) && d.f.end <= |text|
    ensures d.f in Reachable(Edits(m), |text|)
  {
    EditsMembers(m, d.f);
    ReachableHas(Edits(m), |text|, d.f);
  }

  lemma DroppedOverlaps(hits: seq<Hit>, more: seq<Hit>, e: Finding) returns (d: Hit)
    requires Extends(hits, more) && Clashes(hits + more, e)
    ensures d in Clusters(hits + more) && Shares(e, d.f)
  {
    var g :| g in hits + more && SpansOverlap(e.start, e.end, g.f.start, g.f.end);
    ExtendsClear(hits, more);
    d := CoveredWithEmpty(hits + more, g);
  }

  /** Of the merged findings of a deep scan: each accepted entity lies in a Redact one, and is
      one itself unless it is empty; each that is dropped overlaps one. */
  lemma EntityFate(hits: seq<Hit>, entities: seq<Finding>, i: nat) returns (picks: seq<nat>, d: Hit)
    requires Nonempty(hits) && !Blocks(hits) && Spans(Accepted(hits, entities)) && i < |entities|
    ensures Picks(hits, entities, picks, |entities|)
    ensures DeepHits(hits, Answer(entities)) == hits + Accepted(hits, entities)
    ensures i in picks ==> Covers(Clusters(DeepHits(hits, Answer(entities))), entities[i], d)
    ensures i !in picks ==> d in Clusters(DeepHits(hits, Answer(entities))) && Shares(entities[i], d.f)
  {
    var more := Accepted(hits, entities);
    assert DeepHits(hits, Answer(entities)) == hits + more;
    hide *;
    picks := AcceptedExactly(hits, entities);
    AcceptedExtends(hits, entities);
    if i in picks {
      var a := PickedHit(entities, picks, more, i);
      d := TakenIsMasked(hits, more, a);
    } else {
      NotPicked(hits, entities, picks, more, i);
      d := DroppedOverlaps(hits, more, entities[i]);
    }
  }

  lemma PickedHit(entities: seq<Finding>, picks: seq<nat>, more: seq<Hit>, i: nat) returns (a: Hit)
    requires ArePicked(entities, picks, more) && i in picks && i < |entities|
    ensures a in more && a.f == entities[i]
  {
    var m :| 0 <= m < |picks| && picks[m] == i;
    a := more[m];
  }

  lemma NotPicked(hits: seq<Hit>, entities: seq<Finding>, picks: seq<nat>, more: seq<Hit>, i: nat)
    requires Picks(hits, entities, picks, |entities|) && ArePicked(entities, picks, more)
    requires i < |entities| && i !in picks
    ensures Clashes(hits + more, entities[i])
  {
    assert !Stands(hits, entities, picks, i);
    if g :| g in hits && Shares(entities[i], g.f) {
      assert g in hits + more;
    } else {
      var j :| j in picks && j < i && Shares(entities[i], entities[j]);
      var m :| 0 <= m < |picks| && picks[m] == j;
      assert more[m] in hits + more;
    }
  }
}
