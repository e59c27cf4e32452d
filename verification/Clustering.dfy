/** What `dedupe_findings` computes: the connected components of overlap, whatever the
    order of its input. */
module Clustering {
  import opened Sequences
  import opened Findings

  lemma MembersDecideOne(a: seq<Hit>, b: seq<Hit>, c: Hit)
    requires forall h :: h in a <==> h in b
    requires IsCluster(a, c)
    ensures IsCluster(b, c)
  {
    var l :| Leads(a, l, c);
    assert Leads(b, l, c);
    var e :| Closes(a, e, c);
    assert Closes(b, e, c);
    var d :| Lends(a, d, c);
    assert Lends(b, d, c);
    forall k | c.f.start < k < c.f.end ensures CrossedBy(b, k) {
      assert CrossedBy(a, k);
      var g :| g in a && Crosses(g, k);
      assert g in b && Crosses(g, k);
    }
  }

  lemma MembersDecide(a: seq<Hit>, b: seq<Hit>, m: seq<Hit>)
    requires forall h :: h in a <==> h in b
    requires IsClustering(a, m)
    ensures IsClustering(b, m)
  {
    hide IsCluster;
    forall c | c in m ensures IsCluster(b, c) {
      MembersDecideOne(a, b, c);
    }
  }

  lemma ClustersAreClustering(hits: seq<Hit>)
    requires Nonempty(hits)
    ensures IsClustering(hits, Clusters(hits))
  {
    hide IsClustering;
    var s := Sort(LeftmostWidest, hits);
    LeftmostWidestIsOrder();
    SortSorted(LeftmostWidest, hits);
    SortMembers(LeftmostWidest, hits);
    MergeIsClustering(s);
    MembersDecide(s, hits, Merge(s));
  }

  lemma Closer(hits: seq<Hit>, c: Hit) returns (e: Hit)
    requires IsCluster(hits, c)
    ensures Closes(hits, e, c)
  {
    e :| Closes(hits, e, c);
  }

  /** The merged span a finding went into. */
  lemma ClusterOf(hits: seq<Hit>, h: Hit) returns (c: Hit)
    requires Nonempty(hits) && h in hits
    ensures c in Clusters(hits) && Within(h, c) && Strength(h.action) <= Strength(c.action)
  {
    ClustersAreClustering(hits);
    assert Covered(h, Clusters(hits));
    c :| c in Clusters(hits) && Within(h, c);
    assert IsCluster(hits, c);
  }

  /** A member of a merged span that has its action. */
  lemma Lender(hits: seq<Hit>, c: Hit) returns (h: Hit)
    requires IsCluster(hits, c)
    ensures Lends(hits, h, c)
  {
    h :| Lends(hits, h, c);
  }

  lemma InClustering(hits: seq<Hit>, m: seq<Hit>, c: Hit)
    requires IsClustering(hits, m) && c in m
    ensures IsCluster(hits, c) && c.f.start < c.f.end
  {
  }

  // ---- Disjoint clusters

  lemma Disjoint(m: seq<Hit>, c: Hit, d: Hit, k: int)
    requires Separated(m) && c in m && d in m
    requires c.f.start <= k < c.f.end && d.f.start <= k < d.f.end
    ensures c == d
  {
    var i :| 0 <= i < |m| && m[i] == c;
    var j :| 0 <= j < |m| && m[j] == d;
  }

  /** Every finding lies in exactly one merged span. */
  lemma InExactlyOne(hits: seq<Hit>, m: seq<Hit>, h: Hit)
    requires Nonempty(hits) && IsClustering(hits, m) && h in hits
    ensures exists c :: c in m && Within(h, c) && forall d :: d in m && Overlap(h, d) ==> d == c
  {
    assert Covered(h, m);
    var c :| c in m && Within(h, c);
    forall d | d in m && Overlap(h, d) ensures d == c {
      Disjoint(m, c, d, if h.f.start < d.f.start then d.f.start else h.f.start);
    }
  }

  /** The merged spans cover the bytes of the findings and no others. */
  lemma SameBytes(hits: seq<Hit>, m: seq<Hit>, k: int)
    requires Nonempty(hits) && IsClustering(hits, m)
    ensures (exists h :: h in hits && h.f.start <= k < h.f.end) <==> (exists c :: c in m && c.f.start <= k < c.f.end)
  {
    if h :| h in hits && h.f.start <= k < h.f.end {
      assert Covered(h, m);
      var c :| c in m && Within(h, c);
      assert c in m && c.f.start <= k < c.f.end;
    }
    if c :| c in m && c.f.start <= k < c.f.end {
      assert IsCluster(hits, c);
      if k == c.f.start {
        var l :| Leads(hits, l, c);
        assert l in hits && l.f.start <= k < l.f.end;
      } else {
        assert CrossedBy(hits, k);
        var h :| h in hits && Crosses(h, k);
        assert h in hits && h.f.start <= k < h.f.end;
      }
    }
  }

  /** A point is interior to a merged span exactly when some finding crosses it. */
  lemma InteriorIffCrossed(hits: seq<Hit>, m: seq<Hit>, k: int)
    requires IsClustering(hits, m)
    ensures CrossedBy(hits, k) <==> CrossedBy(m, k)
  {
    if CrossedBy(hits, k) {
      var h :| h in hits && Crosses(h, k);
      assert Covered(h, m);
      var c :| c in m && Within(h, c);
      assert c in m && Crosses(c, k);
    }
    if CrossedBy(m, k) {
      var c :| c in m && Crosses(c, k);
      assert IsCluster(hits, c);
    }
  }

  lemma EdgesUncrossed(hits: seq<Hit>, m: seq<Hit>, c: Hit)
    requires IsClustering(hits, m) && c in m
    ensures !CrossedBy(hits, c.f.start) && !CrossedBy(hits, c.f.end)
  {
    InteriorIffCrossed(hits, m, c.f.start);
    InteriorIffCrossed(hits, m, c.f.end);
    forall d | d in m ensures !Crosses(d, c.f.start) && !Crosses(d, c.f.end) {
      if Crosses(d, c.f.start) {
        Disjoint(m, c, d, c.f.start);
      }
      if Crosses(d, c.f.end) {
        Disjoint(m, c, d, c.f.end - 1);
      }
    }
  }

  lemma ClusterEdges(hits: seq<Hit>, c: Hit)
    requires Nonempty(hits) && c in Clusters(hits)
    ensures c.f.start < c.f.end && !CrossedBy(hits, c.f.start) && !CrossedBy(hits, c.f.end)
  {
    ClustersAreClustering(hits);
    EdgesUncrossed(hits, Clusters(hits), c);
  }

  // ---- Uniqueness

  lemma SameSpan(hits: seq<Hit>, m1: seq<Hit>, m2: seq<Hit>, c: Hit) returns (d: Hit)
    requires Nonempty(hits) && IsClustering(hits, m1) && IsClustering(hits, m2) && c in m1
    ensures d in m2 && d.f.start == c.f.start && d.f.end == c.f.end
  {
    assert IsCluster(hits, c);
    var l :| Leads(hits, l, c);
    assert Covered(l, m2);
    d :| d in m2 && Within(l, d);
    assert IsCluster(hits, d);
    EdgesUncrossed(hits, m1, c);
    EdgesUncrossed(hits, m2, d);
    assert d.f.start < c.f.start ==> CrossedBy(hits, c.f.start);
    assert d.f.end < c.f.end ==> CrossedBy(hits, d.f.end);
    assert c.f.end < d.f.end ==> CrossedBy(hits, c.f.end);
  }

  lemma SameAction(hits: seq<Hit>, c: Hit, d: Hit)
    requires JoinedAction(hits, c) && JoinedAction(hits, d) && d.f.start == c.f.start && d.f.end == c.f.end
    ensures d.action == c.action
  {
    var x :| Lends(hits, x, c);
    var y :| Lends(hits, y, d);
    assert Within(x, d) && Within(y, c);
  }

  /** A candidate for the label of a merged span: no finding crosses its start, and none
      that starts there is wider. */
  ghost predicate Labels(hits: seq<Hit>, h: Hit) {
    && h in hits && !CrossedBy(hits, h.f.start)
    && forall g :: g in hits && g.f.start == h.f.start ==> g.f.end <= h.f.end
  }

  /** Where a merged span starts, all candidates have one label. */
  ghost predicate LabelsDetermined(hits: seq<Hit>) {
    forall g, h :: Labels(hits, g) && Labels(hits, h) && g.f.start == h.f.start ==> g.f.tag == h.f.tag
  }

  lemma SameTag(hits: seq<Hit>, c: Hit, d: Hit)
    requires LabelsDetermined(hits) && Tight(hits, c) && Tight(hits, d) && d.f.start == c.f.start
    requires !CrossedBy(hits, c.f.start)
    ensures d.f.tag == c.f.tag
  {
    hide CrossedBy;
    var x :| Leads(hits, x, c);
    var y :| Leads(hits, y, d);
    assert Labels(hits, x) && Labels(hits, y);
  }

  function Erase(h: Hit): Hit {
    Hit(h.f.(tag := []), h.action)
  }

  function EraseAll(m: seq<Hit>): (r: seq<Hit>)
    ensures |r| == |m| && forall i :: 0 <= i < |m| ==> r[i] == Erase(m[i])
  {
    if m == [] then [] else [Erase(m[0])] + EraseAll(m[1..])
  }

  lemma FirstIsFirst(a: seq<Hit>, b: seq<Hit>)
    requires Separated(a) && Separated(b) && a != [] && b != []
    requires a[0] in b && b[0] in a
    ensures a[0] == b[0]
  {
    var j :| 0 <= j < |b| && b[j] == a[0];
    var i :| 0 <= i < |a| && a[i] == b[0];
  }

  lemma SeparatedTail(m: seq<Hit>)
    requires Separated(m) && m != []
    ensures Separated(m[1..]) && forall h :: h in m[1..] <==> h in m && h != m[0]
  {
    var rest := m[1..];
    assert m == [m[0]] + rest && m[0] in m;
    forall i | 0 <= i < |rest| ensures rest[i] != m[0] {
      assert m[0].f.end <= m[i + 1].f.start;
    }
  }

  /** Separated sequences with the same members are equal. */
  lemma {:induction false} SeparatedExtensional(a: seq<Hit>, b: seq<Hit>)
    requires Separated(a) && Separated(b)
    requires forall h :: h in a <==> h in b
    ensures a == b
  {
    hide *;
    assert a != [] ==> a[0] in b;
    assert b != [] ==> b[0] in a;
    if a != [] && b != [] {
      FirstIsFirst(a, b);
      SeparatedTail(a);
      SeparatedTail(b);
      SeparatedExtensional(a[1..], b[1..]);
      assert a == [a[0]] + a[1..] && b == [b[0]] + b[1..];
    }
  }

  lemma ClusteringFound(hits: seq<Hit>, m1: seq<Hit>, m2: seq<Hit>, c: Hit)
    requires Nonempty(hits) && IsClustering(hits, m1) && IsClustering(hits, m2) && c in m1
    ensures exists d :: d in m2 && Erase(d) == Erase(c) && (LabelsDetermined(hits) ==> d == c)
  {
    var d := SameSpan(hits, m1, m2, c);
    assert IsCluster(hits, c) && IsCluster(hits, d);
    SameAction(hits, c, d);
    if LabelsDetermined(hits) {
      EdgesUncrossed(hits, m1, c);
      SameTag(hits, c, d);
    }
    assert d in m2 && Erase(d) == Erase(c);
  }

  lemma EraseFound(m1: seq<Hit>, m2: seq<Hit>, x: Hit)
    requires x in EraseAll(m1)
    requires forall c :: c in m1 ==> exists d :: d in m2 && Erase(d) == Erase(c)
    ensures x in EraseAll(m2)
  {
    var i :| 0 <= i < |m1| && EraseAll(m1)[i] == x;
    assert m1[i] in m1;
    var d :| d in m2 && Erase(d) == Erase(m1[i]);
    var j :| 0 <= j < |m2| && m2[j] == d;
    assert EraseAll(m2)[j] == x;
  }

  lemma {:induction false} EraseSeparated(m: seq<Hit>)
    requires Separated(m)
    ensures Separated(EraseAll(m))
  {
    var r := EraseAll(m);
    forall x | x in r ensures x.f.start < x.f.end {
      var i :| 0 <= i < |r| && r[i] == x;
      assert m[i] in m;
    }
  }

  lemma ErasedSubset(hits: seq<Hit>, m1: seq<Hit>, m2: seq<Hit>)
    requires Nonempty(hits) && IsClustering(hits, m1) && IsClustering(hits, m2)
    ensures forall x :: x in EraseAll(m1) ==> x in EraseAll(m2)
    ensures LabelsDetermined(hits) ==> forall c :: c in m1 ==> c in m2
  {
    hide IsClustering, LabelsDetermined;
    forall c | c in m1
      ensures exists d :: d in m2 && Erase(d) == Erase(c)
      ensures LabelsDetermined(hits) ==> c in m2
    {
      ClusteringFound(hits, m1, m2, c);
    }
    forall x | x in EraseAll(m1) ensures x in EraseAll(m2) {
      EraseFound(m1, m2, x);
    }
  }

  /** There is one clustering, up to the labels for which there are several candidates. */
  lemma ClusteringUnique(hits: seq<Hit>, m1: seq<Hit>, m2: seq<Hit>)
    requires Nonempty(hits) && IsClustering(hits, m1) && IsClustering(hits, m2)
    ensures EraseAll(m1) == EraseAll(m2)
    ensures LabelsDetermined(hits) ==> m1 == m2
  {
    assert Separated(m1) && Separated(m2);
    hide *;
    ErasedSubset(hits, m1, m2);
    ErasedSubset(hits, m2, m1);
    EraseSeparated(m1);
    EraseSeparated(m2);
    SeparatedExtensional(EraseAll(m1), EraseAll(m2));
    if LabelsDetermined(hits) {
      SeparatedExtensional(m1, m2);
    }
  }

  /** Neither the order nor the multiplicity of the findings changes the merged spans
      and actions; the labels are fixed too when the candidates for each agree. */
  lemma OrderIndependent(a: seq<Hit>, b: seq<Hit>)
    requires Nonempty(a) && forall h :: h in a <==> h in b
    ensures EraseAll(Clusters(a)) == EraseAll(Clusters(b))
    ensures LabelsDetermined(a) ==> Clusters(a) == Clusters(b)
  {
    hide IsClustering;
    ClustersAreClustering(a);
    ClustersAreClustering(b);
    MembersDecide(b, a, Clusters(b));
    ClusteringUnique(a, Clusters(a), Clusters(b));
  }

  // ---- Connected components

  ghost predicate Chain(hits: seq<Hit>, p: seq<Hit>) {
    && p != []
    && (forall x :: x in p ==> x in hits)
    && forall i :: 0 <= i < |p| - 1 ==> Overlap(p[i], p[i + 1])
  }

  /** `b` can be reached from `a` by steps between overlapping findings. */
  ghost predicate Linked(hits: seq<Hit>, a: Hit, b: Hit) {
    exists p :: Chain(hits, p) && p[0] == a && p[|p| - 1] == b
  }

  lemma LinkedStep(hits: seq<Hit>, a: Hit, h: Hit, b: Hit)
    requires a in hits && Overlap(a, h) && Linked(hits, h, b)
    ensures Linked(hits, a, b)
  {
    var p :| Chain(hits, p) && p[0] == h && p[|p| - 1] == b;
    var q := [a] + p;
    assert Chain(hits, q) by {
      forall i | 0 <= i < |q| - 1 ensures Overlap(q[i], q[i + 1]) {
        if i > 0 {
          assert Overlap(p[i - 1], p[i]);
        }
      }
    }
    assert q[|q| - 1] == b;
  }

  lemma LinkedPair(hits: seq<Hit>, a: Hit, b: Hit)
    requires a in hits && b in hits && Overlap(a, b)
    ensures Linked(hits, a, b)
  {
    var p := [a, b];
    assert Chain(hits, p) && p[0] == a && p[|p| - 1] == b;
  }

  lemma {:induction false} LinkedRight(hits: seq<Hit>, c: Hit, a: Hit, b: Hit)
    requires Nonempty(hits) && Tight(hits, c)
    requires a in hits && b in hits && c.f.start < a.f.end && Within(b, c) && a.f.start < b.f.end
    ensures Linked(hits, a, b)
    decreases b.f.end - a.f.end
  {
    if b.f.start < a.f.end {
      LinkedPair(hits, a, b);
    } else {
      assert CrossedBy(hits, a.f.end);
      var h :| h in hits && Crosses(h, a.f.end);
      if h.f.end <= b.f.end {
        LinkedRight(hits, c, h, b);
      } else {
        LinkedPair(hits, h, b);
      }
      LinkedStep(hits, a, h, b);
    }
  }

  lemma LinkedSymmetric(hits: seq<Hit>, a: Hit, b: Hit)
    requires Linked(hits, a, b)
    ensures Linked(hits, b, a)
  {
    var p :| Chain(hits, p) && p[0] == a && p[|p| - 1] == b;
    var q := seq(|p|, i requires 0 <= i < |p| => p[|p| - 1 - i]);
    assert Chain(hits, q) by {
      forall i | 0 <= i < |q| - 1 ensures Overlap(q[i], q[i + 1]) {
        assert Overlap(p[|p| - 2 - i], p[|p| - 2 - i + 1]);
      }
    }
    assert q[0] == b && q[|q| - 1] == a;
  }

  lemma ChainTail(hits: seq<Hit>, p: seq<Hit>)
    requires Chain(hits, p)
    ensures p != []
    ensures |p| > 1 ==> Overlap(p[0], p[1]) && p[1] in hits && Chain(hits, p[1..]) && p[1..][|p| - 2] == p[|p| - 1]
  {
    if |p| > 1 {
      var q := p[1..];
      assert Overlap(p[0], p[0 + 1]) && p[1] in p;
      forall i | 0 <= i < |q| - 1 ensures Overlap(q[i], q[i + 1]) {
        assert Overlap(p[i + 1], p[i + 1 + 1]);
      }
    }
  }

  lemma OverlapStays(hits: seq<Hit>, m: seq<Hit>, a: Hit, b: Hit, c: Hit)
    requires IsClustering(hits, m) && c in m && Within(a, c) && b in hits && Overlap(a, b)
    ensures Within(b, c)
  {
    hide IsCluster;
    assert Covered(b, m);
    var d :| d in m && Within(b, d);
    Disjoint(m, c, d, if a.f.start < b.f.start then b.f.start else a.f.start);
  }

  lemma {:induction false} ChainStays(hits: seq<Hit>, m: seq<Hit>, p: seq<Hit>, c: Hit)
    requires IsClustering(hits, m) && c in m
    requires Chain(hits, p) && Within(p[0], c)
    ensures Within(p[|p| - 1], c)
  {
    hide *;
    ChainTail(hits, p);
    if |p| > 1 {
      OverlapStays(hits, m, p[0], p[1], c);
      ChainStays(hits, m, p[1..], c);
    }
  }

  /** The merged spans are exactly the connected components of strict overlap. */
  lemma ComponentsOfOverlap(hits: seq<Hit>, a: Hit, b: Hit)
    requires Nonempty(hits) && a in hits && b in hits
    ensures (exists c :: c in Clusters(hits) && Within(a, c) && Within(b, c)) <==> Linked(hits, a, b)
  {
    var m := Clusters(hits);
    ClustersAreClustering(hits);
    if c :| c in m && Within(a, c) && Within(b, c) {
      assert IsCluster(hits, c);
      if a.f.start < b.f.end {
        LinkedRight(hits, c, a, b);
      } else {
        LinkedRight(hits, c, b, a);
        LinkedSymmetric(hits, b, a);
      }
    }
    if Linked(hits, a, b) {
      var p :| Chain(hits, p) && p[0] == a && p[|p| - 1] == b;
      assert Covered(a, m);
      var c :| c in m && Within(a, c);
      ChainStays(hits, m, p, c);
    }
  }

  // ---- Separated inputs

  lemma {:induction false} MergeOfSeparated(m: seq<Hit>)
    requires Separated(m)
    ensures Merge(m) == m
  {
    if m != [] {
      var n := |m| - 1;
      var init := m[..n];
      assert m == init + [m[n]];
      assert Separated(init);
      assert n > 0 ==> m[n - 1].f.end <= m[n].f.start;
      hide Separated;
      MergeOfSeparated(init);
    }
  }

  lemma ClustersOfSeparated(m: seq<Hit>)
    requires Separated(m)
    ensures Clusters(m) == m
  {
    SortOfSorted(LeftmostWidest, m);
    MergeOfSeparated(m);
  }

  /** Merging twice is merging once. */
  lemma Idempotent(hits: seq<Hit>)
    requires Nonempty(hits)
    ensures Clusters(Clusters(hits)) == Clusters(hits)
  {
    ClustersAreClustering(hits);
    ClustersOfSeparated(Clusters(hits));
  }

  // ---- Splitting at a point nothing crosses

  function EndingBy(k: nat): Hit -> bool {
    (h: Hit) => h.f.end <= k
  }

  function StartingFrom(k: nat): Hit -> bool {
    (h: Hit) => k <= h.f.start
  }

  lemma MergeBounds(s: seq<Hit>, lo: nat, hi: nat)
    requires Nonempty(s) && Sorted(LeftmostWidest, s)
    requires forall h :: h in s ==> lo <= h.f.start && h.f.end <= hi
    ensures forall c :: c in Merge(s) ==> lo <= c.f.start && c.f.end <= hi
  {
    MergeIsClustering(s);
    hide IsCluster;
    forall c | c in Merge(s) ensures lo <= c.f.start && c.f.end <= hi {
      var e := Closer(s, c);
      var l := Leader(s, c);
    }
  }

  lemma AbsorbRight(a: seq<Hit>, b: seq<Hit>, h: Hit)
    requires b == [] && a != [] ==> a[|a| - 1].f.end <= h.f.start
    ensures Absorb(a + b, h) == a + Absorb(b, h)
  {
    var n := |b| - 1;
    if b == [] {
      assert a + b == a;
    } else {
      assert (a + b)[|a + b| - 1] == b[n];
      assert (a + b)[..|a + b| - 1] == a + b[..n];
      assert (a + b[..n]) + [Widen(b[n], h)] == a + (b[..n] + [Widen(b[n], h)]);
      assert (a + b) + [h] == a + (b + [h]);
    }
  }

  lemma {:induction false} MergeSplits(a: seq<Hit>, b: seq<Hit>, k: nat)
    requires Nonempty(a) && Sorted(LeftmostWidest, a)
    requires forall h :: h in a ==> h.f.end <= k
    requires forall h :: h in b ==> k <= h.f.start
    ensures Merge(a + b) == Merge(a) + Merge(b)
    decreases |b|
  {
    if b == [] {
      assert a + b == a;
    } else {
      var b', h := b[..|b| - 1], b[|b| - 1];
      assert (a + b)[..|a + b| - 1] == a + b' && (a + b)[|a + b| - 1] == h;
      MergeSplits(a, b', k);
      MergeBounds(a, 0, k);
      assert h in b;
      MergeNonempty(b');
      AbsorbRight(Merge(a), Merge(b'), h);
    }
  }

  lemma MergeNonempty(s: seq<Hit>)
    ensures Merge(s) == [] <==> s == []
  {
  }

  /** At a point no finding crosses, merging works on each side by itself; labels
      and their tie-breaking included. */
  lemma ClustersSplit(hits: seq<Hit>, k: nat)
    requires Nonempty(hits) && !CrossedBy(hits, k)
    ensures Clusters(hits) == Clusters(Filter(EndingBy(k), hits)) + Clusters(Filter(StartingFrom(k), hits))
  {
    var low, high := Filter(EndingBy(k), hits), Filter(StartingFrom(k), hits);
    forall h | h in hits ensures EndingBy(k)(h) == !StartingFrom(k)(h) {
      assert !Crosses(h, k);
    }
    SortSplits(LeftmostWidest, EndingBy(k), StartingFrom(k), hits);
    LeftmostWidestIsOrder();
    SortSorted(LeftmostWidest, low);
    SortMembers(LeftmostWidest, low);
    SortMembers(LeftmostWidest, high);
    MergeSplits(Sort(LeftmostWidest, low), Sort(LeftmostWidest, high), k);
  }

  // ---- Labels

  lemma {:induction false} SortFirst(before: seq<Hit>, h: Hit, after: seq<Hit>)
    requires forall g :: g in before + [h] + after ==> LeftmostWidest(h, g)
    requires forall g :: g in before ==> !LeftmostWidest(g, h)
    ensures var sorted := Sort(LeftmostWidest, before + [h] + after);
            sorted != [] && sorted[0] == h
  {
    var s := before + [h] + after;
    SortMembers(LeftmostWidest, s[1..]);
    if before == [] {
      assert s[0] == h && s[1..] == after;
    } else {
      assert s[0] == before[0] && s[1..] == before[1..] + [h] + after;
      SortFirst(before[1..], h, after);
    }
  }

  lemma {:induction false} MergeFirst(s: seq<Hit>)
    requires s != []
    ensures Merge(s) != [] && Merge(s)[0].f.start == s[0].f.start && Merge(s)[0].f.tag == s[0].f.tag
  {
    if |s| == 1 {
      MergeNothing(s);
    } else {
      MergeFirst(s[..|s| - 1]);
    }
  }

  /** Of the candidates for a label, the first one in the sequence gives it. */
  lemma FirstCandidateLabels(before: seq<Hit>, h: Hit, after: seq<Hit>) returns (c: Hit)
    requires var hits := before + [h] + after;
             && Nonempty(hits) && Labels(hits, h)
             && forall g :: g in before && Labels(hits, g) ==> g.f.start != h.f.start
    ensures c in Clusters(before + [h] + after) && c.f.start == h.f.start && c.f.tag == h.f.tag
  {
    var hits, k := before + [h] + after, h.f.start;
    var a, b := Filter(StartingFrom(k), before), Filter(StartingFrom(k), after);
    ClustersSplit(hits, k);
    FilterConcat(StartingFrom(k), before + [h], after);
    FilterConcat(StartingFrom(k), before, [h]);
    assert Filter(StartingFrom(k), [h]) == [h];
    forall g | g in a ensures !LeftmostWidest(g, h) {
      Narrower(hits, g, h);
    }
    SortFirst(a, h, b);
    MergeFirst(Sort(LeftmostWidest, a + [h] + b));
    c := Clusters(a + [h] + b)[0];
  }

  lemma Narrower(hits: seq<Hit>, g: Hit, h: Hit)
    requires Labels(hits, h) && g in hits && h.f.start <= g.f.start
    requires Labels(hits, g) ==> g.f.start != h.f.start
    ensures !LeftmostWidest(g, h)
  {
  }

  ghost predicate SameMembers(a: seq<Hit>, b: seq<Hit>) {
    forall h :: h in a <==> h in b
  }

  lemma LabelsOfMembers(a: seq<Hit>, b: seq<Hit>, h: Hit)
    requires SameMembers(a, b) && Labels(a, h)
    ensures Labels(b, h)
  {
  }

  lemma Prepended(a: seq<Hit>, h: Hit) returns (c: Hit)
    requires Nonempty(a) && Labels(a, h)
    ensures SameMembers(a, [h] + a)
    ensures c in Clusters([h] + a) && c.f.start == h.f.start && c.f.tag == h.f.tag
  {
    hide Labels;
    assert [] + [h] + a == [h] + a;
    assert h in a by { CandidateIn(a, h); }
    LabelsOfMembers(a, [h] + a, h);
    c := FirstCandidateLabels([], h, a);
  }

  lemma CandidateIn(a: seq<Hit>, h: Hit)
    requires Labels(a, h)
    ensures h in a
  {
  }

  lemma TwoCandidates(a: seq<Hit>, g: Hit, h: Hit) returns (b: seq<Hit>)
    requires Nonempty(a) && Labels(a, g) && Labels(a, h) && g.f.start == h.f.start && g.f.tag != h.f.tag
    ensures SameMembers(a, b) && Clusters(b) != Clusters(a)
  {
    var m := Clusters(a);
    hide *;
    ClustersSeparated(a);
    var c := Prepended(a, g);
    var d := Prepended(a, h);
    b := [g] + a;
    if Clusters(b) == m {
      b := [h] + a;
      if Clusters(b) == m {
        NonemptySpan(m, c);
        NonemptySpan(m, d);
        Disjoint(m, c, d, c.f.start);
      }
    }
  }

  lemma ClustersSeparated(hits: seq<Hit>)
    requires Nonempty(hits)
    ensures Separated(Clusters(hits))
  {
    ClustersAreClustering(hits);
  }

  /** The order of the findings is of no consequence at all exactly when the candidates for
      each label agree. */
  lemma LabelsFixedIff(a: seq<Hit>)
    requires Nonempty(a)
    ensures (forall b :: SameMembers(a, b) ==> Clusters(b) == Clusters(a)) <==> LabelsDetermined(a)
  {
    hide Clusters, Labels, Nonempty;
    if LabelsDetermined(a) {
      forall b | SameMembers(a, b) ensures Clusters(b) == Clusters(a) {
        OrderIndependent(a, b);
      }
    } else {
      var g, h :| Labels(a, g) && Labels(a, h) && g.f.start == h.f.start && g.f.tag != h.f.tag;
      var b := TwoCandidates(a, g, h);
    }
  }

  lemma NonemptySpan(m: seq<Hit>, c: Hit)
    requires Separated(m) && c in m
    ensures c.f.start < c.f.end
  {
  }

  function Inside(lo: nat, hi: nat): Hit -> bool {
    (h: Hit) => lo <= h.f.start && h.f.end <= hi
  }

  function Window(hits: seq<Hit>, lo: nat, hi: nat): seq<Hit> {
    Filter(Inside(lo, hi), hits)
  }

  lemma WindowIsTwoFilters(hits: seq<Hit>, lo: nat, hi: nat)
    ensures Filter(StartingFrom(lo), Filter(EndingBy(hi), hits)) == Window(hits, lo, hi)
  {
    FilterTwice(StartingFrom(lo), EndingBy(hi), Inside(lo, hi), hits);
  }

  lemma FilterUncrossed(keep: Hit -> bool, hits: seq<Hit>, k: int)
    requires !CrossedBy(hits, k)
    ensures !CrossedBy(Filter(keep, hits), k)
  {
    forall h | h in Filter(keep, hits) ensures !Crosses(h, k) {
      assert h in hits;
    }
  }

  /** Between two uncrossed points, merging works by itself. */
  lemma ClustersAroundWindow(hits: seq<Hit>, lo: nat, hi: nat)
    requires Nonempty(hits) && !CrossedBy(hits, lo) && !CrossedBy(hits, hi)
    ensures Clusters(hits) == Clusters(Filter(EndingBy(lo), Filter(EndingBy(hi), hits)))
                              + Clusters(Window(hits, lo, hi))
                              + Clusters(Filter(StartingFrom(hi), hits))
  {
    var low := Filter(EndingBy(hi), hits);
    ClustersSplit(hits, hi);
    FilterUncrossed(EndingBy(hi), hits, lo);
    ClustersSplit(low, lo);
    WindowIsTwoFilters(hits, lo, hi);
  }

  lemma ClusterBounds(hits: seq<Hit>, lo: nat, hi: nat)
    requires Nonempty(hits) && forall h :: h in hits ==> lo <= h.f.start && h.f.end <= hi
    ensures forall c :: c in Clusters(hits) ==> lo <= c.f.start && c.f.end <= hi
  {
    hide IsClustering;
    ClustersAreClustering(hits);
    forall c | c in Clusters(hits) ensures lo <= c.f.start && c.f.end <= hi {
      InClustering(hits, Clusters(hits), c);
      var l := Leader(hits, c);
      var e := Closer(hits, c);
    }
  }

  lemma ClustersAfter(hits: seq<Hit>, lo: nat)
    requires Nonempty(hits) && forall h :: h in hits ==> lo <= h.f.start
    ensures forall c :: c in Clusters(hits) ==> lo <= c.f.start < c.f.end
  {
    hide IsClustering;
    ClustersAreClustering(hits);
    forall c | c in Clusters(hits) ensures lo <= c.f.start < c.f.end {
      InClustering(hits, Clusters(hits), c);
      var l := Leader(hits, c);
    }
  }

  /** The clusters of a window between uncrossed points are the clusters in it. */
  lemma WindowKeepsClusters(hits: seq<Hit>, lo: nat, hi: nat, c: Hit)
    requires Nonempty(hits) && !CrossedBy(hits, lo) && !CrossedBy(hits, hi) && lo <= hi
    ensures c in Clusters(Window(hits, lo, hi)) <==> c in Clusters(hits) && lo <= c.f.start && c.f.end <= hi
  {
    var before := Filter(EndingBy(lo), Filter(EndingBy(hi), hits));
    var after := Filter(StartingFrom(hi), hits);
    ClustersAroundWindow(hits, lo, hi);
    ClustersAfter(before, 0);
    ClusterBounds(before, 0, lo);
    ClustersAfter(after, hi);
    ClusterBounds(Window(hits, lo, hi), lo, hi);
  }

  // ---- Renaming findings

  ghost predicate RespectsAt(g: Hit -> Hit, x: Hit, y: Hit) {
    && LeftmostWidest(g(x), g(y)) == LeftmostWidest(x, y)
    && (g(y).f.start < g(x).f.end <==> y.f.start < x.f.end)
    && Widen(g(x), g(y)) == g(Widen(x, y))
  }

  /** `g` changes nothing the merge looks at. */
  ghost predicate Respects(g: Hit -> Hit) {
    forall x, y :: RespectsAt(g, x, y)
  }

  lemma {:induction false} InsertMapped(g: Hit -> Hit, x: Hit, s: seq<Hit>)
    requires Respects(g)
    ensures Insert(LeftmostWidest, g(x), Map(g, s)) == Map(g, Insert(LeftmostWidest, x, s))
  {
    if s != [] {
      assert RespectsAt(g, x, s[0]);
      hide RespectsAt;
      InsertMapped(g, x, s[1..]);
    }
  }

  lemma {:induction false} SortMapped(g: Hit -> Hit, s: seq<Hit>)
    requires Respects(g)
    ensures Sort(LeftmostWidest, Map(g, s)) == Map(g, Sort(LeftmostWidest, s))
  {
    if s != [] {
      SortMapped(g, s[1..]);
      InsertMapped(g, s[0], Sort(LeftmostWidest, s[1..]));
    }
  }

  lemma MapSnoc(g: Hit -> Hit, s: seq<Hit>, h: Hit)
    ensures Map(g, s + [h]) == Map(g, s) + [g(h)]
  {
  }

  lemma AbsorbMapped(g: Hit -> Hit, m: seq<Hit>, h: Hit)
    requires Respects(g)
    ensures Absorb(Map(g, m), g(h)) == Map(g, Absorb(m, h))
  {
    MapSnoc(g, m, h);
    if m != [] {
      var n := |m| - 1;
      assert RespectsAt(g, m[n], h);
      hide Respects;
      assert m[..n] + [m[n]] == m;
      MapSnoc(g, m[..n], m[n]);
      MapSnoc(g, m[..n], Widen(m[n], h));
      assert Map(g, m)[..n] == Map(g, m[..n]);
    }
  }

  lemma {:induction false} MergeMapped(g: Hit -> Hit, s: seq<Hit>)
    requires Respects(g)
    ensures Merge(Map(g, s)) == Map(g, Merge(s))
  {
    if s != [] {
      var n := |s| - 1;
      assert s[..n] + [s[n]] == s;
      MapSnoc(g, s[..n], s[n]);
      hide Respects, Absorb;
      MergeMapped(g, s[..n]);
      AbsorbMapped(g, Merge(s[..n]), s[n]);
      assert Map(g, s)[..n] == Map(g, s[..n]);
    }
  }

  lemma ClustersMapped(g: Hit -> Hit, hits: seq<Hit>)
    requires Respects(g)
    ensures Clusters(Map(g, hits)) == Map(g, Clusters(hits))
  {
    SortMapped(g, hits);
    MergeMapped(g, Sort(LeftmostWidest, hits));
  }
}
