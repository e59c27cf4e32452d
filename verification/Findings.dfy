/** Findings and the merging of overlapping ones: `dedupe_findings` and its helpers. */
module Findings {
  import opened Utf8
  import opened Sequences

  datatype Action = Redact | Block | Flag

  datatype Finding = Finding(tag: Text, start: nat, end: nat)

  /** A finding together with the action of the policy that produced it. */
  datatype Hit = Hit(f: Finding, action: Action)

  predicate SpansOverlap(a0: nat, a1: nat, b0: nat, b1: nat) {
    a0 < b1 && b0 < a1
  }

  predicate Overlap(a: Hit, b: Hit) {
    SpansOverlap(a.f.start, a.f.end, b.f.start, b.f.end)
  }

  predicate Within(h: Hit, c: Hit) {
    c.f.start <= h.f.start && h.f.end <= c.f.end
  }

  predicate Crosses(h: Hit, k: int) {
    h.f.start < k < h.f.end
  }

  function Stronger(a: Action, b: Action): Action {
    match (a, b)
    case (Block, _) => Block
    case (_, Block) => Block
    case (Redact, _) => Redact
    case (_, Redact) => Redact
    case _ => Flag
  }

  function Strength(a: Action): nat {
    match a
    case Block => 2
    case Redact => 1
    case Flag => 0
  }

  /** The comparator of the merge: leftmost first and, on a tie, widest first. */
  predicate LeftmostWidest(a: Hit, b: Hit) {
    a.f.start < b.f.start || (a.f.start == b.f.start && b.f.end <= a.f.end)
  }

  lemma LeftmostWidestIsOrder()
    ensures TotalPreorder(LeftmostWidest)
  {
  }

  // ---- The merge

  function Widen(last: Hit, h: Hit): Hit {
    Hit(last.f.(end := if last.f.end < h.f.end then h.f.end else last.f.end), Stronger(last.action, h.action))
  }

  function Absorb(m: seq<Hit>, h: Hit): seq<Hit> {
    if m != [] && h.f.start < m[|m| - 1].f.end then m[..|m| - 1] + [Widen(m[|m| - 1], h)] else m + [h]
  }

  function Merge(s: seq<Hit>): seq<Hit> {
    if s == [] then [] else Absorb(Merge(s[..|s| - 1]), s[|s| - 1])
  }

  function Clusters(hits: seq<Hit>): seq<Hit> {
    Merge(Sort(LeftmostWidest, hits))
  }

  lemma MergeStep(s: seq<Hit>, i: nat)
    requires i < |s|
    ensures Merge(s[..i + 1]) == Absorb(Merge(s[..i]), s[i])
  {
    assert s[..i + 1][..i] == s[..i];
  }

  lemma MergeNothing(s: seq<Hit>)
    ensures Merge(s[..0]) == [] && IsClustering([], [])
  {
  }

  lemma ClustersOfFew(hits: seq<Hit>)
    ensures |hits| < 2 ==> Clusters(hits) == hits
    ensures Clusters(hits) == Merge(Sort(LeftmostWidest, hits))
  {
    if |hits| == 1 {
      assert Sort(LeftmostWidest, hits[1..]) == [] && hits == [hits[0]];
      MergeNothing(hits);
    }
  }

  lemma AbsorbIs(m: seq<Hit>, h: Hit)
    ensures Absorb(m, h)
         == if m != [] && h.f.start < m[|m| - 1].f.end then m[|m| - 1 := Widen(m[|m| - 1], h)] else m + [h]
  {
  }

  method DedupeFindings(hits: seq<Hit>) returns (merged: seq<Hit>)
    ensures merged == Clusters(hits)
  {
    hide *;
    var findings := hits;
    ClustersOfFew(hits);
    if |findings| < 2 {
      return findings;
    }
    findings := Sort(LeftmostWidest, findings);
    merged := [];
    MergeNothing(findings);
    for i := 0 to |findings|
      invariant merged == Merge(findings[..i])
    {
      var f := findings[i];
      MergeStep(findings, i);
      AbsorbIs(merged, f);
      if merged != [] && f.f.start < merged[|merged| - 1].f.end {
        merged := merged[|merged| - 1 := Widen(merged[|merged| - 1], f)];
      } else {
        merged := merged + [f];
      }
    }
    assert findings[..|findings|] == findings;
  }

  // ---- What a merge result has to be, said without an algorithm

  predicate Nonempty(hits: seq<Hit>) {
    forall h :: h in hits ==> h.f.start < h.f.end
  }

  /** In order and pairwise disjoint; touching is allowed. */
  predicate Separated(m: seq<Hit>) {
    && Nonempty(m)
    && forall i, j :: 0 <= i < j < |m| ==> m[i].f.end <= m[j].f.start
  }

  ghost predicate Covered(h: Hit, m: seq<Hit>) {
    exists c :: c in m && Within(h, c)
  }

  ghost predicate CrossedBy(hits: seq<Hit>, k: int) {
    exists h :: h in hits && Crosses(h, k)
  }

  /** `h` gives `c` its start and label: nothing starting there is wider. */
  ghost predicate Leads(hits: seq<Hit>, h: Hit, c: Hit) {
    && h in hits && h.f.start == c.f.start && h.f.end <= c.f.end && h.f.tag == c.f.tag
    && forall g :: g in hits && g.f.start == h.f.start ==> g.f.end <= h.f.end
  }

  ghost predicate Closes(hits: seq<Hit>, h: Hit, c: Hit) {
    h in hits && Within(h, c) && h.f.end == c.f.end
  }

  /** `c` is the union of overlapping members: it cannot be split at any interior
      point without cutting through one of them. */
  ghost predicate Tight(hits: seq<Hit>, c: Hit) {
    && (exists h :: Leads(hits, h, c))
    && (exists h :: Closes(hits, h, c))
    && forall k :: c.f.start < k < c.f.end ==> CrossedBy(hits, k)
  }

  ghost predicate Lends(hits: seq<Hit>, h: Hit, c: Hit) {
    h in hits && Within(h, c) && h.action == c.action
  }

  /** The action of `c` is the strongest one among its members. */
  ghost predicate JoinedAction(hits: seq<Hit>, c: Hit) {
    && (exists h :: Lends(hits, h, c))
    && forall h :: h in hits && Within(h, c) ==> Strength(h.action) <= Strength(c.action)
  }

  ghost predicate IsCluster(hits: seq<Hit>, c: Hit) {
    Tight(hits, c) && JoinedAction(hits, c)
  }

  ghost predicate IsClustering(hits: seq<Hit>, m: seq<Hit>) {
    && Separated(m)
    && (forall h :: h in hits ==> Covered(h, m))
    && (forall c :: c in m ==> IsCluster(hits, c))
  }

  // ---- The merge computes it

  lemma KeepCluster(a: seq<Hit>, h: Hit, c: Hit)
    requires IsCluster(a, c) && c.f.start < c.f.end <= h.f.start < h.f.end
    ensures IsCluster(a + [h], c)
  {
    var b := a + [h];
    assert forall g :: g in b <==> g in a || g == h;
    var l :| Leads(a, l, c);
    assert Leads(b, l, c);
    var e :| Closes(a, e, c);
    assert Closes(b, e, c);
    var d :| Lends(a, d, c);
    assert Lends(b, d, c);
    forall k | c.f.start < k < c.f.end ensures CrossedBy(b, k) {
      assert CrossedBy(a, k);
      var g :| g in a && Crosses(g, k);
      assert g in b && Crosses(g, k);
    }
  }

  lemma WidenCluster(a: seq<Hit>, h: Hit, c: Hit)
    requires IsCluster(a, c) && c.f.start <= h.f.start < c.f.end && h.f.start < h.f.end
    requires forall g :: g in a ==> LeftmostWidest(g, h) && g.f.start < g.f.end
    requires forall g :: g in a && c.f.start <= g.f.start ==> Within(g, c)
    ensures IsCluster(a + [h], Widen(c, h))
  {
    var b, w := a + [h], Widen(c, h);
    assert forall g :: g in b <==> g in a || g == h;
    var l :| Leads(a, l, c);
    assert Leads(b, l, w);
    if c.f.end < h.f.end {
      assert Closes(b, h, w);
    } else {
      var e :| Closes(a, e, c);
      assert Closes(b, e, w);
    }
    var d :| Lends(a, d, c);
    assert Lends(b, if w.action == h.action then h else d, w);
    forall k | w.f.start < k < w.f.end ensures CrossedBy(b, k) {
      if k < c.f.end {
        assert CrossedBy(a, k);
        var g :| g in a && Crosses(g, k);
        assert g in b && Crosses(g, k);
      } else {
        assert h in b && Crosses(h, k);
      }
    }
  }

  lemma NewCluster(a: seq<Hit>, h: Hit)
    requires h.f.start < h.f.end
    requires forall g :: g in a ==> g.f.start < g.f.end <= h.f.start
    ensures IsCluster(a + [h], h)
  {
    var b := a + [h];
    assert forall g :: g in b <==> g in a || g == h;
    assert Leads(b, h, h);
    assert Closes(b, h, h);
    assert Lends(b, h, h);
    forall k | h.f.start < k < h.f.end ensures CrossedBy(b, k) {
      assert h in b && Crosses(h, k);
    }
  }

  lemma Leader(hits: seq<Hit>, c: Hit) returns (l: Hit)
    requires IsCluster(hits, c)
    ensures Leads(hits, l, c)
  {
    l :| Leads(hits, l, c);
  }

  lemma AbsorbWidens(a: seq<Hit>, m: seq<Hit>, h: Hit)
    requires IsClustering(a, m) && m != [] && h.f.start < m[|m| - 1].f.end
    requires forall g :: g in a ==> LeftmostWidest(g, h) && g.f.start < g.f.end
    requires h.f.start < h.f.end
    ensures IsClustering(a + [h], m[..|m| - 1] + [Widen(m[|m| - 1], h)])
  {
    hide IsCluster;
    var n := |m| - 1;
    var last := m[n];
    var w := Widen(last, h);
    var b, r := a + [h], m[..n] + [w];
    var l := Leader(a, last);
    assert LeftmostWidest(l, h);
    forall g | g in a ensures Covered(g, r) && (last.f.start <= g.f.start ==> Within(g, last)) {
      assert Covered(g, m);
      var i :| 0 <= i < |m| && Within(g, m[i]);
      assert r[i] in r && Within(g, r[i]);
    }
    WidenCluster(a, h, last);
    assert r[n] == w && w in r && Within(h, w);
    assert Covered(h, r);
    forall c | c in r ensures IsCluster(b, c) {
      var i :| 0 <= i < |r| && c == r[i];
      if i < n {
        assert c == m[i] && m[i] in m;
        KeepCluster(a, h, c);
      }
    }
    assert Separated(r);
  }

  lemma AbsorbPushes(a: seq<Hit>, m: seq<Hit>, h: Hit)
    requires IsClustering(a, m) && (m == [] || m[|m| - 1].f.end <= h.f.start)
    requires Nonempty(a) && h.f.start < h.f.end
    ensures IsClustering(a + [h], m + [h])
  {
    hide IsCluster;
    var b, r := a + [h], m + [h];
    forall c | c in m ensures c.f.end <= h.f.start {
      var i :| 0 <= i < |m| && c == m[i];
    }
    forall g | g in a ensures Covered(g, r) && g.f.end <= h.f.start {
      assert Covered(g, m);
      var c :| c in m && Within(g, c);
      assert c in r;
    }
    NewCluster(a, h);
    assert h in r && Within(h, h);
    assert Covered(h, r);
    forall c | c in r ensures IsCluster(b, c) {
      if c in m {
        KeepCluster(a, h, c);
      }
    }
    assert Separated(r);
  }

  lemma SortedLast(s: seq<Hit>)
    requires Sorted(LeftmostWidest, s) && Nonempty(s) && s != []
    ensures var a, h := s[..|s| - 1], s[|s| - 1];
            && Sorted(LeftmostWidest, a) && Nonempty(a) && h.f.start < h.f.end
            && forall g :: g in a ==> LeftmostWidest(g, h) && g.f.start < g.f.end
  {
    assert s[|s| - 1] in s;
  }

  lemma {:induction false} MergeIsClustering(s: seq<Hit>)
    requires Sorted(LeftmostWidest, s) && Nonempty(s)
    ensures IsClustering(s, Merge(s))
  {
    hide *;
    if s == [] {
      MergeNothing(s);
    } else {
      var a, h := s[..|s| - 1], s[|s| - 1];
      SortedLast(s);
      MergeIsClustering(a);
      MergeStep(s, |s| - 1);
      assert s == a + [h] && s[..|s|] == s;
      var m := Merge(a);
      AbsorbIs(m, h);
      if m != [] && h.f.start < m[|m| - 1].f.end {
        assert m[|m| - 1 := Widen(m[|m| - 1], h)] == m[..|m| - 1] + [Widen(m[|m| - 1], h)];
        AbsorbWidens(a, m, h);
      } else {
        AbsorbPushes(a, m, h);
      }
    }
  }
}
