/** Merging when some findings are empty, as entities from outside can be: an empty one is
    either taken into the merged span that starts where it stands, or stays by itself. */
module EmptySpans {
  import opened Sequences
  import opened Findings
  import opened Splicing
  import opened Clustering

  predicate Spans(hits: seq<Hit>) {
    forall h :: h in hits ==> h.f.start <= h.f.end
  }

  predicate Full(h: Hit) {
    h.f.start < h.f.end
  }

  predicate Hollow(h: Hit) {
    h.f.start == h.f.end
  }

  // ---- The merged findings are in order

  ghost predicate StartsAt(hits: seq<Hit>, c: Hit) {
    exists l :: l in hits && l.f.start == c.f.start && l.f.end <= c.f.end
  }

  ghost predicate EndsAtOne(hits: seq<Hit>, c: Hit) {
    exists e :: e in hits && c.f.start <= e.f.start && e.f.end == c.f.end
  }

  ghost predicate Bounded(hits: seq<Hit>, m: seq<Hit>) {
    forall c :: c in m ==> StartsAt(hits, c) && EndsAtOne(hits, c)
  }

  lemma BoundedMore(a: seq<Hit>, h: Hit, c: Hit)
    requires StartsAt(a, c) && EndsAtOne(a, c)
    ensures StartsAt(a + [h], c) && EndsAtOne(a + [h], c)
  {
    var l :| l in a && l.f.start == c.f.start && l.f.end <= c.f.end;
    assert l in a + [h];
    var e :| e in a && c.f.start <= e.f.start && e.f.end == c.f.end;
    assert e in a + [h];
  }

  lemma BoundedWiden(a: seq<Hit>, h: Hit, c: Hit)
    requires StartsAt(a, c) && EndsAtOne(a, c) && c.f.start <= h.f.start
    ensures StartsAt(a + [h], Widen(c, h)) && EndsAtOne(a + [h], Widen(c, h))
  {
    var w := Widen(c, h);
    var l :| l in a && l.f.start == c.f.start && l.f.end <= c.f.end;
    assert l in a + [h];
    if c.f.end < h.f.end {
      assert h in a + [h];
    } else {
      var e :| e in a && c.f.start <= e.f.start && e.f.end == c.f.end;
      assert e in a + [h];
    }
  }

  lemma BoundedNew(a: seq<Hit>, h: Hit)
    ensures StartsAt(a + [h], h) && EndsAtOne(a + [h], h)
  {
    assert h in a + [h];
  }

  lemma StartsBefore(a: seq<Hit>, h: Hit, c: Hit)
    requires StartsAt(a, c) && forall g :: g in a ==> LeftmostWidest(g, h)
    ensures c.f.start <= h.f.start && (c.f.start == h.f.start ==> h.f.end <= c.f.end)
  {
    var l :| l in a && l.f.start == c.f.start && l.f.end <= c.f.end;
    assert LeftmostWidest(l, h);
  }

  lemma LinedSnoc(m: seq<Hit>, h: Hit)
    requires Lined(m) && h.f.start <= h.f.end
    requires forall g :: g in m ==> g.f.end <= h.f.start && (g.f.start == h.f.start ==> h.f.start == h.f.end)
    ensures Lined(m + [h])
  {
  }

  lemma LinedLast(m: seq<Hit>)
    requires Lined(m) && m != []
    ensures var n := |m| - 1;
            && Lined(m[..n]) && m[n].f.start <= m[n].f.end
            && forall g :: g in m[..n] ==>
                 g in m && g.f.end <= m[n].f.start && (g.f.start == m[n].f.start ==> m[n].f.start == m[n].f.end)
  {
    var n := |m| - 1;
    assert m[n] in m;
    forall g | g in m[..n]
      ensures g in m && g.f.end <= m[n].f.start && (g.f.start == m[n].f.start ==> m[n].f.start == m[n].f.end)
    {
      var k :| 0 <= k < n && m[k] == g;
    }
  }

  lemma LastSplits(m: seq<Hit>)
    requires m != []
    ensures m == m[..|m| - 1] + [m[|m| - 1]]
  {
  }

  /** All before the last end by the start of what comes next, if the last one does. */
  lemma AllEndBy(m: seq<Hit>, k: nat)
    requires Lined(m) && m != [] && m[|m| - 1].f.end <= k
    ensures forall g :: g in m ==> g.f.end <= k
  {
    LinedLast(m);
    LastSplits(m);
    hide Lined;
  }

  lemma AbsorbLined(a: seq<Hit>, m: seq<Hit>, h: Hit)
    requires Lined(m) && Bounded(a, m) && h.f.start <= h.f.end && forall g :: g in a ==> LeftmostWidest(g, h)
    ensures Lined(Absorb(m, h)) && Bounded(a + [h], Absorb(m, h))
  {
    hide Lined, StartsAt, EndsAtOne;
    forall c | c in m ensures StartsAt(a + [h], c) && EndsAtOne(a + [h], c)
      ensures c.f.start <= h.f.start && (c.f.start == h.f.start ==> h.f.end <= c.f.end)
    {
      BoundedMore(a, h, c);
      StartsBefore(a, h, c);
    }
    if m != [] && h.f.start < m[|m| - 1].f.end {
      var n := |m| - 1;
      var last := m[n];
      assert last in m;
      LinedLast(m);
      LinedSnoc(m[..n], Widen(last, h));
      BoundedWiden(a, h, last);
    } else {
      BoundedNew(a, h);
      if m != [] {
        AllEndBy(m, h.f.start);
        forall g | g in m && g.f.start == h.f.start ensures h.f.start == h.f.end {
          assert h.f.end <= g.f.end <= h.f.start;
        }
      }
      LinedSnoc(m, h);
    }
  }

  lemma NothingLined()
    ensures Lined([]) && Bounded([], [])
  {
  }

  lemma PrefixBefore(s: seq<Hit>)
    requires Sorted(LeftmostWidest, s) && Spans(s) && s != []
    ensures var n := |s| - 1;
            && Sorted(LeftmostWidest, s[..n]) && Spans(s[..n]) && s[n].f.start <= s[n].f.end
            && s == s[..n] + [s[n]] && Merge(s) == Absorb(Merge(s[..n]), s[n])
            && forall g :: g in s[..n] ==> LeftmostWidest(g, s[n])
  {
    var n := |s| - 1;
    assert s[n] in s;
    MergeStep(s, n);
    assert s[..n + 1] == s;
  }

  lemma {:induction false} MergeLined(s: seq<Hit>)
    requires Sorted(LeftmostWidest, s) && Spans(s)
    ensures Lined(Merge(s)) && Bounded(s, Merge(s))
  {
    hide *;
    if s == [] {
      MergeNothing(s);
      NothingLined();
      assert s[..0] == s;
    } else {
      PrefixBefore(s);
      MergeLined(s[..|s| - 1]);
      AbsorbLined(s[..|s| - 1], Merge(s[..|s| - 1]), s[|s| - 1]);
    }
  }

  lemma BoundedMembers(a: seq<Hit>, b: seq<Hit>, m: seq<Hit>)
    requires Bounded(a, m) && forall h :: h in a <==> h in b
    ensures Bounded(b, m)
  {
    forall c | c in m ensures StartsAt(b, c) && EndsAtOne(b, c) {
      var l :| l in a && l.f.start == c.f.start && l.f.end <= c.f.end;
      assert l in b;
      var e :| e in a && c.f.start <= e.f.start && e.f.end == c.f.end;
      assert e in b;
    }
  }

  /** Merged findings are in order, and start and end where findings do. */
  lemma ClustersLined(hits: seq<Hit>)
    requires Spans(hits)
    ensures Lined(Clusters(hits)) && Bounded(hits, Clusters(hits))
  {
    var s := Sort(LeftmostWidest, hits);
    LeftmostWidestIsOrder();
    SortSorted(LeftmostWidest, hits);
    SortMembers(LeftmostWidest, hits);
    assert Spans(s);
    hide Lined, Bounded;
    MergeLined(s);
    BoundedMembers(s, hits, Merge(s));
  }

  // ---- What empty findings do to a merge

  predicate Raises(hits: seq<Hit>, c: Hit) {
    exists e :: e in hits && Hollow(e) && e.f.start == c.f.start
  }

  /** A merged span with an empty Redact finding at its start takes that action too. */
  function Raised(hits: seq<Hit>): Hit -> Hit {
    (c: Hit) => if Raises(hits, c) then Hit(c.f, Stronger(c.action, Redact)) else c
  }

  predicate Free(hits: seq<Hit>, h: Hit) {
    Hollow(h) && forall g :: g in hits && Full(g) ==> g.f.start != h.f.start
  }

  /** Empty, and no other finding starts there. */
  function FreeIn(hits: seq<Hit>): Hit -> bool {
    (h: Hit) => Free(hits, h)
  }

  /** `m` is the merge and `n` the merge of the findings that are not empty. */
  ghost predicate Agree(hits: seq<Hit>, m: seq<Hit>, n: seq<Hit>) {
    && Filter(Full, m) == Map(Raised(hits), n)
    && Filter(Hollow, m) == Filter(FreeIn(hits), hits)
  }

  lemma FilterSnoc(keep: Hit -> bool, m: seq<Hit>, h: Hit)
    ensures Filter(keep, m + [h]) == Filter(keep, m) + (if keep(h) then [h] else [])
  {
    FilterConcat(keep, m, [h]);
    assert [h][1..] == [];
  }

  lemma MapLast(g: Hit -> Hit, n: seq<Hit>, front: seq<Hit>, d: Hit)
    requires Map(g, n) == front + [d]
    ensures n != [] && g(n[|n| - 1]) == d && Map(g, n[..|n| - 1]) == front
  {
    hide *;
    LengthOfMap(g, n);
    LastSplits(n);
    MapSnoc(g, n[..|n| - 1], n[|n| - 1]);
    SameLast(Map(g, n[..|n| - 1]), g(n[|n| - 1]), front, d);
  }

  lemma LengthOfMap(g: Hit -> Hit, n: seq<Hit>)
    ensures |Map(g, n)| == |n|
  {
  }

  lemma SameLast(a: seq<Hit>, x: Hit, b: seq<Hit>, y: Hit)
    requires a + [x] == b + [y]
    ensures a == b && x == y
  {
    assert |a + [x]| == |a| + 1 && |b + [y]| == |b| + 1;
    assert (a + [x])[..|a|] == a && (b + [y])[..|b|] == b;
    assert (a + [x])[|a|] == x && (b + [y])[|b|] == y;
  }

  /** Every merged span of the rest has its place in the merge. */
  lemma InMerge(hits: seq<Hit>, m: seq<Hit>, n: seq<Hit>, c: Hit)
    requires Agree(hits, m, n) && c in n
    ensures exists d :: d in m && d.f == c.f
  {
    var i :| 0 <= i < |n| && n[i] == c;
    var d := Map(Raised(hits), n)[i];
    assert d in Filter(Full, m);
  }

  lemma EndsByLast(m: seq<Hit>)
    requires Lined(m) && m != []
    ensures forall g :: g in m ==> g.f.end <= m[|m| - 1].f.end
  {
    AllEndBy(m, m[|m| - 1].f.end);
  }

  lemma RestEndsBy(hits: seq<Hit>, m: seq<Hit>, n: seq<Hit>, k: nat)
    requires Agree(hits, m, n) && Lined(m) && (m == [] || m[|m| - 1].f.end <= k)
    ensures forall c :: c in n ==> c.f.end <= k
  {
    hide Agree, Lined;
    forall c | c in n ensures c.f.end <= k {
      InMerge(hits, m, n, c);
      var d :| d in m && d.f == c.f;
      EndsByLast(m);
    }
  }

  /** A full finding that does not come after an empty one changes nothing about empty ones. */
  lemma FullKeeps(a: seq<Hit>, h: Hit)
    requires Full(h) && forall g :: g in a ==> LeftmostWidest(g, h)
    ensures Filter(FreeIn(a + [h]), a + [h]) == Filter(FreeIn(a), a)
    ensures forall c :: Raised(a + [h])(c) == Raised(a)(c)
    ensures !Raises(a, h)
  {
    var b := a + [h];
    assert forall g :: g in b <==> g in a || g == h;
    forall e | e in a && Hollow(e) ensures e.f.start != h.f.start {
      assert LeftmostWidest(e, h);
    }
    FilterSnoc(FreeIn(b), a, h);
    forall e | e in a ensures FreeIn(b)(e) == FreeIn(a)(e) {
    }
    FilterSame(FreeIn(b), FreeIn(a), a);
    forall c ensures Raises(b, c) == Raises(a, c) {
    }
  }

  lemma MapSame(g: Hit -> Hit, f: Hit -> Hit, s: seq<Hit>)
    requires forall c :: c in s ==> g(c) == f(c)
    ensures Map(g, s) == Map(f, s)
  {
  }

  lemma WidenRaised(hits: seq<Hit>, c: Hit, h: Hit)
    ensures Widen(Raised(hits)(c), h) == Raised(hits)(Widen(c, h))
  {
  }

  lemma AbsorbPushed(m: seq<Hit>, h: Hit)
    requires m == [] || m[|m| - 1].f.end <= h.f.start
    ensures Absorb(m, h) == m + [h]
  {
  }

  lemma LastEnd(n: seq<Hit>, k: nat)
    requires forall c :: c in n ==> c.f.end <= k
    ensures n == [] || n[|n| - 1].f.end <= k
  {
    assert n != [] ==> n[|n| - 1] in n;
  }

  lemma RaisedIs(hits: seq<Hit>, c: Hit)
    ensures !Raises(hits, c) ==> Raised(hits)(c) == c
  {
  }

  lemma HollowNot(h: Hit)
    requires Full(h)
    ensures !Hollow(h)
  {
  }

  lemma AbsorbFull(a: seq<Hit>, h: Hit, m: seq<Hit>, n: seq<Hit>)
    requires Agree(a, m, n) && Lined(m) && Bounded(a, m)
    requires Full(h) && forall g :: g in a ==> LeftmostWidest(g, h)
    ensures Agree(a + [h], Absorb(m, h), Absorb(n, h))
  {
    hide *;
    var b := a + [h];
    if m != [] && h.f.start < m[|m| - 1].f.end {
      FullJoins(a, h, m, n);
    } else {
      FullKeeps(a, h);
      RestEndsBy(a, m, n, h.f.start);
      LastEnd(n, h.f.start);
      AbsorbPushed(m, h);
      AbsorbPushed(n, h);
      AgreeIs(a, m, n);
      HollowNot(h);
      FilterSnoc(Full, m, h);
      FilterSnoc(Hollow, m, h);
      assert Filter(Hollow, m) + [] == Filter(Hollow, m);
      MapSnoc(Raised(b), n, h);
      MapSame(Raised(b), Raised(a), n);
      RaisedIs(a, h);
      AgreeIs(b, m + [h], n + [h]);
    }
  }

  /** Widening the last merged span, which is not empty. */
  lemma WidenLast(m: seq<Hit>, h: Hit)
    requires m != [] && Full(m[|m| - 1])
    ensures var k, last := |m| - 1, m[|m| - 1];
            var wide := m[..k] + [Widen(last, h)];
            && Filter(Full, m) == Filter(Full, m[..k]) + [last] && Filter(Hollow, m) == Filter(Hollow, m[..k])
            && Filter(Full, wide) == Filter(Full, m[..k]) + [Widen(last, h)] && Filter(Hollow, wide) == Filter(Hollow, m[..k])
  {
    var k, last := |m| - 1, m[|m| - 1];
    LastSplits(m);
    FilterSnoc(Full, m[..k], last);
    FilterSnoc(Hollow, m[..k], last);
    FilterSnoc(Full, m[..k], Widen(last, h));
    FilterSnoc(Hollow, m[..k], Widen(last, h));
    assert Filter(Hollow, m[..k]) + [] == Filter(Hollow, m[..k]);
  }

  lemma AbsorbJoins(m: seq<Hit>, h: Hit)
    requires m != [] && h.f.start < m[|m| - 1].f.end
    ensures Absorb(m, h) == m[..|m| - 1] + [Widen(m[|m| - 1], h)]
  {
  }

  lemma AgreeIs(hits: seq<Hit>, m: seq<Hit>, n: seq<Hit>)
    ensures Agree(hits, m, n) <==> Filter(Full, m) == Map(Raised(hits), n) && Filter(Hollow, m) == Filter(FreeIn(hits), hits)
  {
  }

  lemma LastIsFull(a: seq<Hit>, h: Hit, m: seq<Hit>)
    requires Bounded(a, m) && m != [] && h.f.start < m[|m| - 1].f.end && forall g :: g in a ==> LeftmostWidest(g, h)
    ensures Full(m[|m| - 1]) && m[|m| - 1].f.start <= h.f.start
  {
    assert m[|m| - 1] in m && StartsAt(a, m[|m| - 1]);
    StartsBefore(a, h, m[|m| - 1]);
  }

  lemma RaisedSpan(hits: seq<Hit>, c: Hit)
    ensures Raised(hits)(c).f == c.f
  {
  }

  lemma FullJoins(a: seq<Hit>, h: Hit, m: seq<Hit>, n: seq<Hit>)
    requires Agree(a, m, n) && Bounded(a, m) && m != [] && h.f.start < m[|m| - 1].f.end
    requires Full(h) && forall g :: g in a ==> LeftmostWidest(g, h)
    ensures Agree(a + [h], Absorb(m, h), Absorb(n, h))
  {
    hide *;
    var b, k, last, i := a + [h], |m| - 1, m[|m| - 1], |n| - 1;
    LastIsFull(a, h, m);
    FullKeeps(a, h);
    WidenLast(m, h);
    AgreeIs(a, m, n);
    MapLast(Raised(a), n, Filter(Full, m[..k]), last);
    RaisedSpan(a, n[i]);
    AbsorbJoins(m, h);
    AbsorbJoins(n, h);
    WidenRaised(a, n[i], h);
    MapSnoc(Raised(b), n[..i], Widen(n[i], h));
    MapSame(Raised(b), Raised(a), n[..i]);
    AgreeIs(b, Absorb(m, h), Absorb(n, h));
  }

  /** An empty finding inside a merged span can only stand at its start. */
  lemma HollowJoins(a: seq<Hit>, h: Hit, m: seq<Hit>, n: seq<Hit>)
    requires Agree(a, m, n) && Bounded(a, m) && m != [] && h.f.start < m[|m| - 1].f.end
    requires IsClustering(Filter(Full, a), n)
    requires Hollow(h) && h.action == Redact && forall g :: g in a ==> LeftmostWidest(g, h)
    requires forall g :: g in a && Full(g) ==> !Crosses(g, h.f.start)
    ensures Agree(a + [h], Absorb(m, h), n)
  {
    hide *;
    var b, k, last, i := a + [h], |m| - 1, m[|m| - 1], |n| - 1;
    LastIsFull(a, h, m);
    WidenLast(m, h);
    AgreeIs(a, m, n);
    MapLast(Raised(a), n, Filter(Full, m[..k]), last);
    RaisedSpan(a, n[i]);
    AbsorbJoins(m, h);
    StandsAtStart(a, h, n);
    HollowKeeps(a, h);
    FilterSnoc(FreeIn(b), a, h);
    FreeInIs(b, h);
    LastRaised(a, h, n, Filter(Full, m[..k]), last);
    AgreeIs(b, Absorb(m, h), n);
  }

  lemma FreeInIs(hits: seq<Hit>, h: Hit)
    ensures FreeIn(hits)(h) == Free(hits, h)
  {
  }

  lemma LastRaised(a: seq<Hit>, h: Hit, n: seq<Hit>, front: seq<Hit>, last: Hit)
    requires IsClustering(Filter(Full, a), n) && Hollow(h) && h.action == Redact
    requires n != [] && n[|n| - 1].f.start == h.f.start
    requires Raised(a)(n[|n| - 1]) == last && Map(Raised(a), n[..|n| - 1]) == front
    ensures Map(Raised(a + [h]), n) == front + [Widen(last, h)]
  {
    var b, i := a + [h], |n| - 1;
    assert Separated(n) && n[i] in n;
    hide IsClustering, Raised;
    RaisedHere(a, h, n[i]);
    NotRaised(a, h, n);
    MapSame(Raised(b), Raised(a), n[..i]);
    MapSnoc(Raised(b), n[..i], n[i]);
    LastSplits(n);
  }

  /** Then the last merged span of the rest starts there. */
  lemma StandsAtStart(a: seq<Hit>, h: Hit, n: seq<Hit>)
    requires IsClustering(Filter(Full, a), n) && n != []
    requires n[|n| - 1].f.start <= h.f.start < n[|n| - 1].f.end
    requires forall g :: g in a && Full(g) ==> !Crosses(g, h.f.start)
    ensures n[|n| - 1].f.start == h.f.start
    ensures exists g :: g in a && Full(g) && g.f.start == h.f.start
  {
    var fulls, c := Filter(Full, a), n[|n| - 1];
    hide IsClustering;
    InClustering(fulls, n, c);
    assert !CrossedBy(fulls, h.f.start);
    var l := Leader(fulls, c);
  }

  lemma HollowKeeps(a: seq<Hit>, h: Hit)
    requires Hollow(h)
    ensures Filter(FreeIn(a + [h]), a) == Filter(FreeIn(a), a)
    ensures Free(a + [h], h) <==> forall g :: g in a && Full(g) ==> g.f.start != h.f.start
  {
    var b := a + [h];
    assert forall g :: g in b <==> g in a || g == h;
    forall e | e in a ensures FreeIn(b)(e) == FreeIn(a)(e) {
    }
    FilterSame(FreeIn(b), FreeIn(a), a);
  }

  lemma RaisedHere(a: seq<Hit>, h: Hit, c: Hit)
    requires Hollow(h) && h.action == Redact && c.f.start == h.f.start < c.f.end
    ensures Raised(a + [h])(c) == Widen(Raised(a)(c), h)
  {
    assert h in a + [h];
  }

  lemma NotRaised(a: seq<Hit>, h: Hit, n: seq<Hit>)
    requires Separated(n) && n != [] && n[|n| - 1].f.start == h.f.start
    ensures forall c :: c in n[..|n| - 1] ==> Raised(a + [h])(c) == Raised(a)(c)
  {
    var i := |n| - 1;
    forall c | c in n[..i] ensures Raised(a + [h])(c) == Raised(a)(c) {
      var j :| 0 <= j < i && n[j] == c;
      assert n[j] in n && c.f.start < h.f.start;
      RaisedElsewhere(a, h, c);
    }
  }

  lemma RaisedElsewhere(a: seq<Hit>, h: Hit, c: Hit)
    requires c.f.start != h.f.start
    ensures Raised(a + [h])(c) == Raised(a)(c)
  {
    assert forall g :: g in a + [h] <==> g in a || g == h;
  }

  lemma HollowStays(a: seq<Hit>, h: Hit, m: seq<Hit>, n: seq<Hit>)
    requires Agree(a, m, n) && Lined(m) && (m == [] || m[|m| - 1].f.end <= h.f.start)
    requires IsClustering(Filter(Full, a), n) && Hollow(h)
    ensures Agree(a + [h], Absorb(m, h), n)
  {
    var b := a + [h];
    assert Separated(n);
    RestEndsBy(a, m, n, h.f.start);
    forall c | c in n ensures Raised(b)(c) == Raised(a)(c) {
      assert c.f.start < c.f.end;
      RaisedElsewhere(a, h, c);
    }
    forall g | g in a && Full(g) ensures g.f.start != h.f.start {
      assert g in Filter(Full, a) && Covered(g, n);
    }
    HollowKeeps(a, h);
    hide Lined, IsClustering, Separated, Raises, Raised, Free;
    FilterSnoc(Full, m, h);
    FilterSnoc(Hollow, m, h);
    FilterSnoc(FreeIn(b), a, h);
    MapSame(Raised(b), Raised(a), n);
    assert FreeIn(b)(h);
  }

  // ---- All of them

  /** Empty findings are from Redact policies, and none stands inside another finding. */
  ghost predicate Clear(hits: seq<Hit>) {
    && (forall e :: e in hits && Hollow(e) ==> e.action == Redact)
    && forall e, g :: e in hits && g in hits && Hollow(e) && Full(g) ==> !Crosses(g, e.f.start)
  }

  lemma FilterLast(s: seq<Hit>)
    requires Sorted(LeftmostWidest, s) && s != []
    ensures Filter(Full, s) == Filter(Full, s[..|s| - 1]) + (if Full(s[|s| - 1]) then [s[|s| - 1]] else [])
  {
    LastSplits(s);
    FilterSnoc(Full, s[..|s| - 1], s[|s| - 1]);
  }

  lemma {:induction false} FilterSorted(keep: Hit -> bool, s: seq<Hit>)
    requires Sorted(LeftmostWidest, s)
    ensures Sorted(LeftmostWidest, Filter(keep, s))
  {
    if s != [] {
      var rest := s[1..];
      FilterSorted(keep, rest);
      forall x | x in rest ensures LeftmostWidest(s[0], x) {
        var i :| 0 <= i < |rest| && rest[i] == x;
        assert s[i + 1] == x;
      }
      var r := Filter(keep, rest);
      forall i | 0 <= i < |r| ensures LeftmostWidest(s[0], r[i]) {
        assert r[i] in r;
      }
    }
  }

  lemma FullsCluster(s: seq<Hit>)
    requires Sorted(LeftmostWidest, s)
    ensures IsClustering(Filter(Full, s), Merge(Filter(Full, s)))
  {
    FilterSorted(Full, s);
    MergeIsClustering(Filter(Full, s));
  }

  lemma ClearParts(s: seq<Hit>)
    requires Clear(s) && s != []
    ensures var n := |s| - 1;
            && Clear(s[..n])
            && (Hollow(s[n]) ==> s[n].action == Redact && forall g :: g in s[..n] && Full(g) ==> !Crosses(g, s[n].f.start))
  {
    LastSplits(s);
    assert s[|s| - 1] in s;
    assert forall g :: g in s[..|s| - 1] ==> g in s;
  }

  lemma NothingAgrees()
    ensures Agree([], [], [])
  {
  }

  lemma {:induction false} MergeAgrees(s: seq<Hit>)
    requires Sorted(LeftmostWidest, s) && Spans(s) && Clear(s)
    ensures Agree(s, Merge(s), Merge(Filter(Full, s)))
  {
    hide *;
    if s == [] {
      MergeNothing(s);
      assert s[..0] == s && Filter(Full, s) == s by { FilterNothing(s); }
      NothingAgrees();
    } else {
      PrefixBefore(s);
      ClearParts(s);
      FilterLast(s);
      var a, h := s[..|s| - 1], s[|s| - 1];
      var m, n := Merge(a), Merge(Filter(Full, a));
      MergeAgrees(a);
      MergeLined(a);
      FullsCluster(a);
      FullOrHollow(h);
      if Full(h) {
        AbsorbFull(a, h, m, n);
        MergeSnoc(Filter(Full, a), h);
      } else {
        assert Filter(Full, s) == Filter(Full, a);
        if m != [] && h.f.start < m[|m| - 1].f.end {
          HollowJoins(a, h, m, n);
        } else {
          HollowStays(a, h, m, n);
        }
      }
    }
  }

  lemma FilterNothing(s: seq<Hit>)
    requires s == []
    ensures Filter(Full, s) == s
  {
  }

  lemma FullOrHollow(h: Hit)
    requires h.f.start <= h.f.end
    ensures Full(h) == !Hollow(h)
  {
  }

  lemma MergeSnoc(s: seq<Hit>, h: Hit)
    ensures Merge(s + [h]) == Absorb(Merge(s), h)
  {
    assert (s + [h])[..|s|] == s;
  }

  // ---- In any order

  lemma FilterFirst(keep: Hit -> bool, h: Hit, rest: seq<Hit>)
    ensures Filter(keep, [h] + rest) == if keep(h) then [h] + Filter(keep, rest) else Filter(keep, rest)
  {
    assert ([h] + rest)[1..] == rest && [] + Filter(keep, rest) == Filter(keep, rest);
  }

  lemma InsertFirst(h: Hit, s: seq<Hit>)
    ensures s == [] || LeftmostWidest(h, s[0]) ==> Insert(LeftmostWidest, h, s) == [h] + s
    ensures s != [] && !LeftmostWidest(h, s[0]) ==>
              Insert(LeftmostWidest, h, s) == [s[0]] + Insert(LeftmostWidest, h, s[1..])
  {
  }

  lemma BeforeAll(h: Hit, s: seq<Hit>, r: seq<Hit>)
    requires Sorted(LeftmostWidest, s) && s != [] && LeftmostWidest(h, s[0]) && forall x :: x in r ==> x in s
    ensures r == [] || LeftmostWidest(h, r[0])
  {
    if r != [] {
      assert r[0] in r;
      var i :| 0 <= i < |s| && s[i] == r[0];
      assert i > 0 ==> LeftmostWidest(s[0], s[i]);
    }
  }

  lemma SortedRest(s: seq<Hit>)
    requires Sorted(LeftmostWidest, s) && s != []
    ensures Sorted(LeftmostWidest, s[1..]) && s == [s[0]] + s[1..]
  {
  }

  lemma {:induction false} InsertFiltered(keep: Hit -> bool, h: Hit, s: seq<Hit>)
    requires Sorted(LeftmostWidest, s)
    ensures Filter(keep, Insert(LeftmostWidest, h, s))
         == if keep(h) then Insert(LeftmostWidest, h, Filter(keep, s)) else Filter(keep, s)
  {
    hide *;
    InsertFirst(h, s);
    InsertFirst(h, Filter(keep, s));
    if s == [] {
      NoneLeft(keep, s);
      FilterFirst(keep, h, s);
    } else if LeftmostWidest(h, s[0]) {
      FilterFirst(keep, h, s);
      BeforeAll(h, s, Filter(keep, s));
    } else {
      SortedRest(s);
      InsertFiltered(keep, h, s[1..]);
      FilterFirst(keep, s[0], Insert(LeftmostWidest, h, s[1..]));
      FilterFirst(keep, s[0], s[1..]);
      if keep(s[0]) {
        assert ([s[0]] + Filter(keep, s[1..]))[1..] == Filter(keep, s[1..]);
      }
    }
  }

  lemma NoneLeft(keep: Hit -> bool, s: seq<Hit>)
    requires s == []
    ensures Filter(keep, s) == []
  {
  }

  lemma {:induction false} SortFiltered(keep: Hit -> bool, hits: seq<Hit>)
    ensures Filter(keep, Sort(LeftmostWidest, hits)) == Sort(LeftmostWidest, Filter(keep, hits))
  {
    if hits != [] {
      SortFiltered(keep, hits[1..]);
      LeftmostWidestIsOrder();
      SortSorted(LeftmostWidest, hits[1..]);
      InsertFiltered(keep, hits[0], Sort(LeftmostWidest, hits[1..]));
      var rest := Filter(keep, hits[1..]);
      assert ([hits[0]] + rest)[1..] == rest;
      assert [] + rest == rest;
    }
  }

  lemma AgreeMembers(a: seq<Hit>, b: seq<Hit>, m: seq<Hit>, n: seq<Hit>, d: Hit)
    requires Agree(a, m, n) && (forall h :: h in a <==> h in b) && (d in m ==> d.f.start <= d.f.end)
    ensures d in m <==> (exists c :: c in n && Full(d) && Raised(b)(c) == d) || (d in b && Free(b, d))
  {
    assert forall c :: Raises(a, c) == Raises(b, c);
    assert forall h :: Free(a, h) == Free(b, h);
    hide Raises, Free;
    assert d in Filter(Full, m) <==> d in m && Full(d);
    assert d in Filter(Hollow, m) <==> d in a && FreeIn(a)(d);
    FromMap(Raised(a), n, d);
    hide Agree;
    assert Free(b, d) ==> Hollow(d) by { FreeIsHollow(b, d); }
  }

  lemma FreeIsHollow(hits: seq<Hit>, h: Hit)
    ensures Free(hits, h) ==> Hollow(h)
  {
  }

  lemma FromMap(g: Hit -> Hit, n: seq<Hit>, d: Hit)
    ensures d in Map(g, n) <==> exists c :: c in n && g(c) == d
  {
    if d in Map(g, n) {
      var i :| 0 <= i < |n| && Map(g, n)[i] == d;
      assert n[i] in n;
    }
    if c :| c in n && g(c) == d {
      var i :| 0 <= i < |n| && n[i] == c;
      assert Map(g, n)[i] == d;
    }
  }

  /** The merged findings: those of the findings that are not empty, each with its action
      raised if an empty one stands at its start, and the empty ones at whose place no other
      finding starts. */
  lemma ClustersWithEmpty(hits: seq<Hit>, d: Hit)
    requires Spans(hits) && Clear(hits)
    ensures d in Clusters(hits)
       <==> (exists c :: c in Clusters(Filter(Full, hits)) && Full(d) && Raised(hits)(c) == d) || (d in hits && Free(hits, d))
  {
    var s := Sort(LeftmostWidest, hits);
    LeftmostWidestIsOrder();
    SortSorted(LeftmostWidest, hits);
    SortMembers(LeftmostWidest, hits);
    assert Spans(s) && Clear(s);
    SortFiltered(Full, hits);
    ClustersLined(hits);
    LinedSpans(Clusters(hits));
    hide Raised, Free, Agree, Lined;
    MergeAgrees(s);
    AgreeMembers(s, hits, Clusters(hits), Merge(Filter(Full, s)), d);
  }
}
