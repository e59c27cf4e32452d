/** The order in which `collect_findings` pushes its findings. It decides the labels of merged
    findings where candidates tie. */
module FindingOrder {
  import opened Utf8
  import opened Findings
  import opened Detection

  /** A match, by the positions of its policy, of its pattern in it, and its own. */
  datatype Place = Place(policy: nat, pattern: nat, turn: nat)

  predicate Before(a: Place, b: Place) {
    || a.policy < b.policy
    || (a.policy == b.policy && (a.pattern < b.pattern || (a.pattern == b.pattern && a.turn < b.turn)))
  }

  /** `h` is match number `pl.turn` of the first detector for that pattern of an enabled policy. */
  ghost predicate StandsAt(ds: seq<Detector>, text: Text, policies: seq<Policy>, pl: Place, h: Hit) {
    && pl.policy < |policies| && policies[pl.policy].enabled && pl.pattern < |policies[pl.policy].patterns|
    && exists k :: FirstAt(ds, policies[pl.policy].patterns[pl.pattern], k)
               && MatchOf(ds[k], text, pl.turn, policies[pl.policy].action, h)
  }

  ghost predicate MatchOf(d: Detector, text: Text, turn: nat, action: Action, h: Hit) {
    && turn < |d.find(text)|
    && h.f.tag == d.tag && h.f.start == d.find(text)[turn].start && h.f.end == d.find(text)[turn].end
    && h.action == action
  }

  /** The place is before pattern `j` of policy `i`. */
  predicate Earlier(pl: Place, i: nat, j: nat) {
    pl.policy < i || (pl.policy == i && pl.pattern < j)
  }

  ghost predicate Increasing(places: seq<Place>) {
    forall m, n :: 0 <= m < n < |places| ==> Before(places[m], places[n])
  }

  /** Every match before pattern `j` of policy `i`, once and in that order. */
  ghost predicate Lists(ds: seq<Detector>, text: Text, policies: seq<Policy>, i: nat, j: nat,
                        places: seq<Place>, hits: seq<Hit>) {
    && |places| == |hits| && Increasing(places)
    && (forall n :: 0 <= n < |places| ==> Earlier(places[n], i, j) && StandsAt(ds, text, policies, places[n], hits[n]))
    && forall pl, h :: StandsAt(ds, text, policies, pl, h) && Earlier(pl, i, j) ==> pl in places
  }

  lemma {:induction false} TagAllAt(tag: Text, spans: seq<Span>, action: Action, m: nat)
    requires m < |spans|
    ensures |TagAll(tag, spans, action)| == |spans|
    ensures TagAll(tag, spans, action)[m] == Hit(Finding(tag, spans[m].start, spans[m].end), action)
  {
    var n := |spans| - 1;
    if n > 0 {
      TagAllAt(tag, spans[..n], action, if m < n then m else 0);
    }
  }

  /** The places of pattern `j` of policy `i`. */
  function PlacesOf(i: nat, j: nat, n: nat): (r: seq<Place>)
    ensures |r| == n && forall m :: 0 <= m < n ==> r[m] == Place(i, j, m)
  {
    seq(n, m requires 0 <= m < n => Place(i, j, m))
  }

  lemma AppendIncreasing(a: seq<Place>, i: nat, j: nat, n: nat)
    requires Increasing(a) && forall m :: 0 <= m < |a| ==> Earlier(a[m], i, j)
    ensures Increasing(a + PlacesOf(i, j, n))
  {
  }

  ghost predicate Turns(ds: seq<Detector>, text: Text, policies: seq<Policy>, i: nat, j: nat, hits: seq<Hit>) {
    && (forall m :: 0 <= m < |hits| ==> StandsAt(ds, text, policies, Place(i, j, m), hits[m]))
    && forall m: nat, h :: StandsAt(ds, text, policies, Place(i, j, m), h) ==> m < |hits|
  }

  lemma PatternTurns(ds: seq<Detector>, text: Text, policies: seq<Policy>, i: nat, j: nat)
    requires i < |policies| && policies[i].enabled && j < |policies[i].patterns|
    ensures Turns(ds, text, policies, i, j, PatternHits(ds, text, policies[i].patterns[j], policies[i].action))
  {
    var pattern, action := policies[i].patterns[j], policies[i].action;
    var hits := PatternHits(ds, text, pattern, action);
    if k :| FirstAt(ds, pattern, k) {
      var d := ds[k];
      assert Answers(ds, pattern, d);
      LookupIs(ds, pattern, d);
      assert |hits| == |d.find(text)| by {
        if d.find(text) != [] {
          TagAllAt(d.tag, d.find(text), action, 0);
        }
      }
      hide Lookup;
      forall m | 0 <= m < |hits| ensures StandsAt(ds, text, policies, Place(i, j, m), hits[m]) {
        TagAllAt(d.tag, d.find(text), action, m);
        assert MatchOf(d, text, m, action, hits[m]);
      }
      forall m: nat, h | StandsAt(ds, text, policies, Place(i, j, m), h) ensures m < |hits| {
        var n :| FirstAt(ds, pattern, n) && MatchOf(ds[n], text, m, action, h);
        OneAnswer(ds, pattern, n, k);
      }
    } else if Lookup(ds, pattern).Some? {
      LookupIs(ds, pattern, Lookup(ds, pattern).value);
    }
  }

  lemma ListsStep(ds: seq<Detector>, text: Text, policies: seq<Policy>, i: nat, j: nat,
                  places: seq<Place>, hits: seq<Hit>, more: seq<Hit>)
    requires Lists(ds, text, policies, i, j, places, hits) && Turns(ds, text, policies, i, j, more)
    ensures Lists(ds, text, policies, i, j + 1, places + PlacesOf(i, j, |more|), hits + more)
  {
    hide StandsAt;
    var all := places + PlacesOf(i, j, |more|);
    AppendIncreasing(places, i, j, |more|);
    hide Increasing;
    forall pl, h | StandsAt(ds, text, policies, pl, h) && Earlier(pl, i, j + 1) ensures pl in all {
      if !Earlier(pl, i, j) {
        assert pl == Place(i, j, pl.turn);
        assert PlacesOf(i, j, |more|)[pl.turn] == pl;
      }
    }
  }

  lemma NextPolicy(ds: seq<Detector>, text: Text, policies: seq<Policy>, i: nat, j: nat,
                   places: seq<Place>, hits: seq<Hit>)
    requires Lists(ds, text, policies, i, j, places, hits) && i < |policies|
    requires policies[i].enabled ==> j == |policies[i].patterns|
    ensures Lists(ds, text, policies, i + 1, 0, places, hits)
  {
    hide Increasing;
    forall pl, h | StandsAt(ds, text, policies, pl, h) && Earlier(pl, i + 1, 0) ensures pl in places {
      assert Earlier(pl, i, j);
    }
  }

  lemma ListsPolicy(ds: seq<Detector>, text: Text, policies: seq<Policy>, i: nat, places: seq<Place>, hits: seq<Hit>)
    returns (more: seq<Place>)
    requires i < |policies| && policies[i].enabled && Lists(ds, text, policies, i, 0, places, hits)
    ensures Lists(ds, text, policies, i, |policies[i].patterns|, more,
                  hits + PatternsHits(ds, text, policies[i].patterns, policies[i].action))
  {
    var p := policies[i];
    hide *;
    more := places;
    NoPatterns(ds, text, p.patterns, p.action);
    assert hits + [] == hits;
    for j := 0 to |p.patterns|
      invariant Lists(ds, text, policies, i, j, more, hits + PatternsHits(ds, text, p.patterns[..j], p.action))
    {
      var found := PatternHits(ds, text, p.patterns[j], p.action);
      PatternsStep(ds, text, p.patterns, p.action, j, hits);
      PatternTurns(ds, text, policies, i, j);
      ListsStep(ds, text, policies, i, j, more, hits + PatternsHits(ds, text, p.patterns[..j], p.action), found);
      more := more + PlacesOf(i, j, |found|);
    }
    assert p.patterns[..|p.patterns|] == p.patterns;
  }

  lemma NoPatterns(ds: seq<Detector>, text: Text, patterns: seq<string>, action: Action)
    ensures PatternsHits(ds, text, patterns[..0], action) == []
  {
  }

  lemma NothingListed(ds: seq<Detector>, text: Text, policies: seq<Policy>)
    ensures AllHits(ds, text, policies[..0]) == [] && Lists(ds, text, policies, 0, 0, [], [])
  {
  }

  lemma PolicyHitsAre(ds: seq<Detector>, text: Text, p: Policy)
    ensures PolicyHits(ds, text, p) == if p.enabled then PatternsHits(ds, text, p.patterns, p.action) else []
  {
  }

  lemma AllEarlier(ds: seq<Detector>, text: Text, policies: seq<Policy>, places: seq<Place>, hits: seq<Hit>)
    requires Lists(ds, text, policies, |policies|, 0, places, hits)
    ensures ListsAll(ds, text, policies, places, hits)
  {
  }

  /** Every match of every pattern of every enabled policy, once, in the order of the policies,
      then of the patterns, then of the matches. */
  ghost predicate ListsAll(ds: seq<Detector>, text: Text, policies: seq<Policy>, places: seq<Place>, hits: seq<Hit>) {
    && |places| == |hits| && Increasing(places)
    && (forall n :: 0 <= n < |places| ==> StandsAt(ds, text, policies, places[n], hits[n]))
    && forall pl, h :: StandsAt(ds, text, policies, pl, h) ==> pl in places
  }

  lemma CollectedInOrder(ds: seq<Detector>, text: Text, policies: seq<Policy>) returns (places: seq<Place>)
    ensures ListsAll(ds, text, policies, places, AllHits(ds, text, policies))
  {
    hide *;
    places := [];
    NothingListed(ds, text, policies);
    for i := 0 to |policies|
      invariant Lists(ds, text, policies, i, 0, places, AllHits(ds, text, policies[..i]))
    {
      var hits := AllHits(ds, text, policies[..i]);
      PoliciesStep(ds, text, policies, i);
      PolicyHitsAre(ds, text, policies[i]);
      if policies[i].enabled {
        places := ListsPolicy(ds, text, policies, i, places, hits);
        NextPolicy(ds, text, policies, i, |policies[i].patterns|, places,
                   hits + PatternsHits(ds, text, policies[i].patterns, policies[i].action));
      } else {
        assert hits + [] == hits;
        NextPolicy(ds, text, policies, i, 0, places, hits);
      }
    }
    assert policies[..|policies|] == policies;
    AllEarlier(ds, text, policies, places, AllHits(ds, text, policies));
  }

  lemma InOther(a: seq<Place>, b: seq<Place>, n: nat)
    requires Increasing(a) && Increasing(b) && n < |a| && n <= |b| && a[..n] == b[..n] && a[n] in b
    ensures n < |b| && (a[n] == b[n] || Before(b[n], a[n]))
  {
    assert forall k :: 0 <= k < n ==> a[..n][k] == a[k] && b[..n][k] == b[k];
    var m :| 0 <= m < |b| && b[m] == a[n];
    assert m >= n;
  }

  lemma SameIncreasing(a: seq<Place>, b: seq<Place>, n: nat)
    requires Increasing(a) && Increasing(b) && n <= |a|
    requires (forall x :: x in a ==> x in b) && (forall x :: x in b ==> x in a)
    ensures n <= |b| && a[..n] == b[..n]
  {
    if n > 0 {
      SameIncreasing(a, b, n - 1);
      InOther(a, b, n - 1);
      InOther(b, a, n - 1);
    }
  }

  lemma AllPlaces(ds: seq<Detector>, text: Text, policies: seq<Policy>, places: seq<Place>, hits: seq<Hit>,
                  others: seq<Place>, more: seq<Hit>)
    requires ListsAll(ds, text, policies, places, hits) && ListsAll(ds, text, policies, others, more)
    ensures forall pl :: pl in places ==> pl in others
  {
    hide StandsAt, Increasing;
    forall pl | pl in places ensures pl in others {
      var n :| 0 <= n < |places| && places[n] == pl;
      assert StandsAt(ds, text, policies, places[n], hits[n]);
    }
  }

  lemma OneAt(ds: seq<Detector>, text: Text, policies: seq<Policy>, pl: Place, g: Hit, h: Hit)
    requires StandsAt(ds, text, policies, pl, g) && StandsAt(ds, text, policies, pl, h)
    ensures g == h
  {
    var pattern := policies[pl.policy].patterns[pl.pattern];
    var i :| FirstAt(ds, pattern, i) && MatchOf(ds[i], text, pl.turn, policies[pl.policy].action, g);
    var j :| FirstAt(ds, pattern, j) && MatchOf(ds[j], text, pl.turn, policies[pl.policy].action, h);
    OneAnswer(ds, pattern, i, j);
  }

  /** Nothing but the collected findings is listed so. */
  lemma OrderIsExact(ds: seq<Detector>, text: Text, policies: seq<Policy>, places: seq<Place>, hits: seq<Hit>)
    requires ListsAll(ds, text, policies, places, hits)
    ensures hits == AllHits(ds, text, policies)
  {
    var all := AllHits(ds, text, policies);
    hide AllHits, StandsAt, Increasing;
    var others := CollectedInOrder(ds, text, policies);
    AllPlaces(ds, text, policies, places, hits, others, all);
    AllPlaces(ds, text, policies, others, all, places, hits);
    SameIncreasing(places, others, |places|);
    SameIncreasing(others, places, |others|);
    forall n | 0 <= n < |hits| ensures hits[n] == all[n] {
      assert places[..|places|][n] == others[..|places|][n];
      OneAt(ds, text, policies, places[n], hits[n], all[n]);
    }
  }
}
