/** Which policies affect a response: `has_outbound_redaction`, and what a release masks
    against what `scan` does. */
module Outbound {
  import opened Utf8
  import opened Sequences
  import opened Findings
  import opened Splicing
  import opened Clustering
  import opened Detection
  import opened Scanning
  import opened Releasing
  import opened OnePolicy
  import opened Patterns
  import opened Ssn
  import opened SsnStreaming
  import opened SsnRuns

  predicate HasOutboundRedaction(policies: seq<Policy>) {
    exists p :: p in policies && p.enabled && p.action == Redact && p.patterns != []
  }

  // ---- Without an outbound policy

  lemma NothingMasked(text: Text, hits: seq<Hit>)
    requires Nonempty(hits) && MaskList(hits) == []
    ensures Outcome(text, hits).text == text
  {
    assert text[0..] == text;
  }

  lemma RedactIsOutbound(ds: seq<Detector>, text: Text, policies: seq<Policy>, h: Hit)
    requires h in AllHits(ds, text, policies) && h.action == Redact
    ensures HasOutboundRedaction(policies)
  {
    Collected(ds, text, policies, h);
    var p :| p in policies && p.enabled && Detects(ds, text, p, h);
    assert p.patterns != [];
  }

  /** A stream that is passed through unscanned is the stream that `scan` would give. */
  lemma PassThroughIsScan(ds: seq<Detector>, text: Text, policies: seq<Policy>)
    requires Scannable(ds, text) && !HasOutboundRedaction(policies)
    ensures Nonempty(AllHits(ds, text, policies))
    ensures Outcome(text, AllHits(ds, text, policies)).text == text
  {
    var hits := AllHits(ds, text, policies);
    HitsProper(ds, text, policies);
    hide *;
    if MaskList(hits) != [] {
      var h := MaskHasRedactFinding(hits, MaskList(hits)[0]);
      RedactIsOutbound(ds, text, policies, h);
    }
    NothingMasked(text, hits);
  }

  /** Takes the whole of any text for a match. */
  function Whole(pattern: string): Detector {
    Detector(pattern, [], (text: Text) => if text == [] then [] else [Span(0, |text|)])
  }

  lemma WholeScannable(pattern: string, text: Text)
    requires WellFormed(text)
    ensures Scannable([Whole(pattern)], text)
  {
    var d := Whole(pattern);
    forall t: Text | WellFormed(t) ensures Successive(d.find(t)) && forall s :: s in d.find(t) ==> GoodSpan(t, s) {
    }
    assert WellFormed(d.tag);
  }

  /** Some text has a finding from a Redact policy, for some detectors. */
  ghost predicate CanRedact(policies: seq<Policy>) {
    exists ds, text, h :: RedactHit(ds, text, policies, h)
  }

  ghost predicate RedactHit(ds: seq<Detector>, text: Text, policies: seq<Policy>, h: Hit) {
    Scannable(ds, text) && h in AllHits(ds, text, policies) && h.action == Redact
  }

  /** A response is passed through unscanned exactly when no text could have a finding from a
      Redact policy, whatever the detectors. */
  lemma OutboundIff(policies: seq<Policy>)
    ensures HasOutboundRedaction(policies) <==> CanRedact(policies)
  {
    if HasOutboundRedaction(policies) {
      var p :| p in policies && p.enabled && p.action == Redact && p.patterns != [];
      var pattern, text := p.patterns[0], [0x41 as byte];
      var d, h := Whole(pattern), Hit(Finding([], 0, 1), Redact);
      assert text[1..] == [];
      WholeScannable(pattern, text);
      assert FirstAt([d], pattern, 0);
      assert Span(0, 1) in d.find(text);
      assert DetectedBy([d], text, pattern, Redact, h);
      Collected([d], text, policies, h);
      assert RedactHit([d], text, policies, h);
    }
    if ds, text, h :| RedactHit(ds, text, policies, h) {
      RedactIsOutbound(ds, text, policies, h);
    }
  }

  // ---- With one

  /** A chain of overlapping findings joins `h` to one of a Redact policy. */
  ghost predicate JoinsRedact(hits: seq<Hit>, h: Hit) {
    exists g :: g in hits && g.action == Redact && Linked(hits, h, g)
  }

  ghost predicate AllJoinRedact(hits: seq<Hit>) {
    forall h :: h in hits ==> h.action != Block && JoinsRedact(hits, h)
  }

  lemma ClustersCover(hits: seq<Hit>, c: Hit)
    requires Nonempty(hits) && c in Clusters(hits)
    ensures IsCluster(hits, c) && c.f.start < c.f.end && Separated(Clusters(hits))
  {
    ClustersAreClustering(hits);
  }

  lemma JoinedIsRedact(hits: seq<Hit>, c: Hit)
    requires Nonempty(hits) && AllJoinRedact(hits) && c in Clusters(hits)
    ensures c.action == Redact
  {
    var m := Clusters(hits);
    hide Clusters, IsCluster, Linked, Separated;
    ClustersCover(hits, c);
    var h := Lender(hits, c);
    var g :| g in hits && g.action == Redact && Linked(hits, h, g);
    ComponentsOfOverlap(hits, h, g);
    var d :| d in m && Within(h, d) && Within(g, d);
    Disjoint(m, c, d, h.f.start);
    StrongEnough(hits, c, g);
  }

  lemma StrongEnough(hits: seq<Hit>, c: Hit, g: Hit)
    requires IsCluster(hits, c) && g in hits && Within(g, c)
    ensures Strength(g.action) <= Strength(c.action)
  {
  }

  lemma RedactIsJoined(hits: seq<Hit>, h: Hit)
    requires Nonempty(hits) && h in hits && forall c :: c in Clusters(hits) ==> c.action == Redact
    ensures h.action != Block && JoinsRedact(hits, h)
  {
    hide Clusters, IsCluster, Linked, Separated;
    var c := ClusterOf(hits, h);
    ClustersCover(hits, c);
    var g := Lender(hits, c);
    ComponentsOfOverlap(hits, h, g);
  }

  lemma AllRedactIff(hits: seq<Hit>)
    ensures FindingsOf(Clusters(hits)) == MaskList(hits) <==> forall c :: c in Clusters(hits) ==> c.action == Redact
  {
    var m := Clusters(hits);
    hide Clusters;
    if FindingsOf(m) == MaskList(hits) {
      FilterKeptAll(IsRedact, m);
    } else if forall c :: c in m ==> c.action == Redact {
      FilterAll(IsRedact, m);
    }
  }

  /** A release masks what `scan` masks exactly when no finding comes from a Block policy and
      each is joined by overlaps to one from a Redact policy. */
  lemma ReleaseMasksAsScan(cfg: Config, text: Text)
    requires Scannable(cfg.ds, text)
    ensures MasksOf(cfg, text, true) == MaskList(Hits(cfg, text)) <==> AllJoinRedact(Hits(cfg, text))
  {
    var hits := Hits(cfg, text);
    FoundGood(cfg, text);
    CutOfFound(cfg, text, true);
    hide *;
    FlushCutsAtEnd(text, Found(cfg, text));
    AllRedactIff(hits);
    if forall c :: c in Clusters(hits) ==> c.action == Redact {
      forall h | h in hits ensures h.action != Block && JoinsRedact(hits, h) {
        RedactIsJoined(hits, h);
      }
      AllJoined(hits);
    } else if AllJoinRedact(hits) {
      forall c | c in Clusters(hits) ensures c.action == Redact {
        JoinedIsRedact(hits, c);
      }
    }
  }

  lemma AllJoined(hits: seq<Hit>)
    requires forall h :: h in hits ==> h.action != Block && JoinsRedact(hits, h)
    ensures AllJoinRedact(hits)
  {
  }

  // ---- A Flag policy beside a Redact policy

  /** A Redact policy for one detector and another policy for a second one. */
  function Beside(other: Detector, d: Detector, action: Action): Config {
    Config([other, d], [TheOnly(other, Redact), TheOnly(d, action)])
  }

  lemma TheOnlyHits(ds: seq<Detector>, d: Detector, action: Action, text: Text)
    ensures PolicyHits(ds, text, TheOnly(d, action)) == PatternHits(ds, text, d.pattern, action)
  {
    var p := TheOnly(d, action);
    assert p.patterns[..0] == [];
    assert PatternsHits(ds, text, p.patterns, action) == [] + PatternHits(ds, text, d.pattern, action);
  }

  lemma BesideHits(other: Detector, d: Detector, action: Action, text: Text)
    requires other.pattern != d.pattern && other.find(text) == []
    ensures Hits(Beside(other, d, action), text) == Hits(Only(d, action), text)
  {
    var cfg, p, q := Beside(other, d, action), TheOnly(other, Redact), TheOnly(d, action);
    OnlyHits(d, action, text);
    TheOnlyHits(cfg.ds, other, Redact, text);
    TheOnlyHits(cfg.ds, d, action, text);
    assert cfg.ds[1..] == [d];
    assert PatternHits(cfg.ds, text, other.pattern, Redact) == [];
    assert PatternHits(cfg.ds, text, d.pattern, action) == TagAll(d.tag, d.find(text), action);
    hide PolicyHits, PatternHits, TagAll;
    assert cfg.policies[..1] == [p] && [p][..0] == [];
    assert AllHits(cfg.ds, text, [p]) == [] + PolicyHits(cfg.ds, text, p);
    assert AllHits(cfg.ds, text, cfg.policies) == AllHits(cfg.ds, text, [p]) + PolicyHits(cfg.ds, text, q);
  }

  lemma OnlyUnmasked(d: Detector, action: Action, text: Text)
    requires Registry([d]) && WellFormed(text) && action != Redact
    ensures MaskList(Hits(Only(d, action), text)) == []
  {
    OnlyClusters(d, action, text);
    var m := TagAll(d.tag, d.find(text), action);
    forall c | c in m ensures !IsRedact(c) {
      TagAllMembers(d.tag, d.find(text), action, c);
    }
    FilterNone(IsRedact, m);
  }

  /** `123-45-6789` as a whole response, with a Flag policy for it and a Redact policy that
      finds nothing: `scan` keeps it, a stream sends `[REDACTED:SSN]`. */
  lemma FlaggedIsMasked(cls: Classes, other: Detector)
    requires GoodClasses(cls) && Registry([other]) && other.pattern != "ssn" && other.find(NUMBER) == []
    ensures var cfg := Beside(other, SsnDetector(cls), Flag);
            && HasOutboundRedaction(cfg.policies) && Scannable(cfg.ds, NUMBER) && Nonempty(Hits(cfg, NUMBER))
            && Outcome(NUMBER, Hits(cfg, NUMBER)).text == NUMBER
            && ReleaseOf(cfg, NUMBER, true).text
               == [0x5B, 0x52, 0x45, 0x44, 0x41, 0x43, 0x54, 0x45, 0x44, 0x3A, 0x53, 0x53, 0x4E, 0x5D]
  {
    var cfg, d := Beside(other, SsnDetector(cls), Flag), SsnDetector(cls);
    BesideParts(cls, other);
    hide *;
    SsnConfig(cls, Flag);
    NumberMatches(cls, NUMBER);
    NumberIsAscii(NUMBER);
    SsnIsDetector(cls);
    BothScannable(other, d, NUMBER);
    BesideHits(other, d, Flag, NUMBER);
    OnlyUnmasked(d, Flag, NUMBER);
    FoundGood(cfg, NUMBER);
    NothingMasked(NUMBER, Hits(cfg, NUMBER));
    CutOfFound(cfg, NUMBER, true);
    CutOfFound(SsnOnly(cls, Flag), NUMBER, true);
    var f := Finding(TAG, 0, 11);
    SsnFound(cls, NUMBER, Flag, f);
    CoversAll(Found(cfg, NUMBER), f);
    FlushCutsAtEnd(NUMBER, [f]);
    ReleaseParts(cfg, NUMBER, true);
    WholeSpliced(NUMBER, f);
    SsnToken();
  }

  /** `[REDACTED:SSN]` */
  lemma SsnToken()
    ensures Token(TAG) == [0x5B, 0x52, 0x45, 0x44, 0x41, 0x43, 0x54, 0x45, 0x44, 0x3A, 0x53, 0x53, 0x4E, 0x5D]
  {
  }

  lemma BesideParts(cls: Classes, other: Detector)
    ensures var cfg := Beside(other, SsnDetector(cls), Flag);
            && SsnDetector(cls).pattern == "ssn" && cfg.ds == [other, SsnDetector(cls)]
            && HasOutboundRedaction(cfg.policies)
  {
    var cfg := Beside(other, SsnDetector(cls), Flag);
    assert cfg.policies[0] in cfg.policies;
  }

  lemma BothScannable(d: Detector, e: Detector, text: Text)
    requires Registry([d]) && Registry([e]) && WellFormed(text)
    ensures Scannable([d, e], text)
  {
    assert d in [d] && e in [e];
    hide FindIter, WellFormed;
  }
}
