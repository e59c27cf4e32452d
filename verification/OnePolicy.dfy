/** A configuration with one enabled policy that asks for one detector. */
module OnePolicy {
  import opened Utf8
  import opened Findings
  import opened Splicing
  import opened Clustering
  import opened Detection
  import opened Scanning
  import opened Releasing
  import opened NoLeak
  import opened SameAsBatch

  function TheOnly(d: Detector, action: Action): Policy {
    Policy(d.pattern, true, [d.pattern], action)
  }

  function Only(d: Detector, action: Action): Config {
    Config([d], [TheOnly(d, action)])
  }

  lemma OnlyUses(d: Detector, action: Action)
    ensures forall x :: Uses(Only(d, action), x) ==> x == d
    ensures Asks(Only(d, action), TheOnly(d, action), d.pattern, d)
  {
    forall x | Uses(Only(d, action), x) ensures x == d {
      var p, pattern :| Asks(Only(d, action), p, pattern, x);
      var i :| FirstAt([d], pattern, i) && [d][i] == x;
    }
    assert d.pattern in TheOnly(d, action).patterns;
    assert FirstAt([d], d.pattern, 0);
    assert TheOnly(d, action) in Only(d, action).policies;
  }

  lemma OnlyHits(d: Detector, action: Action, text: Text)
    ensures Hits(Only(d, action), text) == TagAll(d.tag, d.find(text), action)
  {
    var cfg, p := Only(d, action), TheOnly(d, action);
    assert cfg.policies[..0] == [] && p.patterns[..0] == [];
    assert PatternsHits(cfg.ds, text, p.patterns, action) == [] + PatternHits(cfg.ds, text, d.pattern, action);
    assert AllHits(cfg.ds, text, cfg.policies) == [] + PolicyHits(cfg.ds, text, p);
  }

  /** One detector's matches are disjoint, so merging changes nothing. */
  lemma OnlyClusters(d: Detector, action: Action, text: Text)
    requires Registry([d]) && WellFormed(text)
    ensures Clusters(Hits(Only(d, action), text)) == TagAll(d.tag, d.find(text), action)
  {
    OnlyHits(d, action, text);
    hide WellFormed;
    assert d in [d];
    forall s | s in d.find(text) ensures s.start < s.end {
      FoundSpan(d, text, s);
    }
    hide Successive;
    TagAllSeparated(d.tag, d.find(text), action);
    ClustersOfSeparated(TagAll(d.tag, d.find(text), action));
  }

  /** The findings are the matches. */
  lemma OnlyFound(d: Detector, action: Action, text: Text, f: Finding)
    requires Registry([d]) && WellFormed(text)
    ensures f in Found(Only(d, action), text) <==> f.tag == d.tag && Span(f.start, f.end) in d.find(text)
    ensures f in Found(Only(d, action), text) ==> Hit(f, action) in Hits(Only(d, action), text)
  {
    var h, m := Hit(f, action), TagAll(d.tag, d.find(text), action);
    OnlyHits(d, action, text);
    OnlyClusters(d, action, text);
    assert Found(Only(d, action), text) == FindingsOf(m);
    hide *;
    TagAllMembers(d.tag, d.find(text), action, h);
    if f in FindingsOf(m) {
      var c := FromFindings(m, f);
      TagAllMembers(d.tag, d.find(text), action, c);
    }
    if h in m {
      ToFindings(m, h);
    }
  }

  lemma OnlyScannable(d: Detector, action: Action, text: Text)
    requires Registry([d]) && WellFormed(text)
    ensures Scannable(Only(d, action).ds, text)
  {
  }
}
