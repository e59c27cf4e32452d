/** Detectors, known only by what `Regex::find_iter` promises, and `collect_findings`. */
module Detection {
  import opened Utf8
  import opened Findings
  import opened Splicing

  datatype Option<+T> = None | Some(value: T)

  datatype Span = Span(start: nat, end: nat)

  datatype Detector = Detector(pattern: string, tag: Text, find: Text -> seq<Span>)

  datatype Policy = Policy(name: string, enabled: bool, patterns: seq<string>, action: Action)

  // ---- What the detectors promise

  predicate GoodSpan(text: Text, s: Span) {
    s.start < s.end <= |text| && IsBoundary(text, s.start) && IsBoundary(text, s.end)
  }

  predicate Successive(spans: seq<Span>) {
    forall i, j :: 0 <= i < j < |spans| ==> spans[i].end <= spans[j].start
  }

  /** `find_iter` on a pattern that cannot match the empty string. */
  ghost predicate FindIter(d: Detector) {
    forall text :: WellFormed(text) ==>
      Successive(d.find(text)) && forall s :: s in d.find(text) ==> GoodSpan(text, s)
  }

  ghost predicate Registry(ds: seq<Detector>) {
    forall d :: d in ds ==> WellFormed(d.tag) && FindIter(d)
  }

  // ---- Collecting

  function Lookup(ds: seq<Detector>, pattern: string): Option<Detector> {
    if ds == [] then None
    else if ds[0].pattern == pattern then Some(ds[0])
    else Lookup(ds[1..], pattern)
  }

  /** Detector `i` of the table is the first one for `pattern`. */
  ghost predicate FirstAt(ds: seq<Detector>, pattern: string, i: int) {
    0 <= i < |ds| && ds[i].pattern == pattern && forall j :: 0 <= j < i ==> ds[j].pattern != pattern
  }

  ghost predicate Answers(ds: seq<Detector>, pattern: string, d: Detector) {
    exists i :: FirstAt(ds, pattern, i) && ds[i] == d
  }

  ghost predicate NoneFor(ds: seq<Detector>, pattern: string) {
    forall d :: d in ds ==> d.pattern != pattern
  }

  lemma FirstBehind(ds: seq<Detector>, pattern: string, i: nat)
    requires ds != [] && ds[0].pattern != pattern
    ensures FirstAt(ds[1..], pattern, i) <==> FirstAt(ds, pattern, i + 1)
  {
    if FirstAt(ds, pattern, i + 1) {
      assert forall j :: 0 <= j < i ==> ds[1..][j] == ds[j + 1];
    }
  }

  /** The first detector of the table for `pattern`, and none exactly when there is none. */
  lemma {:induction false} LookupIs(ds: seq<Detector>, pattern: string, d: Detector)
    ensures Lookup(ds, pattern) == Some(d) <==> Answers(ds, pattern, d)
    ensures Lookup(ds, pattern) == None <==> NoneFor(ds, pattern)
  {
    if ds != [] {
      assert forall e :: e in ds <==> e == ds[0] || e in ds[1..];
      if ds[0].pattern == pattern {
        assert FirstAt(ds, pattern, 0);
      } else {
        LookupIs(ds[1..], pattern, d);
        if i :| FirstAt(ds[1..], pattern, i) && ds[1..][i] == d {
          FirstBehind(ds, pattern, i);
        }
        if i :| FirstAt(ds, pattern, i) && ds[i] == d {
          assert i > 0;
          FirstBehind(ds, pattern, i - 1);
        }
      }
    }
  }

  lemma OneAnswer(ds: seq<Detector>, pattern: string, i: int, j: int)
    requires FirstAt(ds, pattern, i) && FirstAt(ds, pattern, j)
    ensures i == j
  {
  }

  function TagAll(tag: Text, spans: seq<Span>, action: Action): seq<Hit> {
    if spans == [] then []
    else
      var n := |spans| - 1;
      TagAll(tag, spans[..n], action) + [Hit(Finding(tag, spans[n].start, spans[n].end), action)]
  }

  function PatternHits(ds: seq<Detector>, text: Text, pattern: string, action: Action): seq<Hit> {
    match Lookup(ds, pattern)
    case None => []
    case Some(d) => TagAll(d.tag, d.find(text), action)
  }

  function PatternsHits(ds: seq<Detector>, text: Text, patterns: seq<string>, action: Action): seq<Hit> {
    if patterns == [] then []
    else
      var n := |patterns| - 1;
      PatternsHits(ds, text, patterns[..n], action) + PatternHits(ds, text, patterns[n], action)
  }

  function PolicyHits(ds: seq<Detector>, text: Text, policy: Policy): seq<Hit> {
    if policy.enabled then PatternsHits(ds, text, policy.patterns, policy.action) else []
  }

  /** Every match of every pattern of every enabled policy, in that order. */
  function AllHits(ds: seq<Detector>, text: Text, policies: seq<Policy>): seq<Hit> {
    if policies == [] then []
    else
      var n := |policies| - 1;
      AllHits(ds, text, policies[..n]) + PolicyHits(ds, text, policies[n])
  }

  predicate Blocks(hits: seq<Hit>) {
    exists h :: h in hits && h.action == Block
  }

  lemma BlocksConcat(a: seq<Hit>, b: seq<Hit>)
    ensures Blocks(a + b) <==> Blocks(a) || Blocks(b)
  {
    if Blocks(a) {
      var h :| h in a && h.action == Block;
      assert h in a + b;
    }
    if Blocks(b) {
      var h :| h in b && h.action == Block;
      assert h in a + b;
    }
  }

  method CollectMatches(tag: Text, spans: seq<Span>, action: Action, before: seq<Hit>, wasBlocked: bool)
    returns (findings: seq<Hit>, blocked: bool)
    requires wasBlocked <==> Blocks(before)
    ensures findings == before + TagAll(tag, spans, action)
    ensures blocked <==> Blocks(findings)
  {
    findings, blocked := before, wasBlocked;
    for i := 0 to |spans|
      invariant findings == before + TagAll(tag, spans[..i], action)
      invariant blocked <==> Blocks(findings)
    {
      var hit := Hit(Finding(tag, spans[i].start, spans[i].end), action);
      BlocksConcat(findings, [hit]);
      assert Blocks([hit]) <==> action == Block by { assert hit in [hit]; }
      assert spans[..i + 1][..i] == spans[..i];
      findings := findings + [hit];
      if action == Block {
        blocked := true;
      }
    }
    assert spans[..|spans|] == spans;
  }

  lemma PatternsStep(ds: seq<Detector>, text: Text, patterns: seq<string>, action: Action, j: nat, before: seq<Hit>)
    requires j < |patterns|
    ensures before + PatternsHits(ds, text, patterns[..j + 1], action)
         == before + PatternsHits(ds, text, patterns[..j], action) + PatternHits(ds, text, patterns[j], action)
  {
    assert patterns[..j + 1][..j] == patterns[..j];
    var a, b := PatternsHits(ds, text, patterns[..j], action), PatternHits(ds, text, patterns[j], action);
    assert before + (a + b) == before + a + b;
  }

  lemma PoliciesStep(ds: seq<Detector>, text: Text, policies: seq<Policy>, i: nat)
    requires i < |policies|
    ensures AllHits(ds, text, policies[..i + 1]) == AllHits(ds, text, policies[..i]) + PolicyHits(ds, text, policies[i])
  {
    assert policies[..i + 1][..i] == policies[..i];
  }

  method CollectPolicy(ds: seq<Detector>, input: Text, policy: Policy, before: seq<Hit>, wasBlocked: bool)
    returns (findings: seq<Hit>, blocked: bool)
    requires wasBlocked <==> Blocks(before)
    ensures findings == before + PatternsHits(ds, input, policy.patterns, policy.action)
    ensures blocked <==> Blocks(findings)
  {
    findings, blocked := before, wasBlocked;
    assert policy.patterns[..0] == [] && before + [] == before;
    assert before + PatternsHits(ds, input, policy.patterns[..0], policy.action) == before;
    hide PatternsHits, TagAll, Blocks, Lookup;
    for j := 0 to |policy.patterns|
      invariant findings == before + PatternsHits(ds, input, policy.patterns[..j], policy.action)
      invariant blocked <==> Blocks(findings)
    {
      PatternsStep(ds, input, policy.patterns, policy.action, j, before);
      match Lookup(ds, policy.patterns[j])
      case None =>
        assert findings + [] == findings;
      case Some(det) =>
        findings, blocked := CollectMatches(det.tag, det.find(input), policy.action, findings, blocked);
    }
    assert policy.patterns[..|policy.patterns|] == policy.patterns;
  }

  method CollectFindings(ds: seq<Detector>, input: Text, policies: seq<Policy>)
    returns (findings: seq<Hit>, blocked: bool)
    ensures findings == AllHits(ds, input, policies)
    ensures blocked <==> Blocks(findings)
  {
    findings, blocked := [], false;
    for i := 0 to |policies|
      invariant findings == AllHits(ds, input, policies[..i])
      invariant blocked <==> Blocks(findings)
    {
      PoliciesStep(ds, input, policies, i);
      if policies[i].enabled {
        findings, blocked := CollectPolicy(ds, input, policies[i], findings, blocked);
      }
    }
    assert policies[..|policies|] == policies;
  }

  // ---- What is collected

  /** `h` is a match of one of the patterns of `policy`. */
  ghost predicate Detects(ds: seq<Detector>, text: Text, policy: Policy, h: Hit) {
    exists pattern :: pattern in policy.patterns && DetectedBy(ds, text, pattern, policy.action, h)
  }

  /** `h` is a match of the first detector of the table for `pattern`. */
  ghost predicate DetectedBy(ds: seq<Detector>, text: Text, pattern: string, action: Action, h: Hit) {
    exists i :: FirstAt(ds, pattern, i)
             && h.action == action && h.f.tag == ds[i].tag && Span(h.f.start, h.f.end) in ds[i].find(text)
  }

  lemma Detected(ds: seq<Detector>, text: Text, pattern: string, action: Action, h: Hit, i: int)
    requires FirstAt(ds, pattern, i)
    ensures Lookup(ds, pattern) == Some(ds[i])
    ensures DetectedBy(ds, text, pattern, action, h)
       <==> h.action == action && h.f.tag == ds[i].tag && Span(h.f.start, h.f.end) in ds[i].find(text)
  {
    assert Answers(ds, pattern, ds[i]);
    LookupIs(ds, pattern, ds[i]);
    if DetectedBy(ds, text, pattern, action, h) {
      var j :| FirstAt(ds, pattern, j)
               && h.action == action && h.f.tag == ds[j].tag && Span(h.f.start, h.f.end) in ds[j].find(text);
      OneAnswer(ds, pattern, i, j);
    }
  }

  lemma {:induction false} TagAllMembers(tag: Text, spans: seq<Span>, action: Action, h: Hit)
    ensures h in TagAll(tag, spans, action)
       <==> h.action == action && h.f.tag == tag && Span(h.f.start, h.f.end) in spans
  {
    if spans != [] {
      var n := |spans| - 1;
      TagAllMembers(tag, spans[..n], action, h);
      assert spans == spans[..n] + [spans[n]];
    }
  }

  lemma PatternMembers(ds: seq<Detector>, text: Text, pattern: string, action: Action, h: Hit)
    ensures h in PatternHits(ds, text, pattern, action) <==> DetectedBy(ds, text, pattern, action, h)
  {
    if Lookup(ds, pattern).Some? {
      var d := Lookup(ds, pattern).value;
      TagAllMembers(d.tag, d.find(text), action, h);
      LookupIs(ds, pattern, d);
      var i :| FirstAt(ds, pattern, i) && ds[i] == d;
      Detected(ds, text, pattern, action, h, i);
    } else if i :| FirstAt(ds, pattern, i) {
      Detected(ds, text, pattern, action, h, i);
    }
  }

  lemma {:induction false} PatternsMembers(ds: seq<Detector>, text: Text, patterns: seq<string>, action: Action, h: Hit)
    ensures h in PatternsHits(ds, text, patterns, action)
       <==> exists pattern :: pattern in patterns && DetectedBy(ds, text, pattern, action, h)
  {
    if patterns != [] {
      var n := |patterns| - 1;
      PatternsMembers(ds, text, patterns[..n], action, h);
      PatternMembers(ds, text, patterns[n], action, h);
      assert forall pattern :: pattern in patterns <==> pattern in patterns[..n] || pattern == patterns[n];
      hide DetectedBy, PatternHits;
    }
  }

  /** Exactly the matches of the enabled policies are collected. */
  lemma {:induction false} Collected(ds: seq<Detector>, text: Text, policies: seq<Policy>, h: Hit)
    ensures h in AllHits(ds, text, policies)
       <==> exists p :: p in policies && p.enabled && Detects(ds, text, p, h)
  {
    if policies != [] {
      var n := |policies| - 1;
      Collected(ds, text, policies[..n], h);
      assert policies == policies[..n] + [policies[n]];
      PatternsMembers(ds, text, policies[n].patterns, policies[n].action, h);
    }
  }

  predicate Proper(text: Text, h: Hit) {
    h.f.start < h.f.end <= |text| && Aligned(text, h.f) && WellFormed(h.f.tag)
  }

  lemma HitsProper(ds: seq<Detector>, text: Text, policies: seq<Policy>)
    requires Registry(ds) && WellFormed(text)
    ensures forall h :: h in AllHits(ds, text, policies) ==> Proper(text, h)
    ensures Nonempty(AllHits(ds, text, policies))
  {
    forall h | h in AllHits(ds, text, policies) ensures Proper(text, h) {
      Collected(ds, text, policies, h);
      var p :| p in policies && p.enabled && Detects(ds, text, p, h);
      var pattern :| pattern in p.patterns && DetectedBy(ds, text, pattern, p.action, h);
      var i :| FirstAt(ds, pattern, i) && h.f.tag == ds[i].tag && Span(h.f.start, h.f.end) in ds[i].find(text);
      assert ds[i] in ds;
      assert GoodSpan(text, Span(h.f.start, h.f.end));
    }
  }
}
