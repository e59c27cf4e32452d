/** Patterns whose matches, at some places, depend on what follows alone: exactly when such a
    match is masked while it is streamed, said of the text and of where its deltas end. */
module AnchoredPatterns {
  import opened Utf8
  import opened Characters
  import opened Findings
  import opened Splicing
  import opened SpliceLaws
  import opened Detection
  import opened Scanning
  import opened Releasing
  import opened Streaming
  import opened NoLeak
  import opened OnePolicy
  import opened Patterns

  /** `alone` is a condition on the characters before a place; there the pattern takes
      `size` of the characters after it. */
  datatype Pattern = Pattern(m: Matcher, size: seq<Text> -> nat, alone: seq<Text> -> bool, key: string, tag: Text)

  function DetectorOf(p: Pattern): Detector {
    Regex(p.m, p.key, p.tag)
  }

  function PatternOnly(p: Pattern, action: Action): Config {
    Only(DetectorOf(p), action)
  }

  /** At such a place only what follows counts. */
  predicate TakesSize(p: Pattern, before: seq<Text>, after: seq<Text>) {
    p.alone(before) ==> p.m(before, after) == p.size(after) && p.size(after) <= |after|
  }

  /** Such a place stays one when the buffer starts later. */
  predicate AloneInSuffix(p: Pattern, a: seq<Text>, b: seq<Text>) {
    p.alone(a + b) ==> p.alone(b)
  }

  /** No match that starts before goes across it. */
  predicate NotAcross(p: Pattern, before: seq<Text>, part: seq<Text>, after: seq<Text>) {
    part != [] && part <= after && p.alone(before + part) ==> p.m(before, after) <= |part|
  }

  /** As long as the match is there, cutting off what follows it makes it no shorter. */
  predicate NoShorter(p: Pattern, a: seq<Text>, b: seq<Text>) {
    p.size(a + b) <= |a| ==> p.size(a + b) <= p.size(a)
  }

  ghost predicate Anchored(p: Pattern) {
    && WellFormed(p.tag)
    && (forall before, after :: TakesSize(p, before, after))
    && (forall a, b :: AloneInSuffix(p, a, b))
    && (forall before, part, after :: NotAcross(p, before, part, after))
    && forall a, b :: NoShorter(p, a, b)
  }

  lemma AnchoredTag(p: Pattern)
    requires Anchored(p)
    ensures WellFormed(p.tag)
  {
  }

  lemma Takes(p: Pattern, before: seq<Text>, after: seq<Text>)
    requires Anchored(p) && p.alone(before)
    ensures p.m(before, after) == p.size(after) && p.size(after) <= |after|
  {
    assert TakesSize(p, before, after);
  }

  lemma Suffix(p: Pattern, a: seq<Text>, b: seq<Text>)
    requires Anchored(p) && p.alone(a + b)
    ensures p.alone(b)
  {
    assert AloneInSuffix(p, a, b);
  }

  lemma StopsBefore(p: Pattern, before: seq<Text>, part: seq<Text>, after: seq<Text>)
    requires Anchored(p) && part != [] && part <= after && p.alone(before + part)
    ensures p.m(before, after) <= |part|
  {
    assert NotAcross(p, before, part, after);
  }

  lemma SizeInPrefix(p: Pattern, a: seq<Text>, b: seq<Text>)
    requires Anchored(p) && p.size(a + b) <= |a|
    ensures p.size(a + b) <= p.size(a)
  {
    assert NoShorter(p, a, b);
  }

  // ---- What is found at such a place

  predicate AloneAt(p: Pattern, text: Text, s: nat) {
    s <= |text| && IsBoundary(text, s) && p.alone(Chars(text[..s]))
  }

  lemma AloneParts(p: Pattern, text: Text, s: nat)
    requires AloneAt(p, text, s)
    ensures s <= |text| && IsBoundary(text, s) && p.alone(Chars(text[..s]))
  {
  }

  /** Bytes of the match at the front of `u`. */
  function Bytes(p: Pattern, u: Text): (w: nat)
    ensures w <= |u|
  {
    if p.size(Chars(u)) <= |Chars(u)| then Width(u, p.size(Chars(u))) else 0
  }

  lemma BytesIs(p: Pattern, u: Text)
    requires p.size(Chars(u)) <= |Chars(u)|
    ensures Bytes(p, u) == Width(u, p.size(Chars(u)))
  {
  }

  lemma SizeFits(p: Pattern, text: Text, c: nat, s: nat, n: nat)
    requires Anchored(p) && WellFormed(text) && c <= s <= n <= |text| && AloneAt(p, text, s)
    requires IsBoundary(text, c) && IsBoundary(text, n)
    ensures IsBoundary(text, s) && p.alone(Chars(text[c..s])) && p.size(Chars(text[s..n])) <= |Chars(text[s..n])|
    ensures p.m(Chars(text[c..s]), Chars(text[s..n])) == p.size(Chars(text[s..n]))
  {
    hide *;
    AloneParts(p, text, s);
    SliceChars(text, c, s, n);
    Suffix(p, Chars(text[..c]), Chars(text[c..s]));
    Takes(p, Chars(text[c..s]), Chars(text[s..n]));
  }

  lemma TakenThere(p: Pattern, text: Text, c: nat, s: nat, n: nat)
    requires Anchored(p) && WellFormed(text) && c <= s <= n <= |text| && AloneAt(p, text, s)
    requires IsBoundary(text, c) && IsBoundary(text, n)
    ensures Taken(p.m, text[c..n], s - c) == Bytes(p, text[s..n])
    ensures p.alone(Chars(text[c..s])) && IsBoundary(text, s)
  {
    hide *;
    SizeFits(p, text, c, s, n);
    BytesIs(p, text[s..n]);
    SliceParts(text, c, s, n);
    TakenDef(p.m, text[c..n], s - c);
  }

  lemma StopsAt(p: Pattern, t: Text, j: nat, s: nat)
    requires Anchored(p) && WellFormed(t) && j < s <= |t| && IsBoundary(t, s) && p.alone(Chars(t[..s]))
    ensures j + Taken(p.m, t, j) <= s
  {
    hide *;
    if IsBoundary(t, j) {
      var after, part := Chars(t[j..]), Chars(t[j..s]);
      TakenDef(p.m, t, j);
      StartIsBoundary(t);
      SliceChars(t, 0, j, s);
      assert t[0..j] == t[..j];
      SliceChars(t, j, s, s);
      SliceParts(t, j, s, s);
      CharsGiveText(t[j..s]);
      StopsBefore(p, Chars(t[..j]), part, after);
      WellFormedSplit(t, j);
      BoundaryIn(t, j, s);
      if p.m(Chars(t[..j]), after) <= |after| {
        WidthAscends(t[j..], p.m(Chars(t[..j]), after), |part|);
      }
    } else {
      NotTaken(p.m, t, j);
    }
  }

  lemma BoundaryIn(t: Text, j: nat, s: nat)
    requires WellFormed(t) && j <= s <= |t| && IsBoundary(t, j) && IsBoundary(t, s)
    ensures |Chars(t[j..s])| <= |Chars(t[j..])| && Width(t[j..], |Chars(t[j..s])|) == s - j
  {
    hide *;
    WellFormedSplit(t, j);
    EndIsBoundary(t);
    SliceBoundary(t, j, |t|, s - j);
    assert t[j..|t|] == t[j..] && t[j..][..s - j] == t[j..s];
    BoundaryWidth(t[j..], s - j);
  }

  lemma PatternIsDetector(p: Pattern)
    requires WellFormed(p.tag)
    ensures Registry([DetectorOf(p)]) && DetectorOf(p).tag == p.tag
  {
    hide WellFormed;
    RegexIsDetector(p.m, p.key, p.tag);
  }

  lemma PatternFound(p: Pattern, text: Text, action: Action, f: Finding)
    requires WellFormed(p.tag) && WellFormed(text)
    ensures f in Found(PatternOnly(p, action), text)
       <==> f.tag == p.tag && Span(f.start, f.end) in FindFrom(p.m, text, 0)
  {
    PatternIsDetector(p);
    hide FindFrom, Found, WellFormed;
    OnlyFound(DetectorOf(p), action, text, f);
  }

  /** In every slice of the text, the match of what follows. */
  lemma FoundThere(p: Pattern, text: Text, action: Action, c: nat, s: nat, n: nat)
    requires Anchored(p) && WellFormed(text) && c <= s <= n <= |text| && AloneAt(p, text, s)
    requires IsBoundary(text, c) && IsBoundary(text, n)
    ensures var w, fs := Bytes(p, text[s..n]), Found(PatternOnly(p, action), text[c..n]);
            && (w > 0 ==> Finding(p.tag, s - c, s - c + w) in fs)
            && forall f :: f in fs && f.start <= s - c < f.end ==> f.end == s - c + w
  {
    hide *;
    var m, t, w := p.m, text[c..n], Bytes(p, text[s..n]);
    AnchoredTag(p);
    TakenThere(p, text, c, s, n);
    SliceParts(text, c, s, n);
    forall j: nat | 0 <= j < s - c ensures j + Taken(m, t, j) <= s - c {
      StopsAt(p, t, j, s - c);
    }
    FindFromSound(m, t, 0);
    FindFromReaches(m, t, 0, s - c, Span(s - c, s - c + w));
    FindsHere(m, t, s - c);
    PatternFound(p, t, action, Finding(p.tag, s - c, s - c + w));
    forall f | f in Found(PatternOnly(p, action), t) && f.start <= s - c < f.end ensures f.end == s - c + w {
      PatternFound(p, t, action, f);
      assert f.end == f.start + Taken(m, t, f.start);
    }
  }

  lemma ReachesIff(p: Pattern, text: Text, action: Action, c: nat, s: nat, n: nat, t: nat)
    requires Anchored(p) && WellFormed(text) && c <= s <= n <= |text| && AloneAt(p, text, s)
    requires IsBoundary(text, c) && IsBoundary(text, n) && s <= t
    ensures Reaches(Found(PatternOnly(p, action), text[c..n]), s - c, t - c) <==> t < s + Bytes(p, text[s..n])
  {
    hide Bytes, Found, WellFormed, Anchored, AloneAt, IsBoundary, PatternOnly;
    FoundThere(p, text, action, c, s, n);
    var fs, w := Found(PatternOnly(p, action), text[c..n]), Bytes(p, text[s..n]);
    if t < s + w {
      var f := Finding(p.tag, s - c, s - c + w);
      assert f in fs && f.start <= s - c && t - c < f.end;
    }
  }

  lemma FrontHolds(text: Text, s: nat, n: nat, k: nat)
    requires WellFormed(text) && s <= n <= |text| && IsBoundary(text, s) && IsBoundary(text, n)
    requires k <= |Chars(text[s..])| && s + Width(text[s..], k) <= n
    ensures WellFormed(text[s..n]) && Chars(text[s..]) == Chars(text[s..n]) + Chars(text[n..])
    ensures k <= |Chars(text[s..n])| && Width(text[s..n], k) == Width(text[s..], k)
  {
    hide *;
    var e := s + Width(text[s..], k);
    StartIsBoundary(text);
    SliceChars(text, 0, s, n);
    WellFormedSlice(text, s, n);
    WellFormedSplit(text, s);
    After(text, s, k);
    SliceParts(text, s, e, n);
    CharsJoin(text, s, e, n);
    WidthIs(text[s..], k);
    WidthIs(text[s..n], k);
    assert Chars(text[s..n])[..k] == Chars(text[s..])[..k];
  }

  lemma BytesAscend(p: Pattern, text: Text, s: nat, n: nat)
    requires Anchored(p) && WellFormed(text) && AloneAt(p, text, s) && n <= |text| && IsBoundary(text, n)
    requires s + Bytes(p, text[s..]) <= n
    ensures Bytes(p, text[s..]) <= Bytes(p, text[s..n])
  {
    hide *;
    AloneParts(p, text, s);
    StartIsBoundary(text);
    EndIsBoundary(text);
    SizeFits(p, text, 0, s, n);
    SizeFits(p, text, 0, s, |text|);
    assert text[s..|text|] == text[s..];
    BytesIs(p, text[s..]);
    BytesIs(p, text[s..n]);
    var k := p.size(Chars(text[s..]));
    FrontHolds(text, s, n, k);
    SizeInPrefix(p, Chars(text[s..n]), Chars(text[n..]));
    WidthAscends(text[s..n], k, p.size(Chars(text[s..n])));
  }

  // ---- Exactly when it is masked

  /** From `s` to `e` is a match at such a place. */
  predicate IsMatch(p: Pattern, text: Text, s: nat, e: nat) {
    AloneAt(p, text, s) && Bytes(p, text[s..]) > 0 && e == s + Bytes(p, text[s..])
  }

  function HeldBytes(p: Pattern, text: Text, s: nat, n: nat): nat {
    if s <= n <= |text| then Bytes(p, text[s..n]) else 0
  }

  lemma HeldBytesIs(p: Pattern, text: Text, s: nat, n: nat)
    requires s <= n <= |text|
    ensures HeldBytes(p, text, s, n) == Bytes(p, text[s..n])
  {
  }

  /** Each delta that ends inside the match, more than 64 bytes after its start, has brought
      a match already, and one that reaches into the last 64 bytes. */
  predicate MatchHeld(p: Pattern, text: Text, s: nat, e: nat, ends: seq<nat>) {
    forall n :: n in ends && Passes(text, s, n) && n < e ==> n - HOLDBACK < s + HeldBytes(p, text, s, n)
  }

  lemma MatchIsRobust(p: Pattern, text: Text, action: Action, s: nat, e: nat)
    requires Anchored(p) && WellFormed(text) && IsMatch(p, text, s, e)
    ensures Robust(PatternOnly(p, action), text, 0, s, e, e) && AloneAt(p, text, s)
  {
    var cfg := PatternOnly(p, action);
    hide Bytes, Found, WellFormed, Anchored, AloneAt, IsBoundary, PatternOnly;
    assert s <= |text| by { AloneParts(p, text, s); }
    forall c: nat, n: nat | 0 <= c <= s && e <= n <= |text| && IsBoundary(text, c) && IsBoundary(text, n)
      ensures Masks(Found(cfg, text[c..n]), s - c, e - c)
    {
      FoundThere(p, text, action, c, s, n);
      BytesAscend(p, text, s, n);
      var f := Finding(p.tag, s - c, s - c + Bytes(p, text[s..n]));
      assert f in Found(cfg, text[c..n]);
    }
  }

  lemma PatternRunnable(p: Pattern, action: Action, deltas: seq<Text>)
    requires WellFormed(p.tag) && AllWellFormed(deltas)
    ensures Runnable(PatternOnly(p, action), [], deltas)
  {
    hide *;
    PatternIsDetector(p);
    WellFormedNothing();
    OnlyScannable(DetectorOf(p), action, []);
    PatternOnlyIs(p, action);
    RunnableFrom(PatternOnly(p, action), [], deltas);
  }

  lemma PatternOnlyIs(p: Pattern, action: Action)
    ensures PatternOnly(p, action) == Only(DetectorOf(p), action)
  {
  }

  lemma PassesIs(text: Text, s: nat, n: nat)
    requires Passes(text, s, n)
    ensures s + HOLDBACK < n <= |text|
  {
  }

  lemma MatchIsBlind(p: Pattern, text: Text, action: Action, s: nat, n: nat)
    requires Anchored(p) && WellFormed(text) && AloneAt(p, text, s)
    requires IsBoundary(text, n) && Passes(text, s, n)
    ensures n <= |text| && LeftBlind(PatternOnly(p, action), text, s, n)
    ensures Reaches(Found(PatternOnly(p, action), text[0..n]), s, n - HOLDBACK) <==> n - HOLDBACK < s + HeldBytes(p, text, s, n)
  {
    hide Bytes, HeldBytes, Found, WellFormed, Anchored, AloneAt, IsBoundary, PatternOnly, Passes, Reaches;
    PassesIs(text, s, n);
    HeldBytesIs(p, text, s, n);
    StartIsBoundary(text);
    ReachesIff(p, text, action, 0, s, n, n - HOLDBACK);
    forall c: nat | c <= s && c <= n && IsBoundary(text, c)
      ensures Reaches(Found(PatternOnly(p, action), text[c..n]), s - c, n - HOLDBACK - c)
         <==> Reaches(Found(PatternOnly(p, action), text[0..n]), s, n - HOLDBACK)
    {
      ReachesIff(p, text, action, c, s, n, n - HOLDBACK);
    }
  }

  ghost predicate MaskedIn(p: Pattern, action: Action, deltas: seq<Text>, s: nat, e: nat) {
    var cfg := PatternOnly(p, action);
    Runnable(cfg, [], deltas) && Masks(StreamMasks(cfg, [], 0, deltas), s, e)
  }

  lemma MaskedInIs(p: Pattern, action: Action, deltas: seq<Text>, s: nat, e: nat)
    requires Runnable(PatternOnly(p, action), [], deltas)
    ensures MaskedIn(p, action, deltas, s, e) <==> Masks(StreamMasks(PatternOnly(p, action), [], 0, deltas), s, e)
  {
  }

  lemma HeldAlike(p: Pattern, text: Text, action: Action, s: nat, e: nat, ends: seq<nat>)
    requires Anchored(p) && WellFormed(text) && AloneAt(p, text, s)
    requires forall n :: n in ends ==> n <= |text| && IsBoundary(text, n)
    ensures HeldByPrefixes(PatternOnly(p, action), text, s, e, ends) <==> MatchHeld(p, text, s, e, ends)
  {
    hide Bytes, HeldBytes, Found, WellFormed, Anchored, AloneAt, IsBoundary, PatternOnly, Passes, Reaches;
    forall n | n in ends && Passes(text, s, n)
      ensures Reaches(Found(PatternOnly(p, action), text[0..n]), s, n - HOLDBACK)
         <==> n - HOLDBACK < s + HeldBytes(p, text, s, n)
    {
      MatchIsBlind(p, text, action, s, n);
    }
  }

  /** The match is masked whole exactly when it is held at every delta. */
  lemma MaskedIff(p: Pattern, action: Action, deltas: seq<Text>, s: nat, e: nat)
    requires Anchored(p) && AllWellFormed(deltas) && IsMatch(p, Concat(deltas), s, e)
    ensures MaskedIn(p, action, deltas, s, e) <==> MatchHeld(p, Concat(deltas), s, e, Ends(0, deltas))
  {
    hide *;
    var cfg, text := PatternOnly(p, action), Concat(deltas);
    AnchoredTag(p);
    PatternRunnable(p, action, deltas);
    ConcatWellFormed(deltas);
    Start(deltas);
    EndsAligned(cfg, text, [], 0, 0, deltas);
    MatchIsRobust(p, text, action, s, e);
    forall n: nat | Passes(text, s, n) && n < e && IsBoundary(text, n) ensures n <= |text| && LeftBlind(cfg, text, s, n) {
      MatchIsBlind(p, text, action, s, n);
    }
    MaskedIffHeld(cfg, deltas, s, e);
    HeldAlike(p, text, action, s, e, Ends(0, deltas));
    MaskedInIs(p, action, deltas, s, e);
  }

  /** And it is masked however the text is split exactly when it is held wherever a delta
      could end. */
  lemma AlwaysMaskedIff(p: Pattern, action: Action, text: Text, s: nat, e: nat)
    requires Anchored(p) && WellFormed(text) && IsMatch(p, text, s, e)
    ensures (forall deltas :: AllWellFormed(deltas) && Concat(deltas) == text ==> MaskedIn(p, action, deltas, s, e))
       <==> forall n: nat :: n <= |text| && IsBoundary(text, n) ==> MatchHeld(p, text, s, e, [n])
  {
    hide *;
    if n: nat :| n <= |text| && IsBoundary(text, n) && !MatchHeld(p, text, s, e, [n]) {
      var deltas := [text[..n], text[n..]];
      WellFormedSplit(text, n);
      TwoDeltas(text[..n], text[n..]);
      assert text[..n] + text[n..] == text;
      MaskedIff(p, action, deltas, s, e);
      HeldAmong(p, text, s, e, Ends(0, deltas), n);
    } else {
      AnchoredTag(p);
      forall deltas | AllWellFormed(deltas) && Concat(deltas) == text ensures MaskedIn(p, action, deltas, s, e) {
        MaskedIff(p, action, deltas, s, e);
        PatternRunnable(p, action, deltas);
        Start(deltas);
        EndsAligned(PatternOnly(p, action), text, [], 0, 0, deltas);
        HeldFromEach(p, text, s, e, Ends(0, deltas));
      }
    }
  }

  lemma HeldAmong(p: Pattern, text: Text, s: nat, e: nat, ends: seq<nat>, n: nat)
    requires n in ends && !MatchHeld(p, text, s, e, [n])
    ensures !MatchHeld(p, text, s, e, ends)
  {
  }

  lemma HeldFromEach(p: Pattern, text: Text, s: nat, e: nat, ends: seq<nat>)
    requires forall n :: n in ends ==> MatchHeld(p, text, s, e, [n])
    ensures MatchHeld(p, text, s, e, ends)
  {
    hide Passes, HeldBytes;
    forall n | n in ends && Passes(text, s, n) && n < e ensures n - HOLDBACK < s + HeldBytes(p, text, s, n) {
      assert MatchHeld(p, text, s, e, [n]) && n in [n];
    }
  }

  // ---- Text in which nothing is found

  lemma NothingFound(p: Pattern, text: Text, action: Action)
    requires WellFormed(p.tag) && WellFormed(text) && forall i: nat :: i <= |text| ==> Taken(p.m, text, i) == 0
    ensures Found(PatternOnly(p, action), text) == []
  {
    hide *;
    FindFromSound(p.m, text, 0);
    forall f ensures f !in Found(PatternOnly(p, action), text) {
      PatternFound(p, text, action, f);
    }
    EmptyIfNoMember(Found(PatternOnly(p, action), text));
  }

  lemma EmptyIfNoMember(fs: seq<Finding>)
    ensures fs == [] || exists f :: f in fs
  {
    assert fs != [] ==> fs[0] in fs;
  }

  lemma FreeCut(cfg: Config, text: Text, flush: bool)
    requires Found(cfg, text) == [] && HOLDBACK <= |text|
    requires IsBoundary(text, |text| - HOLDBACK)
    ensures MasksOf(cfg, text, flush) == []
    ensures CutOf(cfg, text, flush) == if flush then |text| else |text| - HOLDBACK
  {
  }

  lemma SpliceNothing(text: Text)
    requires Fits(text, [], 0)
    ensures Splice(text, [], 0) == text
  {
  }

  lemma MoveNone(c: nat)
    ensures MoveAll([], c) == []
  {
  }

  /** A release in which nothing is found sends all but the tail as it is. */
  lemma FreeRelease(cfg: Config, text: Text)
    requires Registry(cfg.ds) && Ascii(text) && HOLDBACK <= |text| && Found(cfg, text) == []
    ensures Scannable(cfg.ds, text)
    ensures MasksOf(cfg, text, false) == [] && MasksOf(cfg, text, true) == []
    ensures CutOf(cfg, text, false) == |text| - HOLDBACK
    ensures ReleaseOf(cfg, text, false) == Released(text[..|text| - HOLDBACK], text[|text| - HOLDBACK..])
  {
    hide *;
    var k := |text| - HOLDBACK;
    AsciiSuffix(text, 0);
    assert text[0..] == text;
    ScannableFrom(cfg.ds, text);
    AsciiBoundary(text, k);
    FreeCut(cfg, text, false);
    FreeCut(cfg, text, true);
    ReleaseParts(cfg, text, false);
    SpliceNothing(text[..k]);
  }

  lemma ScannableFrom(ds: seq<Detector>, text: Text)
    requires Registry(ds) && WellFormed(text)
    ensures Scannable(ds, text)
  {
  }

  /** Two deltas: when nothing is found in the first one, in what is then left with the
      second, or in the last tail, all of it is let out as it is. */
  lemma AllLetOut(cfg: Config, text: Text, n: nat)
    requires Registry(cfg.ds) && Ascii(text) && HOLDBACK <= n <= |text|
    requires Found(cfg, text[0..n]) == [] && Found(cfg, text[n - HOLDBACK..]) == []
    requires Found(cfg, text[|text| - HOLDBACK..]) == []
    ensures var deltas := [text[..n], text[n..]];
            && AllWellFormed(deltas) && Concat(deltas) == text && Runnable(cfg, [], deltas)
            && Stream(cfg, [], deltas) == text && StreamMasks(cfg, [], 0, deltas) == []
  {
    hide *;
    var a, b := text[..n], text[n..];
    TwoAscii(cfg, text, n);
    AllLetOutMasks(cfg, text, n);
    Start([a, b]);
    StreamIsSplice(cfg, text, 0, [], [a, b]);
    SpliceNothing(text);
  }

  lemma TwoAscii(cfg: Config, text: Text, n: nat)
    requires Registry(cfg.ds) && Ascii(text) && n <= |text|
    ensures var deltas := [text[..n], text[n..]];
            AllWellFormed(deltas) && Concat(deltas) == text && Runnable(cfg, [], deltas)
  {
    hide *;
    AsciiSlice(text, 0, n);
    AsciiSuffix(text, n);
    assert text[0..n] == text[..n] && text[..n] + text[n..] == text;
    TwoDeltas(text[..n], text[n..]);
    WellFormedNothing();
    ScannableFrom(cfg.ds, []);
    RunnableFrom(cfg, [], [text[..n], text[n..]]);
  }

  lemma AllLetOutMasks(cfg: Config, text: Text, n: nat)
    requires Registry(cfg.ds) && Ascii(text) && HOLDBACK <= n <= |text|
    requires Found(cfg, text[0..n]) == [] && Found(cfg, text[n - HOLDBACK..]) == []
    requires Found(cfg, text[|text| - HOLDBACK..]) == []
    requires Runnable(cfg, [], [text[..n], text[n..]])
    ensures StreamMasks(cfg, [], 0, [text[..n], text[n..]]) == []
  {
    hide *;
    var k, m := n - HOLDBACK, |text| - HOLDBACK;
    var a, b, second, last := text[0..n], text[n..], text[k..], text[m..];
    ThreeTails(text, n, k, m);
    AsciiSlice(text, 0, n);
    AsciiSuffix(text, k);
    AsciiSuffix(text, m);
    FreeRelease(cfg, a);
    FreeRelease(cfg, second);
    FreeRelease(cfg, last);
    RunOfTwo(cfg, a, b, second, last, k, m);
  }

  lemma ThreeTails(text: Text, n: nat, k: nat, m: nat)
    requires k <= n <= |text| && k <= m <= |text|
    ensures text[0..n] == text[..n] && text[0..n][k..] + text[n..] == text[k..] && text[k..][m - k..] == text[m..]
  {
  }

  lemma RunOfTwo(cfg: Config, a: Text, b: Text, second: Text, last: Text, k: nat, m: nat)
    requires Runnable(cfg, [], [a, b]) && k <= |a| && k <= m && a[k..] + b == second
    requires Scannable(cfg.ds, a) && CutOf(cfg, a, false) == k && ReleaseOf(cfg, a, false).rest == a[k..]
    requires Scannable(cfg.ds, second) && CutOf(cfg, second, false) == m - k && ReleaseOf(cfg, second, false).rest == last
    requires MasksOf(cfg, a, false) == [] && MasksOf(cfg, second, false) == [] && MasksOf(cfg, last, true) == []
    ensures StreamMasks(cfg, [], 0, [a, b]) == []
  {
    hide *;
    var none: seq<Text> := [];
    assert [a, b][1..] == [b] && [b][1..] == none && [] + a == a;
    NextRelease(cfg, [], 0, [a, b]);
    NextRelease(cfg, a[k..], k, [b]);
    LastRelease(cfg, last, m, none);
    MoveNone(0);
    MoveNone(k);
    MoveNone(m);
  }
}
