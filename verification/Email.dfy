/** The email detector, `(?i)\b[a-z0-9._%+-]+@[a-z0-9.-]+\.[a-z]{2,}\b`: a long name in front
    of the `@` is let out before it can be told from other text. */
module Email {
  import opened Utf8
  import opened Characters
  import opened Findings
  import opened Splicing
  import opened Detection
  import opened Scanning
  import opened Releasing
  import opened Streaming
  import opened Patterns
  import opened AnchoredPatterns

  /** `EMAIL` */
  const TAG: Text := [0x45, 0x4D, 0x41, 0x49, 0x4C]
  const AT: Text := [0x40]
  const DOT: Text := [0x2E]

  /** `[a-z]` whatever the case: besides the ASCII letters, the Kelvin sign and the long s,
      which fold to k and s. */
  predicate IsLetter(c: Text) {
    || (|c| == 1 && (0x41 <= c[0] <= 0x5A || 0x61 <= c[0] <= 0x7A))
    || c == [0xE2, 0x84, 0xAA] || c == [0xC5, 0xBF]
  }

  /** `[a-z0-9.-]` */
  predicate IsHostChar(c: Text) {
    IsLetter(c) || (|c| == 1 && (0x30 <= c[0] <= 0x39 || c[0] == 0x2D || c[0] == 0x2E))
  }

  /** `[a-z0-9._%+-]` */
  predicate IsLocalChar(c: Text) {
    IsHostChar(c) || c == [0x5F] || c == [0x25] || c == [0x2B]
  }

  /** Where a run of such characters from `i` on ends. */
  function RunEnd(ok: Text -> bool, after: seq<Text>, i: nat): (r: nat)
    requires i <= |after|
    ensures i <= r <= |after| && (forall j :: i <= j < r ==> ok(after[j])) && (r < |after| ==> !ok(after[r]))
    decreases |after| - i
  {
    if i < |after| && ok(after[i]) then RunEnd(ok, after, i + 1) else i
  }

  /** `[a-z]{2,}\b` in the letters from `lo` to `hi`: as many as possible, 0 if there is none. */
  function LettersEnd(cls: Classes, after: seq<Text>, lo: nat, hi: nat): (r: nat)
    requires hi <= |after|
    ensures r == 0 || (lo + 2 <= r <= hi && EndsWord(cls, after, r))
    ensures forall q :: lo + 2 <= q <= hi && EndsWord(cls, after, q) ==> q <= r
    decreases hi
  {
    if hi < lo + 2 then 0
    else if EndsWord(cls, after, hi) then hi
    else LettersEnd(cls, after, lo, hi - 1)
  }

  function TopEnd(cls: Classes, after: seq<Text>, dot: nat): (r: nat)
    requires dot < |after|
    ensures r <= |after| && (r > 0 ==> dot + 3 <= r && forall j :: dot < j < r ==> IsLetter(after[j]))
  {
    LettersEnd(cls, after, dot + 1, RunEnd(IsLetter, after, dot + 1))
  }

  /** `[a-z0-9.-]+\.[a-z]{2,}\b` in the run from `lo` to `hi`: with the last dot that will do. */
  function HostEnd(cls: Classes, after: seq<Text>, lo: nat, hi: nat): (r: nat)
    requires hi <= |after|
    ensures r <= |after| && (r > 0 ==> lo + 1 < r)
    decreases hi
  {
    if hi < lo + 2 then 0
    else if after[hi - 1] == DOT && TopEnd(cls, after, hi - 1) > 0 then TopEnd(cls, after, hi - 1)
    else HostEnd(cls, after, lo, hi - 1)
  }

  /** The whole pattern behind its first `\b`; the name goes up to the `@`. */
  function EmailLength(cls: Classes, after: seq<Text>): (r: nat)
    ensures r <= |after|
  {
    var at := RunEnd(IsLocalChar, after, 0);
    if at == 0 || at == |after| || after[at] != AT then 0
    else HostEnd(cls, after, at + 1, RunEnd(IsHostChar, after, at + 1))
  }

  predicate BeginsWord(cls: Classes, after: seq<Text>) {
    after != [] && cls.word(after[0])
  }

  function EmailMatcher(cls: Classes): Matcher {
    (before: seq<Text>, after: seq<Text>) =>
      if StartsWord(cls, before) == BeginsWord(cls, after) then EmailLength(cls, after) else 0
  }

  function EmailSize(cls: Classes, after: seq<Text>): (r: nat)
    ensures r <= |after|
  {
    if BeginsWord(cls, after) then EmailLength(cls, after) else 0
  }

  /** Behind nothing that could belong to an address or to its first word. */
  predicate Alone(cls: Classes, before: seq<Text>) {
    before == [] ||
      var c := before[|before| - 1];
      !cls.word(c) && !IsLocalChar(c) && c != AT
  }

  function EmailPattern(cls: Classes): Pattern {
    Pattern(EmailMatcher(cls), after => EmailSize(cls, after), before => Alone(cls, before), "email", TAG)
  }

  function EmailOnly(cls: Classes, action: Action): Config {
    PatternOnly(EmailPattern(cls), action)
  }

  // ---- It is anchored

  lemma {:induction false} HostChars(cls: Classes, after: seq<Text>, lo: nat, hi: nat, i: nat)
    requires hi <= |after| && (forall j :: lo <= j < hi ==> IsHostChar(after[j])) && lo <= i < HostEnd(cls, after, lo, hi)
    ensures IsHostChar(after[i])
    decreases hi
  {
    if hi >= lo + 2 && !(after[hi - 1] == DOT && TopEnd(cls, after, hi - 1) > 0) {
      HostChars(cls, after, lo, hi - 1, i);
    } else {
      assert i > hi - 1 ==> IsLetter(after[i]);
    }
  }

  lemma EmailChars(cls: Classes, after: seq<Text>, i: nat)
    requires i < EmailLength(cls, after)
    ensures IsLocalChar(after[i]) || after[i] == AT
  {
    var at := RunEnd(IsLocalChar, after, 0);
    hide IsLetter, IsHostChar, HostEnd;
    if at < i {
      HostChars(cls, after, at + 1, RunEnd(IsHostChar, after, at + 1), i);
      HostIsLocal(after[i]);
    }
  }

  lemma HostIsLocal(c: Text)
    requires IsHostChar(c)
    ensures IsLocalChar(c)
  {
  }

  lemma {:induction false} RunInPrefix(ok: Text -> bool, a: seq<Text>, b: seq<Text>, i: nat)
    requires i <= |a|
    ensures RunEnd(ok, a, i) == if RunEnd(ok, a + b, i) <= |a| then RunEnd(ok, a + b, i) else |a|
    decreases |a| - i
  {
    if i < |a| && ok(a[i]) {
      RunInPrefix(ok, a, b, i + 1);
    }
  }

  lemma TopInPrefix(cls: Classes, a: seq<Text>, b: seq<Text>, dot: nat)
    requires dot < |a| && 0 < TopEnd(cls, a + b, dot) <= |a|
    ensures TopEnd(cls, a + b, dot) <= TopEnd(cls, a, dot)
  {
    var r := TopEnd(cls, a + b, dot);
    hide IsLetter;
    RunInPrefix(IsLetter, a, b, dot + 1);
    assert EndsWord(cls, a, r);
  }

  lemma DotIsNoLetter()
    ensures !IsLetter(DOT)
  {
  }

  /** A dot that will do gives a lower bound: a later one ends later. */
  lemma {:induction false} HostAtLeast(cls: Classes, after: seq<Text>, lo: nat, hi: nat, dot: nat)
    requires hi <= |after| && lo < dot < hi && after[dot] == DOT && TopEnd(cls, after, dot) > 0
    ensures TopEnd(cls, after, dot) <= HostEnd(cls, after, lo, hi)
    decreases hi
  {
    DotIsNoLetter();
    hide IsLetter;
    if dot < hi - 1 {
      if after[hi - 1] == DOT && TopEnd(cls, after, hi - 1) > 0 {
        assert TopEnd(cls, after, dot) <= hi - 1;
      } else {
        HostAtLeast(cls, after, lo, hi - 1, dot);
      }
    }
  }

  lemma {:induction false} HostDot(cls: Classes, after: seq<Text>, lo: nat, hi: nat) returns (dot: nat)
    requires hi <= |after| && HostEnd(cls, after, lo, hi) > 0
    ensures lo < dot < hi && after[dot] == DOT && TopEnd(cls, after, dot) == HostEnd(cls, after, lo, hi)
    decreases hi
  {
    dot := hi - 1;
    if !(after[dot] == DOT && TopEnd(cls, after, dot) > 0) {
      dot := HostDot(cls, after, lo, hi - 1);
    }
  }

  lemma EmailLengthIs(cls: Classes, after: seq<Text>)
    ensures var at := RunEnd(IsLocalChar, after, 0);
            && (EmailLength(cls, after) > 0 ==> 0 < at < |after| && after[at] == AT)
            && (0 < at < |after| && after[at] == AT ==>
                  EmailLength(cls, after) == HostEnd(cls, after, at + 1, RunEnd(IsHostChar, after, at + 1)))
  {
  }

  lemma LengthInPrefix(cls: Classes, a: seq<Text>, b: seq<Text>)
    requires 0 < EmailLength(cls, a + b) <= |a|
    ensures EmailLength(cls, a + b) <= EmailLength(cls, a)
  {
    hide *;
    var s := a + b;
    EmailLengthIs(cls, s);
    EmailLengthIs(cls, a);
    var at := RunEnd(IsLocalChar, s, 0);
    var dot := HostDot(cls, s, at + 1, RunEnd(IsHostChar, s, at + 1));
    RunInPrefix(IsLocalChar, a, b, 0);
    RunInPrefix(IsHostChar, a, b, at + 1);
    TopInPrefix(cls, a, b, dot);
    HostAtLeast(cls, a, at + 1, RunEnd(IsHostChar, a, at + 1), dot);
  }

  lemma EmailTag()
    ensures WellFormed(TAG)
  {
    hide WellFormed;
    AsciiWellFormed(TAG);
  }

  lemma EmailIsAnchored(cls: Classes)
    ensures Anchored(EmailPattern(cls))
  {
    var p := EmailPattern(cls);
    EmailTag();
    hide EmailLength, IsLocalChar, WellFormed;
    forall before, after ensures TakesSize(p, before, after) {
    }
    forall a, b ensures AloneInSuffix(p, a, b) {
      assert b != [] ==> (a + b)[|a + b| - 1] == b[|b| - 1];
    }
    forall before, part, after ensures NotAcross(p, before, part, after) {
      if part != [] && part <= after && p.alone(before + part) {
        EndsBefore(cls, before, part, after);
      }
    }
    forall a, b ensures NoShorter(p, a, b) {
      if 0 < EmailSize(cls, a + b) <= |a| {
        LengthInPrefix(cls, a, b);
      }
    }
  }

  lemma EndsBefore(cls: Classes, before: seq<Text>, part: seq<Text>, after: seq<Text>)
    requires part != [] && part <= after && Alone(cls, before + part)
    ensures EmailLength(cls, after) < |part|
  {
    hide EmailLength, IsLocalChar;
    var last := |part| - 1;
    assert (before + part)[|before + part| - 1] == after[last];
    if last < EmailLength(cls, after) {
      EmailChars(cls, after, last);
    }
  }

  // ---- A long name

  predicate IsName(after: seq<Text>, n: nat) {
    n <= |after| && forall i :: 0 <= i < n ==> after[i] == [0x61]
  }

  /** `n` times `a`, then `@b.co`. */
  predicate IsAddress(after: seq<Text>, n: nat) {
    && |after| == n + 5 && IsName(after, n)
    && after[n] == AT && after[n + 1] == [0x62] && after[n + 2] == DOT && after[n + 3] == [0x63] && after[n + 4] == [0x6F]
  }

  lemma {:induction false} RunIs(ok: Text -> bool, after: seq<Text>, i: nat, r: nat)
    requires i <= r <= |after| && (forall j :: i <= j < r ==> ok(after[j])) && (r < |after| ==> !ok(after[r]))
    ensures RunEnd(ok, after, i) == r
  {
  }

  lemma AddressHost(cls: Classes, after: seq<Text>, n: nat)
    requires IsAddress(after, n)
    ensures RunEnd(IsHostChar, after, n + 1) == n + 5 && HostEnd(cls, after, n + 1, n + 5) == n + 5
  {
    RunIs(IsHostChar, after, n + 1, n + 5);
    RunIs(IsLetter, after, n + 3, n + 5);
    hide IsLetter, IsHostChar;
    assert TopEnd(cls, after, n + 2) == n + 5;
    assert HostEnd(cls, after, n + 1, n + 3) == n + 5;
    assert HostEnd(cls, after, n + 1, n + 4) == n + 5;
  }

  lemma AddressLength(cls: Classes, after: seq<Text>, n: nat)
    requires GoodClasses(cls) && IsAddress(after, n) && 0 < n
    ensures EmailSize(cls, after) == n + 5
  {
    assert cls.word([0x61]) && after[0] == [0x61];
    RunIs(IsLocalChar, after, 0, n);
    hide IsLocalChar, IsHostChar, HostEnd;
    AddressHost(cls, after, n);
  }

  predicate AddressAt(text: Text, n: nat) {
    && |text| == n + 5 && (forall i :: 0 <= i < n ==> text[i] == 0x61)
    && text[n] == 0x40 && text[n + 1] == 0x62 && text[n + 2] == 0x2E && text[n + 3] == 0x63 && text[n + 4] == 0x6F
  }

  lemma AddressChars(text: Text, n: nat)
    requires AddressAt(text, n)
    ensures Ascii(text) && WellFormed(text) && |Chars(text)| == n + 5 && IsAddress(Chars(text), n)
  {
    assert Ascii(text);
    AsciiChars(text);
    hide Chars, WellFormed;
  }

  lemma AddressBytes(cls: Classes, text: Text, n: nat)
    requires GoodClasses(cls) && AddressAt(text, n) && 0 < n
    ensures WellFormed(text) && Bytes(EmailPattern(cls), text) == |text|
    ensures AloneAt(EmailPattern(cls), text, 0)
  {
    hide Chars, WellFormed, EmailSize, Width, IsAddress;
    AddressChars(text, n);
    AddressLength(cls, Chars(text), n);
    WidthIs(text, n + 5);
    CharsGiveText(text);
    assert Chars(text)[..n + 5] == Chars(text);
    assert text[..0] == [];
    CharsOfNothing();
  }

  /** The address is found as a whole. */
  lemma AddressFound(cls: Classes, action: Action, text: Text, n: nat)
    requires GoodClasses(cls) && AddressAt(text, n) && 0 < n
    ensures Registry(EmailOnly(cls, action).ds) && WellFormed(text)
    ensures Found(EmailOnly(cls, action), text) == [Finding(TAG, 0, |text|)]
  {
    hide *;
    var p := EmailPattern(cls);
    EmailIsAnchored(cls);
    EmailIs(cls, action);
    PatternIsDetector(p);
    AddressBytes(cls, text, n);
    StartIsBoundary(text);
    EndIsBoundary(text);
    assert text[0..|text|] == text && |text| > 0 by { AddressSize(text, n); }
    FoundThere(p, text, action, 0, 0, |text|);
    ScannableFrom(EmailOnly(cls, action).ds, text);
    FoundGood(EmailOnly(cls, action), text);
    CoversAll(Found(EmailOnly(cls, action), text), Finding(TAG, 0, |text|));
  }

  lemma AddressSize(text: Text, n: nat)
    requires AddressAt(text, n)
    ensures |text| == n + 5
  {
  }

  lemma EmailIs(cls: Classes, action: Action)
    ensures EmailOnly(cls, action) == PatternOnly(EmailPattern(cls), action)
    ensures EmailOnly(cls, action).ds == [DetectorOf(EmailPattern(cls))]
    ensures EmailPattern(cls).m == EmailMatcher(cls) && EmailPattern(cls).tag == TAG && WellFormed(TAG)
  {
    EmailTag();
  }

  lemma NoAt(cls: Classes, after: seq<Text>)
    requires AT !in after
    ensures EmailLength(cls, after) == 0
  {
  }

  lemma NameTakesNothing(cls: Classes, text: Text, i: nat)
    requires WellFormed(text) && i <= |text| && AT !in Chars(text)
    ensures Taken(EmailMatcher(cls), text, i) == 0
  {
    hide *;
    if IsBoundary(text, i) {
      BoundaryWidth(text, i);
      TakenDef(EmailMatcher(cls), text, i);
      NotAmong(Chars(text[..i]), Chars(text[i..]));
      NoAt(cls, Chars(text[i..]));
      EmailMatcherIs(cls, Chars(text[..i]), Chars(text[i..]));
      WidthZero(text[i..]);
    } else {
      NotTaken(EmailMatcher(cls), text, i);
    }
  }

  lemma NotAmong(a: seq<Text>, b: seq<Text>)
    requires AT !in a + b
    ensures AT !in b
  {
    assert forall c :: c in b ==> c in a + b;
  }

  lemma EmailMatcherIs(cls: Classes, before: seq<Text>, after: seq<Text>)
    ensures EmailMatcher(cls)(before, after) == 0 || EmailMatcher(cls)(before, after) == EmailLength(cls, after)
  {
  }

  /** Without an `@` nothing is found. */
  lemma NameFound(cls: Classes, action: Action, text: Text)
    requires WellFormed(text) && AT !in Chars(text)
    ensures Found(EmailOnly(cls, action), text) == []
  {
    EmailIs(cls, action);
    hide EmailPattern, EmailMatcher, Found, WellFormed, Taken, Chars;
    forall i: nat | i <= |text| ensures Taken(EmailMatcher(cls), text, i) == 0 {
      NameTakesNothing(cls, text, i);
    }
    NothingFound(EmailPattern(cls), text, action);
  }

  /** `n` times `a`, then `@b.co`. */
  function Address(n: nat): (r: Text)
    ensures AddressAt(r, n)
  {
    seq(n, (i: nat) => 0x61) + [0x40, 0x62, 0x2E, 0x63, 0x6F]
  }

  lemma AddressParts(text: Text, n: nat)
    requires AddressAt(text, n) && HOLDBACK < n
    ensures |text| == n + 5 && Ascii(text) && n < |text|
    ensures AddressAt(text[n - HOLDBACK..], HOLDBACK) && |text[n - HOLDBACK..]| == HOLDBACK + 5
    ensures WellFormed(text[..n]) && AT !in Chars(text[..n]) && Ascii(text[..n]) && |text[..n]| == n
    ensures text[..n][..n - HOLDBACK] == text[..n - HOLDBACK]
    ensures text[..n][n - HOLDBACK..] + text[n..] == text[n - HOLDBACK..]
  {
    AsciiChars(text[..n]);
    var chars := Chars(text[..n]);
    hide Chars, WellFormed;
    assert forall i :: 0 <= i < n ==> chars[i] == [text[i]];
  }

  /** What a release does with an address that fills the buffer: nothing, but a flush masks it. */
  lemma AddressRelease(cls: Classes, action: Action, text: Text)
    requires GoodClasses(cls) && AddressAt(text, HOLDBACK)
    ensures var cfg := EmailOnly(cls, action);
            && Scannable(cfg.ds, text)
            && ReleaseOf(cfg, text, false) == Released([], text)
            && ReleaseOf(cfg, text, true).text == Token(TAG)
  {
    hide *;
    var cfg, f := EmailOnly(cls, action), Finding(TAG, 0, |text|);
    TailIsAll(text);
    AddressFound(cls, action, text, HOLDBACK);
    ScannableFrom(cfg.ds, text);
    ReleaseParts(cfg, text, false);
    CutOfFound(cfg, text, false);
    NotYet(text, f);
    FlushTakesAll(cfg, text);
    ReleaseParts(cfg, text, true);
    WholeSpliced(text, f);
  }

  lemma TailIsAll(text: Text)
    requires AddressAt(text, HOLDBACK)
    ensures |text| == HOLDBACK + 5 && 0 < HOLDBACK && text[0..] == text && text[..0] == []
  {
  }

  /** A finding from the front into the tail holds everything back. */
  lemma NotYet(text: Text, f: Finding)
    requires f.start == 0 && f.end == |text| && |text| == HOLDBACK + 5
    ensures CutPoint(text, [f], false) == 0 && Settled([f], 0) == []
    ensures Fits([], [], 0) && Splice([], [], 0) == []
  {
    assert [f][..0] == [] && [f][0] == f && [f][1..] == [];
    assert PullBack([f], 5) == Pull(f, PullBack([], 5));
  }

  /** However long the name in front of the `@` is, when the first delta ends with it all but
      its last 64 letters are let out, and the rest is masked. */
  lemma LongNameLetOut(cls: Classes, action: Action, n: nat)
    requires GoodClasses(cls) && HOLDBACK < n
    ensures var cfg, text := EmailOnly(cls, action), Address(n);
            var deltas := [text[..n], text[n..]];
            && AllWellFormed(deltas) && Concat(deltas) == text && Runnable(cfg, [], deltas)
            && Found(cfg, text) == [Finding(TAG, 0, |text|)]
            && Stream(cfg, [], deltas) == text[..n - HOLDBACK]
               + [0x5B, 0x52, 0x45, 0x44, 0x41, 0x43, 0x54, 0x45, 0x44, 0x3A, 0x45, 0x4D, 0x41, 0x49, 0x4C, 0x5D]
  {
    hide *;
    var cfg, text, k := EmailOnly(cls, action), Address(n), n - HOLDBACK;
    AddressParts(text, n);
    var a, b := text[..n], text[n..];
    AddressFound(cls, action, text, n);
    TwoAscii(cfg, text, n);
    NameFound(cls, action, a);
    FreeRelease(cfg, a);
    AddressRelease(cls, action, text[k..]);
    StreamOfTwo(cfg, a, b, a[..k], a[k..]);
    EmailToken();
  }

  /** `[REDACTED:EMAIL]` */
  lemma EmailToken()
    ensures Token(TAG)
         == [0x5B, 0x52, 0x45, 0x44, 0x41, 0x43, 0x54, 0x45, 0x44, 0x3A, 0x45, 0x4D, 0x41, 0x49, 0x4C, 0x5D]
  {
  }

  lemma StreamOfTwo(cfg: Config, a: Text, b: Text, out: Text, rest: Text)
    requires Runnable(cfg, [], [a, b])
    requires Scannable(cfg.ds, a) && ReleaseOf(cfg, a, false) == Released(out, rest)
    requires Scannable(cfg.ds, rest + b) && ReleaseOf(cfg, rest + b, false) == Released([], rest + b)
    ensures Stream(cfg, [], [a, b]) == out + ReleaseOf(cfg, rest + b, true).text
  {
    hide *;
    var none: seq<Text> := [];
    assert [a, b][1..] == [b] && [b][1..] == none && [] + a == a;
    NextRelease(cfg, [], 0, [a, b]);
    NextRelease(cfg, rest, 0, [b]);
    LastRelease(cfg, rest + b, 0, none);
    assert [] + ReleaseOf(cfg, rest + b, true).text == ReleaseOf(cfg, rest + b, true).text;
  }
}
