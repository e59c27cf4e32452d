/** Detectors given by a pattern over characters and scanned as `Regex::find_iter` scans:
    leftmost match first, each search from the end of the last match. */
module Patterns {
  import opened Utf8
  import opened Characters
  import opened Detection

  /** How many characters a pattern takes between the characters before and after a
      position; 0 when it does not match there. */
  type Matcher = (seq<Text>, seq<Text>) -> nat

  // ---- Character classes

  predicate IsDigit(b: byte) {
    0x30 <= b <= 0x39
  }

  predicate IsWord(b: byte) {
    IsDigit(b) || 0x41 <= b <= 0x5A || 0x61 <= b <= 0x7A || b == 0x5F
  }

  /** The Unicode classes `\d` and `\w`, of which only the ASCII part is fixed. */
  datatype Classes = Classes(digit: Text -> bool, word: Text -> bool)

  ghost predicate GoodClasses(cls: Classes) {
    && (forall b: byte :: b < 0x80 ==> (cls.digit([b]) <==> IsDigit(b)) && (cls.word([b]) <==> IsWord(b)))
    && forall c :: cls.digit(c) ==> cls.word(c)
  }

  /** `\b` in front of a word character. */
  predicate StartsWord(cls: Classes, before: seq<Text>) {
    before == [] || !cls.word(before[|before| - 1])
  }

  /** `\b` behind a word character: after the first `k` characters no other one follows. */
  predicate EndsWord(cls: Classes, after: seq<Text>, k: nat) {
    k >= |after| || !cls.word(after[k])
  }

  // ---- One position

  /** Bytes the pattern takes at `i`. */
  function Taken(m: Matcher, text: Text, i: nat): (w: nat)
    requires i <= |text|
    ensures i + w <= |text|
  {
    if !IsBoundary(text, i) then 0
    else
      var after := Chars(text[i..]);
      var k := m(Chars(text[..i]), after);
      if k <= |after| then Width(text[i..], k) else 0
  }

  predicate Matches(m: Matcher, text: Text, i: nat) {
    i <= |text| && Taken(m, text, i) > 0
  }

  lemma TakenDef(m: Matcher, text: Text, i: nat)
    requires i <= |text| && IsBoundary(text, i)
    ensures var after := Chars(text[i..]);
            var k := m(Chars(text[..i]), after);
            Taken(m, text, i) == if k <= |after| then Width(text[i..], k) else 0
  {
  }

  /** The place after the `k` characters that start at `i`. */
  lemma After(text: Text, i: nat, k: nat)
    requires WellFormed(text) && i <= |text| && IsBoundary(text, i) && k <= |Chars(text[i..])|
    ensures var e := i + Width(text[i..], k);
            && i + k <= e <= |text| && e <= i + 4 * k && IsBoundary(text, e)
            && Chars(text[i..e]) == Chars(text[i..])[..k]
            && e - i == |Concat(Chars(text[i..])[..k])|
  {
    hide *;
    WellFormedSplit(text, i);
    var rest := text[i..];
    WidthSplits(rest, k);
    TakeFirst(Chars(rest[..Width(rest, k)]), Chars(rest[Width(rest, k)..]));
    WidthIs(rest, k);
    EndIsBoundary(text);
    TakenSlice(text, i, Width(rest, k));
    SliceBoundary(text, i, |text|, Width(rest, k));
  }

  lemma TakenSlice(text: Text, i: nat, w: nat)
    requires i + w <= |text|
    ensures text[i..][..w] == text[i..i + w] && text[i..|text|] == text[i..]
  {
  }

  lemma NotTaken(m: Matcher, text: Text, i: nat)
    requires i <= |text| && !IsBoundary(text, i)
    ensures Taken(m, text, i) == 0
  {
  }

  lemma SliceParts(text: Text, c: nat, i: nat, n: nat)
    requires WellFormed(text) && c <= i <= n <= |text|
    requires IsBoundary(text, c) && IsBoundary(text, n) && IsBoundary(text, i)
    ensures WellFormed(text[c..n]) && IsBoundary(text[c..n], i - c) && WellFormed(text[i..n]) && WellFormed(text[c..i])
    ensures text[c..n][..i - c] == text[c..i] && text[c..n][i - c..] == text[i..n]
  {
    hide *;
    WellFormedSlice(text, c, n);
    SliceBoundary(text, c, n, i - c);
    WellFormedSlice(text, c, i);
    WellFormedSlice(text, i, n);
  }

  lemma CharsJoin(text: Text, a: nat, b: nat, c: nat)
    requires a <= b <= c <= |text| && WellFormed(text[a..b]) && WellFormed(text[b..c])
    ensures Chars(text[a..c]) == Chars(text[a..b]) + Chars(text[b..c])
  {
    hide *;
    CharsConcat(text[a..b], text[b..c]);
    assert text[a..b] + text[b..c] == text[a..c];
  }

  /** In a slice the pattern sees the characters of the slice only. */
  lemma SliceChars(text: Text, c: nat, i: nat, n: nat)
    requires WellFormed(text) && c <= i <= n <= |text|
    requires IsBoundary(text, c) && IsBoundary(text, n) && IsBoundary(text, i)
    ensures Chars(text[..i]) == Chars(text[..c]) + Chars(text[c..i])
    ensures Chars(text[i..]) == Chars(text[i..n]) + Chars(text[n..])
  {
    hide *;
    SliceParts(text, c, i, n);
    WellFormedSplit(text, c);
    WellFormedSplit(text, n);
    assert text[..c] == text[0..c] && text[n..] == text[n..|text|];
    CharsJoin(text, 0, c, i);
    CharsJoin(text, i, n, |text|);
    assert text[..i] == text[0..i] && text[i..] == text[i..|text|];
  }

  // ---- Scanning

  function FindFrom(m: Matcher, text: Text, i: nat): seq<Span>
    decreases |text| - i
  {
    if i >= |text| then []
    else if Taken(m, text, i) > 0 then [Span(i, i + Taken(m, text, i))] + FindFrom(m, text, i + Taken(m, text, i))
    else FindFrom(m, text, i + 1)
  }

  function Regex(m: Matcher, pattern: string, tag: Text): Detector {
    Detector(pattern, tag, text => FindFrom(m, text, 0))
  }

  /** What is found matches, and matches follow one another. */
  lemma {:induction false} FindFromSound(m: Matcher, text: Text, i: nat)
    ensures Successive(FindFrom(m, text, i))
    ensures forall s :: s in FindFrom(m, text, i) ==>
              i <= s.start < s.end <= |text| && s.end == s.start + Taken(m, text, s.start)
    decreases |text| - i
  {
    hide Taken;
    if i < |text| {
      FindFromSound(m, text, if Taken(m, text, i) > 0 then i + Taken(m, text, i) else i + 1);
    }
  }

  /** A position no match goes across is reached by the scan. */
  lemma {:induction false} FindFromReaches(m: Matcher, text: Text, i: nat, s: nat, x: Span)
    requires i <= s <= |text|
    requires forall j :: i <= j < s ==> j + Taken(m, text, j) <= s
    ensures x in FindFrom(m, text, i) && s <= x.start ==> x in FindFrom(m, text, s)
    ensures x in FindFrom(m, text, s) ==> x in FindFrom(m, text, i)
    decreases s - i
  {
    hide Taken;
    if i < s {
      FindFromReaches(m, text, if Taken(m, text, i) > 0 then i + Taken(m, text, i) else i + 1, s, x);
    }
  }

  lemma FindsHere(m: Matcher, text: Text, i: nat)
    requires i <= |text|
    ensures Taken(m, text, i) > 0 ==> Span(i, i + Taken(m, text, i)) in FindFrom(m, text, i)
  {
    hide Taken;
  }

  ghost predicate NoOverlaps(m: Matcher, text: Text) {
    forall j: nat, k: nat :: Matches(m, text, j) && j < k < j + Taken(m, text, j) ==> !Matches(m, text, k)
  }

  /** When matches cannot overlap, all of them are found. */
  lemma {:induction false} FindFromExact(m: Matcher, text: Text, i: nat, s: Span)
    requires NoOverlaps(m, text)
    ensures s in FindFrom(m, text, i)
       <==> i <= s.start && Matches(m, text, s.start) && s.end == s.start + Taken(m, text, s.start)
    decreases |text| - i
  {
    hide Taken;
    if i < |text| {
      FindFromExact(m, text, if Taken(m, text, i) > 0 then i + Taken(m, text, i) else i + 1, s);
    }
  }

  lemma RegexIsDetector(m: Matcher, pattern: string, tag: Text)
    requires WellFormed(tag)
    ensures Registry([Regex(m, pattern, tag)])
  {
    hide Taken, WellFormed, FindFrom, GoodSpan;
    forall text | WellFormed(text)
      ensures Successive(FindFrom(m, text, 0)) && forall s :: s in FindFrom(m, text, 0) ==> GoodSpan(text, s)
    {
      FindFromSound(m, text, 0);
      forall s | s in FindFrom(m, text, 0) ensures GoodSpan(text, s) {
        TakenIsGood(m, text, s.start);
      }
    }
  }

  lemma TakenIsSome(m: Matcher, text: Text, i: nat) returns (k: nat)
    requires i <= |text| && IsBoundary(text, i)
    ensures k <= |Chars(text[i..])| && Taken(m, text, i) == Width(text[i..], k)
  {
    var after := Chars(text[i..]);
    k := m(Chars(text[..i]), after);
    hide Chars, IsBoundary;
    if k > |after| {
      k := 0;
    }
  }

  lemma TakenIsGood(m: Matcher, text: Text, i: nat)
    requires WellFormed(text) && Matches(m, text, i)
    ensures IsBoundary(text, i) && GoodSpan(text, Span(i, i + Taken(m, text, i)))
  {
    hide *;
    MatchesIs(m, text, i);
    if IsBoundary(text, i) {
      var k := TakenIsSome(m, text, i);
      After(text, i, k);
      IsGoodSpan(text, Span(i, i + Taken(m, text, i)));
    } else {
      NotTaken(m, text, i);
    }
  }

  lemma MatchesIs(m: Matcher, text: Text, i: nat)
    ensures Matches(m, text, i) <==> i <= |text| && Taken(m, text, i) > 0
  {
  }

  lemma IsGoodSpan(text: Text, s: Span)
    ensures s.start < s.end <= |text| && IsBoundary(text, s.start) && IsBoundary(text, s.end) ==> GoodSpan(text, s)
  {
  }
}
