/** The Social Security Number detector, `\b\d{3}-\d{2}-\d{4}\b`: it is local, so nothing
    it matches leaks, and a cut changes what it matches exactly when the cut lands in front
    of digits that only look like a match once their left neighbour is gone. */
module Ssn {
  import opened Utf8
  import opened Characters
  import opened Detection
  import opened Releasing
  import opened NoLeak
  import opened SameAsBatch
  import opened Patterns

  const SIZE: nat := 11
  const DASH: Text := [0x2D]
  /** `SSN` */
  const TAG: Text := [0x53, 0x53, 0x4E]

  /** Three digits, a dash, two digits, a dash, four digits. */
  predicate Shape(cls: Classes, after: seq<Text>) {
    && SIZE <= |after|
    && cls.digit(after[0]) && cls.digit(after[1]) && cls.digit(after[2]) && after[3] == DASH
    && cls.digit(after[4]) && cls.digit(after[5]) && after[6] == DASH
    && cls.digit(after[7]) && cls.digit(after[8]) && cls.digit(after[9]) && cls.digit(after[10])
  }

  function SsnMatcher(cls: Classes): Matcher {
    (before: seq<Text>, after: seq<Text>) =>
      if StartsWord(cls, before) && Shape(cls, after) && EndsWord(cls, after, SIZE) then SIZE else 0
  }

  function SsnDetector(cls: Classes): Detector {
    Regex(SsnMatcher(cls), "ssn", TAG)
  }

  predicate ShapeAt(cls: Classes, text: Text, i: nat) {
    i <= |text| && IsBoundary(text, i) && Shape(cls, Chars(text[i..])) && EndsWord(cls, Chars(text[i..]), SIZE)
  }

  predicate MatchAt(cls: Classes, text: Text, i: nat) {
    ShapeAt(cls, text, i) && StartsWord(cls, Chars(text[..i]))
  }

  /** Digits at `k` that are no match of the text, only because of the word character in
      front of them. */
  predicate FalseStart(cls: Classes, text: Text, k: nat) {
    ShapeAt(cls, text, k) && !StartsWord(cls, Chars(text[..k]))
  }

  function ShapeEnd(text: Text, i: nat): nat {
    if i <= |text| && SIZE <= |Chars(text[i..])| then i + Width(text[i..], SIZE) else i
  }

  lemma ShapeEndIs(cls: Classes, text: Text, i: nat)
    requires WellFormed(text) && ShapeAt(cls, text, i)
    ensures var e := ShapeEnd(text, i);
            && i + SIZE <= e <= |text| && e <= i + 4 * SIZE && IsBoundary(text, e)
            && Chars(text[i..e]) == Chars(text[i..])[..SIZE]
            && e - i == |Concat(Chars(text[i..])[..SIZE])|
  {
    hide WellFormed, IsBoundary, EndsWord;
    After(text, i, SIZE);
  }

  /** Where and how much the detector's pattern takes. */
  lemma TakenIff(cls: Classes, text: Text, i: nat)
    requires WellFormed(text) && i <= |text|
    ensures Matches(SsnMatcher(cls), text, i) <==> MatchAt(cls, text, i)
    ensures MatchAt(cls, text, i) ==> i + Taken(SsnMatcher(cls), text, i) == ShapeEnd(text, i)
  {
    if IsBoundary(text, i) {
      hide Chars, WellFormed, Width, IsBoundary, Taken;
      TakenDef(SsnMatcher(cls), text, i);
      if MatchAt(cls, text, i) {
        ShapeEndIs(cls, text, i);
      }
    } else {
      NotTaken(SsnMatcher(cls), text, i);
    }
  }

  // ---- Matches do not overlap

  lemma ShapesApart(cls: Classes, after: seq<Text>, m: nat)
    requires GoodClasses(cls) && Shape(cls, after) && 0 < m < SIZE && !cls.word(after[m - 1])
    ensures !Shape(cls, after[m..])
  {
  }

  lemma LastOf(a: seq<Text>, b: seq<Text>)
    requires b != []
    ensures (a + b)[|a + b| - 1] == b[|b| - 1]
  {
  }

  /** A match starts at a word boundary, and the two inside a match do not start another. */
  lemma NoOverlap(cls: Classes, text: Text, i: nat, j: nat)
    requires WellFormed(text) && GoodClasses(cls) && MatchAt(cls, text, i) && MatchAt(cls, text, j) && i < j
    ensures ShapeEnd(text, i) <= j
  {
    var e := ShapeEnd(text, i);
    hide Chars, WellFormed, IsBoundary, Shape, EndsWord, ShapeEnd;
    ShapeEndIs(cls, text, i);
    if j < e {
      SliceParts(text, i, j, e);
      CharsJoin(text, i, j, e);
      EndIsBoundary(text);
      StartIsBoundary(text);
      SliceChars(text, i, j, |text|);
      SliceChars(text, 0, i, j);
      CharsGiveText(text[i..j]);
      CharsGiveText(text[j..e]);
      var inside, after := Chars(text[i..j]), Chars(text[i..]);
      var m := |inside|;
      LastOf(Chars(text[..i]), inside);
      WellFormedSplit(text, i);
      assert after[m - 1] == inside[m - 1] && after[m..] == Chars(text[j..]);
      ShapesApart(cls, after, m);
    }
  }

  lemma SsnNoOverlaps(cls: Classes, text: Text)
    requires WellFormed(text) && GoodClasses(cls)
    ensures NoOverlaps(SsnMatcher(cls), text)
  {
    var m := SsnMatcher(cls);
    hide SsnMatcher, Taken, MatchAt, ShapeEnd, WellFormed, GoodClasses;
    forall j: nat, k: nat | Matches(m, text, j) && j < k < j + Taken(m, text, j) ensures !Matches(m, text, k) {
      TakenIff(cls, text, j);
      if Matches(m, text, k) {
        TakenIff(cls, text, k);
        NoOverlap(cls, text, j, k);
      }
    }
  }

  /** The matches found are all the places where the pattern matches. */
  lemma FindExact(cls: Classes, text: Text, s: Span)
    requires WellFormed(text) && GoodClasses(cls)
    ensures s in SsnDetector(cls).find(text) <==> MatchAt(cls, text, s.start) && s.end == ShapeEnd(text, s.start)
  {
    SsnNoOverlaps(cls, text);
    hide Taken, MatchAt, ShapeEnd, WellFormed, GoodClasses;
    FindFromExact(SsnMatcher(cls), text, 0, s);
    if s.start <= |text| {
      TakenIff(cls, text, s.start);
    } else {
      OnlyAtBoundaries(cls, text, s.start);
    }
  }

  lemma SsnIsDetector(cls: Classes)
    ensures Registry([SsnDetector(cls)])
  {
    TagIsWellFormed();
    RegexIsDetector(SsnMatcher(cls), "ssn", TAG);
  }

  lemma TagIsWellFormed()
    ensures WellFormed(TAG)
  {
    assert TAG[1..][1..][1..] == [];
  }

  // ---- In a slice

  lemma ShapeOfPrefix(cls: Classes, a: seq<Text>, b: seq<Text>)
    requires SIZE <= |a|
    ensures Shape(cls, a) <==> Shape(cls, a + b)
    ensures EndsWord(cls, a + b, SIZE) ==> EndsWord(cls, a, SIZE)
    ensures SIZE < |a| || b == [] ==> (EndsWord(cls, a, SIZE) <==> EndsWord(cls, a + b, SIZE))
    ensures a[..SIZE] == (a + b)[..SIZE]
  {
  }

  lemma StartOfSuffix(cls: Classes, a: seq<Text>, b: seq<Text>)
    ensures StartsWord(cls, a + b) ==> StartsWord(cls, b)
    ensures b != [] || a == [] ==> (StartsWord(cls, b) <==> StartsWord(cls, a + b))
  {
  }

  /** What the pattern sees at `i` in the slice from `c` to `n`. */
  lemma SliceSees(cls: Classes, text: Text, c: nat, i: nat, n: nat)
    requires WellFormed(text) && c <= i <= n <= |text|
    requires IsBoundary(text, c) && IsBoundary(text, n) && IsBoundary(text, i)
    ensures ShapeAt(cls, text[c..n], i - c) <==> Shape(cls, Chars(text[i..n])) && EndsWord(cls, Chars(text[i..n]), SIZE)
    ensures MatchAt(cls, text[c..n], i - c) <==> ShapeAt(cls, text[c..n], i - c) && StartsWord(cls, Chars(text[c..i]))
    ensures ShapeEnd(text[c..n], i - c)
         == if SIZE <= |Chars(text[i..n])| then i - c + Width(text[i..n], SIZE) else i - c
  {
    SliceParts(text, c, i, n);
    hide Chars, WellFormed, Width, IsBoundary, Shape, EndsWord, StartsWord;
  }

  /** A match stays a match in every slice that holds it: it needs no context. */
  lemma MatchInSlice(cls: Classes, text: Text, c: nat, i: nat, n: nat)
    requires WellFormed(text) && MatchAt(cls, text, i) && c <= i && ShapeEnd(text, i) <= n <= |text|
    requires IsBoundary(text, c) && IsBoundary(text, n)
    ensures MatchAt(cls, text[c..n], i - c) && c + ShapeEnd(text[c..n], i - c) == ShapeEnd(text, i)
  {
    var e := ShapeEnd(text, i);
    ShapeEndIs(cls, text, i);
    hide Chars, WellFormed, Width, IsBoundary, Shape, EndsWord, StartsWord, ShapeEnd;
    SliceSees(cls, text, c, i, n);
    SliceParts(text, c, i, n);
    SliceParts(text, i, e, n);
    CharsJoin(text, i, e, n);
    SliceChars(text, c, i, n);
    var a, b := Chars(text[i..n]), Chars(text[n..]);
    ShapeOfPrefix(cls, a, b);
    StartOfSuffix(cls, Chars(text[..c]), Chars(text[c..i]));
    WidthIs(text[i..n], SIZE);
  }

  lemma SsnIsLocal(cls: Classes)
    requires GoodClasses(cls)
    ensures Local(SsnDetector(cls))
  {
    var d := SsnDetector(cls);
    hide SsnDetector, MatchAt, ShapeEnd, WellFormed, GoodClasses, IsBoundary;
    forall text, x | WellFormed(text) && x in d.find(text) ensures exists r :: LocalMatch(d, text, x, r) {
      FindExact(cls, text, x);
      MatchBounds(cls, text, x.start);
      forall c: nat, n: nat | c <= x.start && x.end <= n <= |text| && IsBoundary(text, c) && IsBoundary(text, n)
        ensures SpansCover(d.find(text[c..n]), x.start - c, x.end - c)
      {
        MatchInSlice(cls, text, c, x.start, n);
        WellFormedSlice(text, c, n);
        FindExact(cls, text[c..n], Span(x.start - c, x.end - c));
      }
      assert LocalMatch(d, text, x, x.end);
    }
  }

  lemma MatchBounds(cls: Classes, text: Text, i: nat)
    requires WellFormed(text) && MatchAt(cls, text, i)
    ensures i + SIZE <= ShapeEnd(text, i) <= |text| && ShapeEnd(text, i) <= i + 4 * SIZE
    ensures IsBoundary(text, i) && IsBoundary(text, ShapeEnd(text, i))
  {
    ShapeEndIs(cls, text, i);
  }

  // ---- Exactness

  /** As far as 65 bytes have arrived behind it, a position looks the same in a slice and
      in the text, unless it is a false start where the slice begins. */
  lemma SliceMatches(cls: Classes, text: Text, c: nat, i: nat, n: nat)
    requires WellFormed(text) && c <= i <= n <= |text|
    requires IsBoundary(text, c) && IsBoundary(text, n) && IsBoundary(text, i)
    requires (i + HOLDBACK + 1 <= n || n == |text|) && !(i == c && FalseStart(cls, text, c))
    ensures MatchAt(cls, text[c..n], i - c) <==> MatchAt(cls, text, i)
    ensures MatchAt(cls, text, i) ==> c + ShapeEnd(text[c..n], i - c) == ShapeEnd(text, i)
  {
    SliceSees(cls, text, c, i, n);
    SliceParts(text, c, i, n);
    SliceChars(text, c, i, n);
    CharsGiveText(text[i..n]);
    WellFormedSplit(text, i);
    var a, b, before := Chars(text[i..n]), Chars(text[n..]), Chars(text[c..i]);
    if n == |text| {
      assert text[n..] == [];
      CharsOfNothing();
    }
    SeenStart(cls, text, c, i);
    hide Chars, WellFormed, Width, IsBoundary, Shape, EndsWord, StartsWord;
    if SIZE < |a| || (SIZE <= |a| && b == []) {
      ShapeOfPrefix(cls, a, b);
      WidthIs(text[i..n], SIZE);
      WidthIs(text[i..], SIZE);
    } else {
      assert b == [];
      ShapeNeedsAll(cls, a);
      assert a + b == a;
    }
  }

  lemma ShapeNeedsAll(cls: Classes, after: seq<Text>)
    ensures Shape(cls, after) ==> SIZE <= |after|
  {
  }

  /** The left neighbour is lost only where the slice begins. */
  lemma SeenStart(cls: Classes, text: Text, c: nat, i: nat)
    requires WellFormed(text) && c <= i <= |text| && IsBoundary(text, c) && IsBoundary(text, i)
    ensures StartsWord(cls, Chars(text[..i])) ==> StartsWord(cls, Chars(text[c..i]))
    ensures c < i ==> (StartsWord(cls, Chars(text[c..i])) <==> StartsWord(cls, Chars(text[..i])))
    ensures c == i ==> StartsWord(cls, Chars(text[c..i]))
  {
    SliceChars(text, c, i, i);
    WellFormedSlice(text, c, i);
    CharsGiveText(text[c..i]);
    hide WellFormed, IsBoundary;
    StartOfSuffix(cls, Chars(text[..c]), Chars(text[c..i]));
  }

  /** Starting the text at `c` is invisible to the detector exactly when `c` is no false start. */
  lemma ExactIffNoFalseStart(cls: Classes, text: Text, c: nat)
    requires WellFormed(text) && GoodClasses(cls) && c <= |text| && IsBoundary(text, c)
    ensures ExactFrom(SsnDetector(cls), text, c) <==> !FalseStart(cls, text, c)
  {
    var d := SsnDetector(cls);
    EndIsBoundary(text);
    hide SsnDetector, WellFormed, GoodClasses, IsBoundary, MatchAt, ShapeAt, ShapeEnd;
    if FalseStart(cls, text, c) {
      var s := FalseStartSeen(cls, text, c);
      assert !ExactAt(d, text, c, |text|, s);
    } else {
      forall n: nat, s: Span ensures ExactAt(d, text, c, n, s) {
        if c <= n <= |text| && IsBoundary(text, n) && (s.start + HOLDBACK + 1 <= n - c || n == |text|) {
          ExactHere(cls, text, c, n, s);
        }
      }
    }
  }

  lemma FalseStartSeen(cls: Classes, text: Text, c: nat) returns (s: Span)
    requires WellFormed(text) && GoodClasses(cls) && FalseStart(cls, text, c)
    ensures c <= |text| && s in SsnDetector(cls).find(text[c..|text|])
    ensures Span(s.start + c, s.end + c) !in SsnDetector(cls).find(text)
  {
    assert c <= |text| && IsBoundary(text, c) && ShapeAt(cls, text, c);
    hide *;
    EndIsBoundary(text);
    ShapeEndIs(cls, text, c);
    FalseStartMatches(cls, text, c, |text|);
    s := Span(0, ShapeEnd(text, c) - c);
    WellFormedSlice(text, c, |text|);
    FindExact(cls, text[c..|text|], s);
    FindExact(cls, text, Span(s.start + c, s.end + c));
  }

  lemma ExactHere(cls: Classes, text: Text, c: nat, n: nat, s: Span)
    requires WellFormed(text) && GoodClasses(cls) && !FalseStart(cls, text, c)
    requires c <= n <= |text| && IsBoundary(text, c) && IsBoundary(text, n)
    requires s.start + HOLDBACK + 1 <= n - c || n == |text|
    ensures s in SsnDetector(cls).find(text[c..n]) <==> Span(s.start + c, s.end + c) in SsnDetector(cls).find(text)
  {
    hide *;
    WellFormedSlice(text, c, n);
    FindExact(cls, text[c..n], s);
    FindExact(cls, text, Span(s.start + c, s.end + c));
    OnlyAtBoundaries(cls, text, s.start + c);
    OnlyAtBoundaries(cls, text[c..n], s.start);
    if s.start <= n - c {
      SliceBoundary(text, c, n, s.start);
      if IsBoundary(text, s.start + c) {
        SliceMatches(cls, text, c, s.start + c, n);
      }
    }
  }

  lemma OnlyAtBoundaries(cls: Classes, text: Text, i: nat)
    ensures MatchAt(cls, text, i) ==> i <= |text| && IsBoundary(text, i)
  {
  }

  lemma FalseStartMatches(cls: Classes, text: Text, c: nat, n: nat)
    requires WellFormed(text) && FalseStart(cls, text, c) && n <= |text| && IsBoundary(text, n)
    requires ShapeEnd(text, c) <= n
    ensures c <= n && MatchAt(cls, text[c..n], 0) && c + ShapeEnd(text[c..n], 0) == ShapeEnd(text, c)
    ensures !MatchAt(cls, text, c)
  {
    var e := ShapeEnd(text, c);
    ShapeEndIs(cls, text, c);
    SliceParts(text, c, e, n);
    CharsJoin(text, c, e, n);
    StartIsBoundary(text);
    SliceChars(text, 0, c, n);
    SeenStart(cls, text, c, c);
    SliceSees(cls, text, c, c, n);
    hide Chars, WellFormed, Width, IsBoundary, Shape, EndsWord, StartsWord;
    ShapeOfPrefix(cls, Chars(text[c..n]), Chars(text[n..]));
    WidthIs(text[c..n], SIZE);
  }
}
