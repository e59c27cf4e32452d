/** The credit card policy on its own: exactly when a card number is masked while it is
    streamed, said of the text and of where its deltas end, and one that is let out. */
module CardStreaming {
  import opened Utf8
  import opened Characters
  import opened Findings
  import opened Detection
  import opened Scanning
  import opened Releasing
  import opened Streaming
  import opened NoLeak
  import opened Patterns
  import opened AnchoredPatterns
  import opened Card

  function CardOnly(cls: Classes, action: Action): Config {
    PatternOnly(CardPattern(cls), action)
  }

  lemma CardTag(cls: Classes)
    ensures WellFormed(CardPattern(cls).tag) && CardPattern(cls).tag == TAG && CardPattern(cls).m == CardMatcher(cls)
  {
    TagIsWellFormed();
  }

  /** A number, not behind a digit with only separators in between, is masked whole exactly
      when it is held at every delta. */
  lemma CardMaskedIff(cls: Classes, action: Action, deltas: seq<Text>, s: nat, e: nat)
    requires GoodClasses(cls) && AllWellFormed(deltas) && IsMatch(CardPattern(cls), Concat(deltas), s, e)
    ensures MaskedIn(CardPattern(cls), action, deltas, s, e)
       <==> MatchHeld(CardPattern(cls), Concat(deltas), s, e, Ends(0, deltas))
  {
    hide *;
    CardIsAnchored(cls);
    MaskedIff(CardPattern(cls), action, deltas, s, e);
  }

  /** And it is masked however the text is split exactly when it is held wherever a delta
      could end. */
  lemma CardAlwaysMaskedIff(cls: Classes, action: Action, text: Text, s: nat, e: nat)
    requires GoodClasses(cls) && WellFormed(text) && IsMatch(CardPattern(cls), text, s, e)
    ensures (forall deltas :: AllWellFormed(deltas) && Concat(deltas) == text ==> MaskedIn(CardPattern(cls), action, deltas, s, e))
       <==> forall n: nat :: n <= |text| && IsBoundary(text, n) ==> MatchHeld(CardPattern(cls), text, s, e, [n])
  {
    hide *;
    CardIsAnchored(cls);
    AlwaysMaskedIff(CardPattern(cls), action, text, s, e);
  }

  // ---- A number that is let out

  lemma CardMatcherIs(cls: Classes, before: seq<Text>, after: seq<Text>)
    ensures CardMatcher(cls)(before, after) == if StartsWord(cls, before) then CardLength(cls, after) else 0
  {
  }

  lemma NothingTaken(cls: Classes, text: Text, i: nat)
    requires WellFormed(text) && i <= |text| && DigitCount(cls, Chars(text)) < 13
    ensures Taken(CardMatcher(cls), text, i) == 0
  {
    hide *;
    if IsBoundary(text, i) {
      BoundaryWidth(text, i);
      DigitCountConcat(cls, Chars(text[..i]), Chars(text[i..]));
      FewDigits(cls, Chars(text[i..]));
      TakenDef(CardMatcher(cls), text, i);
      CardMatcherIs(cls, Chars(text[..i]), Chars(text[i..]));
      WidthZero(text[i..]);
    } else {
      NotTaken(CardMatcher(cls), text, i);
    }
  }

  lemma FewFound(cls: Classes, text: Text, action: Action)
    requires WellFormed(text) && DigitCount(cls, Chars(text)) < 13
    ensures Found(CardOnly(cls, action), text) == []
  {
    CardTag(cls);
    hide CardPattern, Found, WellFormed, DigitCount, Taken, Chars;
    forall i: nat | i <= |text| ensures Taken(CardMatcher(cls), text, i) == 0 {
      NothingTaken(cls, text, i);
    }
    NothingFound(CardPattern(cls), text, action);
  }

  lemma FewInSuffix(cls: Classes, text: Text, k: nat, m: nat)
    requires Ascii(text) && k <= m <= |text|
    ensures DigitCount(cls, Chars(text[m..])) <= DigitCount(cls, Chars(text[k..]))
  {
    hide *;
    AsciiWellFormed(text);
    AsciiBoundary(text, k);
    AsciiBoundary(text, m);
    SliceChars(text, k, k, m);
    DigitCountConcat(cls, Chars(text[k..m]), Chars(text[m..]));
  }

  /** When neither what has come with the first delta nor what is left after it has
      thirteen digits, all of it is let out as it is. */
  lemma LetOut(cls: Classes, action: Action, text: Text, n: nat)
    requires Ascii(text) && HOLDBACK <= n <= |text|
    requires DigitCount(cls, Chars(text[0..n])) < 13 && DigitCount(cls, Chars(text[n - HOLDBACK..])) < 13
    ensures var cfg, deltas := CardOnly(cls, action), [text[..n], text[n..]];
            && AllWellFormed(deltas) && Concat(deltas) == text && Runnable(cfg, [], deltas)
            && Stream(cfg, [], deltas) == text && StreamMasks(cfg, [], 0, deltas) == []
  {
    hide *;
    CardRegistry(cls, action);
    FewInSuffix(cls, text, n - HOLDBACK, |text| - HOLDBACK);
    NoneFound(cls, action, text, 0, n);
    NoneLeft(cls, action, text, n - HOLDBACK);
    NoneLeft(cls, action, text, |text| - HOLDBACK);
    AllLetOut(CardOnly(cls, action), text, n);
  }

  lemma CardRegistry(cls: Classes, action: Action)
    ensures Registry(CardOnly(cls, action).ds)
  {
    hide *;
    CardTag(cls);
    CardOnlyIs(cls, action);
    PatternIsDetector(CardPattern(cls));
  }

  lemma NoneFound(cls: Classes, action: Action, text: Text, c: nat, n: nat)
    requires Ascii(text) && c <= n <= |text| && DigitCount(cls, Chars(text[c..n])) < 13
    ensures Found(CardOnly(cls, action), text[c..n]) == []
  {
    hide *;
    AsciiSlice(text, c, n);
    FewFound(cls, text[c..n], action);
  }

  lemma NoneLeft(cls: Classes, action: Action, text: Text, c: nat)
    requires Ascii(text) && c <= |text| && DigitCount(cls, Chars(text[c..])) < 13
    ensures Found(CardOnly(cls, action), text[c..]) == []
  {
    hide *;
    AsciiSuffix(text, c);
    FewFound(cls, text[c..], action);
  }

  lemma CardOnlyIs(cls: Classes, action: Action)
    ensures CardOnly(cls, action) == PatternOnly(CardPattern(cls), action)
    ensures CardOnly(cls, action).ds == [DetectorOf(CardPattern(cls))]
  {
  }

  /** `4`, seventy spaces, and twelve times `1`. */
  const SPACED: Text := seq(83, (i: nat) => if i == 0 then 0x34 else if i < 71 then 0x20 else 0x31)

  predicate IsSpaced(text: Text) {
    |text| == 83 && forall i :: 0 <= i < 83 ==> text[i] == if i == 0 then 0x34 else if i < 71 then 0x20 else 0x31
  }

  lemma SpacedChars(cls: Classes, text: Text)
    requires GoodClasses(cls) && IsSpaced(text)
    ensures Ascii(text) && WellFormed(text) && |Chars(text)| == 83
    ensures forall i :: 0 <= i < 83 ==> if i == 0 || 71 <= i then cls.digit(Chars(text)[i]) && !IsSeparator(Chars(text)[i])
                                        else !cls.digit(Chars(text)[i]) && IsSeparator(Chars(text)[i])
  {
    AsciiChars(text);
    hide Chars, WellFormed;
  }

  lemma {:induction false} SkipIs(after: seq<Text>, i: nat, r: nat)
    requires i <= r <= |after| && (forall j :: i <= j < r ==> IsSeparator(after[j]))
    requires r < |after| ==> !IsSeparator(after[r])
    ensures SkipSeparators(after, i) == r
    decreases r - i
  {
    if i < r {
      SkipIs(after, i + 1, r);
    }
  }

  lemma {:induction false} SpacedDigits(cls: Classes, after: seq<Text>, k: nat)
    requires |after| == 83 && 1 <= k <= 14
    requires forall i :: 0 <= i < 83 ==> if i == 0 || 71 <= i then cls.digit(after[i]) && !IsSeparator(after[i])
                                         else !cls.digit(after[i]) && IsSeparator(after[i])
    ensures DigitsEnd(cls, after, k) == if k == 1 then 1 else if k == 14 then 0 else 70 + k
    decreases k
  {
    if k > 1 {
      SpacedDigits(cls, after, k - 1);
      var p := DigitsEnd(cls, after, k - 1);
      SkipIs(after, p, if k == 2 then 71 else p);
    }
  }

  lemma SpacedLength(cls: Classes, after: seq<Text>)
    requires |after| == 83
    requires forall i :: 0 <= i < 83 ==> if i == 0 || 71 <= i then cls.digit(after[i]) && !IsSeparator(after[i])
                                         else !cls.digit(after[i]) && IsSeparator(after[i])
    ensures CardLength(cls, after) == 83
  {
    SpacedDigits(cls, after, 13);
    SpacedDigits(cls, after, 14);
    assert DigitsEnd(cls, after, 15) == 0;
  }

  lemma SpacedIsNumber(cls: Classes, text: Text)
    requires GoodClasses(cls) && IsSpaced(text)
    ensures IsMatch(CardPattern(cls), text, 0, 83)
  {
    SpacedChars(cls, text);
    assert text[0..] == text && text[..0] == [] && IsBoundary(text, 0);
    CharsOfNothing();
    SpacedLength(cls, Chars(text));
    WidthIs(text, 83);
    CharsGiveText(text);
    assert Chars(text)[..83] == Chars(text);
  }

  lemma SpacedCounts(cls: Classes, text: Text)
    requires GoodClasses(cls) && IsSpaced(text)
    ensures DigitCount(cls, Chars(text[0..71])) < 13 && DigitCount(cls, Chars(text[7..])) < 13
  {
    var a, b := text[0..71], text[7..];
    AsciiChars(a);
    AsciiChars(b);
    var x, y := Chars(a), Chars(b);
    assert forall i :: 0 <= i < 71 ==> x[i] == [text[i]];
    assert forall i :: 0 <= i < 76 ==> y[i] == [text[i + 7]];
    hide Chars, WellFormed, DigitCount;
    assert x == x[..1] + x[1..] && y == y[..64] + y[64..];
    DigitCountConcat(cls, x[..1], x[1..]);
    DigitCountConcat(cls, y[..64], y[64..]);
    DigitCountBounds(cls, x[..1]);
    DigitCountBounds(cls, x[1..]);
    DigitCountBounds(cls, y[..64]);
    DigitCountBounds(cls, y[64..]);
  }

  /** A number of 83 bytes that at-rest redaction masks and streaming lets out unmasked, when
      the first delta ends after its spaces. */
  lemma SpacedLetOut(cls: Classes, action: Action)
    requires GoodClasses(cls)
    ensures WellFormed(SPACED) && IsMatch(CardPattern(cls), SPACED, 0, 83) && Masks(Found(CardOnly(cls, action), SPACED), 0, 83)
    ensures var cfg, deltas := CardOnly(cls, action), [SPACED[..71], SPACED[71..]];
            && AllWellFormed(deltas) && Concat(deltas) == SPACED && Runnable(cfg, [], deltas)
            && Stream(cfg, [], deltas) == SPACED && StreamMasks(cfg, [], 0, deltas) == []
  {
    assert IsSpaced(SPACED) && |SPACED| == 83 && HOLDBACK == 64;
    hide *;
    SpacedChars(cls, SPACED);
    SpacedIsNumber(cls, SPACED);
    SpacedCounts(cls, SPACED);
    LetOut(cls, action, SPACED, 71);
    CardIsAnchored(cls);
    CardOnlyIs(cls, action);
    MatchIsRobust(CardPattern(cls), SPACED, action, 0, 83);
    RobustInWhole(CardOnly(cls, action), SPACED, 83);
  }

  lemma RobustInWhole(cfg: Config, text: Text, e: nat)
    requires Robust(cfg, text, 0, 0, e, e) && e == |text|
    ensures Masks(Found(cfg, text), 0, e)
  {
    assert text[0..|text|] == text && IsBoundary(text, 0) && IsBoundary(text, |text|);
  }
}
