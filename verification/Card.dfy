/** The credit card detector, `\b(?:\d[ -]*?){13,16}\b`: its matches have no greatest
    length, since any number of spaces and dashes may stand between the digits. */
module Card {
  import opened Utf8
  import opened Characters
  import opened Detection
  import opened Patterns
  import opened AnchoredPatterns

  /** `CREDIT_CARD` */
  const TAG: Text := [0x43, 0x52, 0x45, 0x44, 0x49, 0x54, 0x5F, 0x43, 0x41, 0x52, 0x44]

  predicate IsSeparator(c: Text) {
    c == [0x20] || c == [0x2D]
  }

  /** The first place from `i` on that is no separator. */
  function SkipSeparators(after: seq<Text>, i: nat): (r: nat)
    requires i <= |after|
    ensures i <= r <= |after| && (forall j :: i <= j < r ==> IsSeparator(after[j]))
    ensures r < |after| ==> !IsSeparator(after[r])
    decreases |after| - i
  {
    if i < |after| && IsSeparator(after[i]) then SkipSeparators(after, i + 1) else i
  }

  /** Characters up to and with the `k`-th digit; 0 when there are not that many in front of
      anything else but separators. */
  function DigitsEnd(cls: Classes, after: seq<Text>, k: nat): (r: nat)
    ensures r <= |after|
  {
    if k == 0 then 0
    else
      var p := DigitsEnd(cls, after, k - 1);
      var q := if k == 1 then 0 else SkipSeparators(after, p);
      if (k == 1 || p > 0) && q < |after| && cls.digit(after[q]) then q + 1 else 0
  }

  predicate EndsAt(cls: Classes, after: seq<Text>, k: nat) {
    DigitsEnd(cls, after, k) > 0 && EndsWord(cls, after, DigitsEnd(cls, after, k))
  }

  /** Thirteen digits at least and sixteen at most, and as few as possible: the separators
      are taken lazily, so the match ends with the first of these digits that no word
      character follows, and goes on only to a digit right behind. */
  function CardDigits(cls: Classes, after: seq<Text>): (k: nat)
    ensures k == 0 || (13 <= k <= 16 && EndsAt(cls, after, k))
    ensures forall j :: 13 <= j <= 16 && EndsAt(cls, after, j) ==> 0 < k <= j
  {
    if EndsAt(cls, after, 13) then 13
    else if EndsAt(cls, after, 14) then 14
    else if EndsAt(cls, after, 15) then 15
    else if EndsAt(cls, after, 16) then 16
    else 0
  }

  function CardLength(cls: Classes, after: seq<Text>): (r: nat)
    ensures r <= |after|
  {
    DigitsEnd(cls, after, CardDigits(cls, after))
  }

  function CardMatcher(cls: Classes): Matcher {
    (before: seq<Text>, after: seq<Text>) => if StartsWord(cls, before) then CardLength(cls, after) else 0
  }

  function CardDetector(cls: Classes): Detector {
    Regex(CardMatcher(cls), "credit_card", TAG)
  }

  lemma CardIsDetector(cls: Classes)
    ensures Registry([CardDetector(cls)])
  {
    assert CardDetector(cls) == Regex(CardMatcher(cls), "credit_card", TAG);
    hide *;
    TagIsWellFormed();
    RegexIsDetector(CardMatcher(cls), "credit_card", TAG);
  }

  lemma TagIsWellFormed()
    ensures WellFormed(TAG)
  {
    hide WellFormed, Chars, CharLen;
    AsciiChars(TAG);
  }

  // ---- Reading digits

  lemma {:induction false} DigitsAscend(cls: Classes, after: seq<Text>, j: nat, k: nat)
    requires 0 < j <= k && DigitsEnd(cls, after, k) > 0
    ensures 0 < DigitsEnd(cls, after, j) <= DigitsEnd(cls, after, k)
    ensures j < k ==> DigitsEnd(cls, after, j) < DigitsEnd(cls, after, k)
    decreases k
  {
    if j < k {
      DigitsAscend(cls, after, j, k - 1);
    }
  }

  lemma {:induction false} SkipInPrefix(a: seq<Text>, b: seq<Text>, i: nat)
    requires i <= |a|
    ensures SkipSeparators(a, i) == if SkipSeparators(a + b, i) <= |a| then SkipSeparators(a + b, i) else |a|
    decreases |a| - i
  {
    if i < |a| && IsSeparator(a[i]) {
      SkipInPrefix(a, b, i + 1);
    }
  }

  /** What is read does not depend on what follows it. */
  lemma {:induction false} DigitsInPrefix(cls: Classes, a: seq<Text>, b: seq<Text>, k: nat)
    ensures DigitsEnd(cls, a, k) == if DigitsEnd(cls, a + b, k) <= |a| then DigitsEnd(cls, a + b, k) else 0
  {
    if k > 0 {
      DigitsInPrefix(cls, a, b, k - 1);
      var p := DigitsEnd(cls, a + b, k - 1);
      if k > 1 && p <= |a| {
        SkipInPrefix(a, b, p);
      }
    }
  }

  lemma {:induction false} OnlyDigitsAndSeparators(cls: Classes, after: seq<Text>, k: nat, i: nat)
    requires i < DigitsEnd(cls, after, k)
    ensures cls.digit(after[i]) || IsSeparator(after[i])
  {
    var p := DigitsEnd(cls, after, k - 1);
    if k > 1 && i < p {
      OnlyDigitsAndSeparators(cls, after, k - 1, i);
    }
  }

  lemma CardLengthIs(cls: Classes, after: seq<Text>)
    ensures CardLength(cls, after) == DigitsEnd(cls, after, CardDigits(cls, after)) && DigitsEnd(cls, after, 0) == 0
  {
  }

  lemma EndsAtIs(cls: Classes, after: seq<Text>, k: nat)
    ensures EndsAt(cls, after, k) ==> DigitsEnd(cls, after, k) > 0
  {
  }

  lemma EndsInPrefix(cls: Classes, a: seq<Text>, b: seq<Text>, k: nat)
    requires EndsAt(cls, a + b, k) && DigitsEnd(cls, a + b, k) <= |a|
    ensures EndsAt(cls, a, k) && DigitsEnd(cls, a, k) == DigitsEnd(cls, a + b, k)
  {
    DigitsInPrefix(cls, a, b, k);
  }

  /** A match that is there stays the same when the text behind it is cut off. */
  lemma LengthInPrefix(cls: Classes, a: seq<Text>, b: seq<Text>)
    requires 0 < CardLength(cls, a + b) <= |a|
    ensures CardLength(cls, a) == CardLength(cls, a + b)
  {
    hide *;
    var k, j := CardDigits(cls, a + b), CardDigits(cls, a);
    CardLengthIs(cls, a + b);
    CardLengthIs(cls, a);
    EndsInPrefix(cls, a, b, k);
    EndsAtIs(cls, a, k);
    if j < k {
      DigitsAscend(cls, a, j, k);
      EndsInBoth(cls, a, b, j);
    }
  }

  lemma EndsInBoth(cls: Classes, a: seq<Text>, b: seq<Text>, j: nat)
    requires EndsAt(cls, a, j) && DigitsEnd(cls, a, j) < |a|
    ensures EndsAt(cls, a + b, j)
  {
    DigitsInPrefix(cls, a, b, j);
  }

  // ---- Where a match depends on what follows alone

  /** Where the separators at the end begin. */
  function SeparatorsStart(before: seq<Text>): (r: nat)
    ensures r <= |before| && forall i :: r <= i < |before| ==> IsSeparator(before[i])
    ensures r > 0 ==> !IsSeparator(before[r - 1])
  {
    if before == [] || !IsSeparator(before[|before| - 1]) then |before|
    else SeparatorsStart(before[..|before| - 1])
  }

  /** Not behind a word character, and behind no digit with only separators in between. */
  predicate Alone(cls: Classes, before: seq<Text>) {
    && StartsWord(cls, before)
    && (SeparatorsStart(before) > 0 ==> !cls.digit(before[SeparatorsStart(before) - 1]))
  }

  lemma AloneSuffix(cls: Classes, a: seq<Text>, b: seq<Text>)
    requires Alone(cls, a + b)
    ensures Alone(cls, b)
  {
    var s, r := a + b, SeparatorsStart(b);
    assert b != [] ==> s[|s| - 1] == b[|b| - 1];
    if r > 0 {
      assert s[|a| + r - 1] == b[r - 1];
      assert SeparatorsStart(s) == |a| + r;
    }
  }

  /** A match from before such a place ends before it. */
  lemma EndsBefore(cls: Classes, before: seq<Text>, part: seq<Text>, after: seq<Text>)
    requires GoodClasses(cls) && part != [] && part <= after && Alone(cls, before + part)
    ensures CardLength(cls, after) < |part|
  {
    var s, k := before + part, CardDigits(cls, after);
    if |part| <= CardLength(cls, after) {
      DigitFirst(cls, after, k);
      assert s[|before|] == after[0];
      var i := SeparatorsStart(s) - 1 - |before|;
      assert s[|before| + i] == after[i];
      OnlyDigitsAndSeparators(cls, after, k, i);
    }
  }

  lemma {:induction false} DigitFirst(cls: Classes, after: seq<Text>, k: nat)
    requires GoodClasses(cls) && DigitsEnd(cls, after, k) > 0
    ensures after != [] && cls.digit(after[0]) && !IsSeparator(after[0])
  {
    DigitsAscend(cls, after, 1, k);
    assert DigitsEnd(cls, after, 0) == 0;
    assert !cls.digit([0x20]) && !cls.digit([0x2D]);
  }

  function CardPattern(cls: Classes): Pattern {
    Pattern(CardMatcher(cls), after => CardLength(cls, after), before => Alone(cls, before), "credit_card", TAG)
  }

  lemma CardIsAnchored(cls: Classes)
    requires GoodClasses(cls)
    ensures Anchored(CardPattern(cls)) && DetectorOf(CardPattern(cls)) == CardDetector(cls)
  {
    var p := CardPattern(cls);
    TagIsWellFormed();
    hide Alone, CardLength, StartsWord, WellFormed, GoodClasses;
    forall before, after ensures TakesSize(p, before, after) {
      AloneStarts(cls, before);
    }
    forall a, b ensures AloneInSuffix(p, a, b) {
      if p.alone(a + b) {
        AloneSuffix(cls, a, b);
      }
    }
    forall before, part, after ensures NotAcross(p, before, part, after) {
      if part != [] && part <= after && p.alone(before + part) {
        EndsBefore(cls, before, part, after);
      }
    }
    forall a, b ensures NoShorter(p, a, b) {
      if 0 < CardLength(cls, a + b) <= |a| {
        LengthInPrefix(cls, a, b);
      }
    }
  }

  lemma AloneStarts(cls: Classes, before: seq<Text>)
    ensures Alone(cls, before) ==> StartsWord(cls, before)
  {
  }

  // ---- Counting digits

  function DigitCount(cls: Classes, chars: seq<Text>): nat {
    if chars == [] then 0 else (if cls.digit(chars[0]) then 1 else 0) + DigitCount(cls, chars[1..])
  }

  lemma {:induction false} DigitCountConcat(cls: Classes, a: seq<Text>, b: seq<Text>)
    ensures DigitCount(cls, a + b) == DigitCount(cls, a) + DigitCount(cls, b)
  {
    if a == [] {
      assert a + b == b;
    } else {
      assert (a + b)[1..] == a[1..] + b;
      DigitCountConcat(cls, a[1..], b);
    }
  }

  lemma {:induction false} DigitCountBounds(cls: Classes, chars: seq<Text>)
    ensures DigitCount(cls, chars) <= |chars|
    ensures (forall c :: c in chars ==> !cls.digit(c)) ==> DigitCount(cls, chars) == 0
  {
    if chars != [] {
      DigitCountBounds(cls, chars[1..]);
    }
  }

  lemma {:induction false} DigitsAreCounted(cls: Classes, after: seq<Text>, k: nat)
    requires DigitsEnd(cls, after, k) > 0
    ensures k <= DigitCount(cls, after[..DigitsEnd(cls, after, k)])
  {
    var r, p := DigitsEnd(cls, after, k), DigitsEnd(cls, after, k - 1);
    var last := after[r - 1..r];
    assert after[..r] == after[..r - 1] + last;
    DigitCountConcat(cls, after[..r - 1], last);
    assert DigitCount(cls, last) == 1 by { assert last[1..] == []; }
    if k > 1 {
      DigitsAreCounted(cls, after, k - 1);
      assert after[..r - 1] == after[..p] + after[p..r - 1];
      DigitCountConcat(cls, after[..p], after[p..r - 1]);
    }
  }

  /** A separator behind the thirteenth digit ends the match, whatever comes then. */
  lemma StopsAtThirteen(cls: Classes, after: seq<Text>)
    requires GoodClasses(cls)
    requires var r := DigitsEnd(cls, after, 13);
             0 < r < |after| && IsSeparator(after[r])
    ensures CardLength(cls, after) == DigitsEnd(cls, after, 13)
  {
    assert !cls.word([0x20]) && !cls.word([0x2D]);
  }

  /** Fewer than thirteen digits are no card. */
  lemma FewDigits(cls: Classes, after: seq<Text>)
    requires DigitCount(cls, after) < 13
    ensures CardLength(cls, after) == 0
  {
    var k := CardDigits(cls, after);
    hide DigitCount, CardDigits;
    if k > 0 {
      DigitsAreCounted(cls, after, k);
      var r := DigitsEnd(cls, after, k);
      assert after == after[..r] + after[r..];
      DigitCountConcat(cls, after[..r], after[r..]);
    }
  }
}
