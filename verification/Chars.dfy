/** The characters of a text, as `str::chars` gives them, each as its own bytes. */
module Characters {
  import opened Utf8

  function Chars(text: Text): seq<Text>
    decreases |text|
  {
    if CharLen(text) == 0 then [] else [text[..CharLen(text)]] + Chars(text[CharLen(text)..])
  }

  lemma FirstOfChars(text: Text)
    requires WellFormed(text) && text != []
    ensures var n := CharLen(text);
            && 0 < n <= |text| && n <= 4 && WellFormed(text[n..]) && Chars(text) == [text[..n]] + Chars(text[n..])
  {
  }

  lemma CharsOfNothing()
    ensures Chars([]) == [] && Concat([]) == []
  {
  }

  lemma FirstOfBoth(a: Text, b: Text)
    requires CharLen(a) > 0
    ensures CharLen(a + b) == CharLen(a) && (a + b)[..CharLen(a)] == a[..CharLen(a)]
    ensures (a + b)[CharLen(a)..] == a[CharLen(a)..] + b
  {
    var s := a + b;
    assert forall i :: 0 <= i < |a| ==> s[i] == a[i];
  }

  lemma {:induction false} CharsConcat(a: Text, b: Text)
    requires WellFormed(a) && WellFormed(b)
    ensures Chars(a + b) == Chars(a) + Chars(b)
    decreases |a|
  {
    hide *;
    if a == [] {
      CharsOfNothing();
      assert a + b == b && [] + Chars(b) == Chars(b);
    } else {
      var n := CharLen(a);
      FirstOfChars(a);
      FirstOfBoth(a, b);
      WellFormedConcat(a, b);
      FirstOfChars(a + b);
      CharsConcat(a[n..], b);
      assert [a[..n]] + (Chars(a[n..]) + Chars(b)) == [a[..n]] + Chars(a[n..]) + Chars(b);
    }
  }

  lemma ConcatFirst(c: Text, parts: seq<Text>)
    ensures Concat([c] + parts) == c + Concat(parts)
  {
    assert ([c] + parts)[1..] == parts;
  }

  /** The characters give the text back, and none has more than four bytes. */
  lemma {:induction false} CharsGiveText(text: Text)
    requires WellFormed(text)
    ensures Concat(Chars(text)) == text && |Chars(text)| <= |text| <= 4 * |Chars(text)|
    decreases |text|
  {
    hide *;
    CharsOfNothing();
    if text != [] {
      var n := CharLen(text);
      FirstOfChars(text);
      CharsGiveText(text[n..]);
      ConcatFirst(text[..n], Chars(text[n..]));
      assert text[..n] + text[n..] == text;
    }
  }

  /** Bytes of the first `k` characters. */
  function Width(text: Text, k: nat): (w: nat)
    requires k <= |Chars(text)|
    ensures w <= |text|
    decreases |text|
  {
    if k == 0 then 0 else CharLen(text) + Width(text[CharLen(text)..], k - 1)
  }

  lemma WidthStep(text: Text, k: nat)
    requires WellFormed(text) && 0 < k <= |Chars(text)|
    ensures text != [] && k - 1 <= |Chars(text[CharLen(text)..])|
    ensures Width(text, k) == CharLen(text) + Width(text[CharLen(text)..], k - 1)
  {
  }

  lemma WidthZero(text: Text)
    ensures Width(text, 0) == 0
  {
  }

  /** One character in front of a text. */
  lemma CharInFront(c: Text, front: Text)
    requires CharLen(c) == |c| && c != [] && WellFormed(front)
    ensures WellFormed(c + front) && Chars(c + front) == [c] + Chars(front)
  {
    hide CharLen, WellFormed, Chars;
    FirstOfBoth(c, front);
    assert c[..|c|] == c && c[|c|..] + front == front;
    AfterChar(c + front);
    FirstOfChars(c + front);
  }

  lemma NothingSplits(text: Text)
    requires WellFormed(text)
    ensures Width(text, 0) == 0 && IsBoundary(text, 0) && WellFormed(text[..0]) && WellFormed(text[0..])
    ensures Chars(text) == Chars(text[..0]) + Chars(text[0..]) && Chars(text[..0]) == []
  {
    assert text[..0] == [] && text[0..] == text;
    hide *;
    WidthZero(text);
    CharsOfNothing();
    WellFormedNothing();
    StartIsBoundary(text);
    assert [] + Chars(text) == Chars(text);
  }

  /** One more character in front. */
  lemma SplitMore(c: Text, a: Text, b: Text)
    requires CharLen(c) == |c| && c != [] && WellFormed(a) && WellFormed(b) && Chars(a + b) == Chars(a) + Chars(b)
    ensures WellFormed(c + a) && Chars(c + a) == [c] + Chars(a) && Chars(c + (a + b)) == Chars(c + a) + Chars(b)
  {
    hide *;
    WellFormedConcat(a, b);
    CharInFront(c, a);
    CharInFront(c, a + b);
    assert [c] + (Chars(a) + Chars(b)) == [c] + Chars(a) + Chars(b);
  }

  lemma TwoParts(text: Text, n: nat)
    requires n <= |text|
    ensures text[..n] + text[n..] == text
  {
  }

  /** The first character and the rest. */
  lemma FirstSplits(text: Text) returns (c: Text, rest: Text)
    requires WellFormed(text) && text != []
    ensures text == c + rest && CharLen(text) == |c| && text[|c|..] == rest
    ensures 0 < |c| <= 4 && CharLen(c) == |c| && WellFormed(rest)
  {
    var n := CharLen(text);
    c, rest := text[..n], text[n..];
    hide *;
    FirstLength(text);
    TwoParts(text, n);
    BoundaryBefore(text, n);
    FirstChar(text, n);
  }

  lemma FirstLength(text: Text)
    requires WellFormed(text) && text != []
    ensures 0 < CharLen(text) <= |text| && CharLen(text) <= 4 && WellFormed(text[CharLen(text)..])
  {
  }

  lemma FrontOf(c: Text, rest: Text, w: nat)
    requires w <= |rest|
    ensures (c + rest)[|c| + w..] == rest[w..] && (c + rest)[..|c| + w] == c + rest[..w] && rest[..w] + rest[w..] == rest
  {
  }

  lemma SplitFront(c: Text, rest: Text, w: nat)
    requires CharLen(c) == |c| && c != [] && w <= |rest| && WellFormed(rest[..w]) && WellFormed(rest[w..])
    requires Chars(rest) == Chars(rest[..w]) + Chars(rest[w..])
    ensures var text, v := c + rest, |c| + w;
            && IsBoundary(text, v) && WellFormed(text[..v]) && WellFormed(text[v..])
            && Chars(text) == Chars(text[..v]) + Chars(text[v..]) && |Chars(text[..v])| == |Chars(rest[..w])| + 1
  {
    hide *;
    var a, b := rest[..w], rest[w..];
    FrontOf(c, rest, w);
    SplitMore(c, a, b);
    BoundaryBefore(c + rest, |c| + w);
  }

  /** Cutting after `k` characters splits the characters there. */
  lemma {:induction false} WidthSplits(text: Text, k: nat)
    requires WellFormed(text) && k <= |Chars(text)|
    ensures var w := Width(text, k);
            && k <= w <= 4 * k && IsBoundary(text, w)
            && WellFormed(text[..w]) && WellFormed(text[w..])
            && Chars(text) == Chars(text[..w]) + Chars(text[w..]) && |Chars(text[..w])| == k
    decreases k
  {
    hide *;
    if k == 0 {
      NothingSplits(text);
    } else {
      WidthStep(text, k);
      var c, rest := FirstSplits(text);
      WidthSplits(rest, k - 1);
      SplitFront(c, rest, Width(rest, k - 1));
    }
  }

  /** Every character boundary comes after some number of characters. */
  lemma BoundaryWidth(text: Text, b: nat)
    requires WellFormed(text) && b <= |text| && IsBoundary(text, b)
    ensures var k := |Chars(text[..b])|;
            && k <= |Chars(text)| && Width(text, k) == b
            && Chars(text) == Chars(text[..b]) + Chars(text[b..])
  {
    hide *;
    WellFormedSplit(text, b);
    CharsConcat(text[..b], text[b..]);
    assert text[..b] + text[b..] == text;
    var k := |Chars(text[..b])|;
    WidthSplits(text, k);
    var w := Width(text, k);
    SameFirst(Chars(text[..b]), Chars(text[b..]), Chars(text[..w]), Chars(text[w..]));
    CharsGiveText(text[..b]);
    CharsGiveText(text[..w]);
  }

  lemma SameFirst(a: seq<Text>, b: seq<Text>, c: seq<Text>, d: seq<Text>)
    requires a + b == c + d && |a| == |c|
    ensures a == c
  {
    assert (a + b)[..|a|] == a && (c + d)[..|c|] == c;
  }

  /** The width is a matter of the characters alone. */
  lemma WidthIs(text: Text, k: nat)
    requires WellFormed(text) && k <= |Chars(text)|
    ensures Width(text, k) == |Concat(Chars(text)[..k])|
  {
    hide *;
    WidthSplits(text, k);
    var w := Width(text, k);
    CharsGiveText(text[..w]);
    TakeFirst(Chars(text[..w]), Chars(text[w..]));
  }

  lemma TakeFirst(a: seq<Text>, b: seq<Text>)
    ensures (a + b)[..|a|] == a
  {
  }

  lemma {:induction false} AsciiChars(t: Text)
    requires forall i :: 0 <= i < |t| ==> t[i] < 0x80
    ensures WellFormed(t) && |Chars(t)| == |t| && forall i :: 0 <= i < |t| ==> Chars(t)[i] == [t[i]]
  {
    if t == [] {
      WellFormedNothing();
      CharsOfNothing();
    } else {
      AsciiChars(t[1..]);
      AfterChar(t);
      hide WellFormed;
      FirstOfChars(t);
      assert t[..1] == [t[0]];
    }
  }

  lemma {:induction false} WidthAscends(text: Text, j: nat, k: nat)
    requires WellFormed(text) && j <= k <= |Chars(text)|
    ensures Width(text, j) <= Width(text, k)
    decreases j
  {
    hide *;
    if j == 0 {
      WidthZero(text);
    } else {
      WidthStep(text, j);
      WidthStep(text, k);
      FirstOfChars(text);
      WidthAscends(text[CharLen(text)..], j - 1, k - 1);
    }
  }

  lemma AsciiSlice(text: Text, c: nat, n: nat)
    requires Ascii(text) && c <= n <= |text|
    ensures Ascii(text[c..n]) && WellFormed(text[c..n])
  {
    AsciiChars(text[c..n]);
  }

  lemma AsciiSuffix(text: Text, c: nat)
    requires Ascii(text) && c <= |text|
    ensures Ascii(text[c..]) && WellFormed(text[c..])
  {
    AsciiChars(text[c..]);
  }

  lemma AsciiBoundary(text: Text, i: nat)
    requires Ascii(text) && i <= |text|
    ensures IsBoundary(text, i)
  {
  }
}
