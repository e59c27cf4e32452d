/** Strings as the program sees them: byte sequences in UTF-8, with the character
    boundaries of `str::is_char_boundary`. Well-formedness is the grammar of
    section 4 of RFC 3629. */
module Utf8 {

  type byte = b: int | 0 <= b < 256

  type Text = seq<byte>

  function Concat(parts: seq<Text>): Text {
    if parts == [] then [] else parts[0] + Concat(parts[1..])
  }

  predicate IsContinuation(b: byte) {
    0x80 <= b < 0xC0
  }

  predicate IsBoundary(s: Text, i: nat) {
    i == 0 || i == |s| || (i < |s| && !IsContinuation(s[i]))
  }

  predicate SecondOfThree(b0: byte, b1: byte) {
    if b0 == 0xE0 then 0xA0 <= b1 < 0xC0
    else if b0 == 0xED then 0x80 <= b1 < 0xA0
    else IsContinuation(b1)
  }

  predicate SecondOfFour(b0: byte, b1: byte) {
    if b0 == 0xF0 then 0x90 <= b1 < 0xC0
    else if b0 == 0xF4 then 0x80 <= b1 < 0x90
    else IsContinuation(b1)
  }

  /** Length of the character at the front of `s`; 0 when there is none. */
  function CharLen(s: Text): (n: nat)
    ensures n <= |s| && n <= 4
  {
    if |s| >= 1 && s[0] <= 0x7F then 1
    else if |s| >= 2 && 0xC2 <= s[0] <= 0xDF && IsContinuation(s[1]) then 2
    else if |s| >= 3 && 0xE0 <= s[0] <= 0xEF && SecondOfThree(s[0], s[1]) && IsContinuation(s[2]) then 3
    else if |s| >= 4 && 0xF0 <= s[0] <= 0xF4 && SecondOfFour(s[0], s[1])
            && IsContinuation(s[2]) && IsContinuation(s[3]) then 4
    else 0
  }

  predicate WellFormed(s: Text)
    decreases |s|
  {
    s == [] || (CharLen(s) > 0 && WellFormed(s[CharLen(s)..]))
  }

  lemma {:induction false} WellFormedConcat(a: Text, b: Text)
    requires WellFormed(a) && WellFormed(b)
    ensures WellFormed(a + b)
    decreases |a|
  {
    if a == [] {
      assert a + b == b;
    } else {
      var n := CharLen(a);
      assert (a + b)[n..] == a[n..] + b;
      assert CharLen(a + b) == n;
      WellFormedConcat(a[n..], b);
    }
  }

  lemma WellFormedNothing()
    ensures WellFormed([])
  {
  }

  lemma FirstChar(s: Text, i: nat)
    requires WellFormed(s) && 0 < i <= |s| && IsBoundary(s, i)
    ensures var n := CharLen(s);
            && 0 < n <= i && CharLen(s[..i]) == n && WellFormed(s[n..]) && IsBoundary(s[n..], i - n)
  {
    var n := CharLen(s);
    assert n > 0 && WellFormed(s[n..]);
    hide WellFormed;
    assert i >= n;
  }

  lemma AfterChar(s: Text)
    requires CharLen(s) > 0 && WellFormed(s[CharLen(s)..])
    ensures WellFormed(s)
  {
  }

  /** A well-formed text cut at a boundary leaves two well-formed texts. */
  lemma {:induction false} WellFormedSplit(s: Text, i: nat)
    requires WellFormed(s) && i <= |s| && IsBoundary(s, i)
    ensures WellFormed(s[..i]) && WellFormed(s[i..])
    decreases |s|
  {
    hide *;
    if i == 0 {
      assert s[..0] == [] && s[0..] == s;
      WellFormedNothing();
    } else {
      var n := CharLen(s);
      FirstChar(s, i);
      WellFormedSplit(s[n..], i - n);
      assert s[n..][i - n..] == s[i..];
      assert s[n..][..i - n] == s[..i][n..];
      AfterChar(s[..i]);
    }
  }

  lemma StartIsBoundary(text: Text)
    ensures IsBoundary(text, 0)
  {
  }

  lemma EndIsBoundary(text: Text)
    ensures IsBoundary(text, |text|)
  {
  }

  lemma BoundaryBefore(text: Text, i: nat)
    requires i <= |text| && WellFormed(text[i..])
    ensures IsBoundary(text, i)
  {
    if i < |text| {
      assert CharLen(text[i..]) > 0 && text[i..][0] == text[i];
    }
  }

  predicate Ascii(s: Text) {
    forall i :: 0 <= i < |s| ==> s[i] < 0x80
  }

  lemma {:induction false} AsciiWellFormed(s: Text)
    requires Ascii(s)
    ensures WellFormed(s)
  {
    if s != [] {
      AsciiWellFormed(s[1..]);
    }
  }

  /** The byte after an ASCII byte starts a character, and so does the byte itself. */
  lemma {:induction false} AsciiIsAligned(s: Text, i: nat)
    requires WellFormed(s) && i < |s| && s[i] < 0x80
    ensures IsBoundary(s, i) && IsBoundary(s, i + 1)
    decreases |s|
  {
    var n := CharLen(s);
    if i < n {
      assert i == 0 && n == 1;
      if 1 < |s| {
        assert CharLen(s[1..]) > 0;
      }
    } else {
      AsciiIsAligned(s[n..], i - n);
      assert s[n..][i - n] == s[i];
    }
  }

  /** The greatest boundary not above `t`: the loop `while !is_char_boundary(t) { t -= 1 }`. */
  function Snap(s: Text, t: nat): (r: nat)
    requires t <= |s|
    ensures r <= t && IsBoundary(s, r)
    ensures forall k :: r < k <= t ==> !IsBoundary(s, k)
  {
    if IsBoundary(s, t) then t else Snap(s, t - 1)
  }

  lemma SnapAligned(s: Text, i: nat)
    requires i <= |s| && IsBoundary(s, i)
    ensures Snap(s, i) == i
  {
  }

  /** A character has at most four bytes, so snapping moves back by at most three. */
  lemma {:induction false} SnapIsClose(s: Text, t: nat)
    requires WellFormed(s) && t <= |s|
    ensures t <= Snap(s, t) + 3
    decreases |s|
  {
    var n := CharLen(s);
    if s == [] || t < n {
    } else {
      SnapIsClose(s[n..], t - n);
      var r := Snap(s[n..], t - n);
      assert IsBoundary(s, n + r) by {
        if r == 0 && n < |s| {
          assert CharLen(s[n..]) > 0;
        }
      }
    }
  }

  /** Boundaries of a slice taken at boundaries are the boundaries of the whole. */
  lemma SliceBoundary(s: Text, c: nat, n: nat, j: nat)
    requires c + j <= n <= |s|
    requires IsBoundary(s, c) && IsBoundary(s, n)
    ensures IsBoundary(s[c..n], j) <==> IsBoundary(s, c + j)
  {
  }

  lemma SnapAscends(s: Text, a: nat, b: nat)
    requires a <= b <= |s|
    ensures Snap(s, a) <= Snap(s, b)
  {
  }

  lemma SnapInSlice(s: Text, c: nat, n: nat, t: nat)
    requires c <= n <= |s| && t <= n - c && IsBoundary(s, c) && IsBoundary(s, n)
    ensures c + Snap(s[c..n], t) == Snap(s, c + t)
  {
    var r := Snap(s[c..n], t);
    SliceBoundary(s, c, n, r);
    forall k | c + r < k <= c + t ensures !IsBoundary(s, k) {
      SliceBoundary(s, c, n, k - c);
    }
  }

  lemma WellFormedSlice(s: Text, c: nat, n: nat)
    requires WellFormed(s) && c <= n <= |s| && IsBoundary(s, c) && IsBoundary(s, n)
    ensures WellFormed(s[c..n])
  {
    WellFormedSplit(s, n);
    SliceBoundary(s, 0, n, c);
    assert s[0..n] == s[..n];
    WellFormedSplit(s[..n], c);
    assert s[..n][c..] == s[c..n];
  }
}
