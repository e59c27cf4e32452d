/** The tail a release holds back, in characters: it is documented as 64 of them and
    counted in bytes. */
module HeldTail {
  import opened Utf8
  import opened Characters
  import opened Findings
  import opened Splicing
  import opened Detection
  import opened Scanning
  import opened Releasing

  predicate AsciiFrom(text: Text, from: nat) {
    from <= |text| && forall i :: from <= i < |text| ==> text[i] < 0x80
  }

  /** A text with as many characters as bytes is ASCII. */
  lemma {:induction false} FullOfAscii(text: Text)
    requires WellFormed(text) && |Chars(text)| == |text|
    ensures AsciiFrom(text, 0)
    decreases |text|
  {
    if text != [] {
      var n := CharLen(text);
      FirstOfChars(text);
      CharsGiveText(text[n..]);
      assert n == 1 && text[0] < 0x80;
      hide CharLen, WellFormed, Chars;
      FullOfAscii(text[1..]);
      assert text == [text[0]] + text[1..];
    }
  }

  lemma AsciiTail(text: Text, k: nat, n: nat)
    requires k + n <= |text|
    ensures AsciiFrom(text[k..], |text| - k - n) <==> AsciiFrom(text, |text| - n)
  {
    var rest := text[k..];
    assert forall i :: |text| - n <= i < |text| ==> text[i] == rest[i - k];
    assert forall i :: |rest| - n <= i < |rest| ==> text[i + k] == rest[i];
  }

  lemma AsciiBoundary(text: Text, from: nat)
    requires WellFormed(text) && AsciiFrom(text, from)
    ensures IsBoundary(text, from)
  {
    if from < |text| {
      AsciiIsAligned(text, from);
    }
  }

  lemma AsciiCounts(text: Text)
    requires AsciiFrom(text, 0)
    ensures |Chars(text)| == |text|
  {
    AsciiChars(text);
  }

  /** A text whose first character reaches into the last `n` bytes or up to them. */
  lemma CharsOfTail(text: Text, n: nat)
    requires WellFormed(text) && n < |text| <= n + CharLen(text)
    ensures |Chars(text)| <= n + 1
    ensures |Chars(text)| == n + 1 <==> AsciiFrom(text, |text| - n)
  {
    hide *;
    var w, from := CharLen(text), |text| - n;
    FirstOfChars(text);
    var rest := text[w..];
    CharsGiveText(rest);
    if |Chars(text)| == n + 1 {
      FullOfAscii(rest);
      AsciiTail(text, w, n);
    } else if AsciiFrom(text, from) {
      AsciiBoundary(text, from);
      FirstChar(text, from);
      AsciiTail(text, w, n);
      AsciiCounts(rest);
    }
  }

  /** What is held back starts with a character that reaches the last 63 bytes. */
  lemma HeldStarts(text: Text, t: nat)
    requires WellFormed(text) && t < |text|
    ensures var k := Snap(text, t);
            && WellFormed(text[k..]) && |text[k..]| - CharLen(text[k..]) < |text| - t
  {
    hide *;
    var k := Snap(text, t);
    WellFormedSplit(text, k);
    var rest := text[k..];
    FirstLength(rest);
    var n := CharLen(rest);
    assert rest[n..] == text[k + n..];
    BoundaryBefore(text, k + n);
    SnapIsLast(text, t, k + n);
  }

  lemma SnapIsLast(text: Text, t: nat, k: nat)
    requires t <= |text| && Snap(text, t) < k <= |text| && IsBoundary(text, k)
    ensures t < k
  {
  }

  lemma NoneOverNone(t: nat)
    ensures NoneOver([], t)
  {
  }

  lemma TailSize()
    ensures HOLDBACK == 64
  {
  }

  lemma ScannableIs(ds: seq<Detector>, text: Text)
    requires Scannable(ds, text)
    ensures WellFormed(text)
  {
  }

  lemma CutPointIs(text: Text, fs: seq<Finding>)
    requires HOLDBACK <= |text|
    ensures CutPoint(text, fs, false) == Snap(text, PullBack(fs, |text| - HOLDBACK))
  {
  }

  lemma NotPulled(fs: seq<Finding>, t: nat)
    requires Ordered(fs) && NoneOver(fs, t)
    ensures PullBack(fs, t) == t
  {
    PullBackSafe(fs, t);
  }

  lemma HeldIs(cfg: Config, text: Text)
    requires Scannable(cfg.ds, text) && HOLDBACK <= |text|
    requires NoneOver(Found(cfg, text), |text| - HOLDBACK)
    ensures ReleaseOf(cfg, text, false).rest == text[Snap(text, |text| - HOLDBACK)..]
  {
    hide *;
    FoundGood(cfg, text);
    NotPulled(Found(cfg, text), |text| - HOLDBACK);
    CutPointIs(text, Found(cfg, text));
    CutOfFound(cfg, text, false);
    ReleaseParts(cfg, text, false);
  }

  /** Unless a finding reaches over its start, the tail has at most 64 characters, and has
      64 exactly when the last 63 bytes are ASCII. */
  lemma TailCharacters(cfg: Config, text: Text)
    requires Scannable(cfg.ds, text) && HOLDBACK <= |text|
    requires NoneOver(Found(cfg, text), |text| - HOLDBACK)
    ensures var held := |Chars(ReleaseOf(cfg, text, false).rest)|;
            held <= HOLDBACK && (held == HOLDBACK <==> AsciiFrom(text, |text| - 63))
  {
    hide *;
    TailSize();
    ScannableIs(cfg.ds, text);
    HeldIs(cfg, text);
    TailOf(text);
  }

  lemma TailOf(text: Text)
    requires WellFormed(text) && 64 <= |text|
    ensures var held := |Chars(text[Snap(text, |text| - 64)..])|;
            held <= 64 && (held == 64 <==> AsciiFrom(text, |text| - 63))
  {
    hide *;
    var k := Snap(text, |text| - 64);
    HeldStarts(text, |text| - 64);
    CharsOfTail(text[k..], 63);
    AsciiTail(text, k, 63);
  }

  // ---- Half of it

  /** `n` times the letter e with an acute accent, two bytes each. */
  function Accents(n: nat): (r: Text)
    ensures |r| == 2 * n
  {
    if n == 0 then [] else [0xC3, 0xA9] + Accents(n - 1)
  }

  lemma {:induction false} AccentsSplit(n: nat, k: nat)
    requires k <= n
    ensures WellFormed(Accents(n)) && |Chars(Accents(n))| == n
    ensures Accents(n)[2 * (n - k)..] == Accents(k) && IsBoundary(Accents(n), 2 * (n - k))
    decreases n
  {
    if n == 0 {
      CharsOfNothing();
    } else {
      var s := Accents(n);
      assert s[2..] == Accents(n - 1) && CharLen(s) == 2;
      AccentsSplit(n - 1, if k < n then k else n - 1);
      if k < n {
        assert s[2..][2 * (n - 1 - k)..] == s[2 * (n - k)..];
      }
    }
  }

  /** Of a long text of two-byte characters, 32 characters are held back. */
  lemma AccentsHeld(cfg: Config, n: nat)
    requires Scannable(cfg.ds, Accents(n)) && 32 <= n && Found(cfg, Accents(n)) == []
    ensures var rest := ReleaseOf(cfg, Accents(n), false).rest;
            rest == Accents(32) && |Chars(rest)| == 32
  {
    hide *;
    TailSize();
    NoneOverNone(2 * n - HOLDBACK);
    AccentsSplit(n, 32);
    AccentsSplit(32, 32);
    HeldIs(cfg, Accents(n));
    SnapAligned(Accents(n), 2 * (n - 32));
  }
}
