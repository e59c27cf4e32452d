/** Splitting a document into overlapping chunks for embedding: `chunk_text`. */
module Chunking {

  /** The characters with the Unicode property White_Space. */
  predicate IsWhitespace(c: char) {
    var n := c as int;
    || 9 <= n <= 13 || n == 0x20 || n == 0x85 || n == 0xA0 || n == 0x1680
    || 0x2000 <= n <= 0x200A || n == 0x2028 || n == 0x2029 || n == 0x202F || n == 0x205F || n == 0x3000
  }

  /** Where the text starts after leading whitespace. */
  function SkipStart(s: string, lo: nat, hi: nat): (r: nat)
    requires lo <= hi <= |s|
    ensures lo <= r <= hi && (forall k :: lo <= k < r ==> IsWhitespace(s[k])) && (r < hi ==> !IsWhitespace(s[r]))
    decreases hi - lo
  {
    if lo == hi || !IsWhitespace(s[lo]) then lo else SkipStart(s, lo + 1, hi)
  }

  function SkipEnd(s: string, lo: nat, hi: nat): (r: nat)
    requires lo <= hi <= |s|
    ensures lo <= r <= hi && (forall k :: r <= k < hi ==> IsWhitespace(s[k])) && (lo < r ==> !IsWhitespace(s[r - 1]))
    decreases hi
  {
    if lo == hi || !IsWhitespace(s[hi - 1]) then hi else SkipEnd(s, lo, hi - 1)
  }

  /** A stretch of the text, by position. */
  datatype Window = Window(start: nat, end: nat)

  predicate InText(s: string, w: Window) {
    w.start <= w.end <= |s|
  }

  function Slice(s: string, w: Window): string
    requires InText(s, w)
  {
    s[w.start..w.end]
  }

  /** The window without the whitespace at its ends. */
  function Trimmed(s: string, w: Window): (r: Window)
    requires InText(s, w)
    ensures InText(s, r) && w.start <= r.start && r.end <= w.end
  {
    var lo := SkipStart(s, w.start, w.end);
    Window(lo, SkipEnd(s, lo, w.end))
  }

  function Trim(s: string): string {
    Slice(s, Trimmed(s, Window(0, |s|)))
  }

  /** Exactly the whitespace at both ends goes. */
  lemma TrimmedKeeps(s: string, w: Window, k: nat)
    requires InText(s, w) && w.start <= k < w.end && !IsWhitespace(s[k])
    ensures Trimmed(s, w).start <= k < Trimmed(s, w).end
  {
  }

  // ---- One window

  /** `rposition` of whitespace; -1 when there is none. */
  function LastWhitespace(s: string): (r: int)
    ensures -1 <= r < |s| && (r >= 0 ==> IsWhitespace(s[r])) && forall k :: r < k < |s| ==> !IsWhitespace(s[k])
  {
    if s == [] then -1
    else if IsWhitespace(s[|s| - 1]) then |s| - 1
    else LastWhitespace(s[..|s| - 1])
  }

  function Min(a: nat, b: nat): nat {
    if a < b then a else b
  }

  function Max(a: nat, b: nat): nat {
    if a < b then b else a
  }

  function WindowEnd(s: string, start: nat, size: nat): nat
    requires start < |s|
  {
    var hard := Min(start + size, |s|);
    if hard < |s| then
      var ws := LastWhitespace(s[start..hard]);
      if ws > 0 then start + ws else hard
    else hard
  }

  function NextStart(start: nat, end: nat, overlap: nat): nat {
    Max(if end < overlap then 0 else end - overlap, start + 1)
  }

  lemma NextInText(start: nat, end: nat, overlap: nat)
    requires start < end
    ensures start < NextStart(start, end, overlap) <= end
  {
  }

  lemma EndInReach(s: string, start: nat, size: nat)
    requires start < |s| && size >= 1
    ensures start < WindowEnd(s, start, size) <= |s| && WindowEnd(s, start, size) <= start + size
  {
  }

  lemma LastInSlice(s: string, lo: nat, hi: nat)
    requires lo <= hi <= |s|
    ensures var r := LastWhitespace(s[lo..hi]);
            && (r >= 0 ==> IsWhitespace(s[lo + r]))
            && forall k :: lo + r < k < hi ==> !IsWhitespace(s[k])
  {
    var r := LastWhitespace(s[lo..hi]);
    forall k | lo + r < k < hi ensures !IsWhitespace(s[k]) {
      assert s[lo..hi][k - lo] == s[k];
    }
  }

  /** Where a window from `start` should end: with the text if that is in reach, else at
      the last whitespace in reach that is not its first character, else as far as it goes. */
  predicate IsEnd(s: string, start: nat, size: nat, end: nat) {
    && start < end <= |s| && end <= start + size
    && (|s| <= start + size ==> end == |s|)
    && (start + size < |s| ==>
          && (end < start + size ==> IsWhitespace(s[end]))
          && forall k :: start < k < start + size && k != end && (end < k || end == start + size) ==> !IsWhitespace(s[k]))
  }

  lemma EndsAtWord(s: string, start: nat, size: nat, end: nat)
    requires start < |s| && size >= 1
    ensures IsEnd(s, start, size, end) <==> end == WindowEnd(s, start, size)
  {
    LastInSlice(s, start, Min(start + size, |s|));
  }

  /** Between `p - 1` and `p` a word is cut. */
  predicate CutsWord(s: string, p: nat) {
    0 < p < |s| && !IsWhitespace(s[p - 1]) && !IsWhitespace(s[p])
  }

  /** The window from `start` is followed by text and has no whitespace behind its first
      character, the character after it included. */
  predicate NoBreak(s: string, start: nat, size: nat) {
    && start + size < |s| && (forall k :: start < k <= start + size ==> !IsWhitespace(s[k]))
    && (size > 1 || !IsWhitespace(s[start]))
  }

  /** A window's end cuts a word exactly then. */
  lemma EndCutsIff(s: string, start: nat, size: nat)
    requires start < |s| && size >= 1
    ensures CutsWord(s, WindowEnd(s, start, size)) <==> NoBreak(s, start, size)
  {
    var end := WindowEnd(s, start, size);
    EndsAtWord(s, start, size, end);
    hide WindowEnd, IsWhitespace;
    if start + size < |s| && end == start + size && size > 1 {
      assert !IsWhitespace(s[end - 1]);
    }
  }

  predicate InWord(s: string, lo: nat, length: nat) {
    lo + length <= |s| && forall k :: lo <= k < lo + length ==> !IsWhitespace(s[k])
  }

  /** So ends cut no word when every word is shorter than the window. */
  lemma ShortWordsKept(s: string, start: nat, size: nat)
    requires start < |s| && size >= 1 && CutsWord(s, WindowEnd(s, start, size))
    ensures exists lo: nat :: InWord(s, lo, size)
  {
    EndCutsIff(s, start, size);
    hide WindowEnd, IsWhitespace;
    assert InWord(s, start + 1, size);
  }

  /** The next window's start cuts a word exactly when there is no whitespace at it and
      before it: `overlap` characters before the last end, or right behind the last start
      when that is further on. Without overlap it cuts where that end does. */
  lemma StartCutsIff(s: string, start: nat, size: nat, overlap: nat)
    requires start < |s| && size >= 1 && WindowEnd(s, start, size) < |s|
    ensures var end := WindowEnd(s, start, size);
            && (start + overlap < end ==>
                  (CutsWord(s, NextStart(start, end, overlap))
                   <==> !IsWhitespace(s[end - overlap - 1]) && !IsWhitespace(s[end - overlap])))
            && (end <= start + overlap ==>
                  (CutsWord(s, NextStart(start, end, overlap)) <==> !IsWhitespace(s[start]) && !IsWhitespace(s[start + 1])))
            && (overlap == 0 ==> (CutsWord(s, NextStart(start, end, overlap)) <==> CutsWord(s, end)))
  {
    EndInReach(s, start, size);
    hide WindowEnd, IsWhitespace;
  }

  /** A later start inside the window gives a later or equal end. */
  lemma EndsAscend(s: string, start: nat, next: nat, size: nat)
    requires start < |s| && size >= 1 && start < next <= WindowEnd(s, start, size) < |s|
    ensures WindowEnd(s, start, size) <= WindowEnd(s, next, size)
  {
    EndInReach(s, start, size);
    EndInReach(s, next, size);
    LastInSlice(s, start, Min(start + size, |s|));
    LastInSlice(s, next, Min(next + size, |s|));
  }

  // ---- All windows

  function Windows(s: string, start: nat, size: nat, overlap: nat): seq<Window>
    requires size >= 1
    decreases |s| - start
  {
    if start >= |s| then []
    else
      var end := WindowEnd(s, start, size);
      [Window(start, end)] + (if end >= |s| then [] else Windows(s, NextStart(start, end, overlap), size, overlap))
  }

  lemma FirstWindow(s: string, start: nat, size: nat, overlap: nat)
    requires start < |s| && size >= 1
    ensures var end := WindowEnd(s, start, size);
            && start < end <= |s|
            && Windows(s, start, size, overlap)
               == [Window(start, end)] + if end >= |s| then [] else Windows(s, NextStart(start, end, overlap), size, overlap)
  {
    EndInReach(s, start, size);
  }

  /** Consecutive windows: the start moves on but not past the end before, and the end
      never moves back; without a new end, the start comes within the overlap of it. */
  predicate Follows(a: Window, b: Window, overlap: nat) {
    && a.start < b.start <= a.end <= b.end
    && a.end <= b.start + overlap
  }

  predicate Chained(s: string, ws: seq<Window>, start: nat, size: nat, overlap: nat) {
    && ws != [] && ws[0].start == start && ws[|ws| - 1].end == |s|
    && (forall i :: 0 <= i < |ws| ==> ws[i].start < ws[i].end <= |s| && ws[i].end <= ws[i].start + size)
    && forall i :: 0 <= i < |ws| - 1 ==> Follows(ws[i], ws[i + 1], overlap)
  }

  lemma ChainedLast(s: string, start: nat, size: nat, overlap: nat)
    requires start < |s| <= start + size
    ensures Chained(s, [Window(start, |s|)], start, size, overlap)
  {
  }

  lemma ChainedMore(s: string, w: Window, rest: seq<Window>, next: nat, size: nat, overlap: nat)
    requires Chained(s, rest, next, size, overlap) && w.start < w.end <= |s| && w.end <= w.start + size
    requires Follows(w, rest[0], overlap)
    ensures Chained(s, [w] + rest, w.start, size, overlap)
  {
    var ws := [w] + rest;
    forall i | 0 <= i < |ws| - 1 ensures Follows(ws[i], ws[i + 1], overlap) {
      if i > 0 {
        assert Follows(rest[i - 1], rest[i - 1 + 1], overlap);
      }
    }
  }

  lemma NextFollows(start: nat, end: nat, overlap: nat, end2: nat)
    requires start < end <= end2
    ensures Follows(Window(start, end), Window(NextStart(start, end, overlap), end2), overlap)
  {
  }

  lemma {:induction false} WindowsChained(s: string, start: nat, size: nat, overlap: nat)
    requires start < |s| && size >= 1 && 2 * overlap <= size
    ensures Chained(s, Windows(s, start, size, overlap), start, size, overlap)
    decreases |s| - start
  {
    hide *;
    var end := WindowEnd(s, start, size);
    EndInReach(s, start, size);
    FirstWindow(s, start, size, overlap);
    if end < |s| {
      var next := NextStart(start, end, overlap);
      var rest := Windows(s, next, size, overlap);
      NextInText(start, end, overlap);
      WindowsChained(s, next, size, overlap);
      EndsAscend(s, start, next, size);
      FirstWindow(s, next, size, overlap);
      NextFollows(start, end, overlap, WindowEnd(s, next, size));
      ChainedMore(s, Window(start, end), rest, next, size, overlap);
    } else {
      assert [Window(start, end)] + [] == [Window(start, end)];
      ChainedLast(s, start, size, overlap);
    }
  }

  /** Each window starts where the one before says. */
  lemma {:induction false} NextWindow(s: string, start: nat, size: nat, overlap: nat, i: nat)
    requires start < |s| && size >= 1 && i < |Windows(s, start, size, overlap)|
    ensures var ws := Windows(s, start, size, overlap);
            && ws[i].start < ws[i].end <= |s| && ws[i].end == WindowEnd(s, ws[i].start, size)
            && (i == 0 ==> ws[i].start == start)
            && (i + 1 < |ws| ==> ws[i].end < |s| && ws[i + 1].start == NextStart(ws[i].start, ws[i].end, overlap))
    decreases i
  {
    hide *;
    var ws, end := Windows(s, start, size, overlap), WindowEnd(s, start, size);
    FirstWindow(s, start, size, overlap);
    if end < |s| {
      var next := NextStart(start, end, overlap);
      NextInText(start, end, overlap);
      FirstWindow(s, next, size, overlap);
      if i > 0 {
        NextWindow(s, next, size, overlap, i - 1);
      }
    }
  }

  // ---- How much is repeated

  /** A window repeats `overlap` characters of the one before exactly when the overlap is at
      most half the size and that window is longer than the overlap. */
  lemma OverlapRepeatedIff(s: string, size: nat, overlap: nat, i: nat)
    requires s != "" && size >= 1 && i + 1 < |Windows(s, 0, size, Min(overlap, size / 2))|
    ensures var ws := Windows(s, 0, size, Min(overlap, size / 2));
            && ws[i + 1].start <= ws[i].end
            && (ws[i].end - ws[i + 1].start == overlap <==> overlap <= size / 2 && overlap < ws[i].end - ws[i].start)
  {
    NextWindow(s, 0, size, Min(overlap, size / 2), i);
    hide WindowEnd, Windows;
  }

  // ---- No word is cut

  predicate CutsNone(s: string, ws: seq<Window>) {
    forall w :: w in ws ==> !CutsWord(s, w.start) && !CutsWord(s, w.end)
  }

  /** Without overlap no window starts or ends inside a word exactly when none is all word. */
  lemma CutsNoneIff(s: string, size: nat)
    requires s != "" && size >= 1
    ensures CutsNone(s, Windows(s, 0, size, 0)) <==> forall w :: w in Windows(s, 0, size, 0) ==> !NoBreak(s, w.start, size)
  {
    var ws := Windows(s, 0, size, 0);
    hide Windows, WindowEnd, IsWhitespace, NoBreak, CutsWord;
    forall i: nat | i < |ws|
      ensures CutsWord(s, ws[i].end) <==> NoBreak(s, ws[i].start, size)
      ensures CutsWord(s, ws[i].start) ==> i > 0 && ws[i].start == ws[i - 1].end
    {
      NextWindow(s, 0, size, 0, i);
      EndCutsIff(s, ws[i].start, size);
      StartIsEnd(s, size, i);
    }
    if forall w :: w in ws ==> !NoBreak(s, w.start, size) {
      forall w | w in ws ensures !CutsWord(s, w.start) && !CutsWord(s, w.end) {
        var i :| 0 <= i < |ws| && ws[i] == w;
        assert i > 0 ==> ws[i - 1] in ws;
      }
    } else {
      var w :| w in ws && NoBreak(s, w.start, size);
      var i :| 0 <= i < |ws| && ws[i] == w;
    }
  }

  lemma StartIsEnd(s: string, size: nat, i: nat)
    requires s != "" && size >= 1 && i < |Windows(s, 0, size, 0)|
    ensures var ws := Windows(s, 0, size, 0);
            CutsWord(s, ws[i].start) ==> i > 0 && ws[i].start == ws[i - 1].end
  {
    var ws := Windows(s, 0, size, 0);
    hide Windows, WindowEnd, IsWhitespace;
    if i > 0 {
      NextWindow(s, 0, size, 0, i - 1);
    } else {
      NextWindow(s, 0, size, 0, 0);
    }
  }

  /** So none does when every word is shorter than the window. */
  lemma ShortWordsWhole(s: string, size: nat)
    requires s != "" && size >= 1 && forall lo: nat :: !InWord(s, lo, size)
    ensures CutsNone(s, Windows(s, 0, size, 0))
  {
    CutsNoneIff(s, size);
    forall w | w in Windows(s, 0, size, 0) ensures !NoBreak(s, w.start, size) {
      assert !InWord(s, w.start + 1, size);
    }
  }

  // ---- The windows give the text back

  /** What each window adds beyond the one before. */
  function FreshParts(s: string, ws: seq<Window>, from: nat): string
    requires forall w :: w in ws ==> InText(s, w)
  {
    if ws == [] then ""
    else
      assert ws[0] in ws && InText(s, ws[0]);
      (if from <= ws[0].end then s[from..ws[0].end] else "") + FreshParts(s, ws[1..], Max(from, ws[0].end))
  }

  lemma {:induction false} WindowsInText(s: string, start: nat, size: nat, overlap: nat)
    requires size >= 1
    ensures forall w :: w in Windows(s, start, size, overlap) ==> InText(s, w)
    decreases |s| - start
  {
    if start < |s| {
      EndInReach(s, start, size);
      if WindowEnd(s, start, size) < |s| {
        WindowsInText(s, NextStart(start, WindowEnd(s, start, size), overlap), size, overlap);
      }
    }
  }

  lemma FirstFresh(s: string, w: Window, rest: seq<Window>, from: nat)
    requires InText(s, w) && from <= w.end && forall v :: v in rest ==> InText(s, v)
    ensures forall v :: v in [w] + rest ==> InText(s, v)
    ensures FreshParts(s, [w] + rest, from) == s[from..w.end] + FreshParts(s, rest, w.end)
  {
    assert ([w] + rest)[0] == w && ([w] + rest)[1..] == rest;
  }

  lemma SliceJoin(s: string, from: nat, mid: nat)
    requires from <= mid <= |s|
    ensures s[from..mid] + s[mid..] == s[from..]
  {
  }

  lemma FreshNothing(s: string, from: nat)
    ensures FreshParts(s, [], from) == ""
  {
  }

  lemma {:induction false} FreshPartsGiveText(s: string, start: nat, size: nat, overlap: nat, from: nat)
    requires start < |s| && size >= 1 && 2 * overlap <= size && from <= WindowEnd(s, start, size)
    ensures forall w :: w in Windows(s, start, size, overlap) ==> InText(s, w)
    ensures FreshParts(s, Windows(s, start, size, overlap), from) == s[from..]
    decreases |s| - start
  {
    var end := WindowEnd(s, start, size);
    WindowsInText(s, start, size, overlap);
    FirstWindow(s, start, size, overlap);
    assert InText(s, Window(start, end));
    var rest := [];
    if end < |s| {
      var next := NextStart(start, end, overlap);
      NextInText(start, end, overlap);
      EndsAscend(s, start, next, size);
      FreshPartsGiveText(s, next, size, overlap, end);
      rest := Windows(s, next, size, overlap);
    } else {
      FreshNothing(s, end);
    }
    hide *;
    assert Windows(s, start, size, overlap) == [Window(start, end)] + rest;
    FirstFresh(s, Window(start, end), rest, from);
    SliceJoin(s, from, end);
  }

  // ---- At most `overlap + 1` windows share an end

  lemma {:induction false} StartsAdvance(s: string, ws: seq<Window>, start: nat, size: nat, overlap: nat, i: nat, j: nat)
    requires Chained(s, ws, start, size, overlap) && i <= j < |ws|
    ensures ws[i].start + (j - i) <= ws[j].start && ws[i].end <= ws[j].end
    decreases j - i
  {
    if i < j {
      StartsAdvance(s, ws, start, size, overlap, i, j - 1);
      assert Follows(ws[j - 1], ws[j - 1 + 1], overlap);
    }
  }

  lemma FewShareAnEnd(s: string, size: nat, overlap: nat, i: nat, j: nat)
    requires s != "" && size >= 1 && 2 * overlap <= size
    requires i <= j < |Windows(s, 0, size, overlap)|
    requires Windows(s, 0, size, overlap)[i].end == Windows(s, 0, size, overlap)[j].end
    ensures j - i <= overlap
  {
    var ws := Windows(s, 0, size, overlap);
    WindowsChained(s, 0, size, overlap);
    if i < j {
      StartsAdvance(s, ws, 0, size, overlap, i + 1, j);
      assert Follows(ws[i], ws[i + 1], overlap);
      StartsAdvance(s, ws, 0, size, overlap, i, j);
    }
  }

  // ---- The chunks

  /** The trimmed windows that are not blank. */
  function Pieces(s: string, ws: seq<Window>): seq<Window>
    requires forall w :: w in ws ==> InText(s, w)
  {
    if ws == [] then []
    else
      assert ws[0] in ws;
      var t := Trimmed(s, ws[0]);
      (if t.start < t.end then [t] else []) + Pieces(s, ws[1..])
  }

  function Texts(s: string, pieces: seq<Window>): seq<string>
    requires forall w :: w in pieces ==> InText(s, w)
  {
    if pieces == [] then []
    else
      assert pieces[0] in pieces;
      [Slice(s, pieces[0])] + Texts(s, pieces[1..])
  }

  lemma {:induction false} PiecesInText(s: string, ws: seq<Window>)
    requires forall w :: w in ws ==> InText(s, w)
    ensures forall p :: p in Pieces(s, ws) ==> InText(s, p)
  {
    if ws != [] {
      assert ws[0] in ws;
      PiecesInText(s, ws[1..]);
    }
  }

  lemma {:induction false} PieceOf(s: string, ws: seq<Window>, w: Window)
    requires (forall v :: v in ws ==> InText(s, v)) && w in ws && Trimmed(s, w).start < Trimmed(s, w).end
    ensures Trimmed(s, w) in Pieces(s, ws)
  {
    assert ws[0] in ws;
    if w != ws[0] {
      PieceOf(s, ws[1..], w);
    }
  }

  lemma {:induction false} PieceFrom(s: string, ws: seq<Window>, p: Window) returns (w: Window)
    requires (forall v :: v in ws ==> InText(s, v)) && p in Pieces(s, ws)
    ensures w in ws && p == Trimmed(s, w) && p.start < p.end
  {
    assert ws[0] in ws;
    w := ws[0];
    if p != Trimmed(s, ws[0]) || Trimmed(s, ws[0]).start >= Trimmed(s, ws[0]).end {
      w := PieceFrom(s, ws[1..], p);
    }
  }

  lemma {:induction false} WindowAt(s: string, start: nat, size: nat, overlap: nat, k: nat) returns (w: Window)
    requires start <= k < |s| && size >= 1 && 2 * overlap <= size
    ensures w in Windows(s, start, size, overlap) && w.start <= k < w.end
    decreases |s| - start
  {
    var ws, end := Windows(s, start, size, overlap), WindowEnd(s, start, size);
    EndInReach(s, start, size);
    assert ws[0] == Window(start, end);
    if k < end {
      w := ws[0];
    } else {
      w := WindowAt(s, NextStart(start, end, overlap), size, overlap, k);
    }
  }

  /** Every character that is not whitespace is in a chunk, */
  lemma ChunksCover(s: string, size: nat, overlap: nat, k: nat) returns (p: Window)
    requires size >= 1 && 2 * overlap <= size && k < |s| && !IsWhitespace(s[k])
    ensures forall w :: w in Windows(s, 0, size, overlap) ==> InText(s, w)
    ensures p in Pieces(s, Windows(s, 0, size, overlap)) && p.start <= k < p.end
  {
    WindowsInText(s, 0, size, overlap);
    var w := WindowAt(s, 0, size, overlap, k);
    hide Windows;
    TrimmedKeeps(s, w, k);
    PieceOf(s, Windows(s, 0, size, overlap), w);
    p := Trimmed(s, w);
  }

  lemma {:induction false} WindowSmall(s: string, start: nat, size: nat, overlap: nat, w: Window)
    requires size >= 1 && w in Windows(s, start, size, overlap)
    ensures w.start < w.end <= |s| && w.end <= w.start + size
    decreases |s| - start
  {
    EndInReach(s, start, size);
    var end := WindowEnd(s, start, size);
    if w != Window(start, end) {
      WindowSmall(s, NextStart(start, end, overlap), size, overlap, w);
    }
  }

  /** and every chunk has at most `size` characters, with no blanks at its ends. */
  lemma ChunksSmall(s: string, size: nat, overlap: nat, p: Window)
    requires size >= 1
    requires forall w :: w in Windows(s, 0, size, overlap) ==> InText(s, w)
    requires p in Pieces(s, Windows(s, 0, size, overlap))
    ensures p.start < p.end <= |s| && p.end <= p.start + size
    ensures !IsWhitespace(s[p.start]) && !IsWhitespace(s[p.end - 1])
  {
    hide Windows, Pieces;
    var w := PieceFrom(s, Windows(s, 0, size, overlap), p);
    WindowSmall(s, 0, size, overlap, w);
  }

  // ---- The loop

  function ChunksFrom(s: string, start: nat, size: nat, overlap: nat): seq<string>
    requires size >= 1
  {
    WindowsInText(s, start, size, overlap);
    PiecesInText(s, Windows(s, start, size, overlap));
    Texts(s, Pieces(s, Windows(s, start, size, overlap)))
  }

  lemma ChunksStep(s: string, start: nat, size: nat, overlap: nat)
    requires start < |s| && size >= 1
    ensures var end := WindowEnd(s, start, size);
            && start < end <= |s| && InText(s, Window(start, end))
            && var t := Trimmed(s, Window(start, end));
            && ChunksFrom(s, start, size, overlap)
               == (if t.start < t.end then [Slice(s, t)] else [])
                  + (if end >= |s| then [] else ChunksFrom(s, NextStart(start, end, overlap), size, overlap))
  {
    EndInReach(s, start, size);
    var end := WindowEnd(s, start, size);
    var rest := if end >= |s| then [] else Windows(s, NextStart(start, end, overlap), size, overlap);
    assert Windows(s, start, size, overlap) == [Window(start, end)] + rest;
    WindowsInText(s, start, size, overlap);
    if end < |s| {
      WindowsInText(s, NextStart(start, end, overlap), size, overlap);
    }
    hide Trimmed, Windows, WindowEnd, Slice;
    PiecesInText(s, rest);
    PiecesFirst(s, Window(start, end), rest);
  }

  lemma PiecesFirst(s: string, w: Window, rest: seq<Window>)
    requires InText(s, w) && forall v :: v in rest ==> InText(s, v)
    ensures forall v :: v in [w] + rest ==> InText(s, v)
    ensures (forall p :: p in Pieces(s, [w] + rest) ==> InText(s, p)) && forall p :: p in Pieces(s, rest) ==> InText(s, p)
    ensures var t := Trimmed(s, w);
            Texts(s, Pieces(s, [w] + rest)) == (if t.start < t.end then [Slice(s, t)] else []) + Texts(s, Pieces(s, rest))
  {
    var all, t := [w] + rest, Trimmed(s, w);
    assert all[0] == w && all[1..] == rest;
    PiecesInText(s, all);
    PiecesInText(s, rest);
    assert Pieces(s, all) == (if t.start < t.end then [t] else []) + Pieces(s, rest);
    hide Pieces, Trimmed;
    if t.start < t.end {
      TextsFirst(s, t, Pieces(s, rest));
    } else {
      assert [] + Pieces(s, rest) == Pieces(s, rest);
    }
  }

  lemma TextsFirst(s: string, p: Window, rest: seq<Window>)
    requires InText(s, p) && forall v :: v in rest ==> InText(s, v)
    ensures forall v :: v in [p] + rest ==> InText(s, v)
    ensures Texts(s, [p] + rest) == [Slice(s, p)] + Texts(s, rest)
  {
    assert ([p] + rest)[1..] == rest;
  }

  function ChunksOf(text: string, maxChars: nat, overlap: nat): seq<string> {
    var chars, size := Trim(text), Max(maxChars, 1);
    if chars == "" then []
    else if |chars| <= size then [chars]
    else ChunksFrom(chars, 0, size, Min(overlap, size / 2))
  }

  lemma ChunksOfIs(text: string, maxChars: nat, overlap: nat)
    ensures var chars, size := Trim(text), Max(maxChars, 1);
            && size >= 1 && 2 * Min(overlap, size / 2) <= size
            && (chars == "" ==> ChunksOf(text, maxChars, overlap) == [])
            && (chars != "" && |chars| <= size ==> ChunksOf(text, maxChars, overlap) == [chars])
            && (|chars| > size ==> ChunksOf(text, maxChars, overlap) == ChunksFrom(chars, 0, size, Min(overlap, size / 2)))
  {
  }

  lemma {:induction false} TextsFrom(s: string, pieces: seq<Window>, c: string) returns (p: Window)
    requires (forall w :: w in pieces ==> InText(s, w)) && c in Texts(s, pieces)
    ensures p in pieces && c == Slice(s, p)
  {
    assert pieces[0] in pieces;
    p := pieces[0];
    if c != Slice(s, p) {
      p := TextsFrom(s, pieces[1..], c);
    }
  }

  lemma {:induction false} TextsHas(s: string, pieces: seq<Window>, p: Window)
    requires (forall w :: w in pieces ==> InText(s, w)) && p in pieces
    ensures Slice(s, p) in Texts(s, pieces)
  {
    assert pieces[0] in pieces;
    if p != pieces[0] {
      TextsHas(s, pieces[1..], p);
    }
  }

  lemma ChunksFromHas(s: string, size: nat, overlap: nat, k: nat) returns (p: Window)
    requires size >= 1 && 2 * overlap <= size && k < |s| && !IsWhitespace(s[k])
    ensures InText(s, p) && p.start <= k < p.end && Slice(s, p) in ChunksFrom(s, 0, size, overlap)
  {
    var ws := Windows(s, 0, size, overlap);
    p := ChunksCover(s, size, overlap, k);
    hide Windows;
    PiecesInText(s, ws);
    TextsHas(s, Pieces(s, ws), p);
  }

  lemma SliceOfSlice(s: string, outer: Window, inner: Window)
    requires InText(s, outer) && InText(Slice(s, outer), inner)
    ensures var w := Window(outer.start + inner.start, outer.start + inner.end);
            InText(s, w) && Slice(s, w) == Slice(Slice(s, outer), inner)
  {
    var w := Window(outer.start + inner.start, outer.start + inner.end);
    var a, b := Slice(s, w), Slice(Slice(s, outer), inner);
    var whole := Slice(s, outer);
    assert b == whole[inner.start..inner.end] && |a| == |b|;
    forall k | 0 <= k < |a| ensures a[k] == b[k] {
      assert a[k] == s[w.start + k] && whole[inner.start + k] == s[outer.start + (inner.start + k)];
    }
  }

  lemma TrimIs(text: string)
    ensures var t := Trimmed(text, Window(0, |text|));
            InText(text, Window(0, |text|)) && InText(text, t) && Trim(text) == Slice(text, t) && |Trim(text)| == t.end - t.start
  {
  }

  /** Every character of the document that is not whitespace is in a chunk: some chunk is
      the stretch of the text around it. */
  lemma EveryWordKept(text: string, maxChars: nat, overlap: nat, k: nat) returns (p: Window)
    requires k < |text| && !IsWhitespace(text[k])
    ensures InText(text, p) && p.start <= k < p.end && Slice(text, p) in ChunksOf(text, maxChars, overlap)
  {
    hide *;
    TrimIs(text);
    var t := Trimmed(text, Window(0, |text|));
    var chars, size := Trim(text), Max(maxChars, 1);
    var lap := Min(overlap, size / 2);
    TrimmedKeeps(text, Window(0, |text|), k);
    ChunksOfIs(text, maxChars, overlap);
    SliceAt(text, t, k);
    p := t;
    if |chars| > size {
      var q := ChunksFromHas(chars, size, lap, k - t.start);
      SliceOfSlice(text, t, q);
      p := Window(t.start + q.start, t.start + q.end);
    }
  }

  lemma SliceAt(s: string, w: Window, k: nat)
    requires InText(s, w) && w.start <= k < w.end
    ensures w.end <= |s| && |Slice(s, w)| == w.end - w.start && Slice(s, w)[k - w.start] == s[k]
  {
  }

  lemma ChunksFromSmall(s: string, size: nat, overlap: nat, c: string)
    requires size >= 1 && c in ChunksFrom(s, 0, size, overlap)
    ensures 1 <= |c| <= size
  {
    var ws := Windows(s, 0, size, overlap);
    WindowsInText(s, 0, size, overlap);
    PiecesInText(s, ws);
    hide Windows, Pieces, Texts;
    var p := TextsFrom(s, Pieces(s, ws), c);
    ChunksSmall(s, size, overlap, p);
  }

  /** No chunk is empty and none is longer than `max(max_chars, 1)`. */
  lemma ChunkSizes(text: string, maxChars: nat, overlap: nat, c: string)
    requires c in ChunksOf(text, maxChars, overlap)
    ensures 1 <= |c| <= Max(maxChars, 1)
  {
    hide *;
    ChunksOfIs(text, maxChars, overlap);
    var chars, size := Trim(text), Max(maxChars, 1);
    if |chars| > size {
      ChunksFromSmall(chars, size, Min(overlap, size / 2), c);
    }
  }

  method ChunkText(text: string, maxChars: nat, overlap: nat) returns (chunks: seq<string>)
    ensures chunks == ChunksOf(text, maxChars, overlap)
  {
    ChunksOfIs(text, maxChars, overlap);
    hide *;
    var chars := Trim(text);
    if chars == "" {
      return [];
    }
    var size := Max(maxChars, 1);
    var lap := Min(overlap, size / 2);
    if |chars| <= size {
      return [chars];
    }
    chunks := [];
    var start := 0;
    assert [] + ChunksFrom(chars, 0, size, lap) == ChunksFrom(chars, 0, size, lap);
    while start < |chars|
      invariant start < |chars|
      invariant chunks + ChunksFrom(chars, start, size, lap) == ChunksFrom(chars, 0, size, lap)
      decreases |chars| - start
    {
      var end := ChooseEnd(chars, start, size);
      EndsAtWord(chars, start, size, end);
      ChunksStep(chars, start, size, lap);
      NextInText(start, end, lap);
      var piece := Trimmed(chars, Window(start, end));
      if piece.start < piece.end {
        chunks := chunks + [Slice(chars, piece)];
      }
      if end >= |chars| {
        break;
      }
      start := NextStart(start, end, lap);
    }
  }

  // ---- Words that are cut

  lemma TwoWindows(s: string, size: nat, overlap: nat, end: nat, next: nat, end2: nat)
    requires 0 < |s| && size >= 1 && IsEnd(s, 0, size, end) && end < |s|
    requires next == NextStart(0, end, overlap) && next < |s| && IsEnd(s, next, size, end2)
    ensures Window(next, end2) in Windows(s, 0, size, overlap)
    ensures WindowEnd(s, 0, size) == end && WindowEnd(s, next, size) == end2
  {
    hide *;
    EndsAtWord(s, 0, size, end);
    EndsAtWord(s, next, size, end2);
    FirstWindow(s, 0, size, overlap);
    FirstWindow(s, next, size, overlap);
    var w := Window(next, end2);
    assert w in Windows(s, next, size, overlap);
  }

  lemma LongWordEnds(s: string)
    requires |s| == 9 && IsWhitespace(s[1]) && InWord(s, 2, 5)
    ensures IsEnd(s, 0, 5, 1) && IsEnd(s, 1, 5, 6) && CutsWord(s, 6)
  {
    hide IsWhitespace;
  }

  /** A word as long as the window: `a bbbbb c` in windows of five characters. */
  lemma WordOfWindowCut()
    ensures var s := "a bbbbb c";
            && Window(1, 6) in Windows(s, 0, 5, 0) && WindowEnd(s, 1, 5) == 6 && CutsWord(s, 6)
  {
    hide Windows, WindowEnd;
    var s := "a bbbbb c";
    assert InWord(s, 2, 5);
    LongWordEnds(s);
    hide *;
    assert NextStart(0, 1, 0) == 1 by { Starts(); }
    TwoWindows(s, 5, 0, 1, 1, 6);
  }

  lemma Starts()
    ensures NextStart(0, 1, 0) == 1 && NextStart(0, 5, 3) == 2
  {
  }

  lemma ShortWordEnds(s: string)
    requires |s| == 17 && IsWhitespace(s[5]) && InWord(s, 0, 5) && InWord(s, 6, 5)
    ensures IsEnd(s, 0, 8, 5) && IsEnd(s, 2, 8, 5) && CutsWord(s, 2)
  {
    hide IsWhitespace;
  }

  /** A short word at the start of a window: `hello world again` in windows of eight
      characters that overlap by three. */
  lemma ShortWordCut()
    ensures var s := "hello world again";
            && Window(2, 5) in Windows(s, 0, 8, 3) && NextStart(0, WindowEnd(s, 0, 8), 3) == 2 && CutsWord(s, 2)
  {
    hide Windows, WindowEnd;
    var s := "hello world again";
    assert InWord(s, 0, 5) && InWord(s, 6, 5);
    ShortWordEnds(s);
    hide *;
    Starts();
    TwoWindows(s, 8, 3, 5, 2, 5);
  }

  /** There the third window starts at 3: it repeats two characters and not three, although
      three is no more than half of eight. */
  lemma TwoRepeated()
    ensures var ws := Windows("hello world again", 0, 8, Min(3, 8 / 2));
            |ws| > 2 && ws[1] == Window(2, 5) && ws[2].start == 3 && ws[1].end - ws[2].start == 2
  {
    hide Windows, WindowEnd;
    var s := "hello world again";
    assert InWord(s, 0, 5) && InWord(s, 6, 5);
    ShortWordEnds(s);
    assert Min(3, 8 / 2) == 3 && NextStart(0, 5, 3) == 2 && NextStart(2, 5, 3) == 3 && |s| == 17;
    hide *;
    EndsAtWord(s, 0, 8, 5);
    EndsAtWord(s, 2, 8, 5);
    FirstWindow(s, 0, 8, 3);
    FirstWindow(s, 2, 8, 3);
    FirstWindow(s, 3, 8, 3);
  }

  /** The end of one window: the last whitespace in reach, if it is not the first character. */
  method ChooseEnd(chars: string, start: nat, size: nat) returns (end: nat)
    requires start < |chars| && size >= 1
    ensures IsEnd(chars, start, size, end)
  {
    LastInSlice(chars, start, Min(start + size, |chars|));
    var hardEnd := Min(start + size, |chars|);
    end := hardEnd;
    if hardEnd < |chars| {
      var ws := LastWhitespace(chars[start..hardEnd]);
      if ws > 0 {
        end := start + ws;
      }
    }
  }
}
