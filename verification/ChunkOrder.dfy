/** The chunks of a document as a list, without the loop: which windows there are, and that
    the chunks are the windows in order, without the blank ones and the blanks at the ends. */
module ChunkOrder {
  import opened Chunking

  // ---- The windows

  /** The first starts at `start`; each ends where a window should; the last one, and no other,
      ends with the text; the next starts `overlap` before the end, but always further on. */
  ghost predicate AreWindows(s: string, ws: seq<Window>, start: nat, size: nat, overlap: nat) {
    if |s| <= start then ws == []
    else
      && ws != [] && ws[0].start == start
      && (forall i :: 0 <= i < |ws| ==> IsEnd(s, ws[i].start, size, ws[i].end))
      && (forall i :: 0 <= i < |ws| ==> (ws[i].end == |s| <==> i == |ws| - 1))
      && forall i :: 0 <= i < |ws| - 1 ==> Next(ws[i], ws[i + 1], overlap)
  }

  predicate Next(a: Window, b: Window, overlap: nat) {
    b.start == if a.start + 1 < a.end - overlap then a.end - overlap else a.start + 1
  }

  lemma NextIs(a: Window, b: Window, overlap: nat)
    ensures Next(a, b, overlap) <==> b.start == NextStart(a.start, a.end, overlap)
  {
  }

  lemma ConsWindows(s: string, w: Window, rest: seq<Window>, next: nat, size: nat, overlap: nat)
    requires IsEnd(s, w.start, size, w.end) && w.end < |s| && next < |s| && next == NextStart(w.start, w.end, overlap)
    requires AreWindows(s, rest, next, size, overlap)
    ensures AreWindows(s, [w] + rest, w.start, size, overlap)
  {
    var ws := [w] + rest;
    hide IsEnd;
    forall i | 0 <= i < |ws| - 1 ensures Next(ws[i], ws[i + 1], overlap) {
      if i == 0 {
        NextIs(w, rest[0], overlap);
      } else {
        assert Next(rest[i - 1], rest[i - 1 + 1], overlap);
      }
    }
    forall i | 0 <= i < |ws| ensures ws[i].end == |s| <==> i == |ws| - 1 {
      assert i > 0 ==> ws[i] == rest[i - 1];
    }
  }

  lemma TailWindows(s: string, ws: seq<Window>, start: nat, size: nat, overlap: nat)
    requires AreWindows(s, ws, start, size, overlap) && start < |s| && ws[0].end < |s|
    requires NextStart(start, ws[0].end, overlap) < |s|
    ensures AreWindows(s, ws[1..], NextStart(start, ws[0].end, overlap), size, overlap)
  {
    var rest := ws[1..];
    hide IsEnd;
    assert |ws| > 1;
    assert Next(ws[0], ws[0 + 1], overlap);
    NextIs(ws[0], ws[1], overlap);
    forall i | 0 <= i < |rest| - 1 ensures Next(rest[i], rest[i + 1], overlap) {
      assert Next(ws[i + 1], ws[i + 1 + 1], overlap);
    }
    forall i | 0 <= i < |rest| ensures IsEnd(s, rest[i].start, size, rest[i].end) && (rest[i].end == |s| <==> i == |rest| - 1) {
      assert rest[i] == ws[i + 1];
    }
  }

  lemma WindowsParts(s: string, ws: seq<Window>, start: nat, size: nat, overlap: nat)
    requires AreWindows(s, ws, start, size, overlap) && start < |s|
    ensures ws != [] && ws[0].start == start && IsEnd(s, start, size, ws[0].end) && (ws[0].end == |s| <==> |ws| == 1)
    ensures ws == [Window(start, ws[0].end)] + ws[1..]
  {
  }

  lemma OneWindow(s: string, start: nat, size: nat, overlap: nat)
    requires IsEnd(s, start, size, |s|)
    ensures AreWindows(s, [Window(start, |s|)], start, size, overlap)
  {
  }

  lemma {:induction false} WindowsExact(s: string, ws: seq<Window>, start: nat, size: nat, overlap: nat)
    requires size >= 1
    ensures AreWindows(s, ws, start, size, overlap) <==> ws == Windows(s, start, size, overlap)
    decreases |s| - start
  {
    if start < |s| {
      hide *;
      var end := WindowEnd(s, start, size);
      EndsAtWord(s, start, size, end);
      FirstWindow(s, start, size, overlap);
      var w := Window(start, end);
      if end >= |s| {
        OneWindow(s, start, size, overlap);
        assert [w] + [] == [w];
        if AreWindows(s, ws, start, size, overlap) {
          WindowsParts(s, ws, start, size, overlap);
          EndsAtWord(s, start, size, ws[0].end);
          assert ws[1..] == [];
        }
      } else {
        var next := NextStart(start, end, overlap);
        NextInText(start, end, overlap);
        WindowsExact(s, Windows(s, next, size, overlap), next, size, overlap);
        ConsWindows(s, w, Windows(s, next, size, overlap), next, size, overlap);
        if AreWindows(s, ws, start, size, overlap) {
          WindowsParts(s, ws, start, size, overlap);
          EndsAtWord(s, start, size, ws[0].end);
          TailWindows(s, ws, start, size, overlap);
          WindowsExact(s, ws[1..], next, size, overlap);
        }
      }
    }
  }

  // ---- The chunks

  predicate AllBlank(s: string, w: Window) {
    InText(s, w) && forall k :: w.start <= k < w.end ==> IsWhitespace(s[k])
  }

  /** `c` is the stretch of the window from its first to its last character that is no blank. */
  ghost predicate IsPiece(s: string, w: Window, c: string) {
    exists lo, hi :: Stripped(s, w, lo, hi) && c == s[lo..hi]
  }

  ghost predicate Stripped(s: string, w: Window, lo: int, hi: int) {
    && InText(s, w) && w.start <= lo < hi <= w.end
    && (forall k :: w.start <= k < lo || hi <= k < w.end ==> IsWhitespace(s[k]))
    && !IsWhitespace(s[lo]) && !IsWhitespace(s[hi - 1])
  }

  ghost predicate Rising(picks: seq<nat>) {
    forall m, n :: 0 <= m < n < |picks| ==> picks[m] < picks[n]
  }

  /** The positions of the windows that are not all blank, in order. */
  ghost predicate ArePicks(s: string, ws: seq<Window>, picks: seq<nat>) {
    && Rising(picks) && (forall i :: i in picks ==> i < |ws|)
    && forall i: nat :: i < |ws| ==> (i in picks <==> !AllBlank(s, ws[i]))
  }

  ghost predicate ArePieces(s: string, ws: seq<Window>, picks: seq<nat>, chunks: seq<string>) {
    && |picks| == |chunks|
    && forall n :: 0 <= n < |picks| ==> picks[n] < |ws| && IsPiece(s, ws[picks[n]], chunks[n])
  }

  /** The chunks are the windows that are not all blank, in order and stripped. */
  ghost predicate AreChunks(s: string, ws: seq<Window>, picks: seq<nat>, chunks: seq<string>) {
    ArePicks(s, ws, picks) && ArePieces(s, ws, picks, chunks)
  }

  lemma TrimmedIsPiece(s: string, w: Window)
    requires InText(s, w)
    ensures var t := Trimmed(s, w);
            && (t.start < t.end <==> !AllBlank(s, w))
            && (t.start < t.end ==> IsPiece(s, w, Slice(s, t)))
  {
    var t := Trimmed(s, w);
    hide IsWhitespace;
    if t.start < t.end {
      assert Stripped(s, w, t.start, t.end);
    }
  }

  function Later(picks: seq<nat>): (r: seq<nat>)
    ensures |r| == |picks| && forall i :: 0 <= i < |r| ==> r[i] == picks[i] + 1
  {
    seq(|picks|, i requires 0 <= i < |picks| => picks[i] + 1)
  }

  lemma LaterHas(picks: seq<nat>, i: nat)
    ensures i in Later(picks) <==> i > 0 && i - 1 in picks
  {
    if i > 0 && i - 1 in picks {
      var n :| 0 <= n < |picks| && picks[n] == i - 1;
      assert Later(picks)[n] == i;
    }
  }

  lemma PicksFirst(s: string, w: Window, ws: seq<Window>, picks: seq<nat>)
    requires ArePicks(s, ws, picks)
    ensures ArePicks(s, [w] + ws, (if AllBlank(s, w) then [] else [0]) + Later(picks))
  {
    var all, later := [w] + ws, Later(picks);
    var next := (if AllBlank(s, w) then [] else [0]) + later;
    hide AllBlank;
    forall i: nat ensures i in next <==> (i == 0 && !AllBlank(s, w)) || (i > 0 && i - 1 in picks) {
      LaterHas(picks, i);
    }
    forall i: nat | i < |all| ensures i in next <==> !AllBlank(s, all[i]) {
      assert i > 0 ==> all[i] == ws[i - 1];
    }
  }

  lemma PiecesLater(s: string, w: Window, ws: seq<Window>, picks: seq<nat>, chunks: seq<string>)
    requires ArePieces(s, ws, picks, chunks)
    ensures ArePieces(s, [w] + ws, Later(picks), chunks)
  {
    hide IsPiece;
  }

  lemma PiecesNow(s: string, w: Window, ws: seq<Window>, picks: seq<nat>, chunks: seq<string>, c: string)
    requires ArePieces(s, [w] + ws, picks, chunks) && IsPiece(s, w, c)
    ensures ArePieces(s, [w] + ws, [0] + picks, [c] + chunks)
  {
    hide IsPiece;
  }

  /** A window in front: it is a chunk, or blank. */
  lemma ChunksFirst(s: string, w: Window, ws: seq<Window>, picks: seq<nat>, chunks: seq<string>, c: string)
    requires AreChunks(s, ws, picks, chunks) && (!AllBlank(s, w) ==> IsPiece(s, w, c))
    ensures AreChunks(s, [w] + ws, (if AllBlank(s, w) then [] else [0]) + Later(picks),
                      (if AllBlank(s, w) then [] else [c]) + chunks)
  {
    hide AllBlank, ArePicks, ArePieces;
    PicksFirst(s, w, ws, picks);
    PiecesLater(s, w, ws, picks, chunks);
    if AllBlank(s, w) {
      assert [] + Later(picks) == Later(picks) && [] + chunks == chunks;
    } else {
      PiecesNow(s, w, ws, Later(picks), chunks, c);
    }
  }

  lemma {:induction false} PiecesInOrder(s: string, ws: seq<Window>) returns (picks: seq<nat>)
    requires forall w :: w in ws ==> InText(s, w)
    ensures forall p :: p in Pieces(s, ws) ==> InText(s, p)
    ensures AreChunks(s, ws, picks, Texts(s, Pieces(s, ws)))
  {
    PiecesInText(s, ws);
    if ws == [] {
      picks := [];
    } else {
      var w, rest := ws[0], ws[1..];
      assert w in ws && ws == [w] + rest;
      var later := PiecesInOrder(s, rest);
      PiecesFirst(s, w, rest);
      TrimmedIsPiece(s, w);
      var t := Trimmed(s, w);
      ChunksFirst(s, w, rest, later, Texts(s, Pieces(s, rest)), Slice(s, t));
      picks := (if t.start < t.end then [0] else []) + Later(later);
    }
  }

  /** `s` is the document without the blanks at its ends. */
  ghost predicate IsBody(text: string, s: string) {
    IsPiece(text, Window(0, |text|), s) || (s == "" && AllBlank(text, Window(0, |text|)))
  }

  lemma TrimIsBody(text: string)
    ensures IsBody(text, Trim(text))
  {
    TrimmedIsPiece(text, Window(0, |text|));
  }

  lemma BodyEnds(text: string, s: string)
    requires IsBody(text, s) && s != ""
    ensures !IsWhitespace(s[0]) && !IsWhitespace(s[|s| - 1])
  {
  }

  lemma WholeIsChunk(s: string, size: nat, overlap: nat)
    requires 0 < |s| <= size && !IsWhitespace(s[0]) && !IsWhitespace(s[|s| - 1])
    ensures AreWindows(s, [Window(0, |s|)], 0, size, overlap) && AreChunks(s, [Window(0, |s|)], [0], [s])
  {
    hide IsWhitespace;
    assert Stripped(s, Window(0, |s|), 0, |s|);
  }

  /** The whole result: of the document without the blanks at its ends, the windows of
      `max(max_chars, 1)` characters with an overlap of at most half of that, in order. */
  lemma ChunksInOrder(text: string, maxChars: nat, overlap: nat)
    returns (s: string, ws: seq<Window>, picks: seq<nat>)
    ensures IsBody(text, s)
    ensures var size := if maxChars == 0 then 1 else maxChars;
            AreWindows(s, ws, 0, size, if overlap < size / 2 then overlap else size / 2)
    ensures AreChunks(s, ws, picks, ChunksOf(text, maxChars, overlap))
  {
    s := Trim(text);
    var size := Max(maxChars, 1);
    var lap := Min(overlap, size / 2);
    TrimIsBody(text);
    ChunksOfIs(text, maxChars, overlap);
    hide Trim, IsBody, ChunksOf, ChunksFrom, Windows;
    if s == "" {
      ws, picks := [], [];
    } else if |s| <= size {
      ws, picks := [Window(0, |s|)], [0];
      BodyEnds(text, s);
      WholeIsChunk(s, size, lap);
    } else {
      ws := Windows(s, 0, size, lap);
      WindowsExact(s, ws, 0, size, lap);
      picks := ChunksFromOrder(s, size, lap);
    }
  }

  lemma ChunksFromOrder(s: string, size: nat, overlap: nat) returns (picks: seq<nat>)
    requires size >= 1
    ensures AreChunks(s, Windows(s, 0, size, overlap), picks, ChunksFrom(s, 0, size, overlap))
  {
    WindowsInText(s, 0, size, overlap);
    picks := PiecesInOrder(s, Windows(s, 0, size, overlap));
  }
}
