/** What a splice keeps, what it hides and how splices compose. */
module SpliceLaws {
  import opened Utf8
  import opened Sequences
  import opened Findings
  import opened Splicing

  /** Bytes gained (or lost) when each span gives way to its label and eleven bytes around it. */
  function Growth(fs: seq<Finding>): int {
    if fs == [] then 0 else |fs[0].tag| + 11 - (fs[0].end - fs[0].start) + Growth(fs[1..])
  }

  lemma {:induction false} SpliceLength(text: Text, fs: seq<Finding>, pos: nat)
    requires Fits(text, fs, pos)
    ensures |Splice(text, fs, pos)| == |text| - pos + Growth(fs)
  {
    if fs != [] {
      TailFits(text, fs, pos);
      SpliceLength(text, fs[1..], fs[0].end);
    }
  }

  ghost predicate Hidden(fs: seq<Finding>, k: int) {
    exists f :: f in fs && f.start <= k < f.end
  }

  lemma ReachableStep(fs: seq<Finding>, k: nat)
    requires fs != [] && fs[0].end <= k
    ensures Growth(Reachable(fs, k)) == |fs[0].tag| + 11 - (fs[0].end - fs[0].start) + Growth(Reachable(fs[1..], k))
  {
    assert Reachable(fs, k)[1..] == Reachable(fs[1..], k);
  }

  lemma HiddenTail(fs: seq<Finding>, k: nat)
    requires fs != [] && !Hidden(fs, k)
    ensures !Hidden(fs[1..], k) && !(fs[0].start <= k < fs[0].end)
  {
    assert fs[0] in fs;
  }

  lemma KeepsAll(text: Text, pos: nat, k: nat)
    requires Fits(text, [], pos) && pos <= k < |text|
    ensures Growth(Reachable([], k)) == 0 && Splice(text, [], pos) == text[pos..] && text[pos..][k - pos] == text[k]
  {
  }

  /** Every byte outside the spans survives, in order, moved only by the tokens before it. */
  lemma {:induction false} SpliceKeeps(text: Text, fs: seq<Finding>, pos: nat, k: nat)
    requires Fits(text, fs, pos) && pos <= k < |text| && !Hidden(fs, k)
    ensures var n := k - pos + Growth(Reachable(fs, k));
            0 <= n < |Splice(text, fs, pos)| && Splice(text, fs, pos)[n] == text[k]
  {
    hide *;
    if fs == [] {
      KeepsAll(text, pos, k);
    } else {
      SpliceUnfold(text, fs, pos);
      HiddenTail(fs, k);
      var gap, tok := text[pos..fs[0].start], Token(fs[0].tag);
      var tail := Splice(text, fs[1..], fs[0].end);
      if fs[0].end <= k {
        ReachableStep(fs, k);
        SpliceKeeps(text, fs[1..], fs[0].end, k);
        ByteOfTail(gap + tok, tail, k - fs[0].end + Growth(Reachable(fs[1..], k)));
      } else {
        ReachableNone(fs, k);
        assert k < fs[0].start;
        ByteOfGap(text, pos, fs[0].start, tok, tail, k);
      }
    }
  }

  /** Where byte `k` of the text stands in the result. */
  function NewPlace(fs: seq<Finding>, k: nat): int {
    k + Growth(Reachable(fs, k))
  }

  ghost predicate KeepsTheRest(text: Text, fs: seq<Finding>, out: Text) {
    forall k: nat :: k < |text| && !Hidden(fs, k) ==>
      0 <= NewPlace(fs, k) < |out| && out[NewPlace(fs, k)] == text[k]
  }

  lemma SpliceKeepsTheRest(text: Text, fs: seq<Finding>)
    requires Fits(text, fs, 0)
    ensures KeepsTheRest(text, fs, Splice(text, fs, 0))
  {
    hide Splice, Fits, Hidden, Reachable, Growth;
    forall k: nat | k < |text| && !Hidden(fs, k)
      ensures 0 <= NewPlace(fs, k) < |Splice(text, fs, 0)| && Splice(text, fs, 0)[NewPlace(fs, k)] == text[k]
    {
      SpliceKeeps(text, fs, 0, k);
    }
  }

  lemma ReachableNone(fs: seq<Finding>, k: nat)
    requires fs != [] && k < fs[0].end
    ensures Growth(Reachable(fs, k)) == 0
  {
  }

  lemma ByteOfGap(text: Text, pos: nat, end: nat, tok: Text, tail: Text, k: nat)
    requires pos <= k < end <= |text|
    ensures k - pos < |text[pos..end] + tok + tail| && (text[pos..end] + tok + tail)[k - pos] == text[k]
  {
  }

  lemma ByteOfTail(a: Text, b: Text, i: nat)
    requires i < |b|
    ensures (a + b)[|a| + i] == b[i]
  {
  }

  lemma GrowthStep(fs: seq<Finding>, i: nat)
    requires 0 < i <= |fs|
    ensures Growth(fs[..i]) == |fs[0].tag| + 11 - (fs[0].end - fs[0].start) + Growth(fs[1..][..i - 1])
  {
    assert fs[..i][1..] == fs[1..][..i - 1];
  }

  // ---- What stands in place of the spans

  /** From `at` on `out` reads `[REDACTED:`, then `tag`, then `]`. */
  ghost predicate Marked(out: Text, at: int, tag: Text) {
    && 0 <= at && at + |tag| + 11 <= |out|
    && out[at..at + 10] == [0x5B, 0x52, 0x45, 0x44, 0x41, 0x43, 0x54, 0x45, 0x44, 0x3A]
    && out[at + 10..at + 10 + |tag|] == tag
    && out[at + 10 + |tag|] == 0x5D
  }

  lemma TokenMarked(before: Text, tag: Text, after: Text)
    ensures Marked(before + Token(tag) + after, |before|, tag)
  {
    var out, at := before + Token(tag) + after, |before|;
    assert out[at..at + 10] == TOKEN_OPEN;
    assert out[at + 10..at + 10 + |tag|] == tag;
  }

  lemma MarkedBehind(a: Text, b: Text, at: nat, tag: Text)
    requires Marked(b, at, tag)
    ensures Marked(a + b, |a| + at, tag)
  {
    var out := a + b;
    assert out[|a| + at..|a| + at + 10] == b[at..at + 10];
    assert out[|a| + at + 10..|a| + at + 10 + |tag|] == b[at + 10..at + 10 + |tag|];
  }

  lemma MarkedParts(out: Text, at: int, tag: Text)
    requires Marked(out, at, tag)
    ensures 0 <= at && at + |tag| + 11 <= |out|
  {
  }

  /** In place of span `i` stands its label in brackets, moved only by the tokens before it. */
  lemma {:induction false} SpliceTokens(text: Text, fs: seq<Finding>, pos: nat, i: nat)
    requires Fits(text, fs, pos) && i < |fs|
    ensures Marked(Splice(text, fs, pos), fs[i].start - pos + Growth(fs[..i]), fs[i].tag)
  {
    hide *;
    SpliceUnfold(text, fs, pos);
    var gap, tok := text[pos..fs[0].start], Token(fs[0].tag);
    var tail := Splice(text, fs[1..], fs[0].end);
    if i == 0 {
      GrowthOfNone(fs);
      TokenMarked(gap, fs[0].tag, tail);
    } else {
      GrowthStep(fs, i);
      assert fs[1..][i - 1] == fs[i];
      SpliceTokens(text, fs[1..], fs[0].end, i - 1);
      var at := fs[i].start - fs[0].end + Growth(fs[1..][..i - 1]);
      MarkedParts(tail, at, fs[i].tag);
      MarkedBehind(gap + tok, tail, at, fs[i].tag);
    }
  }

  lemma GrowthOfNone(fs: seq<Finding>)
    ensures Growth(fs[..0]) == 0
  {
  }

  /** Where the token of span `i` stands in the result. */
  function TokenPlace(fs: seq<Finding>, i: nat): int
    requires i < |fs|
  {
    fs[i].start + Growth(fs[..i])
  }

  ghost predicate AllMarked(fs: seq<Finding>, out: Text) {
    forall i: nat :: i < |fs| ==> Marked(out, TokenPlace(fs, i), fs[i].tag)
  }

  /** `out` is `text` with each span replaced by its label in brackets, said byte by byte. */
  ghost predicate Replaced(text: Text, fs: seq<Finding>, out: Text) {
    && |out| == |text| + Growth(fs)
    && KeepsTheRest(text, fs, out)
    && AllMarked(fs, out)
  }

  ghost predicate FromText(text: Text, fs: seq<Finding>, pos: nat, n: nat, k: nat) {
    pos <= k < |text| && !Hidden(fs, k) && n == k - pos + Growth(Reachable(fs, k))
  }

  ghost predicate FromToken(fs: seq<Finding>, pos: nat, n: nat, i: nat) {
    i < |fs| && var at := fs[i].start - pos + Growth(fs[..i]); at <= n < at + |fs[i].tag| + 11
  }

  lemma GapByte(text: Text, fs: seq<Finding>, pos: nat, n: nat)
    requires Fits(text, fs, pos) && if fs == [] then n < |text| - pos else n < fs[0].start - pos
    ensures FromText(text, fs, pos, n, pos + n)
  {
    var k := pos + n;
    if fs != [] {
      assert fs[0] in fs;
      forall f | f in fs ensures k < f.start {
        var j :| 0 <= j < |fs| && fs[j] == f;
        assert 0 < j ==> fs[0].end <= fs[j].start;
      }
    }
  }

  lemma TailByte(text: Text, fs: seq<Finding>, pos: nat, n: nat, k: nat)
    requires Fits(text, fs, pos) && fs != [] && pos <= fs[0].start <= fs[0].end
    requires FromText(text, fs[1..], fs[0].end, n, k)
    ensures FromText(text, fs, pos, n + (fs[0].start - pos) + |fs[0].tag| + 11, k)
  {
    hide Fits, Reachable, Growth;
    ReachableStep(fs, k);
    assert forall f :: f in fs ==> f == fs[0] || f in fs[1..];
  }

  lemma TailToken(fs: seq<Finding>, pos: nat, n: nat, i: nat)
    requires fs != [] && pos <= fs[0].start <= fs[0].end && FromToken(fs[1..], fs[0].end, n, i)
    ensures FromToken(fs, pos, n + (fs[0].start - pos) + |fs[0].tag| + 11, i + 1)
  {
    hide Growth;
    GrowthStep(fs, i + 1);
  }

  /** Every byte of the result comes from the text or belongs to a token. */
  lemma {:induction false} ByteOrigin(text: Text, fs: seq<Finding>, pos: nat, n: nat) returns (k: nat, i: nat)
    requires Fits(text, fs, pos) && n < |text| - pos + Growth(fs)
    ensures FromText(text, fs, pos, n, k) || FromToken(fs, pos, n, i)
    decreases |fs|
  {
    hide *;
    k, i := pos + n, 0;
    GrowthUnfold(fs);
    if fs == [] {
      GapByte(text, fs, pos, n);
    } else {
      TailFits(text, fs, pos);
      var gap, len := fs[0].start - pos, |fs[0].tag| + 11;
      if n < gap {
        GapByte(text, fs, pos, n);
      } else if n < gap + len {
        FirstToken(fs, pos, n);
      } else {
        k, i := ByteOrigin(text, fs[1..], fs[0].end, n - gap - len);
        if FromText(text, fs[1..], fs[0].end, n - gap - len, k) {
          TailByte(text, fs, pos, n - gap - len, k);
        } else {
          TailToken(fs, pos, n - gap - len, i);
          i := i + 1;
        }
      }
    }
  }

  lemma GrowthUnfold(fs: seq<Finding>)
    ensures Growth(fs) == if fs == [] then 0 else |fs[0].tag| + 11 - (fs[0].end - fs[0].start) + Growth(fs[1..])
  {
  }

  lemma FirstToken(fs: seq<Finding>, pos: nat, n: nat)
    requires fs != [] && 0 <= n - (fs[0].start - pos) < |fs[0].tag| + 11
    ensures FromToken(fs, pos, n, 0)
  {
    GrowthOfNone(fs);
  }

  lemma SameToken(fs: seq<Finding>, a: Text, b: Text, n: nat, i: nat)
    requires AllMarked(fs, a) && AllMarked(fs, b) && FromToken(fs, 0, n, i) && n < |a| && n < |b|
    ensures a[n] == b[n]
  {
    hide Growth;
    var at, tag := TokenPlace(fs, i), fs[i].tag;
    assert Marked(a, at, tag) && Marked(b, at, tag);
    if n < at + 10 {
      assert a[at..at + 10][n - at] == b[at..at + 10][n - at];
    } else if n < at + 10 + |tag| {
      assert a[at + 10..at + 10 + |tag|][n - at - 10] == b[at + 10..at + 10 + |tag|][n - at - 10];
    }
  }

  lemma SameKept(text: Text, fs: seq<Finding>, a: Text, b: Text, n: nat, k: nat)
    requires KeepsTheRest(text, fs, a) && KeepsTheRest(text, fs, b) && FromText(text, fs, 0, n, k)
    ensures n < |a| && n < |b| && a[n] == b[n]
  {
    hide Growth, Reachable, Hidden;
    assert NewPlace(fs, k) == n;
  }

  lemma ReplacedParts(text: Text, fs: seq<Finding>, out: Text)
    ensures Replaced(text, fs, out) <==>
            |out| == |text| + Growth(fs) && KeepsTheRest(text, fs, out) && AllMarked(fs, out)
  {
  }

  /** Length, kept bytes and tokens say the whole result: nothing else has them. */
  lemma ReplacedIff(text: Text, fs: seq<Finding>, out: Text)
    requires Fits(text, fs, 0)
    ensures Replaced(text, fs, out) <==> out == Splice(text, fs, 0)
  {
    hide *;
    var s := Splice(text, fs, 0);
    SpliceLength(text, fs, 0);
    SpliceKeepsTheRest(text, fs);
    SpliceMarked(text, fs);
    ReplacedParts(text, fs, s);
    ReplacedParts(text, fs, out);
    if Replaced(text, fs, out) {
      forall n | 0 <= n < |out| ensures out[n] == s[n] {
        var k, i := ByteOrigin(text, fs, 0, n);
        if FromText(text, fs, 0, n, k) {
          SameKept(text, fs, out, s, n, k);
        } else {
          SameToken(fs, out, s, n, i);
        }
      }
    }
  }

  lemma SpliceMarked(text: Text, fs: seq<Finding>)
    requires Fits(text, fs, 0)
    ensures AllMarked(fs, Splice(text, fs, 0))
  {
    hide Splice, Fits, Growth, Marked;
    forall i: nat | i < |fs| ensures Marked(Splice(text, fs, 0), TokenPlace(fs, i), fs[i].tag) {
      SpliceTokens(text, fs, 0, i);
    }
  }

  // ---- Composition

  lemma JoinFits(text: Text, fs: seq<Finding>, gs: seq<Finding>, pos: nat, c: nat)
    requires c <= |text| && Fits(text[..c], fs, pos) && Fits(text, gs, c)
    ensures Fits(text, fs + gs, pos)
  {
  }

  lemma JoinNothing(text: Text, gs: seq<Finding>, pos: nat, c: nat)
    requires c <= |text| && Fits(text[..c], [], pos) && Fits(text, gs, c)
    ensures Fits(text, gs, pos)
    ensures Splice(text, gs, pos) == Splice(text[..c], [], pos) + Splice(text, gs, c)
  {
    SpliceFrom(text, gs, pos, c);
    assert text[..c][pos..] == text[pos..c];
  }

  /** Splicing a text in two parts, cut where no span crosses. */
  lemma {:induction false} SpliceJoin(text: Text, fs: seq<Finding>, gs: seq<Finding>, pos: nat, c: nat)
    requires c <= |text| && Fits(text[..c], fs, pos) && Fits(text, gs, c)
    ensures Fits(text, fs + gs, pos)
    ensures Splice(text, fs + gs, pos) == Splice(text[..c], fs, pos) + Splice(text, gs, c)
    decreases |fs|
  {
    hide *;
    JoinFits(text, fs, gs, pos, c);
    if fs == [] {
      assert fs + gs == gs;
      JoinNothing(text, gs, pos, c);
    } else {
      var s, e, tok, tail := fs[0].start, fs[0].end, Token(fs[0].tag), fs[1..];
      SpliceUnfold(text[..c], fs, pos);
      SpliceUnfold(text, fs + gs, pos);
      assert (fs + gs)[0] == fs[0] && (fs + gs)[1..] == tail + gs;
      SpliceJoin(text, tail, gs, e, c);
      assert text[..c][pos..s] == text[pos..s];
      Associate(text[pos..s] + tok, Splice(text[..c], tail, e), Splice(text, gs, c));
    }
  }

  function Move(f: Finding, c: nat): Finding {
    Finding(f.tag, f.start + c, f.end + c)
  }

  function MoveAll(fs: seq<Finding>, c: nat): (r: seq<Finding>)
    ensures |r| == |fs| && forall i :: 0 <= i < |fs| ==> r[i] == Move(fs[i], c)
  {
    if fs == [] then [] else [Move(fs[0], c)] + MoveAll(fs[1..], c)
  }

  lemma MoveMembers(fs: seq<Finding>, c: nat)
    ensures forall f :: f in MoveAll(fs, c) ==> exists g :: g in fs && f == Move(g, c)
  {
    forall f | f in MoveAll(fs, c) ensures exists g :: g in fs && f == Move(g, c) {
      var i :| 0 <= i < |fs| && MoveAll(fs, c)[i] == f;
      assert fs[i] in fs;
    }
  }

  lemma MoveFits(text: Text, fs: seq<Finding>, c: nat, p: nat)
    requires c <= |text| && Fits(text[c..], fs, p)
    ensures Fits(text, MoveAll(fs, c), c + p)
  {
    MoveMembers(fs, c);
  }

  lemma MoveUnfold(fs: seq<Finding>, c: nat)
    requires fs != []
    ensures var ms, f := MoveAll(fs, c), fs[0];
            && ms != [] && ms[0].tag == f.tag && ms[0].start == f.start + c && ms[0].end == f.end + c
            && ms[1..] == MoveAll(fs[1..], c)
  {
  }

  /** Splicing a suffix is splicing the whole at moved spans. */
  lemma {:induction false} SpliceMove(text: Text, fs: seq<Finding>, c: nat, p: nat)
    requires c <= |text| && Fits(text[c..], fs, p)
    ensures Fits(text, MoveAll(fs, c), c + p)
    ensures Splice(text, MoveAll(fs, c), c + p) == Splice(text[c..], fs, p)
    decreases |fs|
  {
    hide *;
    MoveFits(text, fs, c, p);
    if fs == [] {
      MoveNothing(text, c, p);
    } else {
      var slice, ms := text[c..], MoveAll(fs, c);
      MoveUnfold(fs, c);
      SpliceUnfold(slice, fs, p);
      SpliceUnfold(text, ms, c + p);
      var s, e := fs[0].start, fs[0].end;
      SpliceMove(text, fs[1..], c, e);
      assert text[c + p..c + s] == slice[p..s];
      assert ms[0].start == c + s && ms[0].end == c + e;
    }
  }

  lemma MoveNothing(text: Text, c: nat, p: nat)
    requires c <= |text| && Fits(text[c..], [], p)
    ensures MoveAll([], c) == [] && Splice(text, [], c + p) == Splice(text[c..], [], p)
  {
    assert text[c + p..] == text[c..][p..];
  }

  // ---- The result is a valid string

  lemma TokenWellFormed(tag: Text)
    requires WellFormed(tag)
    ensures WellFormed(Token(tag))
  {
    var o := TOKEN_OPEN;
    assert WellFormed(TOKEN_CLOSE) by { assert TOKEN_CLOSE[1..] == []; }
    assert WellFormed(o) by { AsciiWellFormed(o); }
    WellFormedConcat(o, tag);
    WellFormedConcat(o + tag, TOKEN_CLOSE);
  }

  lemma {:induction false} SpliceWellFormed(text: Text, fs: seq<Finding>, pos: nat)
    requires WellFormed(text) && Fits(text, fs, pos) && IsBoundary(text, pos)
    requires forall f :: f in fs ==> Aligned(text, f) && WellFormed(f.tag)
    ensures WellFormed(Splice(text, fs, pos))
    decreases |fs|
  {
    if fs == [] {
      WellFormedSplit(text, pos);
    } else {
      TailFits(text, fs, pos);
      assert Aligned(text, fs[0]);
      SpliceWellFormed(text, fs[1..], fs[0].end);
      WellFormedSlice(text, pos, fs[0].start);
      TokenWellFormed(fs[0].tag);
      WellFormedConcat(text[pos..fs[0].start], Token(fs[0].tag));
      WellFormedConcat(text[pos..fs[0].start] + Token(fs[0].tag), Splice(text, fs[1..], fs[0].end));
    }
  }

  // ---- Counting tokens

  /** How often `[`, the first byte of every token, occurs. */
  function Openings(t: Text): nat {
    if t == [] then 0 else (if t[0] == 0x5B then 1 else 0) + Openings(t[1..])
  }

  lemma {:induction false} OpeningsConcat(a: Text, b: Text)
    ensures Openings(a + b) == Openings(a) + Openings(b)
  {
    if a == [] {
      assert a + b == b;
    } else {
      assert (a + b)[1..] == a[1..] + b;
      OpeningsConcat(a[1..], b);
    }
  }

  lemma {:induction false} NoOpenings(t: Text)
    requires 0x5B !in t
    ensures Openings(t) == 0
  {
    if t != [] {
      NoOpenings(t[1..]);
    }
  }

  ghost predicate Plain(text: Text, fs: seq<Finding>) {
    forall f :: f in fs ==> 0x5B !in f.tag && forall k :: f.start <= k < f.end && k < |text| ==> text[k] != 0x5B
  }

  lemma TokenOpenings(tag: Text)
    requires 0x5B !in tag
    ensures Openings(Token(tag)) == 1
  {
    NoOpenings(tag);
    NoOpenings(TOKEN_OPEN[1..]);
    NoOpenings(TOKEN_CLOSE);
    OpeningsConcat(TOKEN_OPEN, tag);
    OpeningsConcat(TOKEN_OPEN + tag, TOKEN_CLOSE);
  }

  /** Where neither spans nor labels contain `[`, a splice has one more for every span. */
  lemma {:induction false} SpliceOpenings(text: Text, fs: seq<Finding>, pos: nat)
    requires Fits(text, fs, pos) && Plain(text, fs)
    ensures pos <= |text| && Openings(Splice(text, fs, pos)) == Openings(text[pos..]) + |fs|
    decreases |fs|
  {
    hide *;
    if fs == [] {
      OpeningsKept(text, pos);
    } else {
      var f, tail := fs[0], fs[1..];
      SpliceUnfold(text, fs, pos);
      PlainParts(text, fs);
      SpliceOpenings(text, tail, f.end);
      TokenOpenings(f.tag);
      NoOpenings(text[f.start..f.end]);
      ThreeOpenings(text[pos..f.start], text[f.start..f.end], text[f.end..]);
      assert text[pos..f.start] + text[f.start..f.end] + text[f.end..] == text[pos..];
      ThreeOpenings(text[pos..f.start], Token(f.tag), Splice(text, tail, f.end));
    }
  }

  lemma OpeningsKept(text: Text, pos: nat)
    requires Fits(text, [], pos)
    ensures pos <= |text| && Splice(text, [], pos) == text[pos..]
  {
  }

  lemma PlainParts(text: Text, fs: seq<Finding>)
    requires Plain(text, fs) && fs != [] && fs[0].start <= fs[0].end <= |text|
    ensures Plain(text, fs[1..]) && 0x5B !in fs[0].tag && 0x5B !in text[fs[0].start..fs[0].end]
  {
    assert fs[0] in fs;
  }

  lemma ThreeOpenings(a: Text, b: Text, c: Text)
    ensures Openings(a + b + c) == Openings(a) + Openings(b) + Openings(c)
  {
    OpeningsConcat(a, b);
    OpeningsConcat(a + b, c);
  }
}
