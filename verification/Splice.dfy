/** Replacing findings by `[REDACTED:label]` tokens: `apply_redactions`. The reference
    form is a left-to-right splice; the program edits in place from the right. */
module Splicing {
  import opened Utf8
  import opened Sequences
  import opened Findings

  /** `[REDACTED:` */
  const TOKEN_OPEN: Text := [0x5B, 0x52, 0x45, 0x44, 0x41, 0x43, 0x54, 0x45, 0x44, 0x3A]
  /** `]` */
  const TOKEN_CLOSE: Text := [0x5D]

  function Token(tag: Text): (r: Text)
    ensures |r| == |tag| + 11 && r[0] == 0x5B
  {
    TOKEN_OPEN + tag + TOKEN_CLOSE
  }

  /** In order and apart; touching and empty spans are allowed. */
  predicate Ordered(fs: seq<Finding>) {
    && (forall f :: f in fs ==> f.start <= f.end)
    && forall i, j :: 0 <= i < j < |fs| ==> fs[i].end <= fs[j].start
  }

  predicate Solid(fs: seq<Finding>) {
    forall f :: f in fs ==> f.start < f.end
  }

  /** Spans in order, all between `pos` and the end of the text. */
  predicate Fits(text: Text, fs: seq<Finding>, pos: nat) {
    && Ordered(fs) && pos <= |text|
    && forall f :: f in fs ==> pos <= f.start && f.end <= |text|
  }

  predicate Aligned(text: Text, f: Finding) {
    IsBoundary(text, f.start) && IsBoundary(text, f.end)
  }

  /** The text from `pos` on: untouched gaps interleaved with tokens. */
  function Splice(text: Text, fs: seq<Finding>, pos: nat): Text
    requires Fits(text, fs, pos)
  {
    if fs == [] then text[pos..]
    else text[pos..fs[0].start] + Token(fs[0].tag) + Splice(text, fs[1..], fs[0].end)
  }

  /** `String::replace_range`; what it requires is when the original does not panic. */
  function ReplaceRange(text: Text, start: nat, end: nat, token: Text): Text
    requires start <= end <= |text|
    requires IsBoundary(text, start) && IsBoundary(text, end)
  {
    text[..start] + token + text[end..]
  }

  lemma NothingSpliced(text: Text, fs: seq<Finding>)
    ensures fs[|fs|..] == [] && Fits(text, [], 0) && Splice(text, [], 0) == text
  {
  }

  lemma FitsParts(text: Text, fs: seq<Finding>, pos: nat)
    requires Fits(text, fs, pos)
    ensures Ordered(fs) && forall f :: f in fs ==> pos <= f.start && f.end <= |text|
  {
  }

  lemma TailFits(text: Text, fs: seq<Finding>, pos: nat)
    requires Fits(text, fs, pos) && fs != []
    ensures pos <= fs[0].start <= fs[0].end <= |text|
    ensures Fits(text, fs[1..], fs[0].end) && Fits(text, fs[1..], pos)
  {
    assert fs[0] in fs;
    forall f | f in fs[1..] ensures fs[0].end <= f.start {
      var i :| 0 <= i < |fs[1..]| && fs[1..][i] == f;
      assert fs[0].end <= fs[i + 1].start;
    }
  }

  lemma SpliceUnfold(text: Text, fs: seq<Finding>, pos: nat)
    requires Fits(text, fs, pos) && fs != []
    ensures pos <= fs[0].start <= fs[0].end <= |text| && Fits(text, fs[1..], fs[0].end)
    ensures Splice(text, fs, pos) == text[pos..fs[0].start] + Token(fs[0].tag) + Splice(text, fs[1..], fs[0].end)
  {
    TailFits(text, fs, pos);
  }

  /** Starting earlier only adds untouched bytes in front. */
  lemma SpliceFrom(text: Text, fs: seq<Finding>, p: nat, q: nat)
    requires Fits(text, fs, q) && p <= q
    ensures Fits(text, fs, p) && Splice(text, fs, p) == text[p..q] + Splice(text, fs, q)
  {
    if fs != [] {
      assert fs[0] in fs;
      assert text[p..fs[0].start] == text[p..q] + text[q..fs[0].start];
    }
  }

  lemma SpliceHead(text: Text, fs: seq<Finding>, q: nat)
    requires Fits(text, fs, q)
    ensures Splice(text, fs, q) == [] <==> q == |text| && fs == []
    ensures Splice(text, fs, q) != [] ==> (q < |text| && Splice(text, fs, q)[0] == text[q]) || Splice(text, fs, q)[0] == 0x5B
  {
    if fs != [] {
      assert fs[0] in fs;
    }
  }

  /** One in-place replacement turns the splice of the later spans into the splice
      with this span added, and it is always a valid edit. */
  lemma ReplaceExtends(text: Text, fs: seq<Finding>)
    requires Fits(text, fs, 0) && fs != [] && Aligned(text, fs[0])
    ensures Fits(text, fs[1..], 0)
    ensures var cur := Splice(text, fs[1..], 0);
            && fs[0].end <= |cur| && Aligned(cur, fs[0])
            && ReplaceRange(cur, fs[0].start, fs[0].end, Token(fs[0].tag)) == Splice(text, fs, 0)
  {
    TailFits(text, fs, 0);
    var f, rest := fs[0], fs[1..];
    var tail := Splice(text, rest, f.end);
    SpliceFrom(text, rest, 0, f.end);
    SpliceHead(text, rest, f.end);
    var cur := text[0..f.end] + tail;
    assert cur[..f.start] == text[0..f.start];
    assert cur[f.end..] == tail;
  }

  // ---- The in-place edit of `apply_redactions`

  predicate IsRedact(h: Hit) {
    h.action == Redact
  }

  predicate RightmostFirst(a: Hit, b: Hit) {
    a.f.start >= b.f.start
  }

  function FindingsOf(m: seq<Hit>): (r: seq<Finding>)
    ensures |r| == |m| && forall i :: 0 <= i < |m| ==> r[i] == m[i].f
  {
    seq(|m|, i requires 0 <= i < |m| => m[i].f)
  }

  lemma ToFindings(m: seq<Hit>, c: Hit)
    requires c in m
    ensures c.f in FindingsOf(m)
  {
    var i :| 0 <= i < |m| && m[i] == c;
    assert FindingsOf(m)[i] == c.f;
  }

  lemma FromFindings(m: seq<Hit>, f: Finding) returns (c: Hit)
    requires f in FindingsOf(m)
    ensures c in m && c.f == f
  {
    var i :| 0 <= i < |m| && FindingsOf(m)[i] == f;
    c := m[i];
  }

  /** The spans that end inside a text of length `n`. For spans in order these are a prefix. */
  function Reachable(fs: seq<Finding>, n: nat): seq<Finding> {
    if fs == [] || n < fs[0].end then [] else [fs[0]] + Reachable(fs[1..], n)
  }

  lemma {:induction false} ReachablePrefix(fs: seq<Finding>, n: nat)
    ensures Reachable(fs, n) <= fs
    ensures forall f :: f in Reachable(fs, n) ==> f.end <= n
    ensures |Reachable(fs, n)| < |fs| ==> n < fs[|Reachable(fs, n)|].end
  {
    if fs != [] && fs[0].end <= n {
      ReachablePrefix(fs[1..], n);
    }
  }

  lemma {:induction false} FilterSeparated(keep: Hit -> bool, m: seq<Hit>)
    requires Separated(m)
    ensures Separated(Filter(keep, m))
  {
    if m != [] {
      var rest := m[1..];
      FilterSeparated(keep, rest);
      assert forall j :: 1 <= j < |m| ==> m[0].f.end <= m[j].f.start;
      assert forall h :: h in rest ==> m[0].f.end <= h.f.start;
      assert m[0] in m;
      hide Separated;
      FilterCons(keep, m);
      ConsSeparated(m[0], Filter(keep, rest));
    }
  }

  lemma FilterCons(keep: Hit -> bool, m: seq<Hit>)
    requires m != []
    ensures Filter(keep, m) == (if keep(m[0]) then [m[0]] else []) + Filter(keep, m[1..])
  {
  }

  lemma ConsSeparated(h: Hit, m: seq<Hit>)
    requires Separated(m) && h.f.start < h.f.end && forall c :: c in m ==> h.f.end <= c.f.start
    ensures Separated([h] + m)
  {
  }

  lemma SeparatedOrdered(m: seq<Hit>)
    requires Separated(m)
    ensures Ordered(FindingsOf(m)) && Solid(FindingsOf(m))
  {
    forall f | f in FindingsOf(m) ensures f.start < f.end {
      var i :| 0 <= i < |m| && m[i].f == f;
      assert m[i] in m;
    }
  }

  lemma {:induction false} ReachableAll(fs: seq<Finding>, n: nat)
    requires forall f :: f in fs ==> f.end <= n
    ensures Reachable(fs, n) == fs
  {
    if fs != [] {
      ReachableAll(fs[1..], n);
    }
  }

  lemma OrderedSuffix(fs: seq<Finding>, i: nat)
    requires Ordered(fs) && i <= |fs|
    ensures Ordered(fs[i..])
  {
  }

  lemma ReachableFits(text: Text, fs: seq<Finding>)
    requires Ordered(fs)
    ensures Fits(text, Reachable(fs, |text|), 0)
  {
    ReachablePrefix(fs, |text|);
  }

  /** Spans in order end in order, so nothing past the first unreachable one is reachable. */
  lemma ReachableSuffix(fs: seq<Finding>, i: nat, n: nat)
    requires Ordered(fs) && i < |fs|
    ensures Reachable(fs[i..], n) == if n < fs[i].end then [] else [fs[i]] + Reachable(fs[i + 1..], n)
    ensures n < fs[i].end ==> Reachable(fs[i + 1..], n) == []
  {
    assert fs[i..][1..] == fs[i + 1..];
    if n < fs[i].end && i + 1 < |fs| {
      assert fs[i].end <= fs[i + 1].start && fs[i + 1] in fs;
    }
  }

  function Masked(input: Text, fs: seq<Finding>): Text
    requires Ordered(fs)
  {
    ReachableFits(input, fs);
    Splice(input, Reachable(fs, |input|), 0)
  }

  /** One turn of the right-to-left loop. The guard holds exactly for the spans inside
      the original text, however the edits so far have moved its end. */
  lemma EditStep(input: Text, fs: seq<Finding>, k: nat)
    requires Ordered(fs) && k < |fs|
    requires fs[k].end <= |input| ==> Aligned(input, fs[k])
    ensures Ordered(fs[k..]) && Ordered(fs[k + 1..]) && fs[k].start <= fs[k].end
    ensures var cur := Masked(input, fs[k + 1..]);
            && (fs[k].end <= |cur| <==> fs[k].end <= |input|)
            && (fs[k].end <= |cur| ==>
                  && Aligned(cur, fs[k])
                  && ReplaceRange(cur, fs[k].start, fs[k].end, Token(fs[k].tag)) == Masked(input, fs[k..]))
            && (|cur| < fs[k].end ==> cur == Masked(input, fs[k..]))
  {
    OrderedSuffix(fs, k);
    OrderedSuffix(fs, k + 1);
    ReachableFits(input, fs[k..]);
    ReachableFits(input, fs[k + 1..]);
    ReachableSuffix(fs, k, |input|);
    assert fs[k] in fs;
    if fs[k].end <= |input| {
      ReplaceExtends(input, Reachable(fs[k..], |input|));
    }
  }

  ghost predicate AlignedInside(input: Text, fs: seq<Finding>) {
    forall i :: 0 <= i < |fs| && fs[i].end <= |input| ==> Aligned(input, fs[i])
  }

  /** What a merge leaves when findings may be empty: in order and apart, and where two start
      together both are empty. */
  predicate Lined(m: seq<Hit>) {
    && (forall h :: h in m ==> h.f.start <= h.f.end)
    && forall i, j :: 0 <= i < j < |m| ==>
         m[i].f.end <= m[j].f.start && (m[i].f.start == m[j].f.start ==> m[j].f.start == m[j].f.end)
  }

  /** The spans in the order in which the edits leave their tokens: among empty ones at one
      place the last comes first, since the sort is stable and the edits go from the right. */
  function Edits(findings: seq<Hit>): seq<Finding> {
    FindingsOf(Reversed(Sort(RightmostFirst, Filter(IsRedact, findings))))
  }

  ghost predicate Descending(s: seq<Hit>) {
    forall i, j :: 0 <= i < j < |s| ==> s[j].f.end <= s[i].f.start
  }

  lemma ConsDescending(h: Hit, s: seq<Hit>)
    requires Descending(s) && forall g :: g in s ==> g.f.end <= h.f.start
    ensures Descending([h] + s)
  {
  }

  lemma DescendingTail(s: seq<Hit>)
    requires Descending(s) && s != []
    ensures Descending(s[1..]) && forall g :: g in s[1..] ==> g.f.end <= s[0].f.start
  {
    forall g | g in s[1..] ensures g.f.end <= s[0].f.start {
      var k :| 0 <= k < |s[1..]| && s[1..][k] == g;
      assert s[k + 1] == g;
    }
  }

  lemma {:induction false} InsertDescending(h: Hit, s: seq<Hit>)
    requires Descending(s) && h.f.start <= h.f.end
    requires forall g :: g in s ==> h.f.end <= g.f.start && (g.f.start == h.f.start ==> g.f.end == g.f.start)
    ensures Descending(Insert(RightmostFirst, h, s))
  {
    if s != [] {
      DescendingTail(s);
      assert s[0] in s && s == [s[0]] + s[1..];
      hide Descending;
      if RightmostFirst(h, s[0]) {
        forall g | g in s ensures g.f.end <= h.f.start {
          assert g == s[0] || g in s[1..];
        }
        ConsDescending(h, s);
      } else {
        InsertDescending(h, s[1..]);
        InsertMembers(RightmostFirst, h, s[1..]);
        ConsDescending(s[0], Insert(RightmostFirst, h, s[1..]));
      }
    } else {
      ConsDescending(h, s);
    }
  }

  lemma {:induction false} SortDescending(m: seq<Hit>)
    requires Lined(m)
    ensures Descending(Sort(RightmostFirst, m))
  {
    if m != [] {
      var rest := m[1..];
      assert m == [m[0]] + rest && m[0] in m;
      forall g | g in rest ensures m[0].f.end <= g.f.start && (g.f.start == m[0].f.start ==> g.f.end == g.f.start) {
        var k :| 0 <= k < |rest| && rest[k] == g;
        assert m[k + 1] == g;
      }
      SortMembers(RightmostFirst, rest);
      SortDescending(rest);
      InsertDescending(m[0], Sort(RightmostFirst, rest));
    }
  }

  lemma ConsLined(h: Hit, m: seq<Hit>)
    requires Lined(m) && h.f.start <= h.f.end
    requires forall g :: g in m ==> h.f.end <= g.f.start && (h.f.start == g.f.start ==> g.f.start == g.f.end)
    ensures Lined([h] + m)
  {
  }

  lemma {:induction false} FilterLined(keep: Hit -> bool, m: seq<Hit>)
    requires Lined(m)
    ensures Lined(Filter(keep, m))
  {
    if m != [] {
      var rest := m[1..];
      assert m[0] in m;
      forall g | g in rest ensures m[0].f.end <= g.f.start && (m[0].f.start == g.f.start ==> g.f.start == g.f.end) {
        var k :| 0 <= k < |rest| && rest[k] == g;
        assert m[k + 1] == g;
      }
      assert Lined(rest);
      hide Lined;
      FilterLined(keep, rest);
      FilterCons(keep, m);
      if keep(m[0]) {
        ConsLined(m[0], Filter(keep, rest));
      } else {
        assert [] + Filter(keep, rest) == Filter(keep, rest);
      }
    }
  }

  lemma ReversedOrdered(s: seq<Hit>)
    requires Descending(s) && forall h :: h in s ==> h.f.start <= h.f.end
    ensures Ordered(FindingsOf(Reversed(s)))
  {
    var r := Reversed(s);
    ReversedMembers(s);
    forall f | f in FindingsOf(r) ensures f.start <= f.end {
      var h := FromFindings(r, f);
    }
    forall i, j | 0 <= i < j < |r| ensures r[i].f.end <= r[j].f.start {
      ReversedAt(s, i);
      ReversedAt(s, j);
    }
  }

  lemma EditsOrdered(findings: seq<Hit>)
    requires Lined(findings)
    ensures Ordered(Edits(findings))
  {
    var redactable := Filter(IsRedact, findings);
    hide *;
    FilterLined(IsRedact, findings);
    SortDescending(redactable);
    SortMembers(RightmostFirst, redactable);
    LinedSpans(redactable);
    ReversedOrdered(Sort(RightmostFirst, redactable));
    EditsAre(findings);
  }

  /** Exactly the Redact findings are edited. */
  lemma EditsMembers(findings: seq<Hit>, f: Finding)
    ensures f in Edits(findings) <==> exists h :: h in findings && IsRedact(h) && h.f == f
  {
    var m := Reversed(Sort(RightmostFirst, Filter(IsRedact, findings)));
    SortMembers(RightmostFirst, Filter(IsRedact, findings));
    ReversedMembers(Sort(RightmostFirst, Filter(IsRedact, findings)));
    if f in FindingsOf(m) {
      var h := FromFindings(m, f);
    }
    if h :| h in findings && IsRedact(h) && h.f == f {
      ToFindings(m, h);
    }
  }

  lemma EditsAligned(input: Text, findings: seq<Hit>)
    requires forall h :: h in findings && IsRedact(h) && h.f.end <= |input| ==> Aligned(input, h.f)
    ensures AlignedInside(input, Edits(findings))
  {
    hide Edits;
    forall i | 0 <= i < |Edits(findings)| && Edits(findings)[i].end <= |input|
      ensures Aligned(input, Edits(findings)[i])
    {
      EditsMembers(findings, Edits(findings)[i]);
    }
  }

  lemma LinedSpans(m: seq<Hit>)
    requires Lined(m)
    ensures forall h :: h in m ==> h.f.start <= h.f.end
  {
  }

  lemma EditsAre(findings: seq<Hit>)
    ensures Edits(findings) == FindingsOf(Reversed(Sort(RightmostFirst, Filter(IsRedact, findings))))
    ensures forall h :: h in Filter(IsRedact, findings) <==> h in findings && IsRedact(h)
  {
  }

  /** Where no two findings start together the edits are those of the Redact findings. */
  lemma EditsOfSeparated(findings: seq<Hit>)
    requires Separated(findings)
    ensures Lined(findings) && Edits(findings) == FindingsOf(Filter(IsRedact, findings))
  {
    var redactable := Filter(IsRedact, findings);
    FilterSeparated(IsRedact, findings);
    assert Lined(findings) by { SeparatedLined(findings); }
    forall i, j | 0 <= i < j < |redactable| ensures !RightmostFirst(redactable[i], redactable[j]) {
      assert redactable[i] in redactable;
    }
    hide Lined, Separated;
    SortOfReversed(RightmostFirst, redactable);
    ReversedTwice(redactable);
  }

  /** Findings that start further right are edited behind the others; */
  lemma EditsSplit(a: seq<Hit>, b: seq<Hit>)
    requires forall x, y :: x in a && y in b ==> x.f.start < y.f.start
    ensures Edits(a + b) == Edits(a) + Edits(b)
  {
    var p, q := Filter(IsRedact, a), Filter(IsRedact, b);
    EditsAre(a);
    EditsAre(b);
    EditsAre(a + b);
    FilterConcat(IsRedact, a, b);
    assert forall x, y :: x in p && y in q ==> !RightmostFirst(x, y);
    hide *;
    SortSwaps(RightmostFirst, p, q);
    ReversedConcat(Sort(RightmostFirst, q), Sort(RightmostFirst, p));
    FindingsConcat(Reversed(Sort(RightmostFirst, p)), Reversed(Sort(RightmostFirst, q)));
  }

  lemma FindingsConcat(a: seq<Hit>, b: seq<Hit>)
    ensures FindingsOf(a + b) == FindingsOf(a) + FindingsOf(b)
  {
  }

  /** and of those that start together, as empty ones can, the last comes first. */
  lemma EditsTogether(m: seq<Hit>, p: nat)
    requires forall h :: h in m ==> h.f.start == p
    ensures Edits(m) == FindingsOf(Reversed(Filter(IsRedact, m)))
  {
    SortOfSorted(RightmostFirst, Filter(IsRedact, m));
  }

  lemma SeparatedLined(m: seq<Hit>)
    requires Separated(m)
    ensures Lined(m)
  {
    forall i, j | 0 <= i < j < |m| ensures m[i].f.start != m[j].f.start && m[i].f.end <= m[j].f.start {
      assert m[i] in m;
    }
  }

  /** The last `i` spans are replaced. */
  ghost predicate Edited(input: Text, ascending: seq<Hit>, cur: Text, i: nat) {
    && i <= |ascending|
    && Ordered(FindingsOf(ascending)[|ascending| - i..])
    && cur == Masked(input, FindingsOf(ascending)[|ascending| - i..])
  }

  lemma EditTurn(input: Text, ascending: seq<Hit>, cur: Text, i: nat)
    requires i < |ascending| && Edited(input, ascending, cur, i)
    requires Ordered(FindingsOf(ascending)) && AlignedInside(input, FindingsOf(ascending))
    ensures |Reversed(ascending)| == |ascending|
    ensures var f := Reversed(ascending)[i].f;
            && f.start <= f.end
            && (f.end <= |cur| ==>
                  && IsBoundary(cur, f.start) && IsBoundary(cur, f.end)
                  && Edited(input, ascending, ReplaceRange(cur, f.start, f.end, Token(f.tag)), i + 1))
            && (|cur| < f.end ==> Edited(input, ascending, cur, i + 1))
  {
    var fs := FindingsOf(ascending);
    var k := |fs| - 1 - i;
    ReversedAt(ascending, i);
    assert fs[k].end <= |input| ==> Aligned(input, fs[k]);
    hide Masked, Ordered, AlignedInside, ReplaceRange, Token, Reversed;
    EditStep(input, fs, k);
  }

  lemma EditBegins(input: Text, ascending: seq<Hit>)
    ensures Edited(input, ascending, input, 0)
  {
  }

  lemma EditEnds(input: Text, ascending: seq<Hit>, cur: Text)
    requires Edited(input, ascending, cur, |ascending|)
    ensures Ordered(FindingsOf(ascending)) && cur == Masked(input, FindingsOf(ascending))
  {
    assert FindingsOf(ascending)[0..] == FindingsOf(ascending);
  }

  method ApplyRedactions(input: Text, findings: seq<Hit>) returns (text: Text)
    requires Lined(findings)
    requires forall h :: h in findings && IsRedact(h) && h.f.end <= |input| ==> Aligned(input, h.f)
    ensures Ordered(Edits(findings))
    ensures text == Masked(input, Edits(findings))
  {
    EditsOrdered(findings);
    EditsAligned(input, findings);
    hide *;
    EditsAre(findings);
    var redactable := Filter(IsRedact, findings);
    redactable := Sort(RightmostFirst, redactable);
    ghost var ascending := Reversed(redactable);
    ReversedTwice(redactable);
    ReversedMembers(redactable);
    text := input;
    EditBegins(input, ascending);
    for i := 0 to |redactable|
      invariant Edited(input, ascending, text, i)
    {
      var f := redactable[i].f;
      EditTurn(input, ascending, text, i);
      if f.start <= |text| && f.end <= |text| {
        text := ReplaceRange(text, f.start, f.end, Token(f.tag));
      }
    }
    EditEnds(input, ascending, text);
  }
}
