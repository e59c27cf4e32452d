/** A whole streamed text: deltas fed one by one, a flush at the end. */
module Streaming {
  import opened Utf8
  import opened Findings
  import opened Splicing
  import opened SpliceLaws
  import opened Scanning
  import opened Releasing

  predicate AllWellFormed(deltas: seq<Text>) {
    forall d :: d in deltas ==> WellFormed(d)
  }

  lemma {:induction false} ConcatWellFormed(deltas: seq<Text>)
    requires AllWellFormed(deltas)
    ensures WellFormed(Concat(deltas))
  {
    if deltas != [] {
      ConcatWellFormed(deltas[1..]);
      WellFormedConcat(deltas[0], Concat(deltas[1..]));
    }
  }

  ghost predicate Runnable(cfg: Config, pending: Text, deltas: seq<Text>) {
    Scannable(cfg.ds, pending) && AllWellFormed(deltas)
  }

  lemma RunnableFrom(cfg: Config, pending: Text, deltas: seq<Text>)
    requires Scannable(cfg.ds, pending) && AllWellFormed(deltas)
    ensures Runnable(cfg, pending, deltas)
  {
  }

  /** The buffer after the first delta, and after the release that follows it. */
  lemma RunStep(cfg: Config, pending: Text, deltas: seq<Text>)
    requires Runnable(cfg, pending, deltas) && deltas != []
    ensures Scannable(cfg.ds, pending + deltas[0])
    ensures Runnable(cfg, ReleaseOf(cfg, pending + deltas[0], false).rest, deltas[1..])
  {
    assert deltas[0] in deltas;
    WellFormedConcat(pending, deltas[0]);
    ReleaseWellFormed(cfg, pending + deltas[0], false);
  }

  /** Everything emitted for the deltas and the final flush. */
  function Stream(cfg: Config, pending: Text, deltas: seq<Text>): Text
    requires Runnable(cfg, pending, deltas)
    decreases |deltas|
  {
    if deltas == [] then ReleaseOf(cfg, pending, true).text
    else
      RunStep(cfg, pending, deltas);
      var r := ReleaseOf(cfg, pending + deltas[0], false);
      r.text + Stream(cfg, r.rest, deltas[1..])
  }

  /** The spans masked by all those releases, in the coordinates of the whole text;
      `at` is where the buffer starts in it. */
  function StreamMasks(cfg: Config, pending: Text, at: nat, deltas: seq<Text>): seq<Finding>
    requires Runnable(cfg, pending, deltas)
    decreases |deltas|
  {
    if deltas == [] then MoveAll(MasksOf(cfg, pending, true), at)
    else
      RunStep(cfg, pending, deltas);
      var buffer := pending + deltas[0];
      MoveAll(MasksOf(cfg, buffer, false), at)
      + StreamMasks(cfg, ReleaseOf(cfg, buffer, false).rest, at + CutOf(cfg, buffer, false), deltas[1..])
  }

  /** Where the releases before the final flush cut the whole text. */
  function StreamCuts(cfg: Config, pending: Text, at: nat, deltas: seq<Text>): seq<nat>
    requires Runnable(cfg, pending, deltas)
    decreases |deltas|
  {
    if deltas == [] then []
    else
      RunStep(cfg, pending, deltas);
      var buffer := pending + deltas[0];
      var cut := at + CutOf(cfg, buffer, false);
      [cut] + StreamCuts(cfg, ReleaseOf(cfg, buffer, false).rest, cut, deltas[1..])
  }

  /** How far the text has arrived after each delta; checkable before anything is sent. */
  function Ends(from: nat, deltas: seq<Text>): seq<nat>
    decreases |deltas|
  {
    if deltas == [] then [] else [from + |deltas[0]|] + Ends(from + |deltas[0]|, deltas[1..])
  }

  lemma EndsStep(from: nat, deltas: seq<Text>)
    requires deltas != []
    ensures var n := from + |deltas[0]|;
            && n in Ends(from, deltas)
            && forall k :: k in Ends(from, deltas) <==> k == n || k in Ends(n, deltas[1..])
  {
  }

  lemma {:induction false} EndsAfter(from: nat, deltas: seq<Text>)
    ensures forall n :: n in Ends(from, deltas) ==> from <= n
    ensures deltas == [] ==> Ends(from, deltas) == []
    decreases |deltas|
  {
    if deltas != [] {
      EndsStep(from, deltas);
      EndsAfter(from + |deltas[0]|, deltas[1..]);
    }
  }

  /** `text` from `at` on is what is buffered and what is still to come. */
  ghost predicate Ahead(text: Text, at: nat, pending: Text, deltas: seq<Text>) {
    && at <= |text| && WellFormed(text) && IsBoundary(text, at)
    && text[at..] == pending + Concat(deltas)
  }

  /** After a delta the buffer is a slice of the text, and the rest of it is again
      what is ahead. */
  lemma AheadStep(cfg: Config, text: Text, at: nat, pending: Text, deltas: seq<Text>)
    requires Runnable(cfg, pending, deltas) && Ahead(text, at, pending, deltas) && deltas != []
    ensures Scannable(cfg.ds, pending + deltas[0])
    ensures var buffer := pending + deltas[0];
            var n := at + |buffer|;
            && n <= |text| && IsBoundary(text, n) && buffer == text[at..n]
            && Ahead(text, at + CutOf(cfg, buffer, false), ReleaseOf(cfg, buffer, false).rest, deltas[1..])
  {
    hide *;
    RunStep(cfg, pending, deltas);
    RunParts(cfg, ReleaseOf(cfg, pending + deltas[0], false).rest, deltas[1..]);
    var buffer, rest := pending + deltas[0], Concat(deltas[1..]);
    var k := CutOf(cfg, buffer, false);
    ConcatStep(pending, deltas);
    AheadParts(text, at, pending, deltas);
    SplitAhead(text, at, buffer, rest, k);
    ConcatWellFormed(deltas[1..]);
    BoundaryBefore(text, at + |buffer|);
    ReleaseParts(cfg, buffer, false);
    SliceBoundary(text, at, at + |buffer|, k);
    AheadFrom(text, at + k, buffer[k..], deltas[1..]);
  }

  lemma ConcatStep(pending: Text, deltas: seq<Text>)
    requires deltas != []
    ensures pending + Concat(deltas) == (pending + deltas[0]) + Concat(deltas[1..])
  {
  }

  lemma AheadParts(text: Text, at: nat, pending: Text, deltas: seq<Text>)
    requires Ahead(text, at, pending, deltas)
    ensures at <= |text| && WellFormed(text) && IsBoundary(text, at) && text[at..] == pending + Concat(deltas)
  {
  }

  lemma AheadFrom(text: Text, at: nat, pending: Text, deltas: seq<Text>)
    requires at <= |text| && WellFormed(text) && IsBoundary(text, at) && text[at..] == pending + Concat(deltas)
    ensures Ahead(text, at, pending, deltas)
  {
  }

  lemma SplitAhead(text: Text, at: nat, buffer: Text, rest: Text, k: nat)
    requires at <= |text| && text[at..] == buffer + rest && k <= |buffer|
    ensures at + |buffer| <= |text|
    ensures text[at..at + |buffer|] == buffer && text[at + |buffer|..] == rest
    ensures text[at + k..] == buffer[k..] + rest
  {
    var ahead := text[at..];
    assert ahead[..|buffer|] == buffer;
    assert ahead[|buffer|..] == rest;
    assert ahead[k..] == buffer[k..] + rest;
  }

  /** One release, in the coordinates of the whole text. */
  lemma ReleaseInText(cfg: Config, text: Text, at: nat, n: nat, flush: bool)
    requires at <= n <= |text| && Scannable(cfg.ds, text[at..n])
    ensures var buffer := text[at..n];
            var cut := at + CutOf(cfg, buffer, flush);
            var masks := MoveAll(MasksOf(cfg, buffer, flush), at);
            && Fits(text[..cut], masks, at)
            && ReleaseOf(cfg, buffer, flush).text == Splice(text[..cut], masks, at)
  {
    hide *;
    var buffer := text[at..n];
    var k := CutOf(cfg, buffer, flush);
    ReleaseParts(cfg, buffer, flush);
    assert text[..at + k][at..] == buffer[..k];
    SpliceMove(text[..at + k], MasksOf(cfg, buffer, flush), at, 0);
  }

  /** What a run emits is the whole text with the masked spans replaced: nothing is
      lost, repeated or reordered. */
  lemma {:induction false} StreamIsSplice(cfg: Config, text: Text, at: nat, pending: Text, deltas: seq<Text>)
    requires Runnable(cfg, pending, deltas) && Ahead(text, at, pending, deltas)
    ensures Fits(text, StreamMasks(cfg, pending, at, deltas), at)
    ensures Stream(cfg, pending, deltas) == Splice(text, StreamMasks(cfg, pending, at, deltas), at)
    decreases |deltas|
  {
    hide *;
    AheadParts(text, at, pending, deltas);
    if deltas == [] {
      NothingAhead(pending, deltas);
      assert pending == text[at..|text|] && text[..|text|] == text;
      RunParts(cfg, pending, deltas);
      ReleaseInText(cfg, text, at, |text|, true);
      FlushTakesAll(cfg, pending);
      LastRelease(cfg, pending, at, deltas);
    } else {
      AheadStep(cfg, text, at, pending, deltas);
      RunStep(cfg, pending, deltas);
      var buffer := pending + deltas[0];
      var cut := at + CutOf(cfg, buffer, false);
      var rest := ReleaseOf(cfg, buffer, false).rest;
      ReleaseInText(cfg, text, at, at + |buffer|, false);
      StreamIsSplice(cfg, text, cut, rest, deltas[1..]);
      SpliceJoin(text, MoveAll(MasksOf(cfg, buffer, false), at), StreamMasks(cfg, rest, cut, deltas[1..]), at, cut);
      NextRelease(cfg, pending, at, deltas);
    }
  }

  /** The emitted text, byte by byte: each masked span is its label in brackets, and every
      other byte arrives as it was. */
  lemma StreamReplaced(cfg: Config, deltas: seq<Text>)
    requires Runnable(cfg, [], deltas)
    ensures Replaced(Concat(deltas), StreamMasks(cfg, [], 0, deltas), Stream(cfg, [], deltas))
  {
    var text := Concat(deltas);
    Start(deltas);
    hide *;
    StreamIsSplice(cfg, text, 0, [], deltas);
    ReplacedIff(text, StreamMasks(cfg, [], 0, deltas), Stream(cfg, [], deltas));
  }

  lemma NothingAhead(pending: Text, deltas: seq<Text>)
    requires deltas == []
    ensures pending + Concat(deltas) == pending
  {
  }

  lemma RunParts(cfg: Config, pending: Text, deltas: seq<Text>)
    requires Runnable(cfg, pending, deltas)
    ensures Scannable(cfg.ds, pending) && AllWellFormed(deltas)
  {
  }

  lemma FlushTakesAll(cfg: Config, pending: Text)
    requires Scannable(cfg.ds, pending)
    ensures CutOf(cfg, pending, true) == |pending| && MasksOf(cfg, pending, true) == Found(cfg, pending)
  {
    FoundGood(cfg, pending);
    FlushCutsAtEnd(pending, Found(cfg, pending));
  }

  lemma LastRelease(cfg: Config, pending: Text, at: nat, deltas: seq<Text>)
    requires Runnable(cfg, pending, deltas) && deltas == []
    ensures Stream(cfg, pending, deltas) == ReleaseOf(cfg, pending, true).text
    ensures StreamMasks(cfg, pending, at, deltas) == MoveAll(MasksOf(cfg, pending, true), at)
    ensures StreamCuts(cfg, pending, at, deltas) == []
  {
  }

  lemma NextRelease(cfg: Config, pending: Text, at: nat, deltas: seq<Text>)
    requires Runnable(cfg, pending, deltas) && deltas != []
    ensures Scannable(cfg.ds, pending + deltas[0])
    ensures var buffer := pending + deltas[0];
            var r, cut := ReleaseOf(cfg, buffer, false), at + CutOf(cfg, buffer, false);
            && Runnable(cfg, r.rest, deltas[1..])
            && Stream(cfg, pending, deltas) == r.text + Stream(cfg, r.rest, deltas[1..])
            && StreamMasks(cfg, pending, at, deltas)
               == MoveAll(MasksOf(cfg, buffer, false), at) + StreamMasks(cfg, r.rest, cut, deltas[1..])
            && StreamCuts(cfg, pending, at, deltas) == [cut] + StreamCuts(cfg, r.rest, cut, deltas[1..])
  {
    hide Scannable, Runnable, ReleaseOf, CutOf, MasksOf, MoveAll;
    RunStep(cfg, pending, deltas);
  }

  /** A text arrives up to character boundaries. */
  lemma {:induction false} EndsAligned(cfg: Config, text: Text, pending: Text, at: nat, from: nat, deltas: seq<Text>)
    requires Runnable(cfg, pending, deltas) && Ahead(text, at, pending, deltas) && from == at + |pending|
    ensures forall n :: n in Ends(from, deltas) ==> n <= |text| && IsBoundary(text, n)
    decreases |deltas|
  {
    hide *;
    EndsAfter(from, deltas);
    if deltas != [] {
      AheadStep(cfg, text, at, pending, deltas);
      NextRelease(cfg, pending, at, deltas);
      EndsStep(from, deltas);
      RestLength(cfg, pending + deltas[0]);
      var buffer := pending + deltas[0];
      var cut, rest := at + CutOf(cfg, buffer, false), ReleaseOf(cfg, buffer, false).rest;
      EndsAligned(cfg, text, rest, cut, from + |deltas[0]|, deltas[1..]);
    }
  }

  lemma TwoDeltas(a: Text, b: Text)
    requires WellFormed(a) && WellFormed(b)
    ensures AllWellFormed([a, b]) && Concat([a, b]) == a + b && |a| in Ends(0, [a, b])
  {
    hide WellFormed;
    var deltas := [a, b];
    assert deltas[1..] == [b] && [b][1..] == [] && deltas[0] == a;
    assert b + [] == b && Concat([b]) == b;
  }

  lemma OneDelta(text: Text)
    requires WellFormed(text)
    ensures AllWellFormed([text]) && Concat([text]) == text && |text| in Ends(0, [text])
  {
    hide WellFormed;
    assert [text][1..] == [] && text + [] == text;
  }

  lemma RestLength(cfg: Config, buffer: Text)
    requires Scannable(cfg.ds, buffer)
    ensures CutOf(cfg, buffer, false) + |ReleaseOf(cfg, buffer, false).rest| == |buffer|
  {
  }

  lemma Start(deltas: seq<Text>)
    requires AllWellFormed(deltas)
    ensures Ahead(Concat(deltas), 0, [], deltas)
  {
    ConcatWellFormed(deltas);
    assert [] + Concat(deltas) == Concat(deltas);
  }
}
