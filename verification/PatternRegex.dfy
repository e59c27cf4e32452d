/** The matchers of the shipped patterns take what their regular expressions prefer. */
module PatternRegexes {
  import opened Utf8
  import opened Patterns
  import opened Regexes
  import Ssn
  import Card
  import Email

  // ---- Runs of characters

  predicate AllOk(ok: Text -> bool, after: seq<Text>, i: nat, n: nat) {
    n == 0 || (i + n <= |after| && forall k :: i <= k < i + n ==> ok(after[k]))
  }

  function Times(ok: Text -> bool, n: nat): Re {
    Repeat(One(ok), n, UpTo(n), true)
  }

  lemma RepeatOne(t: Around, ok: Text -> bool, least: nat, most: Most, i: nat)
    ensures var re := Repeat(One(ok), least, most, true);
            var stop := if least == 0 then [i] else [];
            Ends(t, re, i) == if most != UpTo(0) && i < |t.after| && ok(t.after[i]) then Ends(t, Fewer(re), i + 1) + stop else stop
  {
    var re := Repeat(One(ok), least, most, true);
    var stop := if least == 0 then [i] else [];
    if most != UpTo(0) && i < |t.after| {
      if ok(t.after[i]) {
        assert [i + 1][1..] == [] && Beyond([i + 1], i) == [i + 1];
        OneEnd(t, Fewer(re), i + 1, i + 1);
      } else {
        assert [] + stop == stop;
      }
    }
  }

  lemma {:induction false} TimesEnds(t: Around, ok: Text -> bool, n: nat, i: nat)
    ensures Ends(t, Times(ok, n), i) == if AllOk(ok, t.after, i, n) then [i + n] else []
    decreases n
  {
    hide Ends;
    RepeatOne(t, ok, n, UpTo(n), i);
    if n > 0 {
      TimesEnds(t, ok, n - 1, i + 1);
      assert Fewer(Times(ok, n)) == Times(ok, n - 1);
      assert Ends(t, Times(ok, n - 1), i + 1) + [] == Ends(t, Times(ok, n - 1), i + 1);
    }
  }

  lemma TimesThen(t: Around, ok: Text -> bool, n: nat, re: Re, i: nat)
    ensures Ends(t, Then(Times(ok, n), re), i) == if AllOk(ok, t.after, i, n) then Ends(t, re, i + n) else []
  {
    TimesEnds(t, ok, n, i);
    if AllOk(ok, t.after, i, n) {
      OneEnd(t, re, i + n, i);
    }
  }

  // ---- The Social Security Number

  predicate IsDash(c: Text) {
    c == [0x2D]
  }

  /** `\b\d{3}-\d{2}-\d{4}\b` */
  function SsnRe(cls: Classes): Re {
    var d := cls.digit;
    Then(Edge, Then(Times(d, 3), Then(One(IsDash), Then(Times(d, 2), Then(One(IsDash), Then(Times(d, 4), Edge))))))
  }

  lemma EdgeAlone(t: Around, i: nat)
    ensures Ends(t, Edge, i) == if EdgeAt(t, i) then [i] else []
  {
  }

  lemma SsnIsRegex(cls: Classes, before: seq<Text>, after: seq<Text>)
    requires GoodClasses(cls)
    ensures Ssn.SsnMatcher(cls)(before, after) == Preferred(Around(cls, before, after), SsnRe(cls))
  {
    var t, d := Around(cls, before, after), cls.digit;
    SsnReIs(cls);
    SsnMatcherIs(cls, before, after);
    ShapeIs(cls, after);
    PreferredIs(t, SsnRe(cls));
    hide *;
    var r4 := Then(Times(d, 4), Edge);
    var r3 := Then(One(IsDash), r4);
    var r2 := Then(Times(d, 2), r3);
    var r1 := Then(One(IsDash), r2);
    var r0 := Then(Times(d, 3), r1);
    EdgeThen(t, r0, 0);
    TimesThen(t, d, 3, r1, 0);
    OneThen(t, IsDash, r2, 3);
    TimesThen(t, d, 2, r3, 4);
    OneThen(t, IsDash, r4, 6);
    TimesThen(t, d, 4, Edge, 7);
    EdgeAlone(t, 11);
    if Ssn.Shape(cls, after) {
      SsnEdges(t);
    }
  }

  lemma PreferredIs(t: Around, re: Re)
    ensures Preferred(t, re) == if Ends(t, re, 0) == [] then 0 else Ends(t, re, 0)[0]
  {
  }

  lemma SsnReIs(cls: Classes)
    ensures var d := cls.digit;
            SsnRe(cls)
            == Then(Edge, Then(Times(d, 3), Then(One(IsDash), Then(Times(d, 2), Then(One(IsDash), Then(Times(d, 4), Edge))))))
  {
  }

  lemma SsnMatcherIs(cls: Classes, before: seq<Text>, after: seq<Text>)
    ensures Ssn.SsnMatcher(cls)(before, after)
         == if StartsWord(cls, before) && Ssn.Shape(cls, after) && EndsWord(cls, after, 11) then 11 else 0
  {
  }

  lemma SsnEdges(t: Around)
    requires GoodClasses(t.cls) && Ssn.Shape(t.cls, t.after)
    ensures EdgeAt(t, 0) <==> StartsWord(t.cls, t.before)
    ensures EdgeAt(t, 11) <==> EndsWord(t.cls, t.after, 11)
  {
  }

  lemma ShapeIs(cls: Classes, after: seq<Text>)
    ensures Ssn.Shape(cls, after) <==>
            && AllOk(cls.digit, after, 0, 3) && 3 < |after| && IsDash(after[3]) && AllOk(cls.digit, after, 4, 2)
            && 6 < |after| && IsDash(after[6]) && AllOk(cls.digit, after, 7, 4)
  {
  }

  // ---- The email address

  predicate IsAt(c: Text) {
    c == [0x40]
  }

  predicate IsDot(c: Text) {
    c == [0x2E]
  }

  function AtLeast(ok: Text -> bool, n: nat): Re {
    Repeat(One(ok), n, Unlimited, true)
  }

  /** `[a-z]{2,}\b` */
  function TopRe(): Re {
    Then(AtLeast(Email.IsLetter, 2), Edge)
  }

  /** `\.[a-z]{2,}\b` */
  function DotRe(): Re {
    Then(One(IsDot), TopRe())
  }

  /** `[a-z0-9.-]+\.[a-z]{2,}\b` */
  function HostRe(): Re {
    Then(AtLeast(Email.IsHostChar, 1), DotRe())
  }

  /** `@[a-z0-9.-]+\.[a-z]{2,}\b` */
  function AtRe(): Re {
    Then(One(IsAt), HostRe())
  }

  /** `(?i)\b[a-z0-9._%+-]+@[a-z0-9.-]+\.[a-z]{2,}\b` */
  function EmailRe(): Re {
    Then(Edge, Then(AtLeast(Email.IsLocalChar, 1), AtRe()))
  }

  /** From `e` down to `lo`. */
  function Down(e: int, lo: nat): (r: seq<nat>)
    ensures forall j :: j in r ==> lo <= j <= e
    decreases e - lo + 1
  {
    if e < lo then [] else [e as nat] + Down(e - 1, lo)
  }

  lemma {:induction false} DownLast(e: int, lo: nat)
    requires lo <= e
    ensures Down(e, lo) == Down(e, lo + 1) + [lo]
    decreases e - lo
  {
    if e > lo {
      DownLast(e - 1, lo);
    }
  }

  lemma DownShort(i: nat, n: nat)
    ensures Down(i, i + n) == if n == 0 then [i] else []
  {
  }

  lemma FewerRuns(ok: Text -> bool, n: nat)
    ensures AtLeast(ok, n) == Repeat(One(ok), n, Unlimited, true)
    ensures Fewer(AtLeast(ok, n)) == AtLeast(ok, if n == 0 then 0 else n - 1)
  {
  }

  lemma RunEndIs(ok: Text -> bool, after: seq<Text>, i: nat)
    requires i <= |after|
    ensures Email.RunEnd(ok, after, i) == if i < |after| && ok(after[i]) then Email.RunEnd(ok, after, i + 1) else i
  {
  }

  /** A greedy run: as much as there is first, and then less and less. */
  lemma {:induction false} GreedyEnds(t: Around, ok: Text -> bool, n: nat, i: nat)
    requires i <= |t.after|
    ensures Ends(t, AtLeast(ok, n), i) == Down(Email.RunEnd(ok, t.after, i), i + n)
    decreases |t.after| - i
  {
    hide Ends, EndsAll;
    RepeatOne(t, ok, n, Unlimited, i);
    var e := Email.RunEnd(ok, t.after, i);
    var fewer := if n == 0 then 0 else n - 1;
    FewerRuns(ok, n);
    RunEndIs(ok, t.after, i);
    hide *;
    if i < |t.after| && ok(t.after[i]) {
      GreedyEnds(t, ok, fewer, i + 1);
      if n == 0 {
        DownLast(e, i);
      } else {
        assert Down(e, i + n) + [] == Down(e, i + n);
      }
    } else {
      DownShort(i, n);
    }
  }

  lemma GreedyThen(t: Around, ok: Text -> bool, n: nat, re: Re, i: nat)
    requires i <= |t.after|
    ensures Ends(t, Then(AtLeast(ok, n), re), i) == EndsAll(t, re, Down(Email.RunEnd(ok, t.after, i), i + n), i)
  {
    GreedyEnds(t, ok, n, i);
  }

  lemma DownFirst(t: Around, re: Re, e: nat, lo: nat, b: nat)
    requires b <= lo <= e
    ensures EndsAll(t, re, Down(e, lo), b) == Ends(t, re, e) + EndsAll(t, re, Down(e - 1, lo), b)
  {
    assert Down(e, lo)[1..] == Down(e - 1, lo) && Down(e, lo)[0] == e;
  }

  lemma FirstOfConcat(a: seq<nat>, b: seq<nat>)
    ensures FirstOf(a + b) == if a == [] then FirstOf(b) else a[0]
  {
    if a == [] {
      assert a + b == b;
    }
  }

  predicate Letter(c: char) {
    'a' <= c <= 'z' || 'A' <= c <= 'Z'
  }

  predicate LetterOrDigit(c: char) {
    Letter(c) || '0' <= c <= '9'
  }

  /** The classes of the expression, byte by byte. */
  lemma EmailClasses(b: byte)
    ensures var c := b as char;
            && (Email.IsLetter([b]) <==> Letter(c))
            && (Email.IsHostChar([b]) <==> LetterOrDigit(c) || c in ".-")
            && (Email.IsLocalChar([b]) <==> LetterOrDigit(c) || c in "._%+-")
  {
  }

  lemma CardClasses(b: byte)
    ensures Card.IsSeparator([b]) <==> (b as char) in " -"
  {
  }

  /** The letters that case folding adds to `[a-z]` are word characters. */
  ghost predicate FoldsAreWords(cls: Classes) {
    forall c :: Email.IsLetter(c) ==> cls.word(c)
  }

  lemma {:induction false} LettersPreferred(t: Around, lo: nat, hi: int, b: nat)
    requires GoodClasses(t.cls) && FoldsAreWords(t.cls) && b <= lo && hi <= |t.after|
    requires forall j :: lo <= j < hi ==> Email.IsLetter(t.after[j])
    ensures FirstOf(EndsAll(t, Edge, Down(hi, lo + 2), b)) == if hi < 0 then 0 else Email.LettersEnd(t.cls, t.after, lo, hi)
    decreases if hi < 0 then 0 else hi + 1
  {
    if lo + 2 <= hi {
      LettersPreferred(t, lo, hi - 1, b);
      EdgeAlone(t, hi);
      assert t.cls.word(t.after[hi - 1]);
      hide Ends;
      DownFirst(t, Edge, hi, lo + 2, b);
      FirstOfConcat(Ends(t, Edge, hi), EndsAll(t, Edge, Down(hi - 1, lo + 2), b));
    }
  }

  lemma TopPreferred(t: Around, dot: nat)
    requires GoodClasses(t.cls) && FoldsAreWords(t.cls) && dot < |t.after|
    ensures FirstOf(Ends(t, TopRe(), dot + 1)) == Email.TopEnd(t.cls, t.after, dot)
    ensures Ends(t, TopRe(), dot + 1) == [] <==> Email.TopEnd(t.cls, t.after, dot) == 0
  {
    var i := dot + 1;
    GreedyThen(t, Email.IsLetter, 2, Edge, i);
    LettersPreferred(t, i, Email.RunEnd(Email.IsLetter, t.after, i), i);
    if Ends(t, TopRe(), i) != [] {
      assert Ends(t, TopRe(), i)[0] in Ends(t, TopRe(), i);
    }
  }

  lemma {:induction false} HostPreferred(t: Around, lo: nat, hi: nat, b: nat)
    requires GoodClasses(t.cls) && FoldsAreWords(t.cls) && b <= lo && hi <= |t.after|
    ensures FirstOf(EndsAll(t, DotRe(), Down(hi - 1, lo + 1), b)) == Email.HostEnd(t.cls, t.after, lo, hi)
    decreases hi
  {
    if lo + 2 <= hi {
      HostPreferred(t, lo, hi - 1, b);
      OneThen(t, IsDot, TopRe(), hi - 1);
      TopPreferred(t, hi - 1);
      hide Ends;
      DownFirst(t, DotRe(), hi - 1, lo + 1, b);
      FirstOfConcat(Ends(t, DotRe(), hi - 1), EndsAll(t, DotRe(), Down(hi - 2, lo + 1), b));
    }
  }

  /** The host runs as far as it can; where it stops there is no dot. */
  lemma HostRunPreferred(t: Around, lo: nat)
    requires GoodClasses(t.cls) && FoldsAreWords(t.cls) && lo <= |t.after|
    ensures var e := Email.RunEnd(Email.IsHostChar, t.after, lo);
            FirstOf(Ends(t, HostRe(), lo)) == Email.HostEnd(t.cls, t.after, lo, e)
  {
    var e := Email.RunEnd(Email.IsHostChar, t.after, lo);
    GreedyThen(t, Email.IsHostChar, 1, DotRe(), lo);
    HostPreferred(t, lo, e, lo);
    if lo + 1 <= e {
      OneThen(t, IsDot, TopRe(), e);
      hide Ends;
      DownFirst(t, DotRe(), e, lo + 1, lo);
      FirstOfConcat(Ends(t, DotRe(), e), EndsAll(t, DotRe(), Down(e - 1, lo + 1), lo));
    }
  }

  lemma {:induction false} NoneBelow(t: Around, re: Re, e: int, lo: nat, b: nat)
    requires b <= lo && forall j: nat :: lo <= j <= e ==> Ends(t, re, j) == []
    ensures EndsAll(t, re, Down(e, lo), b) == []
    decreases e + 1 - lo
  {
    if lo <= e {
      NoneBelow(t, re, e - 1, lo, b);
      DownFirst(t, re, e, lo, b);
    }
  }

  /** The name ends in front of the `@`: no shorter one does, for it is no part of a name. */
  lemma BodyPreferred(t: Around)
    requires GoodClasses(t.cls) && FoldsAreWords(t.cls)
    ensures FirstOf(Ends(t, Then(AtLeast(Email.IsLocalChar, 1), AtRe()), 0)) == Email.EmailLength(t.cls, t.after)
  {
    hide *;
    var at := Email.RunEnd(Email.IsLocalChar, t.after, 0);
    GreedyThen(t, Email.IsLocalChar, 1, AtRe(), 0);
    AtThen(t, at);
    EmailLengthIs(t.cls, t.after);
    forall j: nat | 1 <= j <= at - 1 ensures Ends(t, AtRe(), j) == [] {
      AtThen(t, j);
      NameHasNoAt(t.after[j]);
    }
    NoneBelow(t, AtRe(), at - 1, 1, 0);
    if at > 0 {
      DownFirst(t, AtRe(), at, 1, 0);
      assert Ends(t, AtRe(), at) + [] == Ends(t, AtRe(), at);
    } else {
      NoneDown(t, AtRe());
    }
    FirstOfNone();
    if at < |t.after| {
      HostRunPreferred(t, at + 1);
    }
  }

  lemma FirstOfNone()
    ensures FirstOf([]) == 0
  {
  }

  lemma NoneDown(t: Around, re: Re)
    ensures EndsAll(t, re, Down(0, 1), 0) == []
  {
  }

  lemma NameHasNoAt(c: Text)
    requires Email.IsLocalChar(c)
    ensures !IsAt(c)
  {
  }

  lemma AtThen(t: Around, i: nat)
    ensures Ends(t, AtRe(), i) == if i < |t.after| && IsAt(t.after[i]) then Ends(t, HostRe(), i + 1) else []
  {
    hide Ends;
    OneThen(t, IsAt, HostRe(), i);
  }

  lemma EmailLengthIs(cls: Classes, after: seq<Text>)
    ensures var at := Email.RunEnd(Email.IsLocalChar, after, 0);
            Email.EmailLength(cls, after)
            == if at == 0 || at == |after| || !IsAt(after[at]) then 0
               else Email.HostEnd(cls, after, at + 1, Email.RunEnd(Email.IsHostChar, after, at + 1))
  {
  }

  lemma EmailIsRegex(cls: Classes, before: seq<Text>, after: seq<Text>)
    requires GoodClasses(cls) && FoldsAreWords(cls)
    ensures Email.EmailMatcher(cls)(before, after) == Preferred(Around(cls, before, after), EmailRe())
  {
    var t := Around(cls, before, after);
    EmailMatcherAt(t);
    assert EmailRe() == Then(Edge, Then(AtLeast(Email.IsLocalChar, 1), AtRe()));
    assert Preferred(t, EmailRe()) == FirstOf(Ends(t, EmailRe(), 0));
    hide *;
    EdgeThen(t, Then(AtLeast(Email.IsLocalChar, 1), AtRe()), 0);
    BodyPreferred(t);
    FirstOfNone();
  }

  lemma EmailMatcherAt(t: Around)
    ensures Email.EmailMatcher(t.cls)(t.before, t.after) == if EdgeAt(t, 0) then Email.EmailLength(t.cls, t.after) else 0
  {
    assert EdgeAt(t, 0) <==> StartsWord(t.cls, t.before) == Email.BeginsWord(t.cls, t.after);
  }

  // ---- The credit card

  /** `[ -]*?` */
  function Lazily(): Re {
    Repeat(One(Card.IsSeparator), 0, Unlimited, false)
  }

  /** `\d[ -]*?` */
  function GroupRe(cls: Classes): Re {
    Then(One(cls.digit), Lazily())
  }

  /** `(?:\d[ -]*?){13,16}`, of which `k` are taken. */
  function RestRe(cls: Classes, k: nat): Re
    requires k <= 16
  {
    Repeat(GroupRe(cls), if k < 13 then 13 - k else 0, UpTo(16 - k), true)
  }

  /** `\b(?:\d[ -]*?){13,16}\b` */
  function CardRe(cls: Classes): Re {
    Then(Edge, Then(RestRe(cls, 0), Edge))
  }

  function Up(lo: nat, hi: nat): (r: seq<nat>)
    ensures forall j :: j in r <==> lo <= j <= hi
    decreases hi + 1 - lo
  {
    if hi < lo then [] else [lo] + Up(lo + 1, hi)
  }

  lemma LazyIs(t: Around, i: nat)
    ensures Ends(t, Lazily(), i)
         == [i] + if i < |t.after| && Card.IsSeparator(t.after[i]) then Ends(t, Fewer(Lazily()), i + 1) else []
  {
    if i < |t.after| && Card.IsSeparator(t.after[i]) {
      assert [i + 1][1..] == [] && Beyond([i + 1], i) == [i + 1];
      OneEnd(t, Fewer(Lazily()), i + 1, i + 1);
    }
  }

  /** A lazy run: nothing first, and then more and more. */
  lemma {:induction false} LazyEnds(t: Around, i: nat)
    requires i <= |t.after|
    ensures Ends(t, Lazily(), i) == Up(i, Card.SkipSeparators(t.after, i))
    decreases |t.after| - i
  {
    assert Fewer(Lazily()) == Lazily();
    LazyIs(t, i);
    hide Ends, EndsAll;
    if i < |t.after| && Card.IsSeparator(t.after[i]) {
      LazyEnds(t, i + 1);
    } else {
      assert [i] + [] == [i] && Up(i + 1, i) == [];
    }
  }

  lemma {:induction false} AllBeyond(js: seq<nat>, i: nat)
    requires forall j :: j in js ==> i < j
    ensures Beyond(js, i) == js
  {
    if js != [] {
      assert js[0] in js && forall j :: j in js[1..] ==> j in js;
      AllBeyond(js[1..], i);
    }
  }

  /** The places behind a digit at `i` and some of the separators that follow it. */
  function Behind(after: seq<Text>, i: nat): (r: seq<nat>)
    requires i < |after|
    ensures forall j :: j in r ==> i + 1 <= j
  {
    Up(i + 1, Card.SkipSeparators(after, i + 1))
  }

  lemma GroupEnds(t: Around, i: nat)
    ensures Ends(t, GroupRe(t.cls), i) == if i < |t.after| && t.cls.digit(t.after[i]) then Behind(t.after, i) else []
  {
    hide Ends;
    OneThen(t, t.cls.digit, Lazily(), i);
    if i < |t.after| {
      LazyEnds(t, i + 1);
    }
  }

  lemma RepeatIs(t: Around, re: Re, i: nat)
    requires re.Repeat? && re.greedy
    ensures Ends(t, re, i)
         == (if re.most == UpTo(0) || i >= |t.after| then []
             else EndsAll(t, Fewer(re), Beyond(Ends(t, re.body, i), i), i + 1))
            + if re.least == 0 then [i] else []
  {
  }

  lemma FewerGroups(cls: Classes, k: nat)
    requires k < 16
    ensures Fewer(RestRe(cls, k)) == RestRe(cls, k + 1)
  {
  }

  lemma NothingBeyond(t: Around, re: Re, i: nat)
    ensures EndsAll(t, re, Beyond([], i), i + 1) == []
  {
  }

  /** One more group if there is a digit, and after thirteen also none. */
  lemma RestEnds(t: Around, k: nat, i: nat)
    requires k <= 16
    ensures Ends(t, RestRe(t.cls, k), i)
         == (if k < 16 && i < |t.after| && t.cls.digit(t.after[i])
             then EndsAll(t, RestRe(t.cls, k + 1), Behind(t.after, i), i + 1) else [])
            + if 13 <= k then [i] else []
  {
    var re := RestRe(t.cls, k);
    assert re == Repeat(GroupRe(t.cls), if k < 13 then 13 - k else 0, UpTo(16 - k), true);
    hide *;
    RepeatIs(t, re, i);
    GroupEnds(t, i);
    if k < 16 && i < |t.after| {
      FewerGroups(t.cls, k);
      if t.cls.digit(t.after[i]) {
        AllBeyond(Behind(t.after, i), i);
      } else {
        NothingBeyond(t, Fewer(re), i);
      }
    }
  }

  /** What is taken in all when `k` digits end in front of `p`. */
  function CardFrom(cls: Classes, after: seq<Text>, k: nat, p: nat): nat
    requires p <= |after| && k <= 16
    decreases 16 - k
  {
    var q := Card.SkipSeparators(after, p);
    if 13 <= k && EndsWord(cls, after, p) then p
    else if k < 16 && q < |after| && cls.digit(after[q]) then CardFrom(cls, after, k + 1, q + 1)
    else 0
  }

  /** Where a match can end when `k` digits are taken and the next group starts in `js`. */
  function Finals(t: Around, k: nat, js: seq<nat>): seq<nat>
    requires k <= 16
  {
    EndsAll(t, Edge, EndsAll(t, RestRe(t.cls, k), js, 0), 0)
  }

  lemma FinalsFirst(t: Around, k: nat, j: nat, js: seq<nat>)
    requires k <= 16
    ensures Finals(t, k, [j] + js) == EndsAll(t, Edge, Ends(t, RestRe(t.cls, k), j), 0) + Finals(t, k, js)
  {
    hide Ends;
    assert ([j] + js)[1..] == js;
    EndsConcat(t, Edge, Ends(t, RestRe(t.cls, k), j), EndsAll(t, RestRe(t.cls, k), js, 0), 0);
  }

  lemma FinalsNothing(t: Around, k: nat)
    requires k <= 16
    ensures Finals(t, k, []) == []
  {
  }

  /** From one place. */
  lemma FinalsOfOne(t: Around, k: nat, i: nat)
    requires k <= 16
    ensures EndsAll(t, Edge, Ends(t, RestRe(t.cls, k), i), 0)
         == (if k < 16 && i < |t.after| && t.cls.digit(t.after[i]) then Finals(t, k + 1, Behind(t.after, i)) else [])
            + if 13 <= k && EdgeAt(t, i) then [i] else []
  {
    hide *;
    RestEnds(t, k, i);
    var stop: seq<nat> := if 13 <= k then [i] else [];
    var more: seq<nat> := [];
    if k < 16 && i < |t.after| && t.cls.digit(t.after[i]) {
      more := EndsAll(t, RestRe(t.cls, k + 1), Behind(t.after, i), i + 1);
      AnyBound(t, RestRe(t.cls, k + 1), Behind(t.after, i), i + 1, 0);
      FinalsIs(t, k + 1, Behind(t.after, i));
    }
    EndsConcat(t, Edge, more, stop, 0);
    EdgeAlone(t, i);
    OneEnd(t, Edge, i, 0);
    NoEnds(t);
  }

  lemma FinalsIs(t: Around, k: nat, js: seq<nat>)
    requires k <= 16
    ensures Finals(t, k, js) == EndsAll(t, Edge, EndsAll(t, RestRe(t.cls, k), js, 0), 0)
  {
  }

  lemma NoEnds(t: Around)
    ensures EndsAll(t, Edge, [], 0) == []
  {
  }

  /** Separators are no place to go on from, nor to stop at before thirteen digits. */
  lemma {:induction false} FinalsSkip(t: Around, k: nat, p: nat, q: nat)
    requires GoodClasses(t.cls) && k < 13 && p <= q <= |t.after|
    requires forall j :: p <= j < q ==> Card.IsSeparator(t.after[j])
    ensures Finals(t, k, Up(p, q)) == EndsAll(t, Edge, Ends(t, RestRe(t.cls, k), q), 0)
    decreases q - p
  {
    hide Ends, Finals, RestRe;
    FinalsFirst(t, k, p, Up(p + 1, q));
    if p == q {
      FinalsNothing(t, k);
      assert Up(p + 1, p) == [];
      var r := EndsAll(t, Edge, Ends(t, RestRe(t.cls, k), q), 0);
      assert r + [] == r;
    } else {
      SeparatorIsNoWord(t.cls, t.after[p]);
      FinalsOfOne(t, k, p);
      FinalsSkip(t, k, p + 1, q);
    }
  }

  lemma SeparatorIsNoWord(cls: Classes, c: Text)
    requires GoodClasses(cls) && Card.IsSeparator(c)
    ensures !cls.word(c) && !cls.digit(c)
  {
  }

  ghost predicate Agrees(js: seq<nat>, n: nat) {
    FirstOf(js) == n && (js == [] <==> n == 0)
  }

  lemma AgreesParts(js: seq<nat>, p: nat)
    ensures Agrees([], 0)
    ensures p > 0 && js != [] && js[0] == p ==> Agrees(js, p)
  {
  }

  lemma CardFromStep(cls: Classes, after: seq<Text>, k: nat, p: nat)
    requires p <= |after| && k <= 16
    ensures var q := Card.SkipSeparators(after, p);
            CardFrom(cls, after, k, p) == if 13 <= k && EndsWord(cls, after, p) then p
                                          else if k < 16 && q < |after| && cls.digit(after[q])
                                          then CardFrom(cls, after, k + 1, q + 1)
                                          else 0
  {
  }

  lemma EdgeBehind(t: Around, p: nat)
    requires 0 < p <= |t.after| && t.cls.word(t.after[p - 1])
    ensures EdgeAt(t, p) <==> EndsWord(t.cls, t.after, p)
    ensures p < |t.after| && !EndsWord(t.cls, t.after, p) <==> p < |t.after| && t.cls.word(t.after[p])
  {
  }

  lemma DigitIsWord(cls: Classes, c: Text)
    requires GoodClasses(cls) && cls.digit(c)
    ensures cls.word(c)
  {
  }

  lemma UpParts(p: nat, q: nat)
    requires p <= q
    ensures Up(p, q) == [p] + Up(p + 1, q) && Up(p + 1, p) == []
  {
  }

  /** The ends that begin with the group at `q`. */
  function GoOn(t: Around, k: nat, q: nat): seq<nat>
    requires k <= 16
  {
    if k < 16 && q < |t.after| && t.cls.digit(t.after[q]) then Finals(t, k + 1, Behind(t.after, q)) else []
  }

  lemma GoOnFrom(t: Around, k: nat, q: nat)
    requires k <= 16
    ensures EndsAll(t, Edge, Ends(t, RestRe(t.cls, k), q), 0) == GoOn(t, k, q) + if 13 <= k && EdgeAt(t, q) then [q] else []
  {
    hide Ends, EndsAll, RestRe, EdgeAt, Finals;
    FinalsOfOne(t, k, q);
  }

  lemma FewDigits(t: Around, k: nat, p: nat)
    requires GoodClasses(t.cls) && k < 13 && p <= |t.after|
    ensures var q := Card.SkipSeparators(t.after, p); Finals(t, k, Up(p, q)) == GoOn(t, k, q)
  {
    hide *;
    var q := Card.SkipSeparators(t.after, p);
    FinalsSkip(t, k, p, q);
    GoOnFrom(t, k, q);
    assert GoOn(t, k, q) + [] == GoOn(t, k, q);
  }

  lemma ManyDigits(t: Around, k: nat, p: nat)
    requires GoodClasses(t.cls) && 13 <= k <= 16 && 0 < p <= |t.after| && t.cls.word(t.after[p - 1])
    ensures var q := Card.SkipSeparators(t.after, p); var js := Finals(t, k, Up(p, q));
            if EndsWord(t.cls, t.after, p) then js != [] && js[0] == p else q == p && js == GoOn(t, k, q)
  {
    hide *;
    var q := Card.SkipSeparators(t.after, p);
    UpParts(p, q);
    FinalsFirst(t, k, p, Up(p + 1, q));
    GoOnFrom(t, k, p);
    EdgeBehind(t, p);
    StopOrGoOn(t, k, p);
    var more, rest := GoOn(t, k, p), Finals(t, k, Up(p + 1, q));
    if EndsWord(t.cls, t.after, p) {
      GoOnNowhere(t, k, p);
      assert [] + [p] + rest == [p] + rest;
    } else {
      assert more + [] + [] == more;
    }
  }

  lemma GoOnNowhere(t: Around, k: nat, p: nat)
    requires k <= 16 && (p >= |t.after| || !t.cls.digit(t.after[p]))
    ensures GoOn(t, k, p) == []
  {
  }

  lemma GoOnIs(t: Around, k: nat, q: nat)
    requires k <= 16
    ensures GoOn(t, k, q)
         == if k < 16 && q < |t.after| && t.cls.digit(t.after[q])
            then Finals(t, k + 1, Up(q + 1, Card.SkipSeparators(t.after, q + 1))) else []
  {
    hide Finals;
  }

  /** The preferred end behind `k` digits. */
  lemma {:induction false} FinalsPreferred(t: Around, k: nat, p: nat)
    requires GoodClasses(t.cls) && 1 <= k <= 16 && 0 < p <= |t.after| && t.cls.word(t.after[p - 1])
    ensures Agrees(Finals(t, k, Up(p, Card.SkipSeparators(t.after, p))), CardFrom(t.cls, t.after, k, p))
    decreases 16 - k
  {
    hide *;
    var q := Card.SkipSeparators(t.after, p);
    CardFromStep(t.cls, t.after, k, p);
    GoOnIs(t, k, q);
    AgreesParts(Finals(t, k, Up(p, q)), p);
    if k < 16 && q < |t.after| && t.cls.digit(t.after[q]) {
      DigitIsWord(t.cls, t.after[q]);
      FinalsPreferred(t, k + 1, q + 1);
    }
    if k < 13 {
      FewDigits(t, k, p);
    } else {
      ManyDigits(t, k, p);
    }
  }

  /** Behind a digit either the word ends, and another digit is not next, or no separator is. */
  lemma StopOrGoOn(t: Around, k: nat, p: nat)
    requires GoodClasses(t.cls) && 13 <= k <= 16 && 0 < p <= |t.after|
    ensures EndsWord(t.cls, t.after, p) ==> p == |t.after| || !t.cls.digit(t.after[p])
    ensures !EndsWord(t.cls, t.after, p) ==> Card.SkipSeparators(t.after, p) == p
    ensures Finals(t, k, []) == []
  {
  }

  lemma {:induction false} NoMoreDigits(cls: Classes, after: seq<Text>, k: nat, j: nat)
    requires 0 < k <= j && Card.DigitsEnd(cls, after, k) == 0
    ensures Card.DigitsEnd(cls, after, j) == 0
  {
    if Card.DigitsEnd(cls, after, j) > 0 {
      Card.DigitsAscend(cls, after, k, j);
    }
  }

  lemma {:induction false} CardFromIs(cls: Classes, after: seq<Text>, k: nat)
    requires GoodClasses(cls) && 1 <= k <= 16 && Card.DigitsEnd(cls, after, k) > 0
    requires forall j :: 13 <= j < k ==> !Card.EndsAt(cls, after, j)
    ensures CardFrom(cls, after, k, Card.DigitsEnd(cls, after, k)) == Card.CardLength(cls, after)
    decreases 16 - k
  {
    hide *;
    var p := Card.DigitsEnd(cls, after, k);
    CardFromStep(cls, after, k, p);
    NextDigit(cls, after, k);
    EndsAtIs(cls, after, k);
    if 13 <= k && EndsWord(cls, after, p) {
      CardEndsAt(cls, after, k);
    } else if k < 16 && Card.DigitsEnd(cls, after, k + 1) > 0 {
      CardFromIs(cls, after, k + 1);
    } else {
      forall j | k < j <= 16 ensures !Card.EndsAt(cls, after, j) {
        NoMoreDigits(cls, after, k + 1, j);
        EndsAtIs(cls, after, j);
      }
      NoCard(cls, after);
    }
  }

  lemma NextDigit(cls: Classes, after: seq<Text>, k: nat)
    requires k >= 1 && Card.DigitsEnd(cls, after, k) > 0
    ensures var q := Card.SkipSeparators(after, Card.DigitsEnd(cls, after, k));
            Card.DigitsEnd(cls, after, k + 1) == if q < |after| && cls.digit(after[q]) then q + 1 else 0
  {
  }

  lemma EndsAtIs(cls: Classes, after: seq<Text>, k: nat)
    ensures Card.EndsAt(cls, after, k) <==>
            Card.DigitsEnd(cls, after, k) > 0 && EndsWord(cls, after, Card.DigitsEnd(cls, after, k))
  {
  }

  lemma CardEndsAt(cls: Classes, after: seq<Text>, k: nat)
    requires 13 <= k <= 16 && Card.EndsAt(cls, after, k) && forall j :: 13 <= j < k ==> !Card.EndsAt(cls, after, j)
    ensures Card.CardLength(cls, after) == Card.DigitsEnd(cls, after, k)
  {
    hide Card.EndsAt, Card.DigitsEnd;
  }

  lemma NoCard(cls: Classes, after: seq<Text>)
    requires forall j :: 13 <= j <= 16 ==> !Card.EndsAt(cls, after, j)
    ensures Card.CardLength(cls, after) == 0
  {
    assert Card.CardDigits(cls, after) == 0;
  }

  lemma DigitsPreferred(t: Around)
    requires GoodClasses(t.cls)
    ensures FirstOf(Ends(t, Then(RestRe(t.cls, 0), Edge), 0)) == Card.CardLength(t.cls, t.after)
  {
    var after := t.after;
    assert Ends(t, Then(RestRe(t.cls, 0), Edge), 0) == EndsAll(t, Edge, Ends(t, RestRe(t.cls, 0), 0), 0);
    hide Ends, Finals, RestRe;
    FinalsOfOne(t, 0, 0);
    assert Card.DigitsEnd(t.cls, after, 1) == if after != [] && t.cls.digit(after[0]) then 1 else 0;
    if after != [] && t.cls.digit(after[0]) {
      FinalsPreferred(t, 1, 1);
      CardFromIs(t.cls, after, 1);
      var js := Finals(t, 1, Behind(after, 0));
      assert js + [] == js;
    } else {
      NoneTaken(t.cls, after);
      FirstOfNone();
    }
  }

  lemma NoneTaken(cls: Classes, after: seq<Text>)
    requires Card.DigitsEnd(cls, after, 1) == 0
    ensures Card.CardLength(cls, after) == 0
  {
    forall j | 13 <= j <= 16 ensures !Card.EndsAt(cls, after, j) {
      NoMoreDigits(cls, after, 1, j);
    }
  }

  lemma CardIsRegex(cls: Classes, before: seq<Text>, after: seq<Text>)
    requires GoodClasses(cls)
    ensures Card.CardMatcher(cls)(before, after) == Preferred(Around(cls, before, after), CardRe(cls))
  {
    var t := Around(cls, before, after);
    CardMatcherAt(t);
    assert Preferred(t, CardRe(cls)) == FirstOf(Ends(t, CardRe(cls), 0));
    assert CardRe(cls) == Then(Edge, Then(RestRe(cls, 0), Edge));
    hide *;
    EdgeThen(t, Then(RestRe(cls, 0), Edge), 0);
    DigitsPreferred(t);
    FirstOfNone();
  }

  lemma CardMatcherAt(t: Around)
    requires GoodClasses(t.cls)
    ensures Card.CardMatcher(t.cls)(t.before, t.after) == if EdgeAt(t, 0) then Card.CardLength(t.cls, t.after) else 0
  {
    if t.after != [] && t.cls.digit(t.after[0]) {
      assert EdgeAt(t, 0) <==> StartsWord(t.cls, t.before);
    } else {
      NoneTaken(t.cls, t.after);
    }
  }
}
