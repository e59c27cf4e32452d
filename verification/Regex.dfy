/** What a regular expression takes, by trying its alternatives in their order of preference.
    This is the reference for the matchers of the shipped patterns: what each of them takes
    is the first thing that its expression accepts. */
module Regexes {
  import opened Utf8
  import opened Patterns

  datatype Re =
    | One(ok: Text -> bool)
    | Edge
    | Then(first: Re, second: Re)
    /** At least `least` times, at most `most` times, for a body that takes something each
        time; more of it first, if greedy. */
    | Repeat(body: Re, least: nat, most: Most, greedy: bool)

  datatype Most = Unlimited | UpTo(n: nat)

  /** The text on both sides of the place where a match starts, as characters. */
  datatype Around = Around(cls: Classes, before: seq<Text>, after: seq<Text>)

  predicate WordAt(t: Around, i: int) {
    if i < 0 then t.before != [] && t.cls.word(t.before[|t.before| - 1])
    else i < |t.after| && t.cls.word(t.after[i])
  }

  /** `\b`: between a word character and none. */
  predicate EdgeAt(t: Around, i: nat) {
    WordAt(t, i - 1) != WordAt(t, i)
  }

  function Size(re: Re): nat {
    match re
    case One(_) => 0
    case Edge => 0
    case Then(a, b) => 1 + Size(a) + Size(b)
    case Repeat(body, _, _, _) => 1 + Size(body)
  }

  function Beyond(js: seq<nat>, i: nat): (r: seq<nat>)
    ensures forall j :: j in r ==> i < j && j in js
  {
    if js == [] then [] else (if i < js[0] then [js[0]] else []) + Beyond(js[1..], i)
  }

  /** One time less. */
  function Fewer(re: Re): Re
    requires re.Repeat?
  {
    Repeat(re.body, if re.least == 0 then 0 else re.least - 1,
           match re.most { case Unlimited => Unlimited case UpTo(n) => UpTo(if n == 0 then 0 else n - 1) }, re.greedy)
  }

  /** Where a match from `i` on can end, what is preferred first. */
  function Ends(t: Around, re: Re, i: nat): (r: seq<nat>)
    ensures forall j :: j in r ==> i <= j
    decreases Size(re), if i < |t.after| then |t.after| - i else 0, 0
  {
    match re
    case One(ok) => if i < |t.after| && ok(t.after[i]) then [i + 1] else []
    case Edge => if EdgeAt(t, i) then [i] else []
    case Then(a, b) => EndsAll(t, b, Ends(t, a, i), i)
    case Repeat(body, least, most, greedy) =>
      var more := if most == UpTo(0) || i >= |t.after| then []
                  else EndsAll(t, Fewer(re), Beyond(Ends(t, body, i), i), i + 1);
      var stop := if least == 0 then [i] else [];
      if greedy then more + stop else stop + more
  }

  /** From each of the places in turn. */
  function EndsAll(t: Around, re: Re, js: seq<nat>, lo: nat): (r: seq<nat>)
    requires forall j :: j in js ==> lo <= j
    ensures forall j :: j in r ==> lo <= j
    decreases Size(re), if lo < |t.after| then |t.after| - lo else 0, 1 + |js|
  {
    if js == [] then []
    else
      assert js[0] in js && forall j :: j in js[1..] ==> j in js;
      Ends(t, re, js[0]) + EndsAll(t, re, js[1..], lo)
  }

  /** How much is taken: the preferred end, or nothing. */
  function Preferred(t: Around, re: Re): nat {
    FirstOf(Ends(t, re, 0))
  }

  function FirstOf(js: seq<nat>): nat {
    if js == [] then 0 else js[0]
  }

  // ---- Taking expressions apart

  lemma OneThen(t: Around, ok: Text -> bool, re: Re, i: nat)
    ensures Ends(t, Then(One(ok), re), i) == if i < |t.after| && ok(t.after[i]) then Ends(t, re, i + 1) else []
  {
    if i < |t.after| && ok(t.after[i]) {
      OneEnd(t, re, i + 1, i);
    }
  }

  lemma OneEnd(t: Around, re: Re, j: nat, lo: nat)
    requires lo <= j
    ensures EndsAll(t, re, [j], lo) == Ends(t, re, j)
  {
    assert [j][1..] == [];
    assert Ends(t, re, j) + [] == Ends(t, re, j);
  }

  lemma EdgeThen(t: Around, re: Re, i: nat)
    ensures Ends(t, Then(Edge, re), i) == if EdgeAt(t, i) then Ends(t, re, i) else []
  {
    if EdgeAt(t, i) {
      OneEnd(t, re, i, i);
    }
  }

  /** The lower bound is only there for termination. */
  lemma {:induction false} AnyBound(t: Around, re: Re, js: seq<nat>, lo: nat, lo2: nat)
    requires forall j :: j in js ==> lo <= j && lo2 <= j
    ensures EndsAll(t, re, js, lo) == EndsAll(t, re, js, lo2)
    decreases |js|
  {
    if js != [] {
      assert forall j :: j in js[1..] ==> j in js;
      AnyBound(t, re, js[1..], lo, lo2);
    }
  }

  lemma {:induction false} EndsConcat(t: Around, re: Re, a: seq<nat>, b: seq<nat>, lo: nat)
    requires (forall j :: j in a ==> lo <= j) && forall j :: j in b ==> lo <= j
    ensures forall j :: j in a + b ==> lo <= j
    ensures EndsAll(t, re, a + b, lo) == EndsAll(t, re, a, lo) + EndsAll(t, re, b, lo)
    decreases |a|
  {
    assert forall j :: j in a + b ==> j in a || j in b;
    if a == [] {
      assert a + b == b;
    } else {
      assert (a + b)[1..] == a[1..] + b && forall j :: j in a[1..] ==> j in a;
      EndsConcat(t, re, a[1..], b, lo);
      assert forall j :: j in a[1..] + b ==> j in a + b;
      assert EndsAll(t, re, a + b, lo) == Ends(t, re, a[0]) + EndsAll(t, re, a[1..] + b, lo);
    }
  }
}
