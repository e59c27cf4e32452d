/** When the quota key gets its expiry, what time it is, and when the key is gone. */
module Expiry {
  import opened Detection
  import opened Plan
  import opened Quota

  /** Step `k` is the expiry step of a request whose increment returned 1. */
  ghost predicate FirstUse(plan: string, open: int, steps: seq<Step>, k: nat, r: nat) {
    && k < |steps| && steps[k] == Expire(r)
    && var s := After(plan, open, steps[..k]); r in s.requests && s.requests[r] == Counted(1)
  }

  ghost predicate SomeFirstUse(plan: string, open: int, steps: seq<Step>) {
    exists k: nat, r: nat :: FirstUse(plan, open, steps, k, r)
  }

  /** The request with count 1 is past its expiry step. */
  predicate PastExpire(s: State, r: nat) {
    r in s.requests && s.requests[r].HasCount() && !s.requests[r].Counted? && s.requests[r].count == 1
  }

  /** The expiry is the clock at the first use plus 25 hours, and there is none without one. */
  ghost predicate ExpiryIs(plan: string, open: int, steps: seq<Step>) {
    var s := After(plan, open, steps);
    && (s.expiry.Some? ==> SomeFirstUse(plan, open, steps))
    && forall k: nat, r: nat :: k < |steps| && FirstUse(plan, open, steps, k, r) ==>
         s.expiry == Some(After(plan, open, steps[..k]).clock + 90_000) && PastExpire(s, r)
  }

  lemma {:induction false} RunLast(s: State, steps: seq<Step>, step: Step)
    ensures Run(s, steps + [step]) == Next(Run(s, steps), step)
    decreases |steps|
  {
    if steps == [] {
      assert steps + [step] == [step] && [step][1..] == [];
    } else {
      assert (steps + [step])[1..] == steps[1..] + [step];
      RunLast(Next(s, steps[0]), steps[1..], step);
    }
  }

  lemma AfterLast(plan: string, open: int, steps: seq<Step>)
    requires steps != []
    ensures After(plan, open, steps) == Next(After(plan, open, steps[..|steps| - 1]), steps[|steps| - 1])
    ensures After(plan, open, steps[..|steps| - 1]).clock <= After(plan, open, steps).clock
  {
    var n := |steps| - 1;
    assert steps == steps[..n] + [steps[n]];
    RunLast(Opening(DailyRequestLimit(plan), open), steps[..n], steps[n]);
  }

  lemma FirstUseBefore(plan: string, open: int, steps: seq<Step>, k: nat, r: nat)
    requires steps != [] && k < |steps| - 1
    ensures FirstUse(plan, open, steps, k, r) <==> FirstUse(plan, open, steps[..|steps| - 1], k, r)
    ensures steps[..k] == steps[..|steps| - 1][..k]
  {
    assert steps[..k] == steps[..|steps| - 1][..k];
  }

  /** Past its expiry step a request with count 1 stays so: it is never over the limit. */
  lemma StaysPast(s: State, step: Step, r: nat)
    requires PastExpire(s, r) && (s.limit.Some? ==> s.limit.value >= 1)
    ensures PastExpire(Next(s, step), r)
  {
  }

  /** Before the key expires only a first use moves the expiry. */
  lemma OnlyFirstUseMoves(s: State, step: Step, open: int)
    requires KeyKept(s, open) && Next(s, step).clock < open + 90_000
    ensures (step.Expire? && step.r in s.requests && s.requests[step.r] == Counted(1)) || Next(s, step).expiry == s.expiry
    ensures step.Expire? && step.r in s.requests && s.requests[step.r] == Counted(1) ==>
              Next(s, step).expiry == Some(s.clock + 90_000) && PastExpire(Next(s, step), step.r)
  {
  }

  lemma LimitsOf(plan: string, open: int, steps: seq<Step>)
    requires After(plan, open, steps).clock < open + 90_000
    ensures Inv(After(plan, open, steps)) && KeyKept(After(plan, open, steps), open)
    ensures var limit := After(plan, open, steps).limit; limit.Some? ==> limit.value >= 1
  {
    ReachableInv(plan, open, steps);
    LimitsPositive(plan, 0, open);
  }

  lemma NotTwice(s: State, a: nat, b: nat)
    requires Inv(s) && PastExpire(s, a)
    ensures b in s.requests ==> s.requests[b] != Counted(1)
  {
    OneHolder(s, a, b);
  }

  lemma LastFirstUse(plan: string, open: int, steps: seq<Step>, r: nat)
    requires steps != []
    ensures var n := |steps| - 1; var s := After(plan, open, steps[..n]);
            FirstUse(plan, open, steps, n, r) <==> steps[n] == Expire(r) && r in s.requests && s.requests[r] == Counted(1)
  {
  }

  lemma NothingUsed(plan: string, open: int)
    ensures ExpiryIs(plan, open, [])
  {
  }

  lemma ExpiryIsParts(plan: string, open: int, steps: seq<Step>, k: nat, r: nat)
    requires ExpiryIs(plan, open, steps) && FirstUse(plan, open, steps, k, r)
    ensures After(plan, open, steps).expiry == Some(After(plan, open, steps[..k]).clock + 90_000)
    ensures PastExpire(After(plan, open, steps), r)
  {
  }

  lemma UsedBefore(plan: string, open: int, steps: seq<Step>)
    requires steps != [] && ExpiryIs(plan, open, steps[..|steps| - 1]) && After(plan, open, steps[..|steps| - 1]).expiry.Some?
    ensures SomeFirstUse(plan, open, steps)
  {
    var before := steps[..|steps| - 1];
    var k: nat, r: nat :| FirstUse(plan, open, before, k, r);
    FirstUseBefore(plan, open, steps, k, r);
  }

  lemma Used(plan: string, open: int, steps: seq<Step>, k: nat, r: nat)
    requires FirstUse(plan, open, steps, k, r)
    ensures SomeFirstUse(plan, open, steps)
  {
  }

  lemma MakeExpiryIs(plan: string, open: int, steps: seq<Step>)
    requires After(plan, open, steps).expiry.Some? ==> SomeFirstUse(plan, open, steps)
    requires forall k: nat, r: nat :: k < |steps| && FirstUse(plan, open, steps, k, r) ==>
               After(plan, open, steps).expiry == Some(After(plan, open, steps[..k]).clock + 90_000)
               && PastExpire(After(plan, open, steps), r)
    ensures ExpiryIs(plan, open, steps)
  {
  }

  /** In every interleaving, from the first use on: the expiry is the clock of the expiry step
      of the request with count 1 plus 90,000 seconds; no later step moves it; and without such
      a step there is none. */
  lemma {:induction false} ExpiryOfFirstUse(plan: string, open: int, steps: seq<Step>)
    requires After(plan, open, steps).clock < open + 90_000
    ensures ExpiryIs(plan, open, steps)
    decreases |steps|
  {
    hide *;
    if steps == [] {
      NothingUsed(plan, open);
    } else {
      var n := |steps| - 1;
      var before, step := steps[..n], steps[n];
      var s, t := After(plan, open, before), After(plan, open, steps);
      AfterLast(plan, open, steps);
      ExpiryOfFirstUse(plan, open, before);
      LimitsOf(plan, open, before);
      OnlyFirstUseMoves(s, step, open);
      if t.expiry.Some? {
        if step.Expire? && step.r in s.requests && s.requests[step.r] == Counted(1) {
          LastFirstUse(plan, open, steps, step.r);
          Used(plan, open, steps, n, step.r);
        } else {
          UsedBefore(plan, open, steps);
        }
      }
      forall k: nat, r: nat | k < |steps| && FirstUse(plan, open, steps, k, r)
        ensures t.expiry == Some(After(plan, open, steps[..k]).clock + 90_000) && PastExpire(t, r)
      {
        LastFirstUse(plan, open, steps, r);
        if k < n {
          FirstUseBefore(plan, open, steps, k, r);
          ExpiryIsParts(plan, open, before, k, r);
          StaysPast(s, step, r);
          if step.Expire? {
            NotTwice(s, r, step.r);
          }
        }
      }
      MakeExpiryIs(plan, open, steps);
    }
  }

  lemma PastBefore(s: State, step: Step, r: nat)
    requires PastExpire(Next(s, step), r)
    ensures PastExpire(s, r) || (step == Expire(r) && r in s.requests && s.requests[r] == Counted(1))
  {
  }

  lemma {:induction false} PastIsUse(plan: string, open: int, steps: seq<Step>, r: nat) returns (k: nat)
    requires PastExpire(After(plan, open, steps), r)
    ensures FirstUse(plan, open, steps, k, r)
    decreases |steps|
  {
    assert steps == [] ==> After(plan, open, steps).requests == map[];
    var n := |steps| - 1;
    var before := steps[..n];
    AfterLast(plan, open, steps);
    hide After, Next;
    PastBefore(After(plan, open, before), steps[n], r);
    if PastExpire(After(plan, open, before), r) {
      k := PastIsUse(plan, open, before, r);
      FirstUseBefore(plan, open, steps, k, r);
    } else {
      k := n;
    }
  }

  /** So the key has an expiry exactly when a request with count 1 is past its expiry step. */
  lemma ExpirySetIff(plan: string, open: int, steps: seq<Step>)
    requires After(plan, open, steps).clock < open + 90_000
    ensures After(plan, open, steps).expiry.Some? <==> exists r :: PastExpire(After(plan, open, steps), r)
  {
    var s := After(plan, open, steps);
    ExpiryOfFirstUse(plan, open, steps);
    hide After, PastExpire;
    if s.expiry.Some? {
      var k: nat, r: nat :| FirstUse(plan, open, steps, k, r);
    }
    if r :| PastExpire(s, r) {
      var k := PastIsUse(plan, open, steps, r);
    }
  }

  /** 25 hours after the first use. */
  ghost predicate Due(plan: string, open: int, steps: seq<Step>, at: int) {
    exists k: nat, r: nat :: FirstUse(plan, open, steps, k, r) && After(plan, open, steps[..k]).clock + 90_000 <= at
  }

  /** A wait drops the key, and with it the count, exactly when it lasts until 25 hours after
      the first use; otherwise it moves the clock alone. */
  lemma WaitDropsIff(plan: string, open: int, steps: seq<Step>, seconds: nat)
    requires After(plan, open, steps).clock < open + 90_000
    ensures var s := After(plan, open, steps);
            var t := Next(s, Wait(seconds));
            && t.requests == s.requests && t.limit == s.limit && t.clock == s.clock + seconds
            && if Due(plan, open, steps, s.clock + seconds) then t.counter == 0 && t.expiry == None
               else t.counter == s.counter && t.expiry == s.expiry
  {
    var s := After(plan, open, steps);
    ExpiryOfFirstUse(plan, open, steps);
    hide After, PastExpire;
    if s.expiry.Some? {
      var k: nat, r: nat :| FirstUse(plan, open, steps, k, r);
      assert s.expiry == Some(After(plan, open, steps[..k]).clock + 90_000);
    }
  }
}
