/** The daily quota of the gate: concurrent requests that increment a shared counter,
    compare, and take the increment back when they are over the limit. */
module Quota {
  import opened Detection
  import opened Plan

  /** Seconds the counter key is kept after its first use. */
  const EXPIRY: int := 90_000

  /** Where a request is inside the gate. `count` is what its increment returned. */
  datatype Phase =
    | Counted(count: int)
    | Settled(count: int)
    | Over
    | Admitted(count: int)
    | Rejected
  {
    predicate HasCount() {
      !Over? && !Rejected?
    }
  }

  /** The counter of one organisation and day, and the requests seen so far. */
  datatype State = State(limit: Option<int>, counter: int, expiry: Option<int>, clock: int, requests: map<nat, Phase>)

  /** What can happen next, in any order. */
  datatype Step =
    | Increment(r: nat)
    | Expire(r: nat)
    | Compare(r: nat)
    | Decrement(r: nat)
    | Wait(seconds: nat)

  predicate Exceeds(limit: Option<int>, count: int) {
    limit.Some? && limit.value < count
  }

  /** One atomic step; a step that is not possible changes nothing. */
  function Next(s: State, step: Step): State {
    match step
    case Increment(r) =>
      if r in s.requests then s
      else s.(counter := s.counter + 1, requests := s.requests[r := Counted(s.counter + 1)])
    case Expire(r) =>
      if r in s.requests && s.requests[r].Counted? then
        s.(expiry := if s.requests[r].count == 1 then Some(s.clock + EXPIRY) else s.expiry,
           requests := s.requests[r := Settled(s.requests[r].count)])
      else s
    case Compare(r) =>
      if r in s.requests && s.requests[r].Settled? then
        s.(requests := s.requests[r := if Exceeds(s.limit, s.requests[r].count) then Over
                                       else Admitted(s.requests[r].count)])
      else s
    case Decrement(r) =>
      if r in s.requests && s.requests[r].Over? then
        s.(counter := s.counter - 1, requests := s.requests[r := Rejected])
      else s
    case Wait(seconds) =>
      var later := s.clock + seconds;
      if s.expiry.Some? && s.expiry.value <= later then s.(clock := later, counter := 0, expiry := None)
      else s.(clock := later)
  }

  function Run(s: State, steps: seq<Step>): State
    decreases |steps|
  {
    if steps == [] then s else Run(Next(s, steps[0]), steps[1..])
  }

  function Opening(limit: Option<int>, clock: int): State {
    State(limit, 0, None, clock, map[])
  }

  // ---- The invariant

  predicate HoldsPlace(limit: Option<int>, p: Phase) {
    p.Admitted? || ((p.Counted? || p.Settled?) && !Exceeds(limit, p.count))
  }

  predicate HoldsExcess(limit: Option<int>, p: Phase) {
    p.Over? || ((p.Counted? || p.Settled?) && Exceeds(limit, p.count))
  }

  /** Requests admitted, or sure to be. */
  function Places(s: State): set<nat> {
    set r | r in s.requests && HoldsPlace(s.limit, s.requests[r])
  }

  /** Requests over the limit whose increment is not yet taken back. */
  function Excess(s: State): set<nat> {
    set r | r in s.requests && HoldsExcess(s.limit, s.requests[r])
  }

  function TurnedAway(s: State): set<nat> {
    set r | r in s.requests && s.requests[r].Rejected?
  }

  /** The counter is the places plus the excess, and nobody is over the limit or turned
      away unless all places are taken. */
  predicate InBalance(limit: Option<int>, counter: int, places: set<nat>, excess: set<nat>, away: set<nat>) {
    && (limit.Some? ==> limit.value >= 1 && |places| <= limit.value)
    && counter == |places| + |excess|
    && (excess != {} || away != {} ==> limit.Some? && |places| == limit.value)
  }

  predicate Balanced(s: State) {
    InBalance(s.limit, s.counter, Places(s), Excess(s), TurnedAway(s))
  }

  ghost predicate Held(s: State, n: int) {
    exists r :: r in Places(s) && r in s.requests && s.requests[r].HasCount() && s.requests[r].count == n
  }

  /** The requests with a place hold the numbers from 1 up, each one exactly once. */
  ghost predicate Numbered(s: State) {
    && (forall n :: 1 <= n <= |Places(s)| ==> Held(s, n))
    && (forall r :: r in Places(s) ==> r in s.requests && s.requests[r].HasCount() && 1 <= s.requests[r].count <= |Places(s)|)
    && forall a, b :: a in Places(s) && b in Places(s) && s.requests[a].count == s.requests[b].count ==> a == b
  }

  ghost predicate Inv(s: State) {
    Balanced(s) && Numbered(s)
  }

  /** The key outlives the day that opened at `open`. */
  predicate KeyKept(s: State, open: int) {
    open <= s.clock && (s.expiry.Some? ==> open + EXPIRY <= s.expiry.value)
  }

  lemma OpeningInv(limit: Option<int>, clock: int)
    requires limit.Some? ==> limit.value >= 1
    ensures Inv(Opening(limit, clock)) && KeyKept(Opening(limit, clock), clock)
  {
    var s := Opening(limit, clock);
    assert Places(s) == {} && Excess(s) == {} && TurnedAway(s) == {};
  }

  lemma NewPlace(limit: Option<int>, counter: int, places: set<nat>, excess: set<nat>, away: set<nat>, r: nat)
    requires InBalance(limit, counter, places, excess, away) && r !in places && !Exceeds(limit, counter + 1)
    ensures |excess| == 0 && counter == |places| && InBalance(limit, counter + 1, places + {r}, excess, away)
  {
    assert |excess| == 0 <==> excess == {};
    assert |places + {r}| == |places| + 1;
  }

  lemma NewExcess(limit: Option<int>, counter: int, places: set<nat>, excess: set<nat>, away: set<nat>, r: nat)
    requires InBalance(limit, counter, places, excess, away) && r !in excess && Exceeds(limit, counter + 1)
    ensures InBalance(limit, counter + 1, places, excess + {r}, away)
  {
    assert |excess + {r}| == |excess| + 1;
    assert excess == {} ==> |excess| == 0;
  }

  lemma LessExcess(limit: Option<int>, counter: int, places: set<nat>, excess: set<nat>, away: set<nat>, r: nat)
    requires InBalance(limit, counter, places, excess, away) && r in excess
    ensures InBalance(limit, counter - 1, places, excess - {r}, away + {r})
  {
    assert |excess - {r}| == |excess| - 1;
  }

  /** The roles after a first increment, */
  lemma RolesOfNew(s: State, t: State, r: nat, p: Phase)
    requires r !in s.requests && t.requests == s.requests[r := p] && t.limit == s.limit && p.Counted?
    ensures r !in Places(s) && r !in Excess(s)
    ensures Exceeds(s.limit, p.count) ==> Places(t) == Places(s) && Excess(t) == Excess(s) + {r}
    ensures !Exceeds(s.limit, p.count) ==> Places(t) == Places(s) + {r} && Excess(t) == Excess(s)
    ensures TurnedAway(t) == TurnedAway(s)
  {
  }

  /** after a phase change that keeps the role, */
  lemma RolesKept(s: State, t: State, r: nat, p: Phase)
    requires r in s.requests && t.requests == s.requests[r := p] && t.limit == s.limit
    requires HoldsPlace(s.limit, p) <==> HoldsPlace(s.limit, s.requests[r])
    requires HoldsExcess(s.limit, p) <==> HoldsExcess(s.limit, s.requests[r])
    requires p.Rejected? <==> s.requests[r].Rejected?
    ensures Places(t) == Places(s) && Excess(t) == Excess(s) && TurnedAway(t) == TurnedAway(s)
    ensures r in Places(s) ==> HoldsPlace(s.limit, p)
  {
  }

  /** and after the increment is taken back. */
  lemma RolesOfRejected(s: State, t: State, r: nat)
    requires r in s.requests && s.requests[r].Over? && t.requests == s.requests[r := Rejected] && t.limit == s.limit
    ensures Places(t) == Places(s) && r !in Places(s)
    ensures r in Excess(s) && Excess(t) == Excess(s) - {r} && TurnedAway(t) == TurnedAway(s) + {r}
  {
  }

  lemma InvParts(s: State)
    ensures Inv(s) <==> InBalance(s.limit, s.counter, Places(s), Excess(s), TurnedAway(s)) && Numbered(s)
  {
  }

  lemma IncrementInv(s: State, r: nat)
    requires Inv(s) && r !in s.requests
    ensures Inv(Next(s, Increment(r)))
  {
    var t, p := Next(s, Increment(r)), Counted(s.counter + 1);
    assert t.requests == s.requests[r := p] && t.limit == s.limit && t.counter == s.counter + 1 && p.HasCount();
    hide *;
    InvParts(s);
    InvParts(t);
    RolesOfNew(s, t, r, p);
    if Exceeds(s.limit, s.counter + 1) {
      NewExcess(s.limit, s.counter, Places(s), Excess(s), TurnedAway(s), r);
      KeepNumbers(s, t, r, p);
    } else {
      NewPlace(s.limit, s.counter, Places(s), Excess(s), TurnedAway(s), r);
      NextNumber(s, t, r, p);
    }
  }

  lemma KeepNumbers(s: State, t: State, r: nat, p: Phase)
    requires Numbered(s) && t.requests == s.requests[r := p] && Places(t) == Places(s)
    requires r in Places(s) ==> r in s.requests && p.HasCount() && s.requests[r].HasCount() && p.count == s.requests[r].count
    ensures Numbered(t)
  {
    hide Places;
    forall q | q in Places(t)
      ensures q in t.requests && t.requests[q].HasCount() && t.requests[q].count == s.requests[q].count
    {
      assert q in Places(s);
    }
    forall n | 1 <= n <= |Places(t)| ensures Held(t, n) {
      assert Held(s, n);
      var q :| q in Places(s) && q in s.requests && s.requests[q].HasCount() && s.requests[q].count == n;
      assert q in Places(t);
    }
  }

  lemma NextNumber(s: State, t: State, r: nat, p: Phase)
    requires Numbered(s) && t.requests == s.requests[r := p] && r !in Places(s) && Places(t) == Places(s) + {r}
    requires p.HasCount() && p.count == |Places(s)| + 1
    ensures Numbered(t)
  {
    hide Places;
    assert |Places(s) + {r}| == |Places(s)| + 1;
    forall q | q in Places(s)
      ensures q != r && q in t.requests && t.requests[q] == s.requests[q]
      ensures t.requests[q].HasCount() && 1 <= t.requests[q].count <= |Places(s)|
    {
    }
    forall n | 1 <= n <= |Places(t)| ensures Held(t, n) {
      if n <= |Places(s)| {
        assert Held(s, n);
        var q :| q in Places(s) && q in s.requests && s.requests[q].HasCount() && s.requests[q].count == n;
        assert q in Places(t);
      } else {
        assert r in Places(t);
      }
    }
    forall a, b | a in Places(t) && b in Places(t) && t.requests[a].count == t.requests[b].count ensures a == b {
      assert a == r || a in Places(s);
      assert b == r || b in Places(s);
    }
  }

  /** A request that changes phase but keeps its place, or its excess, keeps the invariant. */
  lemma SameRoleInv(s: State, t: State, r: nat, p: Phase)
    requires Inv(s) && r in s.requests && t.requests == s.requests[r := p] && t.limit == s.limit && t.counter == s.counter
    requires HoldsPlace(s.limit, p) <==> HoldsPlace(s.limit, s.requests[r])
    requires HoldsExcess(s.limit, p) <==> HoldsExcess(s.limit, s.requests[r])
    requires p.Rejected? <==> s.requests[r].Rejected?
    requires HoldsPlace(s.limit, p) ==> p.count == s.requests[r].count
    ensures Inv(t)
  {
    assert HoldsPlace(s.limit, p) ==> p.HasCount();
    hide *;
    InvParts(s);
    InvParts(t);
    RolesKept(s, t, r, p);
    KeepNumbers(s, t, r, p);
  }

  lemma DecrementInv(s: State, r: nat)
    requires Inv(s) && r in s.requests && s.requests[r].Over?
    ensures Inv(Next(s, Decrement(r)))
  {
    var t := Next(s, Decrement(r));
    assert t.requests == s.requests[r := Rejected] && t.limit == s.limit && t.counter == s.counter - 1;
    hide *;
    InvParts(s);
    InvParts(t);
    RolesOfRejected(s, t, r);
    LessExcess(s.limit, s.counter, Places(s), Excess(s), TurnedAway(s), r);
    KeepNumbers(s, t, r, Rejected);
  }

  /** Every step keeps the invariant, as long as the key has not expired. */
  lemma StepInv(s: State, step: Step, open: int)
    requires Inv(s) && KeyKept(s, open) && Next(s, step).clock < open + EXPIRY
    ensures Inv(Next(s, step)) && KeyKept(Next(s, step), open)
  {
    var t := Next(s, step);
    hide Places, Excess, TurnedAway;
    match step
    case Increment(r) =>
      if r !in s.requests {
        IncrementInv(s, r);
      }
    case Expire(r) =>
      if t != s {
        SameRoleInv(s, t, r, t.requests[r]);
      }
    case Compare(r) =>
      if t != s {
        SameRoleInv(s, t, r, t.requests[r]);
      }
    case Decrement(r) =>
      if t != s {
        DecrementInv(s, r);
      }
    case Wait(seconds) =>
      WaitInv(s, t);
  }

  lemma WaitInv(s: State, t: State)
    requires Inv(s) && t.requests == s.requests && t.limit == s.limit && t.counter == s.counter
    ensures Inv(t)
  {
    hide *;
    InvParts(s);
    InvParts(t);
    WaitRoles(s, t);
    WaitNumbers(s, t);
  }

  lemma WaitNumbers(s: State, t: State)
    requires Numbered(s) && t.requests == s.requests && Places(t) == Places(s)
    ensures Numbered(t)
  {
    hide Places;
    forall n | 1 <= n <= |Places(t)| ensures Held(t, n) {
      assert Held(s, n);
    }
  }

  lemma WaitRoles(s: State, t: State)
    requires t.requests == s.requests && t.limit == s.limit
    ensures Places(t) == Places(s) && Excess(t) == Excess(s) && TurnedAway(t) == TurnedAway(s)
  {
  }

  lemma {:induction false} ClockAscends(s: State, steps: seq<Step>)
    ensures s.clock <= Run(s, steps).clock
    decreases |steps|
  {
    if steps != [] {
      ClockAscends(Next(s, steps[0]), steps[1..]);
    }
  }

  lemma RunFirst(s: State, steps: seq<Step>)
    requires steps != []
    ensures Run(s, steps) == Run(Next(s, steps[0]), steps[1..]) && Next(s, steps[0]).limit == s.limit
  {
  }

  lemma {:induction false} RunInv(s: State, steps: seq<Step>, open: int)
    requires Inv(s) && KeyKept(s, open) && Run(s, steps).clock < open + EXPIRY
    ensures Inv(Run(s, steps)) && KeyKept(Run(s, steps), open) && Run(s, steps).limit == s.limit
    decreases |steps|
  {
    hide *;
    if steps == [] {
      RunNothing(s);
    } else {
      var next := Next(s, steps[0]);
      RunFirst(s, steps);
      ClockAscends(next, steps[1..]);
      StepInv(s, steps[0], open);
      RunInv(next, steps[1..], open);
    }
  }

  // ---- What the gate promises

  /** The state after a run of the gate on a key first used at `open`. */
  function After(plan: string, open: int, steps: seq<Step>): State {
    Run(Opening(DailyRequestLimit(plan), open), steps)
  }

  lemma ReachableInv(plan: string, open: int, steps: seq<Step>)
    requires After(plan, open, steps).clock < open + EXPIRY
    ensures Inv(After(plan, open, steps)) && KeyKept(After(plan, open, steps), open)
    ensures After(plan, open, steps).limit == DailyRequestLimit(plan)
  {
    var start := Opening(DailyRequestLimit(plan), open);
    LimitsPositive(plan, 0, open);
    OpeningInv(start.limit, open);
    RunInv(start, steps, open);
  }

  /** From the first use of a day's key at `open` until it expires, in every interleaving
      of any number of requests: the counter is the places plus the excess, the places
      never pass the limit, and nobody is turned away before they are all taken. */
  lemma QuotaHolds(plan: string, open: int, steps: seq<Step>)
    requires After(plan, open, steps).clock < open + EXPIRY
    ensures var s := After(plan, open, steps);
            && s.limit == DailyRequestLimit(plan)
            && s.counter == |Places(s)| + |Excess(s)|
            && (s.limit.Some? ==> |Places(s)| <= s.limit.value)
            && (forall r :: r in s.requests && (s.requests[r].Over? || s.requests[r].Rejected?) ==>
                  s.limit.Some? && |Places(s)| == s.limit.value)
            && (Places(s) != {} ==> s.counter >= 1)
  {
    ReachableInv(plan, open, steps);
    var s := After(plan, open, steps);
    forall r | r in s.requests && (s.requests[r].Over? || s.requests[r].Rejected?)
      ensures s.limit.Some? && |Places(s)| == s.limit.value
    {
      assert r in Excess(s) || r in TurnedAway(s);
    }
    assert Places(s) != {} ==> |Places(s)| >= 1;
  }

  function AdmittedOf(s: State): set<nat> {
    set r | r in s.requests && s.requests[r].Admitted?
  }

  function AnsweredNo(s: State): set<nat> {
    set r | r in s.requests && (s.requests[r].Over? || s.requests[r].Rejected?)
  }

  /** In numbers: at most 200 requests of the free plan are let through, and at most 20,000 of
      the team plan; of any other plan none is turned away. */
  lemma PlanPromise(plan: string, open: int, steps: seq<Step>)
    requires After(plan, open, steps).clock < open + EXPIRY
    ensures plan == "free" ==> |AdmittedOf(After(plan, open, steps))| <= 200
    ensures plan == "team" ==> |AdmittedOf(After(plan, open, steps))| <= 20_000
    ensures plan != "free" && plan != "team" ==> AnsweredNo(After(plan, open, steps)) == {}
  {
    QuotaHolds(plan, open, steps);
    LimitsByName(plan);
    var s := After(plan, open, steps);
    hide After, DailyRequestLimit;
    assert AdmittedOf(s) <= Places(s);
    Subset(AdmittedOf(s), Places(s));
  }

  lemma Subset(a: set<nat>, b: set<nat>)
    requires a <= b
    ensures |a| <= |b|
  {
    assert b == a + (b - a);
  }

  predicate GivenOne(s: State, r: nat) {
    r in s.requests && s.requests[r].HasCount() && s.requests[r].count == 1
  }

  /** The count 1, which sets the expiry, is given to exactly one request. */
  lemma FirstUseOnce(plan: string, open: int, steps: seq<Step>, a: nat, b: nat)
    requires After(plan, open, steps).clock < open + EXPIRY
    ensures var s := After(plan, open, steps);
            && (GivenOne(s, a) && GivenOne(s, b) ==> a == b)
            && (Places(s) != {} ==> Held(s, 1))
  {
    ReachableInv(plan, open, steps);
    var s := After(plan, open, steps);
    assert s.limit == DailyRequestLimit(plan);
    OneHolder(s, a, b);
  }

  lemma OneHolder(s: State, a: nat, b: nat)
    requires Inv(s)
    ensures GivenOne(s, a) && GivenOne(s, b) ==> a == b
    ensures Places(s) != {} ==> Held(s, 1)
  {
    assert Places(s) != {} ==> |Places(s)| >= 1;
    if GivenOne(s, a) && GivenOne(s, b) {
      assert a in Places(s) && b in Places(s);
    }
  }

  predicate AtRest(s: State) {
    forall r :: r in s.requests ==> s.requests[r].Admitted? || s.requests[r].Rejected?
  }

  lemma RolesAtRest(s: State)
    requires AtRest(s)
    ensures Excess(s) == {} && s.requests.Keys == Places(s) + TurnedAway(s) && Places(s) !! TurnedAway(s)
    ensures AdmittedOf(s) == Places(s)
  {
  }

  /** Once every request has its answer, the counter is the smaller of the number of
      requests and the limit, and so is the number of requests let through. */
  lemma CounterAtRest(plan: string, open: int, steps: seq<Step>)
    requires After(plan, open, steps).clock < open + EXPIRY && AtRest(After(plan, open, steps))
    ensures var s := After(plan, open, steps);
            && s.counter == (if s.limit.None? || |s.requests| <= s.limit.value then |s.requests| else s.limit.value)
            && |AdmittedOf(s)| == s.counter
  {
    ReachableInv(plan, open, steps);
    var s := After(plan, open, steps);
    hide After;
    assert |s.requests| == |s.requests.Keys|;
    RolesAtRest(s);
    var places, away := Places(s), TurnedAway(s);
    assert InBalance(s.limit, s.counter, places, {}, away);
    hide *;
    RestArithmetic(s.limit, s.counter, places, away);
  }

  lemma RestArithmetic(limit: Option<int>, counter: int, places: set<nat>, away: set<nat>)
    requires InBalance(limit, counter, places, {}, away) && places !! away
    ensures counter == if limit.None? || |places + away| <= limit.value then |places + away| else limit.value
  {
    assert |places + away| == |places| + |away|;
    assert away == {} || |away| > 0;
  }

  /** Until the next midnight after its first use the key is never dropped, so the counter
      only moves by the requests' own increments and decrements. */
  lemma KeyOutlivesDay(s: State, seconds: nat, open: int)
    requires open >= 0 && KeyKept(s, open) && s.clock + seconds <= NextUtcMidnight(open)
    ensures Next(s, Wait(seconds)).counter == s.counter && Next(s, Wait(seconds)).expiry == s.expiry
    ensures NextUtcMidnight(open) < open + EXPIRY
  {
  }

  // ---- The gate as a program

  /** One organisation's key for one day, as Redis holds it, and the requests at the gate. */
  class Gate {
    const plan: string
    var counter: int
    var expiry: Option<int>
    var clock: int
    var requests: map<nat, Phase>

    function View(): State
      reads this
    {
      State(DailyRequestLimit(plan), counter, expiry, clock, requests)
    }

    constructor (plan: string, clock: int)
      ensures this.plan == plan && View() == Opening(DailyRequestLimit(plan), clock)
    {
      this.plan, this.clock := plan, clock;
      counter, expiry, requests := 0, None, map[];
    }

    /** `INCR` */
    method Incr(r: nat) returns (count: int)
      requires r !in requests
      modifies `counter, `requests
      ensures View() == Next(old(View()), Increment(r))
      ensures requests[r] == Counted(count) && count == counter
    {
      counter := counter + 1;
      count := counter;
      requests := requests[r := Counted(count)];
    }

    /** `EXPIRE`, on first use only. */
    method ExpireOnFirstUse(r: nat, count: int)
      requires r in requests && requests[r] == Counted(count)
      modifies `expiry, `requests
      ensures View() == Next(old(View()), Expire(r))
      ensures requests[r] == Settled(count)
      ensures expiry == if count == 1 then Some(clock + 90_000) else old(expiry)
    {
      if count == 1 {
        expiry := Some(clock + EXPIRY);
      }
      requests := requests[r := Settled(count)];
    }

    /** Compares the count with the plan's limit. */
    method Decide(r: nat, count: int) returns (status: QuotaStatus, over: bool)
      requires r in requests && requests[r] == Settled(count)
      modifies `requests
      ensures View() == Next(old(View()), Compare(r))
      ensures status == Build(plan, count, clock)
      ensures over <==> requests[r] == Over
      ensures !over ==> requests[r] == Admitted(count)
    {
      status := Build(plan, count, clock);
      over := false;
      if status.limit.Some? {
        if count > status.limit.value {
          over := true;
        }
      }
      requests := requests[r := if over then Over else Admitted(count)];
    }

    /** `DECR`, the compensation of a request over the limit. */
    method Decr(r: nat)
      requires r in requests && requests[r] == Over
      modifies `counter, `requests
      ensures View() == Next(old(View()), Decrement(r))
    {
      counter := counter - 1;
      requests := requests[r := Rejected];
    }

    /** One request with no other in between. The status goes into its headers: what is
        used and what is left add up to the limit. */
    method Pass(r: nat) returns (admitted: bool, status: QuotaStatus)
      requires r !in requests && Inv(View())
      modifies `counter, `expiry, `requests
      ensures View() == Run(old(View()), [Increment(r), Expire(r), Compare(r), Decrement(r)])
      ensures Inv(View())
      ensures admitted <==> DailyRequestLimit(plan).None? || old(counter) < DailyRequestLimit(plan).value
      ensures counter == old(counter) + (if admitted then 1 else 0)
      ensures status.plan == plan && status.limit == DailyRequestLimit(plan)
      ensures status.used == if admitted then old(counter) + 1 else DailyRequestLimit(plan).value
      ensures status.limit.Some? ==> status.remaining.Some? && status.used + status.remaining.value == status.limit.value
      ensures clock >= 0 || IsMidnight(clock) <==> IsNextMidnight(clock, status.resetsAt)
      ensures expiry == if old(counter) == 0 then Some(clock + 90_000) else old(expiry)
    {
      hide Inv, Run, DailyRequestLimit, NextUtcMidnight, IsNextMidnight;
      ghost var s0 := View();
      var count := Incr(r);
      ghost var s1 := View();
      ExpireOnFirstUse(r, count);
      ghost var s2 := View();
      var over;
      status, over := Decide(r, count);
      ghost var s3 := View();
      admitted := !over;
      if over {
        Decr(r);
        status := Build(plan, status.limit.value, clock);
      }
      FourSteps(s0, r);
      PassKeepsInv(s0, r);
      LimitsPositive(plan, status.used, clock);
      StatusReports(plan, status.used, clock);
    }
  }

  lemma FourSteps(s: State, r: nat)
    ensures Run(s, [Increment(r), Expire(r), Compare(r), Decrement(r)])
         == Next(Next(Next(Next(s, Increment(r)), Expire(r)), Compare(r)), Decrement(r))
  {
    hide *;
    RunStep(s, Increment(r), [Expire(r), Compare(r), Decrement(r)]);
    RunStep(Next(s, Increment(r)), Expire(r), [Compare(r), Decrement(r)]);
    RunStep(Next(Next(s, Increment(r)), Expire(r)), Compare(r), [Decrement(r)]);
    RunStep(Next(Next(Next(s, Increment(r)), Expire(r)), Compare(r)), Decrement(r), []);
    RunNothing(Next(Next(Next(Next(s, Increment(r)), Expire(r)), Compare(r)), Decrement(r)));
    assert [Increment(r), Expire(r), Compare(r), Decrement(r)] == [Increment(r)] + [Expire(r), Compare(r), Decrement(r)];
    assert [Expire(r), Compare(r), Decrement(r)] == [Expire(r)] + [Compare(r), Decrement(r)];
    assert [Compare(r), Decrement(r)] == [Compare(r)] + [Decrement(r)];
    assert [Decrement(r)] == [Decrement(r)] + [];
  }

  lemma RunStep(s: State, step: Step, rest: seq<Step>)
    ensures Run(s, [step] + rest) == Run(Next(s, step), rest)
  {
    assert ([step] + rest)[1..] == rest;
  }

  lemma RunNothing(s: State)
    ensures Run(s, []) == s
  {
  }

  lemma PassKeepsInv(s: State, r: nat)
    requires Inv(s) && r !in s.requests
    ensures Inv(Next(Next(Next(Next(s, Increment(r)), Expire(r)), Compare(r)), Decrement(r)))
  {
    var s1 := Next(s, Increment(r));
    var s2 := Next(s1, Expire(r));
    var s3 := Next(s2, Compare(r));
    hide Inv;
    IncrementInv(s, r);
    SameRoleInv(s1, s2, r, s2.requests[r]);
    SameRoleInv(s2, s3, r, s3.requests[r]);
    if s3.requests[r].Over? {
      DecrementInv(s3, r);
    }
  }
}
