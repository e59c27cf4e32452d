/** Plan limits and the daily window. */
module Plan {
  import opened Detection

  const DAY: int := 86_400

  /** Requests per day; `None` is unlimited. */
  function DailyRequestLimit(plan: string): Option<int> {
    if plan == "free" then Some(200)
    else if plan == "team" then Some(20_000)
    else None
  }

  /** Integer division as the program does it: towards zero. */
  function Quotient(a: int, b: int): int
    requires b > 0
  {
    if a >= 0 then a / b else -((-a) / b)
  }

  function NextUtcMidnight(now: int): int {
    (Quotient(now, DAY) + 1) * DAY
  }

  predicate IsMidnight(t: int) {
    t % DAY == 0
  }

  ghost predicate IsNextMidnight(now: int, t: int) {
    IsMidnight(t) && now < t && forall m :: IsMidnight(m) && now < m ==> t <= m
  }

  /** The result is the first midnight after `now` exactly for times that are not
      strictly inside a day before 1970: there division towards zero skips one. */
  lemma NextMidnightExact(now: int)
    ensures IsNextMidnight(now, NextUtcMidnight(now)) <==> now >= 0 || IsMidnight(now)
  {
    var t := NextUtcMidnight(now);
    if now >= 0 {
      assert t == now - now % DAY + DAY;
      forall m | IsMidnight(m) && now < m ensures t <= m {
        assert m == m / DAY * DAY;
      }
    } else {
      var days, rest := (-now) / DAY, (-now) % DAY;
      assert now == -days * DAY - rest && t == (1 - days) * DAY;
      if rest == 0 {
        assert IsMidnight(now) by { assert now == (-days) * DAY; }
        assert IsMidnight(t);
        forall m | IsMidnight(m) && now < m ensures t <= m {
          assert m == m / DAY * DAY;
        }
      } else {
        var earlier := (-days) * DAY;
        assert IsMidnight(earlier) && now < earlier < t;
        assert !IsMidnight(now) by { assert now == (-days - 1) * DAY + (DAY - rest); }
      }
    }
  }

  /** A second before 1970 the next midnight is 0, and the result is a day later. */
  lemma SkippedMidnight()
    ensures IsNextMidnight(-1, 0) && NextUtcMidnight(-1) == DAY && !IsNextMidnight(-1, DAY)
  {
    assert (-(-1)) / DAY == 0;
    forall m | IsMidnight(m) && -1 < m ensures 0 <= m {
    }
    assert IsMidnight(0);
  }

  datatype QuotaStatus = QuotaStatus(plan: string, limit: Option<int>, used: int, remaining: Option<int>, resetsAt: int)

  function Build(plan: string, used: int, now: int): QuotaStatus {
    var limit := DailyRequestLimit(plan);
    var remaining := if limit.None? then None else Some(if limit.value < used then 0 else limit.value - used);
    QuotaStatus(plan, limit, used, remaining, NextUtcMidnight(now))
  }

  /** The limits by name: two plans have one, and every other plan has none. */
  lemma LimitsByName(plan: string)
    ensures DailyRequestLimit(plan) == Some(200) <==> plan == "free"
    ensures DailyRequestLimit(plan) == Some(20_000) <==> plan == "team"
    ensures DailyRequestLimit(plan) == None <==> plan != "free" && plan != "team"
  {
    assert "free"[0] != "team"[0];
  }

  /** A status is about the plan, the count and the time it was asked for, and the window it
      names ends at the next midnight. */
  lemma StatusReports(plan: string, used: int, now: int)
    ensures var q := Build(plan, used, now);
            q.plan == plan && q.used == used && (now >= 0 || IsMidnight(now) <==> IsNextMidnight(now, q.resetsAt))
  {
    NextMidnightExact(now);
  }

  /** A limited plan lets at least one request through, and never reports a negative rest. */
  lemma LimitsPositive(plan: string, used: int, now: int)
    ensures DailyRequestLimit(plan).Some? ==> DailyRequestLimit(plan).value >= 1
    ensures Build(plan, used, now).limit == DailyRequestLimit(plan)
    ensures Build(plan, used, now).remaining.Some? <==> Build(plan, used, now).limit.Some?
    ensures Build(plan, used, now).remaining.Some? ==>
              var q := Build(plan, used, now);
              q.remaining.value >= 0 && (q.used <= q.limit.value <==> q.used + q.remaining.value == q.limit.value)
  {
  }
}
