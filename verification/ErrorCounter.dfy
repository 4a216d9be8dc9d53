/** The sequential-error counter of the two WLAN drivers: what a run of outcomes does to it,
    and what that means in terms of the outcomes alone. */
module ErrorCounter {
  import opened Basics

  /** What one driver command does to the counter. */
  datatype Effect = Fails | Resets | Neutral

  /** The counter after a step, and whether the step reports a hang. */
  function Count(limit: nat, errors: nat, e: Effect): (nat, bool) {
    match e
    case Fails => if errors + 1 > limit then (0, true) else (errors + 1, false)
    case Resets => (0, false)
    case Neutral => (errors, false)
  }

  function Errors(limit: nat, h: seq<Effect>): nat {
    if h == [] then 0 else Count(limit, Errors(limit, DropLast(h)), Last(h)).0
  }

  /** Whether the last step of a run reports a hang. */
  predicate Hangs(limit: nat, h: seq<Effect>)
    requires h != []
  {
    Count(limit, Errors(limit, DropLast(h)), Last(h)).1
  }

  // ----- in terms of the outcomes alone

  /** The failures since the last reset, however many hangs were reported among them. */
  function Streak(h: seq<Effect>): nat {
    if h == [] then 0
    else
      match Last(h)
      case Fails => Streak(DropLast(h)) + 1
      case Resets => 0
      case Neutral => Streak(DropLast(h))
  }

  /** The last failure of the run is the (N+1)th, or a multiple of that, since the last reset. */
  predicate StreakComplete(limit: nat, h: seq<Effect>) {
    Streak(h) % (limit + 1) == 0
  }

  lemma ModStep(s: nat, m: nat)
    requires m > 0
    ensures (s + 1) % m == if s % m + 1 == m then 0 else s % m + 1
  {
    var q, r := s / m, s % m;
    assert s + 1 == q * m + (r + 1);
    if r + 1 == m {
      assert s + 1 == (q + 1) * m + 0;
      DivMod(s + 1, m, q + 1, 0);
    } else {
      DivMod(s + 1, m, q, r + 1);
    }
  }

  /** The counter stays within its limit N, and a hang is reported exactly at every (N+1)th
      failure that no reset has come between. */
  lemma {:induction false} CounterMeaning(limit: nat, h: seq<Effect>)
    ensures Errors(limit, h) == Streak(h) % (limit + 1)
    ensures Errors(limit, h) <= limit
    ensures h != [] ==> (Hangs(limit, h) <==> Last(h) == Fails && StreakComplete(limit, h))
  {
    var m := limit + 1;
    if h == [] {
      DivMod(0, m, 0, 0);
    } else {
      var most := DropLast(h);
      CounterMeaning(limit, most);
      var s := Streak(most);
      ModStep(s, m);
      DivMod(0, m, 0, 0);
      assert Errors(limit, h) == Count(limit, Errors(limit, most), Last(h)).0;
      if Last(h) == Fails {
        assert Streak(h) == s + 1;
      }
    }
  }

  lemma Bounded(limit: nat, h: seq<Effect>)
    ensures Errors(limit, h) <= limit
  {
    CounterMeaning(limit, h);
  }

  lemma Unmoved(limit: nat, h: seq<Effect>)
    ensures Errors(limit, h + [Neutral]) == Errors(limit, h) && !Hangs(limit, h + [Neutral])
  {
    assert DropLast(h + [Neutral]) == h;
  }

  function Failures(h: seq<Effect>): nat {
    if h == [] then 0 else Failures(DropLast(h)) + if Last(h) == Fails then 1 else 0
  }

  function Reports(limit: nat, h: seq<Effect>): nat {
    if h == [] then 0 else Reports(limit, DropLast(h)) + if Hangs(limit, h) then 1 else 0
  }

  lemma {:induction false} FailuresAppend(a: seq<Effect>, b: seq<Effect>)
    ensures Failures(a + b) == Failures(a) + Failures(b)
  {
    if b == [] {
      assert a + b == a;
    } else {
      FailuresAppend(a, DropLast(b));
      assert DropLast(a + b) == a + DropLast(b);
    }
  }

  lemma OneMore(limit: nat, h: seq<Effect>, e: Effect)
    ensures var (errors, hangs) := Count(limit, Errors(limit, h), e);
            Errors(limit, h + [e]) == errors && Reports(limit, h + [e]) == Reports(limit, h) + if hangs then 1 else 0
    ensures Failures(h + [e]) == Failures(h) + if e == Fails then 1 else 0
  {
    assert DropLast(h + [e]) == h;
  }

  /** In a stretch without resets every failure goes either into a report or into the count. */
  lemma {:induction false} StretchPaid(limit: nat, h: seq<Effect>, stretch: seq<Effect>) returns (n: nat)
    requires Resets !in stretch
    ensures Reports(limit, h + stretch) == Reports(limit, h) + n
    ensures (limit + 1) * n + Errors(limit, h + stretch) == Failures(stretch) + Errors(limit, h)
  {
    hide Reports, Errors, Failures;
    if stretch == [] {
      assert h + stretch == h;
      NoFailures();
      n := 0;
    } else {
      var most, e := DropLast(stretch), Last(stretch);
      assert forall x <- most :: x in stretch;
      n := StretchPaid(limit, h, most);
      assert h + stretch == (h + most) + [e] && stretch == most + [e] && e in stretch;
      OneMore(limit, h + most, e);
      OneMore(limit, most, e);
      Bounded(limit, h + most);
      assert (limit + 1) * (n + 1) == (limit + 1) * n + (limit + 1);
      if e == Fails && Errors(limit, h + most) == limit {
        n := n + 1;
      }
    }
  }

  lemma NoReports(limit: nat, h: seq<Effect>)
    requires Failures(h) == 0
    ensures Reports(limit, h) == 0
  {
    ReportsPaidFor(limit, h);
    assert Reports(limit, h) > 0 ==> (limit + 1) * Reports(limit, h) > 0;
  }

  lemma NoFailures()
    ensures Failures([]) == 0
  {
  }

  /** Every stretch of k(N+1) failures without a reset among them reports exactly k hangs,
      whatever was counted before, and leaves the count as it was. */
  lemma StretchReports(limit: nat, h: seq<Effect>, stretch: seq<Effect>, k: nat)
    requires Resets !in stretch && Failures(stretch) == k * (limit + 1)
    ensures Reports(limit, h + stretch) == Reports(limit, h) + k
    ensures Errors(limit, h + stretch) == Errors(limit, h)
  {
    hide Reports, Errors, Failures;
    var n := StretchPaid(limit, h, stretch);
    Bounded(limit, h);
    Bounded(limit, h + stretch);
    assert (n - k) * (limit + 1) == (limit + 1) * n - k * (limit + 1);
    SmallMultiple(n - k, limit + 1);
  }

  /** Every report stands for N+1 failures of its own, and without resets no failure is lost. */
  lemma {:induction false} ReportsPaidFor(limit: nat, h: seq<Effect>)
    ensures (limit + 1) * Reports(limit, h) + Errors(limit, h) <= Failures(h)
    ensures Resets !in h ==> (limit + 1) * Reports(limit, h) + Errors(limit, h) == Failures(h)
  {
    if h != [] {
      var most, m := DropLast(h), limit + 1;
      ReportsPaidFor(limit, most);
      var n, e := Reports(limit, most), Errors(limit, most);
      assert m * (n + 1) == m * n + m;
      assert e <= limit by { CounterMeaning(limit, most); }
      assert Reports(limit, h) == if Last(h) == Fails && e + 1 > limit then n + 1 else n;
      assert forall x <- most :: x in h;
      assert Last(h) in h;
    }
  }
}
