/** What every run of the session pool keeps, whatever the clock does: where each session is, where
    each request is, and that none waits while a session is idle. */
module SessionPoolSafety {
  import opened Options
  import opened Runs
  import opened SessionPoolModel

  // ----- sessions -----

  ghost predicate Distinct(xs: seq<nat>) {
    forall i, j :: 0 <= i < j < |xs| ==> xs[i] != xs[j]
  }

  // Where a session is: exactly one of the three, and nowhere before it is created.
  ghost predicate Placed(idle: seq<nat>, active: set<nat>, dropped: set<nat>, n: nat, x: nat) {
    && (x < n <==> x in active || x in idle || x in dropped)
    && !(x in active && x in idle)
    && !(x in active && x in dropped)
    && !(x in idle && x in dropped)
  }

  ghost predicate Split(idle: seq<nat>, active: set<nat>, dropped: set<nat>, n: nat) {
    Distinct(idle) && forall x: nat :: Placed(idle, active, dropped, n, x)
  }

  lemma HeadToActive(idle: seq<nat>, active: set<nat>, dropped: set<nat>, n: nat)
    requires Split(idle, active, dropped, n) && idle != []
    ensures Split(idle[1..], active + {idle[0]}, dropped, n)
    ensures |active + {idle[0]}| == |active| + 1
  {
    assert idle == [idle[0]] + idle[1..];
    assert Placed(idle, active, dropped, n, idle[0]);
    forall x: nat ensures Placed(idle[1..], active + {idle[0]}, dropped, n, x) {
      assert Placed(idle, active, dropped, n, x);
    }
  }

  lemma HeadToDropped(idle: seq<nat>, active: set<nat>, dropped: set<nat>, n: nat)
    requires Split(idle, active, dropped, n) && idle != []
    ensures Split(idle[1..], active + {idle[0]} - {idle[0]}, dropped + {idle[0]}, n)
    ensures active + {idle[0]} - {idle[0]} == active
  {
    assert idle == [idle[0]] + idle[1..];
    assert Placed(idle, active, dropped, n, idle[0]);
    forall x: nat ensures Placed(idle[1..], active, dropped + {idle[0]}, n, x) {
      assert Placed(idle, active, dropped, n, x);
    }
    assert active + {idle[0]} - {idle[0]} == active;
  }

  lemma ActiveToIdle(idle: seq<nat>, active: set<nat>, dropped: set<nat>, n: nat, x: nat)
    requires Split(idle, active, dropped, n) && x in active
    ensures Split(idle + [x], active - {x}, dropped, n)
    ensures |active - {x}| == |active| - 1
  {
    assert Placed(idle, active, dropped, n, x);
    forall y: nat ensures Placed(idle + [x], active - {x}, dropped, n, y) {
      assert Placed(idle, active, dropped, n, y);
    }
  }

  lemma ActiveToDropped(idle: seq<nat>, active: set<nat>, dropped: set<nat>, n: nat, x: nat)
    requires Split(idle, active, dropped, n) && x in active
    ensures Split(idle, active - {x}, dropped + {x}, n)
    ensures |active - {x}| == |active| - 1
  {
    forall y: nat ensures Placed(idle, active - {x}, dropped + {x}, n, y) {
      assert Placed(idle, active, dropped, n, y);
    }
  }

  lemma NewToActive(idle: seq<nat>, active: set<nat>, dropped: set<nat>, n: nat)
    requires Split(idle, active, dropped, n)
    ensures Split(idle, active + {n}, dropped, n + 1)
    ensures |active + {n}| == |active| + 1
  {
    assert Placed(idle, active, dropped, n, n);
    var m := n + 1;
    forall y: nat ensures Placed(idle, active + {n}, dropped, m, y) {
      assert Placed(idle, active, dropped, n, y);
    }
  }

  lemma SomeIdleToDropped(idle: seq<nat>, active: set<nat>, dropped: set<nat>, n: nat, kept: seq<nat>)
    requires Split(idle, active, dropped, n) && Distinct(kept) && Ids(kept) <= Ids(idle)
    ensures Split(kept, active, dropped + (Ids(idle) - Ids(kept)), n)
  {
    forall y: nat ensures Placed(kept, active, dropped + (Ids(idle) - Ids(kept)), n, y) {
      assert Placed(idle, active, dropped, n, y);
      assert y in kept ==> y in Ids(kept);
    }
  }

  lemma AllToDropped(idle: seq<nat>, active: set<nat>, dropped: set<nat>, n: nat)
    requires Split(idle, active, dropped, n)
    ensures Split([], {}, dropped + active + Ids(idle), n)
  {
    forall y: nat ensures Placed([], {}, dropped + active + Ids(idle), n, y) {
      assert Placed(idle, active, dropped, n, y);
    }
  }

  // Every session ever created is active, idle or dropped, and only one of them.
  ghost predicate SessionsOk(c: Config, s: Pool) {
    && Split(s.idle, s.active, s.dropped, s.nextSession)
    && |s.active| + |s.idle| <= c.maxConnections
    && s.created + s.createdBefore == s.nextSession
    && (s.down ==> s.active == {} && s.idle == [])
  }

  lemma DrainOneKeepsSessions(c: Config, s: Pool)
    requires SessionsOk(c, s) && s.queue != [] && s.idle != []
    ensures SessionsOk(c, DrainOne(c, s))
  {
    HeadToActive(s.idle, s.active, s.dropped, s.nextSession);
    HeadToDropped(s.idle, s.active, s.dropped, s.nextSession);
  }

  lemma {:induction false} DrainKeepsSessions(c: Config, s: Pool)
    requires SessionsOk(c, s)
    ensures SessionsOk(c, Drain(c, s))
    decreases |s.queue|
  {
    if s.queue != [] && s.idle != [] {
      DrainOneKeepsSessions(c, s);
      DrainKeepsSessions(c, DrainOne(c, s));
    }
  }

  lemma ReleaseKeepsSessions(c: Config, s: Pool, session: Option<nat>, isIdle: bool)
    requires SessionsOk(c, s)
    ensures SessionsOk(c, Release(c, s, session, isIdle))
  {
    if session.Some? && s.down {
      assert s.active - {session.value} == s.active;
    } else if session.Some? && session.value in s.active {
      var x := session.value;
      ActiveToIdle(s.idle, s.active, s.dropped, s.nextSession, x);
      ActiveToDropped(s.idle, s.active, s.dropped, s.nextSession, x);
      DrainKeepsSessions(c, BeforeDrain(s, x, isIdle));
    }
  }

  lemma {:induction false} FreshIsSubsequence(c: Config, idle: seq<nat>, lastActivity: nat -> int, tick: nat)
    requires Distinct(idle)
    ensures var kept := Fresh(c, idle, lastActivity, tick);
            Distinct(kept) && Ids(kept) <= Ids(idle) && |kept| <= |idle|
  {
    if idle != [] {
      var n := |idle| - 1;
      FreshIsSubsequence(c, idle[..n], lastActivity, tick);
      assert idle[n] !in Ids(idle[..n]);
      assert Ids(idle[..n]) <= Ids(idle);
    }
  }

  lemma CleanupKeepsSessions(c: Config, s: Pool, lastActivity: nat -> int)
    requires SessionsOk(c, s)
    ensures SessionsOk(c, CleanupIdle(c, s, lastActivity))
  {
    FreshIsSubsequence(c, s.idle, lastActivity, s.tick + 1);
    SomeIdleToDropped(s.idle, s.active, s.dropped, s.nextSession, Fresh(c, s.idle, lastActivity, s.tick + 1));
  }

  lemma ShutdownKeepsSessions(c: Config, s: Pool)
    requires SessionsOk(c, s)
    ensures SessionsOk(c, Shutdown(s))
  {
    AllToDropped(s.idle, s.active, s.dropped, s.nextSession);
  }

  lemma BeginKeepsSessions(c: Config, s: Pool)
    requires SessionsOk(c, s)
    ensures SessionsOk(c, Begin(c, s).0)
  {
    if s.idle != [] { HeadToActive(s.idle, s.active, s.dropped, s.nextSession); }
    NewToActive(s.idle, s.active, s.dropped, s.nextSession);
  }

  lemma ResumeKeepsSessions(c: Config, s: Pool, ticket: nat)
    requires SessionsOk(c, s) && ticket in s.waiting
    ensures SessionsOk(c, Resume(c, s, ticket).0)
  {
    if s.idle != [] { HeadToActive(s.idle, s.active, s.dropped, s.nextSession); }
  }

  lemma NextKeepsSessions(c: Config, s: Pool, step: Step)
    requires SessionsOk(c, s)
    ensures SessionsOk(c, Next(c, s, step))
  {
    match step
    case BeginAcquire => BeginKeepsSessions(c, s);
    case ResumeAcquire(ticket) => if ticket in s.waiting { ResumeKeepsSessions(c, s, ticket); }
    case ReleaseSession(session, isIdle) => ReleaseKeepsSessions(c, s, session, isIdle);
    case CleanupIdleSessions(lastActivity) => CleanupKeepsSessions(c, s, lastActivity);
    case ShutdownPool => ShutdownKeepsSessions(c, s);
    case ResetStats =>
  }

  lemma DistinctCount(xs: seq<nat>)
    requires Distinct(xs)
    ensures |Ids(xs)| == |xs|
  {
    if xs != [] {
      DistinctCount(xs[1..]);
      assert Ids(xs) == Ids(xs[1..]) + {xs[0]};
    }
  }

  lemma BelowCount(n: nat, s: set<nat>)
    requires forall x: nat :: x in s <==> x < n
    ensures |s| == n
  {
    if n > 0 { BelowCount(n - 1, s - {n - 1}); }
  }

  // A split of n sessions counts n of them.
  lemma SessionsConserved(idle: seq<nat>, active: set<nat>, dropped: set<nat>, n: nat)
    requires Split(idle, active, dropped, n)
    ensures |active| + |idle| + |dropped| == n
  {
    DistinctCount(idle);
    var all := active + Ids(idle) + dropped;
    forall x: nat ensures x in all <==> x < n { assert Placed(idle, active, dropped, n, x); }
    BelowCount(n, all);
    forall x: nat ensures !(x in active && x in Ids(idle)) && !(x in active + Ids(idle) && x in dropped) {
      assert Placed(idle, active, dropped, n, x);
    }
    assert active !! Ids(idle) && (active + Ids(idle)) !! dropped;
  }

  // ----- requests -----

  function Queued(q: seq<Request>, ticket: nat): nat {
    if q == [] then 0 else
      var n := |q| - 1;
      Queued(q[..n], ticket) + if q[n].ticket == ticket then 1 else 0
  }

  function Departed(d: seq<Departure>, ticket: nat): nat {
    if d == [] then 0 else
      var n := |d| - 1;
      Departed(d[..n], ticket) + if d[n].ticket == ticket then 1 else 0
  }

  // An entry that was ever queued is either still queued or has departed, once in all.
  ghost predicate Accounted(q: seq<Request>, d: seq<Departure>, n: nat, ticket: nat) {
    Queued(q, ticket) + Departed(d, ticket) == if ticket < n then 1 else 0
  }

  ghost predicate AllAccounted(q: seq<Request>, d: seq<Departure>, n: nat) {
    forall ticket: nat :: Accounted(q, d, n, ticket)
  }

  ghost predicate RequestsOk(c: Config, s: Pool) {
    && |s.queue| <= c.maxQueueSize
    && AllAccounted(s.queue, s.departed, s.nextTicket)
    && (forall t :: t in s.waiting ==> t < s.nextTicket)
  }

  lemma {:induction false} QueuedConcat(a: seq<Request>, b: seq<Request>, ticket: nat)
    ensures Queued(a + b, ticket) == Queued(a, ticket) + Queued(b, ticket)
  {
    if b == [] {
      assert a + b == a;
    } else {
      var n := |b| - 1;
      QueuedConcat(a, b[..n], ticket);
      assert (a + b)[..|a| + n] == a + b[..n];
    }
  }

  lemma {:induction false} DepartedConcat(a: seq<Departure>, b: seq<Departure>, ticket: nat)
    ensures Departed(a + b, ticket) == Departed(a, ticket) + Departed(b, ticket)
  {
    if b == [] {
      assert a + b == a;
    } else {
      var n := |b| - 1;
      DepartedConcat(a, b[..n], ticket);
      assert (a + b)[..|a| + n] == a + b[..n];
    }
  }

  // The sweep splits the queue: what it keeps and what it refuses make up all of it.
  lemma {:induction false} SweepSplits(c: Config, q: seq<Request>, now: int, ticket: nat)
    ensures var kept, overdue := Unexpired(c, q, now), Overdue(c, q, now);
            && |kept| + |overdue| == |q|
            && Queued(kept, ticket) + Queued(overdue, ticket) == Queued(q, ticket)
  {
    if q != [] {
      var n := |q| - 1;
      SweepSplits(c, q[..n], now, ticket);
      assert [q[n]][..0] == [];
      if Expired(c, q[n], now) {
        QueuedConcat(Overdue(c, q[..n], now), [q[n]], ticket);
        assert Unexpired(c, q, now) == Unexpired(c, q[..n], now);
      } else {
        QueuedConcat(Unexpired(c, q[..n], now), [q[n]], ticket);
        assert Overdue(c, q, now) == Overdue(c, q[..n], now);
      }
    }
  }

  lemma {:induction false} RefusalsDepart(q: seq<Request>, ticket: nat)
    ensures Departed(Refusals(q), ticket) == Queued(q, ticket)
  {
    if q != [] {
      RefusalsDepart(q[..|q| - 1], ticket);
      assert Refusals(q)[..|q| - 1] == Refusals(q[..|q| - 1]);
    }
  }

  lemma SweepKeepsAccount(c: Config, q: seq<Request>, d: seq<Departure>, n: nat, now: int)
    requires AllAccounted(q, d, n)
    ensures AllAccounted(Unexpired(c, q, now), d + Refusals(Overdue(c, q, now)), n)
    ensures |Unexpired(c, q, now)| <= |q|
  {
    var q', d' := Unexpired(c, q, now), d + Refusals(Overdue(c, q, now));
    forall ticket: nat ensures Accounted(q', d', n, ticket) {
      assert Accounted(q, d, n, ticket);
      SweepSplits(c, q, now, ticket);
      DepartedConcat(d, Refusals(Overdue(c, q, now)), ticket);
      RefusalsDepart(Overdue(c, q, now), ticket);
    }
    SweepSplits(c, q, now, 0);
  }

  lemma EnqueueKeepsAccount(q: seq<Request>, d: seq<Departure>, n: nat, time: int)
    requires AllAccounted(q, d, n)
    ensures AllAccounted(q + [Request(n, time)], d, n + 1)
  {
    var q', m := q + [Request(n, time)], n + 1;
    forall ticket: nat ensures Accounted(q', d, m, ticket) {
      assert Accounted(q, d, n, ticket);
      QueuedConcat(q, [Request(n, time)], ticket);
      assert [Request(n, time)][..0] == [];
    }
  }

  // Taking entry k out of the queue and recording its departure, wherever k is.
  lemma DepartureKeepsAccount(q: seq<Request>, d: seq<Departure>, n: nat, k: nat, o: Outcome)
    requires AllAccounted(q, d, n) && k < |q|
    ensures AllAccounted(q[k + 1..] + q[..k], d + [Departure(q[k].ticket, o)], n)
  {
    var gone := Departure(q[k].ticket, o);
    var q', d' := q[k + 1..] + q[..k], d + [gone];
    forall ticket: nat ensures Accounted(q', d', n, ticket) {
      assert Accounted(q, d, n, ticket);
      assert q == q[..k] + [q[k]] + q[k + 1..];
      QueuedConcat(q[..k] + [q[k]], q[k + 1..], ticket);
      QueuedConcat(q[..k], [q[k]], ticket);
      QueuedConcat(q[k + 1..], q[..k], ticket);
      DepartedConcat(d, [gone], ticket);
      assert [q[k]][..0] == [] && [gone][..0] == [];
    }
  }

  lemma SweepKeepsRequests(c: Config, s: Pool)
    requires RequestsOk(c, s)
    ensures RequestsOk(c, Sweep(c, s))
  {
    SweepKeepsAccount(c, s.queue, s.departed, s.nextTicket, c.clock(s.tick));
  }

  lemma EnqueueKeepsRequests(c: Config, s: Pool)
    requires RequestsOk(c, s) && |s.queue| < c.maxQueueSize
    ensures RequestsOk(c, Enqueue(c, s))
  {
    EnqueueKeepsAccount(s.queue, s.departed, s.nextTicket, c.clock(s.tick));
  }

  lemma DrainOneKeepsRequests(c: Config, s: Pool)
    requires RequestsOk(c, s) && s.queue != [] && s.idle != []
    ensures RequestsOk(c, DrainOne(c, s))
  {
    assert s.queue[1..] == s.queue[0 + 1..] + s.queue[..0];
    DepartureKeepsAccount(s.queue, s.departed, s.nextTicket, 0,
                          if Expired(c, s.queue[0], c.clock(s.tick)) then Refused else Handed(s.idle[0]));
  }

  lemma {:induction false} DrainKeepsRequests(c: Config, s: Pool)
    requires RequestsOk(c, s)
    ensures RequestsOk(c, Drain(c, s))
    decreases |s.queue|
  {
    if s.queue != [] && s.idle != [] {
      DrainOneKeepsRequests(c, s);
      DrainKeepsRequests(c, DrainOne(c, s));
    }
  }

  lemma TimeOutKeepsRequests(c: Config, s: Pool)
    requires RequestsOk(c, s)
    ensures RequestsOk(c, TimeOut(c, s))
  {
    var k := ScanPosition(c, s.queue, s.tick, 0);
    if k < |s.queue| { DepartureKeepsAccount(s.queue, s.departed, s.nextTicket, k, Refused); }
  }

  lemma BeginKeepsRequests(c: Config, s: Pool)
    requires RequestsOk(c, s)
    ensures RequestsOk(c, Begin(c, s).0)
  {
    SweepKeepsRequests(c, s);
    var s1 := Sweep(c, s);
    if |s1.queue| < c.maxQueueSize { EnqueueKeepsRequests(c, s1); }
  }

  lemma ResumeKeepsRequests(c: Config, s: Pool, ticket: nat)
    requires RequestsOk(c, s) && ticket in s.waiting
    ensures RequestsOk(c, Resume(c, s, ticket).0)
  {
    TimeOutKeepsRequests(c, s.(waiting := s.waiting - {ticket}, tick := s.tick + 1));
  }

  lemma ReleaseKeepsRequests(c: Config, s: Pool, session: Option<nat>, isIdle: bool)
    requires RequestsOk(c, s)
    ensures RequestsOk(c, Release(c, s, session, isIdle))
  {
    if session.Some? && !s.down && session.value in s.active {
      DrainKeepsRequests(c, BeforeDrain(s, session.value, isIdle));
    }
  }

  lemma NextKeepsRequests(c: Config, s: Pool, step: Step)
    requires RequestsOk(c, s)
    ensures RequestsOk(c, Next(c, s, step))
  {
    match step
    case BeginAcquire => BeginKeepsRequests(c, s);
    case ResumeAcquire(ticket) => if ticket in s.waiting { ResumeKeepsRequests(c, s, ticket); }
    case ReleaseSession(session, isIdle) => ReleaseKeepsRequests(c, s, session, isIdle);
    case CleanupIdleSessions(_) =>
    case ShutdownPool =>
    case ResetStats =>
  }

  // ----- no idle session while a request waits -----

  ghost predicate NoIdleWhileQueued(s: Pool) {
    s.queue == [] || s.idle == []
  }

  lemma {:induction false} DrainLeavesOneEmpty(c: Config, s: Pool)
    ensures NoIdleWhileQueued(Drain(c, s))
    decreases |s.queue|
  {
    if s.queue != [] && s.idle != [] { DrainLeavesOneEmpty(c, DrainOne(c, s)); }
  }

  lemma NextKeepsNoIdleWhileQueued(c: Config, s: Pool, step: Step)
    requires NoIdleWhileQueued(s)
    ensures NoIdleWhileQueued(Next(c, s, step))
  {
    if step.ReleaseSession? && step.session.Some? && !s.down && step.session.value in s.active {
      DrainLeavesOneEmpty(c, BeforeDrain(s, step.session.value, step.isIdle));
    }
  }

  // ----- one acquisition for each wait -----

  // A thread that was given a session on waking waits no more, and its ticket is never used again.
  ghost predicate WakesOk(s: Pool) {
    && Distinct(s.woken)
    && (forall t :: t in s.woken ==> t < s.nextTicket && t !in s.waiting)
    && (forall t :: t in s.waiting ==> t < s.nextTicket)
  }

  lemma {:induction false} DrainKeepsWakes(c: Config, s: Pool)
    ensures var s' := Drain(c, s);
            s'.woken == s.woken && s'.waiting == s.waiting && s'.nextTicket == s.nextTicket
    decreases |s.queue|
  {
    if s.queue != [] && s.idle != [] { DrainKeepsWakes(c, DrainOne(c, s)); }
  }

  lemma NextKeepsWakes(c: Config, s: Pool, step: Step)
    requires WakesOk(s)
    ensures WakesOk(Next(c, s, step))
  {
    if step.ReleaseSession? && step.session.Some? && !s.down && step.session.value in s.active {
      DrainKeepsWakes(c, BeforeDrain(s, step.session.value, step.isIdle));
    }
  }

  // ----- the invariant of every run -----

  ghost predicate Safe(c: Config, s: Pool) {
    SessionsOk(c, s) && RequestsOk(c, s) && NoIdleWhileQueued(s) && WakesOk(s)
  }

  lemma NextKeepsSafe(c: Config, s: Pool, step: Step)
    requires Safe(c, s)
    ensures Safe(c, Next(c, s, step))
  {
    NextKeepsSessions(c, s, step);
    NextKeepsRequests(c, s, step);
    NextKeepsNoIdleWhileQueued(c, s, step);
    NextKeepsWakes(c, s, step);
  }

  lemma {:induction false} EveryRunIsSafe(c: Config, steps: seq<Step>)
    ensures Safe(c, Exec(c, Init(), steps))
  {
    if steps != [] {
      EveryRunIsSafe(c, steps[..|steps| - 1]);
      NextKeepsSafe(c, Exec(c, Init(), steps[..|steps| - 1]), steps[|steps| - 1]);
    }
  }

  /** Sessions created so far, over all statistics periods = active + idle + dropped. */
  lemma EverySessionIsSomewhere(c: Config, steps: seq<Step>)
    ensures var s := Exec(c, Init(), steps);
            s.createdBefore + s.created == |s.active| + |s.idle| + |s.dropped|
  {
    EveryRunIsSafe(c, steps);
    var s := Exec(c, Init(), steps);
    SessionsConserved(s.idle, s.active, s.dropped, s.nextSession);
  }

  /** Conservation, read off the invariant: each ticket is queued or has departed, once. */
  lemma EachEntryLeavesOnce(c: Config, steps: seq<Step>, ticket: nat)
    ensures var s := Exec(c, Init(), steps);
            Queued(s.queue, ticket) + Departed(s.departed, ticket) == if ticket < s.nextTicket then 1 else 0
  {
    EveryRunIsSafe(c, steps);
    var s := Exec(c, Init(), steps);
    assert Accounted(s.queue, s.departed, s.nextTicket, ticket);
  }

  lemma ExecStep(c: Config, s: Pool, steps: seq<Step>, step: Step)
    ensures Exec(c, s, steps + [step]) == Next(c, Exec(c, s, steps), step)
  {
    FoldOne(Machine(c), s, steps, step);
  }

  lemma ExecAppend(c: Config, s: Pool, before: seq<Step>, after: seq<Step>)
    ensures Exec(c, s, before + after) == Exec(c, Exec(c, s, before), after)
  {
    FoldConcat(Machine(c), s, before, after);
  }

  lemma {:induction false} DownStaysEmpty(c: Config, s: Pool, steps: seq<Step>)
    requires SessionsOk(c, s) && s.down
    ensures var s' := Exec(c, s, steps);
            SessionsOk(c, s') && s'.down && s'.active == {} && s'.idle == []
  {
    if steps != [] {
      DownStaysEmpty(c, s, steps[..|steps| - 1]);
      NextKeepsSessions(c, Exec(c, s, steps[..|steps| - 1]), steps[|steps| - 1]);
    }
  }

  /** Once shut down, a pool stays empty in every later step, also those of threads that were
      already waiting inside acquire. */
  lemma ShutdownIsFinal(c: Config, before: seq<Step>, after: seq<Step>)
    requires Exec(c, Init(), before).down
    ensures var s := Exec(c, Init(), before + after);
            s.down && s.active == {} && s.idle == []
  {
    EveryRunIsSafe(c, before);
    ExecAppend(c, Init(), before, after);
    DownStaysEmpty(c, Exec(c, Init(), before), after);
  }

  lemma {:induction false} DepartureOf(d: seq<Departure>, ticket: nat) returns (i: nat)
    requires Departed(d, ticket) > 0
    ensures i < |d| && d[i].ticket == ticket
  {
    var n := |d| - 1;
    if d[n].ticket == ticket { i := n; } else { i := DepartureOf(d[..n], ticket); }
  }

  /** A waiter that wakes to an idle session finds the request queue empty: its own entry has
      already left it. */
  lemma WaiterAcquiresAfterItsEntryLeft(c: Config, s: Pool, ticket: nat)
    requires Safe(c, s) && ticket in s.waiting && Resume(c, s, ticket).1.Acquired?
    ensures s.queue == []
    ensures exists i :: 0 <= i < |s.departed| && s.departed[i].ticket == ticket
  {
    assert Accounted(s.queue, s.departed, s.nextTicket, ticket);
    var i := DepartureOf(s.departed, ticket);
  }

  // ----- how many sessions a request gets -----

  function HandedTo(d: seq<Departure>, ticket: nat): nat {
    if d == [] then 0 else
      var n := |d| - 1;
      HandedTo(d[..n], ticket) + if d[n].ticket == ticket && d[n].outcome.Handed? then 1 else 0
  }

  // From the queue, and on waking.
  function SessionsFor(s: Pool, ticket: nat): nat {
    HandedTo(s.departed, ticket) + multiset(s.woken)[ticket]
  }

  ghost predicate WasHanded(d: seq<Departure>, ticket: nat) {
    exists i :: 0 <= i < |d| && d[i].ticket == ticket && d[i].outcome.Handed?
  }

  ghost predicate WasRefused(d: seq<Departure>, ticket: nat) {
    exists i :: 0 <= i < |d| && d[i].ticket == ticket && d[i].outcome.Refused?
  }

  // A log that names the ticket at most once says handed, or refused, or neither.
  lemma {:induction false} OneDeparture(d: seq<Departure>, ticket: nat)
    requires Departed(d, ticket) <= 1
    ensures HandedTo(d, ticket) == if WasHanded(d, ticket) then 1 else 0
    ensures Departed(d, ticket) - HandedTo(d, ticket) == if WasRefused(d, ticket) then 1 else 0
  {
    if d != [] {
      var n := |d| - 1;
      OneDeparture(d[..n], ticket);
      assert WasHanded(d, ticket) <==>
        WasHanded(d[..n], ticket) || (d[n].ticket == ticket && d[n].outcome.Handed?);
      assert WasRefused(d, ticket) <==>
        WasRefused(d[..n], ticket) || (d[n].ticket == ticket && d[n].outcome.Refused?);
    }
  }

  lemma {:induction false} DistinctOnce(xs: seq<nat>, x: nat)
    requires Distinct(xs)
    ensures multiset(xs)[x] == if x in xs then 1 else 0
  {
    if xs != [] {
      var n := |xs| - 1;
      DistinctOnce(xs[..n], x);
      assert xs == xs[..n] + [xs[n]];
    }
  }

  /** No request gets more than two sessions; it gets two exactly when it was handed one from the
      queue and its thread was given another one on waking. */
  lemma AtMostTwoSessions(c: Config, steps: seq<Step>, ticket: nat)
    ensures var s := Exec(c, Init(), steps);
            && SessionsFor(s, ticket) <= 2
            && (SessionsFor(s, ticket) == 2 <==> WasHanded(s.departed, ticket) && ticket in s.woken)
  {
    EveryRunIsSafe(c, steps);
    EachEntryLeavesOnce(c, steps, ticket);
    var s := Exec(c, Init(), steps);
    OneDeparture(s.departed, ticket);
    DistinctOnce(s.woken, ticket);
  }

  /** When a waiting thread wakes to an idle session, this is the second session of its request if
      and only if the log says that its entry was handed one; otherwise the log says that the entry
      had been refused. */
  lemma SecondSessionExactly(c: Config, steps: seq<Step>, ticket: nat)
    requires var s := Exec(c, Init(), steps); ticket in s.waiting && Resume(c, s, ticket).1.Acquired?
    ensures var s := Exec(c, Init(), steps);
            && SessionsFor(Resume(c, s, ticket).0, ticket) == (if WasHanded(s.departed, ticket) then 2 else 1)
            && (WasRefused(s.departed, ticket) <==> !WasHanded(s.departed, ticket))
  {
    EveryRunIsSafe(c, steps);
    EachEntryLeavesOnce(c, steps, ticket);
    var s := Exec(c, Init(), steps);
    WaiterAcquiresAfterItsEntryLeft(c, s, ticket);
    OneDeparture(s.departed, ticket);
    DistinctOnce(s.woken, ticket);
  }
}
