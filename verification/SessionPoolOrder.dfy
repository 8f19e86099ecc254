/** In what order requests leave the session pool's queue: in arrival order, for a whole run,
    exactly when no timed-out waiter's scan skipped an entry. */
module SessionPoolOrder {
  import opened Options
  import opened SessionPoolModel
  import opened SessionPoolSafety

  // ----- arrival order -----

  // The departure log is 0, 1, 2, ...: requests leave in the order in which they arrived.
  ghost predicate InOrder(d: seq<Departure>) {
    forall i :: 0 <= i < |d| ==> d[i].ticket == i
  }

  ghost predicate TimesSorted(q: seq<Request>) {
    forall i, j :: 0 <= i < j < |q| ==> q[i].queueTime <= q[j].queueTime
  }

  // The queue holds the tickets from `first` up, stamped in order and not after `now`.
  ghost predicate Line(q: seq<Request>, first: nat, now: int) {
    && TimesSorted(q)
    && forall j :: 0 <= j < |q| ==> q[j].ticket == first + j && q[j].queueTime <= now
  }

  // Whoever waits with an entry in the line has a deadline maxWait after it was stamped.
  ghost predicate DeadlinesOk(c: Config, q: seq<Request>, first: nat, waiting: map<nat, int>) {
    forall t: nat :: t in waiting ==>
      t < first + |q| && (first <= t ==> waiting[t] >= q[t - first].queueTime + c.maxWait * NANOS_PER_SECOND)
  }

  // InOrder, strengthened to an invariant.
  ghost predicate FifoAt(c: Config, q: seq<Request>, d: seq<Departure>, n: nat, waiting: map<nat, int>, now: int) {
    && InOrder(d)
    && n == |d| + |q|
    && Line(q, |d|, now)
    && DeadlinesOk(c, q, |d|, waiting)
  }

  ghost predicate Fifo(c: Config, s: Pool) {
    FifoAt(c, s.queue, s.departed, s.nextTicket, s.waiting, c.clock(s.tick))
  }

  lemma LineDrop(c: Config, q: seq<Request>, first: nat, waiting: map<nat, int>, now: int, k: nat, later: int)
    requires Line(q, first, now) && DeadlinesOk(c, q, first, waiting) && k <= |q| && now <= later
    ensures Line(q[k..], first + k, later) && DeadlinesOk(c, q[k..], first + k, waiting)
  {
  }

  lemma LogGrowsInOrder(d: seq<Departure>, more: seq<Departure>)
    requires InOrder(d) && forall i :: 0 <= i < |more| ==> more[i].ticket == |d| + i
    ensures InOrder(d + more)
  {
  }

  lemma ExpiryIsMonotone(c: Config, r1: Request, now1: int, r2: Request, now2: int)
    requires r1.queueTime <= r2.queueTime && now2 <= now1 && Expired(c, r2, now2)
    ensures Expired(c, r1, now1)
  {
  }

  lemma PastDeadlineIsExpired(c: Config, r: Request, now: int)
    requires r.queueTime + c.maxWait * NANOS_PER_SECOND <= now
    ensures Expired(c, r, now)
  {
  }

  lemma {:induction false} AllExpired(c: Config, q: seq<Request>, now: int)
    requires forall i :: 0 <= i < |q| ==> Expired(c, q[i], now)
    ensures Overdue(c, q, now) == q && Unexpired(c, q, now) == []
  {
    if q != [] {
      var front, last := q[..|q| - 1], q[|q| - 1];
      assert Expired(c, last, now);
      AllExpired(c, front, now);
      assert q == front + [last];
      assert Overdue(c, q, now) == Overdue(c, front, now) + [last];
    }
  }

  /** On a queue sorted by time, the sweep refuses exactly a prefix. */
  lemma {:induction false} SweepRemovesAPrefix(c: Config, q: seq<Request>, now: int)
    requires TimesSorted(q)
    ensures var k := |Overdue(c, q, now)|;
            k <= |q| && Overdue(c, q, now) == q[..k] && Unexpired(c, q, now) == q[k..]
  {
    if q != [] {
      var n := |q| - 1;
      if Expired(c, q[n], now) {
        forall i | 0 <= i < |q| ensures Expired(c, q[i], now) { ExpiryIsMonotone(c, q[i], now, q[n], now); }
        AllExpired(c, q, now);
      } else {
        SweepRemovesAPrefix(c, q[..n], now);
        assert Overdue(c, q, now) == Overdue(c, q[..n], now);
      }
    }
  }

  lemma SweepKeepsFifo(c: Config, s: Pool)
    requires Monotone(c.clock) && Fifo(c, s)
    ensures Fifo(c, Sweep(c, s))
  {
    var now := c.clock(s.tick);
    SweepRemovesAPrefix(c, s.queue, now);
    var k := |Overdue(c, s.queue, now)|;
    LogGrowsInOrder(s.departed, Refusals(s.queue[..k]));
    LineDrop(c, s.queue, |s.departed|, s.waiting, now, k, c.clock(s.tick + 1));
  }

  lemma EnqueueKeepsFifo(c: Config, s: Pool)
    requires Monotone(c.clock) && Fifo(c, s)
    ensures Fifo(c, Enqueue(c, s))
  {
    assert c.clock(s.tick) <= c.clock(s.tick + 1) <= c.clock(s.tick + 2);
  }

  // The head leaves the queue, in whatever way, and time passes.
  lemma HeadLeaves(c: Config, q: seq<Request>, d: seq<Departure>, n: nat, waiting: map<nat, int>, now: int,
                   gone: Departure, later: int)
    requires FifoAt(c, q, d, n, waiting, now) && q != [] && gone.ticket == q[0].ticket && now <= later
    ensures FifoAt(c, q[1..], d + [gone], n, waiting, later)
  {
    LogGrowsInOrder(d, [gone]);
    LineDrop(c, q, |d|, waiting, now, 1, later);
  }

  lemma DrainOneKeepsFifo(c: Config, s: Pool)
    requires Monotone(c.clock) && Fifo(c, s) && s.queue != [] && s.idle != []
    ensures Fifo(c, DrainOne(c, s))
  {
    var s' := DrainOne(c, s);
    var gone := s'.departed[|s.departed|];
    assert s'.departed == s.departed + [gone] && c.clock(s.tick) <= c.clock(s.tick + 1);
    HeadLeaves(c, s.queue, s.departed, s.nextTicket, s.waiting, c.clock(s.tick), gone, c.clock(s.tick + 1));
  }

  lemma {:induction false} DrainKeepsFifo(c: Config, s: Pool)
    requires Monotone(c.clock) && Fifo(c, s)
    ensures Fifo(c, Drain(c, s))
    decreases |s.queue|
  {
    if s.queue != [] && s.idle != [] {
      DrainOneKeepsFifo(c, s);
      DrainKeepsFifo(c, DrainOne(c, s));
    }
  }

  // The scan looks at entry i with the clock reading `tick + i`. The head is expired when looked
  // at, or no entry is.
  ghost predicate HeadOrNoneExpired(c: Config, q: seq<Request>, tick: nat) {
    || (q != [] && Expired(c, q[0], c.clock(tick)))
    || (forall i :: 0 <= i < |q| ==> !Expired(c, q[i], c.clock(tick + i)))
  }

  // For a timed-out waiter, whose first reading ended its wait.
  ghost predicate ScanTakesHead(c: Config, s: Pool) {
    HeadOrNoneExpired(c, s.queue, s.tick + 1)
  }

  ghost predicate StepTakesHead(c: Config, s: Pool, step: Step) {
    step.ResumeAcquire? && ResumeTimesOut(c, s, step.ticket) ==> ScanTakesHead(c, s)
  }

  lemma {:induction false} ScanFinds(c: Config, q: seq<Request>, tick: nat, i: nat)
    requires i <= |q|
    ensures var k := ScanPosition(c, q, tick, i);
            && (k < |q| ==> Expired(c, q[k], c.clock(tick + k)))
            && (forall j :: i <= j < k ==> !Expired(c, q[j], c.clock(tick + j)))
    decreases |q| - i
  {
    if i < |q| && !Expired(c, q[i], c.clock(tick + i)) { ScanFinds(c, q, tick, i + 1); }
  }

  /** That is exactly when the scan takes the head of the queue, or nothing. */
  lemma HeadOrNothingTaken(c: Config, q: seq<Request>, tick: nat)
    ensures HeadOrNoneExpired(c, q, tick) <==>
            var k := ScanPosition(c, q, tick, 0); k == 0 || k == |q|
  {
    ScanFinds(c, q, tick, 0);
  }

  /** A timed-out waiter whose own entry is still queued removes exactly the head. */
  lemma OwnEntryQueuedTakesHead(c: Config, s: Pool, ticket: nat)
    requires Monotone(c.clock) && Fifo(c, s) && ResumeTimesOut(c, s, ticket)
    requires |s.departed| <= ticket
    ensures ScanPosition(c, s.queue, s.tick + 1, 0) == 0 < |s.queue|
  {
    var own := s.queue[ticket - |s.departed|];
    assert c.clock(s.tick) <= c.clock(s.tick + 1);
    PastDeadlineIsExpired(c, own, c.clock(s.tick + 1));
    ExpiryIsMonotone(c, s.queue[0], c.clock(s.tick + 1), own, c.clock(s.tick + 1));
  }

  /** So does any waiter, if the clock shows one time throughout the scan. */
  lemma StillClockTakesHead(c: Config, s: Pool)
    requires TimesSorted(s.queue)
    requires forall i: nat :: s.tick < i <= s.tick + |s.queue| ==> c.clock(i) == c.clock(s.tick + 1)
    ensures ScanTakesHead(c, s)
  {
    ScanFinds(c, s.queue, s.tick + 1, 0);
    HeadOrNothingTaken(c, s.queue, s.tick + 1);
    var k := ScanPosition(c, s.queue, s.tick + 1, 0);
    if 0 < k < |s.queue| {
      ExpiryIsMonotone(c, s.queue[0], c.clock(s.tick + 1), s.queue[k], c.clock(s.tick + 1 + k));
    }
  }

  lemma TimeOutKeepsFifo(c: Config, s: Pool)
    requires Monotone(c.clock) && Fifo(c, s)
    requires HeadOrNoneExpired(c, s.queue, s.tick)
    ensures Fifo(c, TimeOut(c, s))
  {
    var q := s.queue;
    HeadOrNothingTaken(c, q, s.tick);
    if q != [] && ScanPosition(c, q, s.tick, 0) == 0 {
      var gone := Departure(q[0].ticket, Refused);
      assert q[1..] + q[..0] == q[1..] && c.clock(s.tick) <= c.clock(s.tick + 1);
      HeadLeaves(c, q, s.departed, s.nextTicket, s.waiting, c.clock(s.tick), gone, c.clock(s.tick + 1));
    } else {
      LineDrop(c, q, |s.departed|, s.waiting, c.clock(s.tick), 0, c.clock(s.tick + |q|));
    }
  }

  lemma BeginKeepsFifo(c: Config, s: Pool)
    requires Monotone(c.clock) && Fifo(c, s)
    ensures Fifo(c, Begin(c, s).0)
  {
    SweepKeepsFifo(c, s);
    EnqueueKeepsFifo(c, Sweep(c, s));
  }

  lemma LaterFifo(c: Config, s: Pool, ticket: nat)
    requires Monotone(c.clock) && Fifo(c, s)
    ensures FifoAt(c, s.queue, s.departed, s.nextTicket, s.waiting - {ticket}, c.clock(s.tick))
    ensures FifoAt(c, s.queue, s.departed, s.nextTicket, s.waiting, c.clock(s.tick + 1))
    ensures FifoAt(c, s.queue, s.departed, s.nextTicket, s.waiting - {ticket}, c.clock(s.tick + 1))
  {
    assert c.clock(s.tick) <= c.clock(s.tick + 1);
    assert DeadlinesOk(c, s.queue, |s.departed|, s.waiting - {ticket});
  }

  lemma QuietResumeKeepsFifo(c: Config, s: Pool, ticket: nat)
    requires Monotone(c.clock) && Fifo(c, s) && ticket in s.waiting && !ResumeTimesOut(c, s, ticket)
    ensures Fifo(c, Resume(c, s, ticket).0)
  {
    LaterFifo(c, s, ticket);
    var s' := Resume(c, s, ticket).0;
    assert s'.queue == s.queue && s'.departed == s.departed && s'.nextTicket == s.nextTicket;
  }

  lemma TimedOutResumeKeepsFifo(c: Config, s: Pool, ticket: nat)
    requires Monotone(c.clock) && Fifo(c, s) && ResumeTimesOut(c, s, ticket) && ScanTakesHead(c, s)
    ensures Fifo(c, Resume(c, s, ticket).0)
  {
    LaterFifo(c, s, ticket);
    var left := s.(waiting := s.waiting - {ticket}, tick := s.tick + 1);
    TimeOutKeepsFifo(c, left);
    assert Resume(c, s, ticket).0 == TimeOut(c, left);
  }

  lemma ReleaseKeepsFifo(c: Config, s: Pool, session: Option<nat>, isIdle: bool)
    requires Monotone(c.clock) && Fifo(c, s)
    ensures Fifo(c, Release(c, s, session, isIdle))
  {
    if session.Some? && !s.down && session.value in s.active {
      DrainKeepsFifo(c, BeforeDrain(s, session.value, isIdle));
    }
  }

  lemma CleanupKeepsFifo(c: Config, s: Pool, lastActivity: nat -> int)
    requires Monotone(c.clock) && Fifo(c, s)
    ensures Fifo(c, CleanupIdle(c, s, lastActivity))
  {
    LineDrop(c, s.queue, |s.departed|, s.waiting, c.clock(s.tick), 0, c.clock(s.tick + 1 + |s.idle|));
  }

  lemma NextKeepsFifo(c: Config, s: Pool, step: Step)
    requires Monotone(c.clock) && Fifo(c, s) && StepTakesHead(c, s, step)
    ensures Fifo(c, Next(c, s, step))
  {
    match step
    case BeginAcquire => BeginKeepsFifo(c, s);
    case ResumeAcquire(ticket) =>
      if ResumeTimesOut(c, s, ticket) { TimedOutResumeKeepsFifo(c, s, ticket); }
      else if ticket in s.waiting { QuietResumeKeepsFifo(c, s, ticket); }
    case ReleaseSession(session, isIdle) => ReleaseKeepsFifo(c, s, session, isIdle);
    case CleanupIdleSessions(lastActivity) => CleanupKeepsFifo(c, s, lastActivity);
    case ShutdownPool =>
    case ResetStats =>
  }

  // The log only grows.
  lemma {:induction false} DrainExtendsLog(c: Config, s: Pool)
    ensures s.departed <= Drain(c, s).departed
    decreases |s.queue|
  {
    if s.queue != [] && s.idle != [] { DrainExtendsLog(c, DrainOne(c, s)); }
  }

  lemma NextExtendsLog(c: Config, s: Pool, step: Step)
    ensures s.departed <= Next(c, s, step).departed
  {
    if step.ReleaseSession? && step.session.Some? && !s.down && step.session.value in s.active {
      DrainExtendsLog(c, BeforeDrain(s, step.session.value, step.isIdle));
    }
  }

  lemma SkippingScanBreaksOrder(c: Config, s: Pool, step: Step)
    requires Fifo(c, s) && !StepTakesHead(c, s, step)
    ensures !InOrder(Next(c, s, step).departed)
  {
    HeadOrNothingTaken(c, s.queue, s.tick + 1);
    var k := ScanPosition(c, s.queue, s.tick + 1, 0);
    assert Next(c, s, step).departed[|s.departed|].ticket == s.queue[k].ticket == |s.departed| + k;
  }

  ghost predicate EveryScanTakesHead(c: Config, steps: seq<Step>) {
    steps != [] ==>
      var n := |steps| - 1;
      EveryScanTakesHead(c, steps[..n]) && StepTakesHead(c, Exec(c, Init(), steps[..n]), steps[n])
  }

  // One more step of a run: the order survives it exactly when its scan takes the head.
  lemma ArrivalOrderStep(c: Config, s: Pool, step: Step)
    requires Monotone(c.clock)
    ensures Fifo(c, s) ==> (InOrder(Next(c, s, step).departed) <==> StepTakesHead(c, s, step))
    ensures Fifo(c, s) && StepTakesHead(c, s, step) ==> Fifo(c, Next(c, s, step))
    ensures !InOrder(s.departed) ==> !InOrder(Next(c, s, step).departed)
  {
    NextExtendsLog(c, s, step);
    if Fifo(c, s) {
      if StepTakesHead(c, s, step) { NextKeepsFifo(c, s, step); } else { SkippingScanBreaksOrder(c, s, step); }
    }
  }

  /** Requests leave in arrival order over a whole run if and only if, in every timed-out scan of it,
      the head was expired at the first reading or no entry was expired at its own. */
  lemma {:induction false} ArrivalOrderExactly(c: Config, steps: seq<Step>)
    requires Monotone(c.clock)
    ensures InOrder(Exec(c, Init(), steps).departed) <==> EveryScanTakesHead(c, steps)
    ensures EveryScanTakesHead(c, steps) ==> Fifo(c, Exec(c, Init(), steps))
  {
    if steps != [] {
      var n := |steps| - 1;
      ArrivalOrderExactly(c, steps[..n]);
      ArrivalOrderStep(c, Exec(c, Init(), steps[..n]), steps[n]);
    }
  }

  // ----- what the code does not keep: two runs with one connection -----

  const S := NANOS_PER_SECOND

  // Five readings at 0 s, six at 0.5 s, two at 1.4 s, then 1.5 s.
  function RaceClock(i: nat): int {
    if i < 5 then 0 else if i < 11 then S / 2 else if i < 13 then 14 * (S / 10) else 15 * (S / 10)
  }

  function RaceConfig(): Config {
    Config(1, 2, 1, 60, true, RaceClock, _ => false)
  }

  // A session is created; request 0 is queued; session 0 comes back and is given to request 0,
  // whose own thread is still inside wait_for.
  function Busy(): Pool {
    Init().(active := {0}, created := 1, nextSession := 1, tick := 1)
  }

  function OneQueued(): Pool {
    Busy().(queue := [Request(0, 0)], waiting := map[0 := S], nextTicket := 1, tick := 4)
  }

  function ServedOnce(): Pool {
    OneQueued().(queue := [], reuse := 1, tick := 5, departed := [Departure(0, Handed(0))])
  }

  // Requests 1 and 2 are queued behind it, both at 0.5 s.
  function TwoBehind(): Pool {
    ServedOnce().(queue := [Request(1, S / 2), Request(2, S / 2)], nextTicket := 3, tick := 11,
                  waiting := map[0 := S, 1 := S + S / 2, 2 := S + S / 2])
  }

  lemma ReachBusy()
    ensures Next(RaceConfig(), Init(), BeginAcquire) == Busy()
  {
  }

  lemma ReachOneQueued()
    ensures Next(RaceConfig(), Busy(), BeginAcquire) == OneQueued()
  {
  }

  lemma ReachServedOnce()
    ensures Next(RaceConfig(), OneQueued(), ReleaseSession(Some(0), true)) == ServedOnce()
  {
    var s := BeforeDrain(OneQueued(), 0, true);
    assert s == OneQueued().(active := {}, idle := [0]);
    assert DrainOne(RaceConfig(), s) == ServedOnce();
  }

  function OneBehind(): Pool {
    ServedOnce().(queue := [Request(1, S / 2)], nextTicket := 2, tick := 8,
                  waiting := map[0 := S, 1 := S + S / 2])
  }

  lemma ReachOneBehind()
    ensures Next(RaceConfig(), ServedOnce(), BeginAcquire) == OneBehind()
  {
  }

  lemma KeepOne(c: Config, req: Request, now: int)
    requires !Expired(c, req, now)
    ensures Overdue(c, [req], now) == [] && Unexpired(c, [req], now) == [req]
  {
    assert [req][..0] == [];
    assert Overdue(c, [], now) == [] && Unexpired(c, [], now) == [];
  }

  lemma ReachTwoBehind()
    ensures Next(RaceConfig(), OneBehind(), BeginAcquire) == TwoBehind()
  {
    KeepOne(RaceConfig(), Request(1, S / 2), S / 2);
    assert Sweep(RaceConfig(), OneBehind()) == OneBehind().(tick := 9);
    assert Enqueue(RaceConfig(), OneBehind().(tick := 9)) == TwoBehind();
  }

  lemma ServedOnceIsReachable() returns (steps: seq<Step>)
    ensures Exec(RaceConfig(), Init(), steps) == ServedOnce()
  {
    ReachBusy();
    ReachOneQueued();
    ReachServedOnce();
    ExecStep(RaceConfig(), Init(), [], BeginAcquire);
    ExecStep(RaceConfig(), Init(), [] + [BeginAcquire], BeginAcquire);
    steps := [] + [BeginAcquire] + [BeginAcquire];
    ExecStep(RaceConfig(), Init(), steps, ReleaseSession(Some(0), true));
    steps := steps + [ReleaseSession(Some(0), true)];
  }

  /** A queued request can be served twice: from the queue by `processQueuedRequests`, and again
      when its own thread wakes to an idle session. */
  lemma RequestServedTwice()
    ensures exists steps: seq<Step> ::
              var s := Exec(RaceConfig(), Init(), steps);
              s.departed == [Departure(0, Handed(0))] && 0 in s.waiting
              && Resume(RaceConfig(), s, 0).1 == Acquired(0)
              && SessionsFor(Resume(RaceConfig(), s, 0).0, 0) == 2
  {
    var steps := ServedOnceIsReachable();
    ExecStep(RaceConfig(), Init(), steps, ReleaseSession(Some(0), true));
    var s := ServedOnce().(active := {}, idle := [0]);
    assert Next(RaceConfig(), ServedOnce(), ReleaseSession(Some(0), true)) == s;
    steps := steps + [ReleaseSession(Some(0), true)];
    assert s.departed[0].outcome.Handed?;
    SecondSessionExactly(RaceConfig(), steps, 0);
    assert Exec(RaceConfig(), Init(), steps) == s;
  }

  lemma TimeOutSkips()
    ensures !InOrder(Next(RaceConfig(), TwoBehind(), ResumeAcquire(0)).departed)
  {
    var q := TwoBehind().queue;
    assert ScanPosition(RaceConfig(), q, 12, 0) == ScanPosition(RaceConfig(), q, 12, 1) == 1;
    assert Next(RaceConfig(), TwoBehind(), ResumeAcquire(0)).departed[1].ticket == 2;
  }

  lemma TwoBehindIsReachable() returns (steps: seq<Step>)
    ensures Exec(RaceConfig(), Init(), steps) == TwoBehind()
  {
    steps := ServedOnceIsReachable();
    ReachOneBehind();
    ReachTwoBehind();
    ExecStep(RaceConfig(), Init(), steps, BeginAcquire);
    ExecStep(RaceConfig(), Init(), steps + [BeginAcquire], BeginAcquire);
    steps := steps + [BeginAcquire] + [BeginAcquire];
  }

  /** Arrival order can break: a timed-out waiter whose own entry is gone answers request 2 while
      request 1, skipped a moment before, stays queued. */
  lemma ScanCanSkip()
    ensures Monotone(RaceConfig().clock)
    ensures exists steps :: !InOrder(Exec(RaceConfig(), Init(), steps).departed)
  {
    var steps := TwoBehindIsReachable();
    ExecStep(RaceConfig(), Init(), steps, ResumeAcquire(0));
    TimeOutSkips();
  }
}
