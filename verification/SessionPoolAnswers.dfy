/** What the session pool answers and counts: when a request is refused, why an entry left the queue,
    which idle sessions the cleanup keeps, and what the statistics mean. */
module SessionPoolAnswers {
  import opened Options
  import opened SessionPoolModel
  import opened SessionPoolSafety

  // ----- time limits, in nanoseconds -----

  // A time difference cut to whole seconds reaches a limit given in seconds. Cutting is toward zero,
  // so a limit of zero or less is reached up to a second early.
  predicate Reaches(elapsed: int, seconds: int) {
    if seconds > 0 then elapsed >= seconds * 1_000_000_000 else elapsed > (seconds - 1) * 1_000_000_000
  }

  lemma CutReaches(elapsed: int, seconds: int)
    ensures ToSeconds(elapsed) >= seconds <==> Reaches(elapsed, seconds)
  {
  }

  /** A queued request is expired exactly from maxWait seconds after it was stamped. */
  lemma ExpiredExactly(c: Config, req: Request, now: int)
    ensures Expired(c, req, now) <==> Reaches(now - req.queueTime, c.maxWait)
  {
    CutReaches(now - req.queueTime, c.maxWait);
  }

  // ----- idle cleanup -----

  // The clock reading with which cleanup looks at the i-th idle session.
  function LookedAt(c: Config, s: Pool, i: nat): int {
    c.clock(s.tick + 1 + i)
  }

  lemma {:induction false} FreshExactly(c: Config, idle: seq<nat>, lastActivity: nat -> int, tick: nat, x: nat)
    ensures x in Fresh(c, idle, lastActivity, tick) <==>
            exists i :: 0 <= i < |idle| && idle[i] == x
                        && !Reaches(c.clock(tick + i) - lastActivity(x), c.idleTimeout)
  {
    if idle != [] {
      var n := |idle| - 1;
      FreshExactly(c, idle[..n], lastActivity, tick, x);
      CutReaches(c.clock(tick + n) - lastActivity(idle[n]), c.idleTimeout);
    }
  }

  /** Cleanup keeps exactly the sessions that, when looked at, have been idle for less than the
      timeout, and lets go of exactly the others. */
  lemma CleanupKeepsExactly(c: Config, s: Pool, lastActivity: nat -> int, i: nat)
    requires SessionsOk(c, s) && i < |s.idle|
    ensures var s', x := CleanupIdle(c, s, lastActivity), s.idle[i];
            && (x in s'.idle <==> !Reaches(LookedAt(c, s, i) - lastActivity(x), c.idleTimeout))
            && (x in s'.dropped <==> x !in s'.idle)
  {
    var x := s.idle[i];
    FreshExactly(c, s.idle, lastActivity, s.tick + 1, x);
    assert Placed(s.idle, s.active, s.dropped, s.nextSession, x);
    assert x in Ids(s.idle);
    assert forall j :: 0 <= j < |s.idle| && s.idle[j] == x ==> j == i;
  }

  // ----- why an entry left the queue -----

  // The entry was looked at with some reading of the step, and refused exactly if expired then.
  ghost predicate Judged(c: Config, q: seq<Request>, from: nat, to: nat, d: Departure) {
    exists j, k :: 0 <= j < |q| && from <= k < to && q[j].ticket == d.ticket
      && (d.outcome.Refused? <==> Reaches(c.clock(k) - q[j].queueTime, c.maxWait))
  }

  ghost predicate AllJudged(c: Config, s: Pool, s': Pool) {
    && s.departed <= s'.departed
    && forall i :: |s.departed| <= i < |s'.departed| ==> Judged(c, s.queue, s.tick, s'.tick, s'.departed[i])
  }

  lemma JudgedBy(c: Config, q: seq<Request>, from: nat, to: nat, d: Departure, j: nat, k: nat)
    requires j < |q| && from <= k < to && q[j].ticket == d.ticket
    requires d.outcome.Refused? <==> Expired(c, q[j], c.clock(k))
    ensures Judged(c, q, from, to, d)
  {
    ExpiredExactly(c, q[j], c.clock(k));
  }

  lemma {:induction false} OverdueIsExpired(c: Config, q: seq<Request>, now: int, i: nat) returns (j: nat)
    requires i < |Overdue(c, q, now)|
    ensures j < |q| && q[j] == Overdue(c, q, now)[i] && Expired(c, q[j], now)
  {
    var n := |q| - 1;
    if i < |Overdue(c, q[..n], now)| { j := OverdueIsExpired(c, q[..n], now, i); } else { j := n; }
  }

  lemma {:induction false} UnexpiredIsNot(c: Config, q: seq<Request>, now: int, i: nat) returns (j: nat)
    requires i < |Unexpired(c, q, now)|
    ensures j < |q| && q[j] == Unexpired(c, q, now)[i] && !Expired(c, q[j], now)
  {
    var n := |q| - 1;
    if i < |Unexpired(c, q[..n], now)| { j := UnexpiredIsNot(c, q[..n], now, i); } else { j := n; }
  }

  lemma SweepJudges(c: Config, s: Pool)
    ensures AllJudged(c, s, Sweep(c, s))
  {
    var s' := Sweep(c, s);
    forall i | |s.departed| <= i < |s'.departed| ensures Judged(c, s.queue, s.tick, s'.tick, s'.departed[i]) {
      var j := OverdueIsExpired(c, s.queue, c.clock(s.tick), i - |s.departed|);
      JudgedBy(c, s.queue, s.tick, s'.tick, s'.departed[i], j, s.tick);
    }
  }

  /** After the sweep nothing in the queue has waited maxWait at its reading, and the rest was refused. */
  lemma SweepLeavesUnexpired(c: Config, s: Pool, i: nat)
    requires i < |Sweep(c, s).queue|
    ensures !Reaches(c.clock(s.tick) - Sweep(c, s).queue[i].queueTime, c.maxWait)
  {
    var j := UnexpiredIsNot(c, s.queue, c.clock(s.tick), i);
    ExpiredExactly(c, s.queue[j], c.clock(s.tick));
  }

  lemma DrainOneJudges(c: Config, s: Pool)
    requires s.queue != [] && s.idle != []
    ensures AllJudged(c, s, DrainOne(c, s))
  {
    var s' := DrainOne(c, s);
    JudgedBy(c, s.queue, s.tick, s'.tick, s'.departed[|s.departed|], 0, s.tick);
  }

  lemma JudgedLater(c: Config, q: seq<Request>, from: nat, to: nat, d: Departure)
    requires q != [] && Judged(c, q[1..], from + 1, to, d)
    ensures Judged(c, q, from, to, d)
  {
    var j, k :| 0 <= j < |q[1..]| && from + 1 <= k < to && q[1..][j].ticket == d.ticket
                && (d.outcome.Refused? <==> Reaches(c.clock(k) - q[1..][j].queueTime, c.maxWait));
    assert q[j + 1] == q[1..][j];
  }

  lemma JudgedWider(c: Config, q: seq<Request>, from: nat, to: nat, to': nat, d: Departure)
    requires Judged(c, q, from, to, d) && to <= to'
    ensures Judged(c, q, from, to', d)
  {
    var j, k :| 0 <= j < |q| && from <= k < to && q[j].ticket == d.ticket
                && (d.outcome.Refused? <==> Reaches(c.clock(k) - q[j].queueTime, c.maxWait));
    assert from <= k < to';
  }

  lemma {:induction false} DrainJudges(c: Config, s: Pool)
    ensures AllJudged(c, s, Drain(c, s)) && s.tick <= Drain(c, s).tick
    decreases |s.queue|
  {
    if s.queue != [] && s.idle != [] {
      var s1, s' := DrainOne(c, s), Drain(c, s);
      DrainOneJudges(c, s);
      DrainJudges(c, s1);
      forall i | |s.departed| <= i < |s'.departed| ensures Judged(c, s.queue, s.tick, s'.tick, s'.departed[i]) {
        if i < |s1.departed| {
          assert s1.departed[i] == s'.departed[i];
          JudgedWider(c, s.queue, s.tick, s1.tick, s'.tick, s'.departed[i]);
        } else {
          JudgedLater(c, s.queue, s.tick, s'.tick, s'.departed[i]);
        }
      }
    }
  }

  lemma {:induction false} ScanStopsAtExpired(c: Config, q: seq<Request>, tick: nat, i: nat)
    requires i <= |q| && ScanPosition(c, q, tick, i) < |q|
    ensures var k := ScanPosition(c, q, tick, i); Expired(c, q[k], c.clock(tick + k))
    decreases |q| - i
  {
    if !Expired(c, q[i], c.clock(tick + i)) { ScanStopsAtExpired(c, q, tick, i + 1); }
  }

  lemma TimeOutJudges(c: Config, s: Pool)
    ensures AllJudged(c, s, TimeOut(c, s))
  {
    var s', k := TimeOut(c, s), ScanPosition(c, s.queue, s.tick, 0);
    if k < |s.queue| {
      ScanStopsAtExpired(c, s.queue, s.tick, 0);
      JudgedBy(c, s.queue, s.tick, s'.tick, s'.departed[|s.departed|], k, s.tick + k);
    }
  }

  lemma {:induction false} ScanFindsFirst(c: Config, q: seq<Request>, tick: nat, i: nat, k: nat)
    requires i <= k <= |q|
    requires forall j :: i <= j < k ==> !Reaches(c.clock(tick + j) - q[j].queueTime, c.maxWait)
    requires k < |q| ==> Reaches(c.clock(tick + k) - q[k].queueTime, c.maxWait)
    ensures ScanPosition(c, q, tick, i) == k
    decreases k - i
  {
    if i < |q| { ExpiredExactly(c, q[i], c.clock(tick + i)); }
    if i < k { ScanFindsFirst(c, q, tick, i + 1, k); }
  }

  /** A timed-out waiter refuses the first entry that is expired when looked at; the entries before it
      go back behind the ones after it. Without such an entry the queue stays as it is. */
  lemma TimeOutExactly(c: Config, s: Pool, k: nat)
    requires k <= |s.queue|
    requires forall j :: 0 <= j < k ==> !Reaches(c.clock(s.tick + j) - s.queue[j].queueTime, c.maxWait)
    requires k < |s.queue| ==> Reaches(c.clock(s.tick + k) - s.queue[k].queueTime, c.maxWait)
    ensures var s', q := TimeOut(c, s), s.queue;
            if k == |q| then
              s'.queue == q && s'.departed == s.departed
            else
              && s'.queue == q[k + 1..] + q[..k]
              && s'.departed == s.departed + [Departure(q[k].ticket, Outcome.Refused)]
  {
    ScanFindsFirst(c, s.queue, s.tick, 0, k);
  }

  lemma JudgedEarlier(c: Config, q: seq<Request>, from: nat, from': nat, to: nat, d: Departure)
    requires Judged(c, q, from, to, d) && from' <= from
    ensures Judged(c, q, from', to, d)
  {
    var j, k :| 0 <= j < |q| && from <= k < to && q[j].ticket == d.ticket
                && (d.outcome.Refused? <==> Reaches(c.clock(k) - q[j].queueTime, c.maxWait));
    assert from' <= k < to;
  }

  lemma BeginJudges(c: Config, s: Pool)
    ensures AllJudged(c, s, Begin(c, s).0)
  {
    SweepJudges(c, s);
    var s1, s' := Sweep(c, s), Begin(c, s).0;
    forall i | |s.departed| <= i < |s'.departed| ensures Judged(c, s.queue, s.tick, s'.tick, s'.departed[i]) {
      JudgedWider(c, s.queue, s.tick, s1.tick, s'.tick, s'.departed[i]);
    }
  }

  lemma ResumeJudges(c: Config, s: Pool, ticket: nat)
    requires ticket in s.waiting
    ensures AllJudged(c, s, Resume(c, s, ticket).0)
  {
    var later, s' := s.(waiting := s.waiting - {ticket}, tick := s.tick + 1), Resume(c, s, ticket).0;
    TimeOutJudges(c, later);
    if ResumeTimesOut(c, s, ticket) {
      forall i | |s.departed| <= i < |s'.departed| ensures Judged(c, s.queue, s.tick, s'.tick, s'.departed[i]) {
        JudgedEarlier(c, s.queue, s.tick + 1, s.tick, s'.tick, s'.departed[i]);
      }
    }
  }

  /** Whatever entry leaves the queue in a step was looked at in that step: it was refused if it had
      then waited maxWait seconds, and handed a session if it had not. */
  lemma DepartedForAReason(c: Config, s: Pool, step: Step)
    ensures AllJudged(c, s, Next(c, s, step))
  {
    match step
    case BeginAcquire => BeginJudges(c, s);
    case ResumeAcquire(ticket) => if ticket in s.waiting { ResumeJudges(c, s, ticket); }
    case ReleaseSession(session, isIdle) =>
      if session.Some? && !s.down && session.value in s.active {
        DrainJudges(c, BeforeDrain(s, session.value, isIdle));
      }
    case CleanupIdleSessions(_) =>
    case ShutdownPool =>
    case ResetStats =>
  }

  // ----- answers -----

  // The entries of the queue that have not waited maxWait yet.
  function StillWaiting(c: Config, q: seq<Request>, now: int): nat {
    if q == [] then 0 else
      var n := |q| - 1;
      StillWaiting(c, q[..n], now) + if Reaches(now - q[n].queueTime, c.maxWait) then 0 else 1
  }

  lemma {:induction false} SweptLength(c: Config, q: seq<Request>, now: int)
    ensures |Unexpired(c, q, now)| == StillWaiting(c, q, now)
  {
    if q != [] {
      SweptLength(c, q[..|q| - 1], now);
      ExpiredExactly(c, q[|q| - 1], now);
    }
  }

  /** Which answer an acquire gets: it is refused or made to wait only at full capacity without an
      idle session, and then exactly by whether the queue has room. */
  lemma AnswerExactly(c: Config, s: Pool)
    requires SessionsOk(c, s)
    ensures var answer, room := Begin(c, s).1, StillWaiting(c, s.queue, c.clock(s.tick)) < c.maxQueueSize;
            var full := s.idle == [] && |s.active| == c.maxConnections;
            && (answer.ShuttingDown? <==> s.down)
            && (answer.Acquired? <==> !s.down && !full && (s.idle != [] || c.canCreate))
            && (answer.CreateFailed? <==> !s.down && !full && s.idle == [] && !c.canCreate)
            && (answer.QueueFull? <==> !s.down && full && !room)
            && (answer.Waiting? <==> !s.down && full && room)
            && !answer.TimedOut?
    ensures s.down ==> Begin(c, s).0 == s
  {
    SweptLength(c, s.queue, c.clock(s.tick));
  }

  /** A request that has to wait is queued last, stamped, and waits maxWait seconds from the reading
      after its stamp. */
  lemma WaitingIsQueued(c: Config, s: Pool)
    requires Begin(c, s).1.Waiting?
    ensures var (s', answer) := Begin(c, s);
            && answer.ticket == s.nextTicket && s'.nextTicket == s.nextTicket + 1
            && s'.queue != [] && s'.queue[|s'.queue| - 1] == Request(answer.ticket, c.clock(s.tick + 1))
            && answer.ticket in s'.waiting
            && s'.waiting[answer.ticket] == c.clock(s.tick + 2) + c.maxWait * 1_000_000_000
  {
  }

  /** A waiting thread is sent away exactly at its deadline, and only without an idle session. */
  lemma ResumeExactly(c: Config, s: Pool, ticket: nat)
    requires ticket in s.waiting
    ensures var (s', answer) := Resume(c, s, ticket);
            && (answer.ShuttingDown? <==> s.down)
            && (answer.Acquired? <==> !s.down && s.idle != [])
            && (answer.TimedOut? <==> !s.down && s.idle == [] && c.clock(s.tick) >= s.waiting[ticket])
            && (answer.Waiting? <==> ticket in s'.waiting)
            && (answer.Waiting? ==> s'.waiting == s.waiting && s'.queue == s.queue)
  {
  }

  // ----- statistics -----

  function Refused(d: seq<Departure>): nat {
    if d == [] then 0 else Refused(d[..|d| - 1]) + if d[|d| - 1].outcome.Refused? then 1 else 0
  }

  // Turned away without an entry leaving the queue for it.
  function TurnedAway(c: Config, s: Pool, step: Step): nat {
    match step
    case BeginAcquire => if Begin(c, s).1.CreateFailed? || Begin(c, s).1.QueueFull? then 1 else 0
    case ResumeAcquire(ticket) =>
      if ticket in s.waiting && Resume(c, s, ticket).1.TimedOut?
         && Resume(c, s, ticket).0.departed == s.departed then 1 else 0
    case _ => 0
  }

  // Given an idle session on asking or on waking.
  function Reused(c: Config, s: Pool, step: Step): nat {
    match step
    case BeginAcquire => if Begin(c, s).1.Acquired? && s.idle != [] then 1 else 0
    case ResumeAcquire(ticket) => if ticket in s.waiting && Resume(c, s, ticket).1.Acquired? then 1 else 0
    case _ => 0
  }

  lemma {:induction false} RefusedConcat(a: seq<Departure>, b: seq<Departure>)
    ensures Refused(a + b) == Refused(a) + Refused(b)
  {
    if b == [] {
      assert a + b == a;
    } else {
      var n := |b| - 1;
      RefusedConcat(a, b[..n]);
      assert (a + b)[..|a| + n] == a + b[..n];
    }
  }

  lemma {:induction false} RefusalsAreRefused(q: seq<Request>)
    ensures Refused(Refusals(q)) == |q|
  {
    if q != [] {
      RefusalsAreRefused(q[..|q| - 1]);
      assert Refusals(q)[..|q| - 1] == Refusals(q[..|q| - 1]);
    }
  }

  lemma OneMoreDeparture(d: seq<Departure>, last: Departure)
    ensures Refused(d + [last]) == Refused(d) + if last.outcome.Refused? then 1 else 0
  {
    assert (d + [last])[..|d|] == d;
  }

  // Between two states, the counters moved by what the log says, and by a little more.
  ghost predicate Counted(s: Pool, s': Pool, turnedAway: nat, reused: nat) {
    && s'.rejected - s.rejected == Refused(s'.departed) - Refused(s.departed) + turnedAway
    && s'.reuse - s.reuse == (|s'.departed| - Refused(s'.departed)) - (|s.departed| - Refused(s.departed)) + reused
  }

  lemma SweepCounts(c: Config, s: Pool)
    ensures Counted(s, Sweep(c, s), 0, 0)
  {
    var overdue := Overdue(c, s.queue, c.clock(s.tick));
    RefusedConcat(s.departed, Refusals(overdue));
    RefusalsAreRefused(overdue);
  }

  lemma {:induction false} DrainCounts(c: Config, s: Pool)
    ensures Counted(s, Drain(c, s), 0, 0)
    decreases |s.queue|
  {
    if s.queue != [] && s.idle != [] {
      var s1 := DrainOne(c, s);
      OneMoreDeparture(s.departed, s1.departed[|s.departed|]);
      assert s1.departed == s.departed + [s1.departed[|s.departed|]];
      DrainCounts(c, s1);
    }
  }

  lemma TimeOutCounts(c: Config, s: Pool)
    ensures Counted(s, TimeOut(c, s), if TimeOut(c, s).departed == s.departed then 1 else 0, 0)
  {
    var k := ScanPosition(c, s.queue, s.tick, 0);
    if k < |s.queue| { OneMoreDeparture(s.departed, Departure(s.queue[k].ticket, Outcome.Refused)); }
  }

  lemma BeginCounts(c: Config, s: Pool)
    ensures Counted(s, Begin(c, s).0, TurnedAway(c, s, BeginAcquire), Reused(c, s, BeginAcquire))
  {
    SweepCounts(c, s);
  }

  lemma ResumeCounts(c: Config, s: Pool, ticket: nat)
    requires ticket in s.waiting
    ensures var step := ResumeAcquire(ticket);
            Counted(s, Resume(c, s, ticket).0, TurnedAway(c, s, step), Reused(c, s, step))
  {
    if ResumeTimesOut(c, s, ticket) {
      var later := s.(waiting := s.waiting - {ticket}, tick := s.tick + 1);
      TimeOutCounts(c, later);
      assert Resume(c, s, ticket) == (TimeOut(c, later), TimedOut);
    }
  }

  lemma ReleaseCounts(c: Config, s: Pool, session: Option<nat>, isIdle: bool)
    ensures Counted(s, Release(c, s, session, isIdle), 0, 0)
  {
    if session.Some? && !s.down && session.value in s.active {
      DrainCounts(c, BeforeDrain(s, session.value, isIdle));
    }
  }

  /** The statistics mean this: a step adds to the rejected count one for each entry it refuses, and
      one for a request it turns away that has no entry to refuse; it adds to the reuse count one for
      each entry it hands a session, and one for an idle session it gives to a caller. A reset zeroes
      all three counters and touches nothing else. */
  lemma StatisticsExactly(c: Config, s: Pool, step: Step)
    ensures step != ResetStats ==> Counted(s, Next(c, s, step), TurnedAway(c, s, step), Reused(c, s, step))
    ensures step == ResetStats ==>
              var s' := Next(c, s, step);
              && s'.rejected == s'.reuse == s'.created == 0
              && s'.idle == s.idle && s'.active == s.active && s'.queue == s.queue && s'.waiting == s.waiting
              && s'.down == s.down && s'.tick == s.tick && s'.departed == s.departed
  {
    match step
    case BeginAcquire => BeginCounts(c, s);
    case ResumeAcquire(ticket) => if ticket in s.waiting { ResumeCounts(c, s, ticket); }
    case ReleaseSession(session, isIdle) => ReleaseCounts(c, s, session, isIdle);
    case CleanupIdleSessions(_) =>
    case ShutdownPool =>
    case ResetStats =>
  }
}
