/** The HTTP session pool of src/connection_pool_manager.cpp as a machine on values.

    One step is what one call does while it holds the pool mutex. `acquireConnection` is two
    steps, because it gives the mutex up while it waits: `Begin` (try, create or enqueue) and
    `Resume` (woken, shut down or timed out). The class in SessionPool.dfy performs the same
    steps with the source's loops; SessionPoolSafety.dfy and SessionPoolOrder.dfy prove
    what every run keeps.

    A session is named by its creation number and a queued request by its ticket, the number of
    requests queued before it: both stand for object identity. `clock(i)` is the i-th reading of
    the steady clock in the run, in nanoseconds. */
module SessionPoolModel {

  import opened Options
  import opened Runs

  const NANOS_PER_SECOND := 1_000_000_000

  datatype Config = Config(
    maxConnections: nat,
    maxQueueSize: nat,
    maxWait: int,                // seconds
    idleTimeout: int,            // seconds
    canCreate: bool,             // handler_ and wsManager_ are both set
    clock: nat -> int,
    runThrows: nat -> bool)      // does session->run() throw when started for this ticket?

  datatype Request = Request(ticket: nat, queueTime: int)

  // How an entry left the queue: given to a session, or answered with an error.
  datatype Outcome = Handed(session: nat) | Refused
  datatype Departure = Departure(ticket: nat, outcome: Outcome)

  /** The fields of ConnectionPoolManager, then the history the source does not keep. */
  datatype Pool = Pool(
    idle: seq<nat>,
    active: set<nat>,
    queue: seq<Request>,
    down: bool,
    reuse: nat,
    created: nat,
    rejected: nat,
    // history
    tick: nat,                   // clock readings taken so far
    nextSession: nat,            // sessions ever created
    createdBefore: nat,          // sessions created before the last statistics reset
    dropped: set<nat>,           // sessions the pool let go of
    nextTicket: nat,             // requests ever queued
    waiting: map<nat, int>,      // ticket of each thread inside wait_for, with its deadline
    departed: seq<Departure>,    // entries in the order in which they left the queue
    woken: seq<nat>)             // tickets whose thread was given a session when it woke

  function Init(): Pool {
    Pool([], {}, [], false, 0, 0, 0, 0, 0, 0, {}, 0, map[], [], [])
  }

  // duration_cast<seconds> truncates toward zero.
  function ToSeconds(nanos: int): int {
    if nanos >= 0 then nanos / NANOS_PER_SECOND else -((-nanos) / NANOS_PER_SECOND)
  }

  predicate Expired(c: Config, req: Request, now: int) {
    ToSeconds(now - req.queueTime) >= c.maxWait
  }

  function Ids(idle: seq<nat>): set<nat> {
    set x | x in idle
  }

  // ----- cleanupExpiredQueuedRequests: one clock reading for the whole sweep -----

  function Unexpired(c: Config, q: seq<Request>, now: int): seq<Request> {
    if q == [] then [] else
      var n := |q| - 1;
      Unexpired(c, q[..n], now) + if Expired(c, q[n], now) then [] else [q[n]]
  }

  function Overdue(c: Config, q: seq<Request>, now: int): seq<Request> {
    if q == [] then [] else
      var n := |q| - 1;
      Overdue(c, q[..n], now) + if Expired(c, q[n], now) then [q[n]] else []
  }

  function Refusals(q: seq<Request>): seq<Departure> {
    seq(|q|, i requires 0 <= i < |q| => Departure(q[i].ticket, Refused))
  }

  function Sweep(c: Config, s: Pool): Pool {
    var now := c.clock(s.tick);
    var overdue := Overdue(c, s.queue, now);
    s.(tick := s.tick + 1, queue := Unexpired(c, s.queue, now),
       rejected := s.rejected + |overdue|, departed := s.departed + Refusals(overdue))
  }

  // ----- processQueuedRequests: a clock reading for every entry looked at -----

  function DrainOne(c: Config, s: Pool): Pool
    requires s.queue != [] && s.idle != []
  {
    var req := s.queue[0];
    var s1 := s.(queue := s.queue[1..], tick := s.tick + 1);
    if Expired(c, req, c.clock(s.tick)) then
      s1.(rejected := s.rejected + 1, departed := s.departed + [Departure(req.ticket, Refused)])
    else
      var session := s.idle[0];
      var s2 := s1.(idle := s.idle[1..], active := s.active + {session}, reuse := s.reuse + 1,
                    departed := s.departed + [Departure(req.ticket, Handed(session))]);
      if c.runThrows(req.ticket) then
        s2.(active := s2.active - {session}, dropped := s.dropped + {session})
      else s2
  }

  function Drain(c: Config, s: Pool): Pool
    decreases |s.queue|
  {
    if s.queue == [] || s.idle == [] then s else Drain(c, DrainOne(c, s))
  }

  // ----- acquireConnection, up to the wait -----

  datatype AcquireResult =
    | ShuttingDown
    | Acquired(session: nat)
    | CreateFailed
    | QueueFull
    | Waiting(ticket: nat)
    | TimedOut

  function TakeIdle(s: Pool): Pool
    requires s.idle != []
  {
    s.(idle := s.idle[1..], active := s.active + {s.idle[0]}, reuse := s.reuse + 1)
  }

  function Create(s: Pool): Pool {
    s.(active := s.active + {s.nextSession}, nextSession := s.nextSession + 1, created := s.created + 1)
  }

  // One reading stamps the entry, a second one starts wait_for.
  function Enqueue(c: Config, s: Pool): Pool {
    s.(queue := s.queue + [Request(s.nextTicket, c.clock(s.tick))],
       waiting := s.waiting[s.nextTicket := c.clock(s.tick + 1) + c.maxWait * NANOS_PER_SECOND],
       nextTicket := s.nextTicket + 1, tick := s.tick + 2)
  }

  function Begin(c: Config, s: Pool): (Pool, AcquireResult) {
    if s.down then (s, ShuttingDown) else
      var s1 := Sweep(c, s);
      if s1.idle != [] then
        (TakeIdle(s1), Acquired(s1.idle[0]))
      else if |s1.active| + |s1.idle| < c.maxConnections then
        if c.canCreate then (Create(s1), Acquired(s1.nextSession))
        else (s1.(rejected := s1.rejected + 1), CreateFailed)
      else if |s1.queue| >= c.maxQueueSize then
        (s1.(rejected := s1.rejected + 1), QueueFull)
      else
        (Enqueue(c, s1), Waiting(s1.nextTicket))
  }

  // ----- acquireConnection, from the wait on -----

  // The scan of a timed-out waiter: the first entry that is expired when it is looked at.
  // The i-th entry is looked at with the clock reading `tick + i`.
  function ScanPosition(c: Config, q: seq<Request>, tick: nat, i: nat): (k: nat)
    requires i <= |q|
    ensures i <= k <= |q|
    decreases |q| - i
  {
    if i == |q| || Expired(c, q[i], c.clock(tick + i)) then i
    else ScanPosition(c, q, tick, i + 1)
  }

  // Entries skipped by the scan are pushed back behind the ones it never reached.
  function TimeOut(c: Config, s: Pool): Pool {
    var q := s.queue;
    var k := ScanPosition(c, q, s.tick, 0);
    if k == |q| then
      s.(tick := s.tick + k, rejected := s.rejected + 1)
    else
      s.(tick := s.tick + k + 1, rejected := s.rejected + 1, queue := q[k + 1..] + q[..k],
         departed := s.departed + [Departure(q[k].ticket, Refused)])
  }

  // wait_for returns the predicate's value; without it, it returns only past the deadline.
  predicate WaitOver(s: Pool) {
    s.idle != [] || s.down
  }

  predicate ResumeTimesOut(c: Config, s: Pool, ticket: nat) {
    ticket in s.waiting && !WaitOver(s) && c.clock(s.tick) >= s.waiting[ticket]
  }

  function Resume(c: Config, s: Pool, ticket: nat): (Pool, AcquireResult)
    requires ticket in s.waiting
  {
    var left := s.(waiting := s.waiting - {ticket});
    if s.down then (left, ShuttingDown)
    else if s.idle != [] then (TakeIdle(left).(woken := s.woken + [ticket]), Acquired(s.idle[0]))
    else if c.clock(s.tick) >= s.waiting[ticket] then
      (TimeOut(c, left.(tick := s.tick + 1)), TimedOut)
    else (s.(tick := s.tick + 1), Waiting(ticket))
  }

  // ----- releaseConnection, cleanupIdleConnections, shutdown, resetStatistics -----

  function BeforeDrain(s: Pool, x: nat, isIdle: bool): Pool {
    if isIdle then s.(active := s.active - {x}, idle := s.idle + [x])
    else s.(active := s.active - {x}, dropped := s.dropped + {x})
  }

  function Release(c: Config, s: Pool, session: Option<nat>, isIdle: bool): Pool {
    if session.None? then s else
      var x := session.value;
      if s.down then
        s.(active := s.active - {x}, dropped := if x in s.active then s.dropped + {x} else s.dropped)
      else if x !in s.active then s
      else Drain(c, BeforeDrain(s, x, isIdle))
  }

  // shouldCleanupSession reads the clock once for every session.
  predicate Stale(c: Config, lastActivity: nat -> int, session: nat, now: int) {
    ToSeconds(now - lastActivity(session)) >= c.idleTimeout
  }

  function Fresh(c: Config, idle: seq<nat>, lastActivity: nat -> int, tick: nat): seq<nat> {
    if idle == [] then [] else
      var n := |idle| - 1;
      Fresh(c, idle[..n], lastActivity, tick)
      + if Stale(c, lastActivity, idle[n], c.clock(tick + n)) then [] else [idle[n]]
  }

  function CleanupIdle(c: Config, s: Pool, lastActivity: nat -> int): Pool {
    var kept := Fresh(c, s.idle, lastActivity, s.tick + 1);
    s.(idle := kept, dropped := s.dropped + (Ids(s.idle) - Ids(kept)),
       tick := s.tick + 1 + |s.idle|)
  }

  function Shutdown(s: Pool): Pool {
    if s.down then s else
      s.(down := true, idle := [], active := {}, dropped := s.dropped + s.active + Ids(s.idle))
  }

  function ResetStatistics(s: Pool): Pool {
    s.(reuse := 0, created := 0, rejected := 0, createdBefore := s.nextSession)
  }

  // ----- runs -----

  datatype Step =
    | BeginAcquire
    | ResumeAcquire(ticket: nat)
    | ReleaseSession(session: Option<nat>, isIdle: bool)
    | CleanupIdleSessions(lastActivity: nat -> int)
    | ShutdownPool
    | ResetStats

  function Next(c: Config, s: Pool, step: Step): Pool {
    match step
    case BeginAcquire => Begin(c, s).0
    case ResumeAcquire(ticket) => if ticket in s.waiting then Resume(c, s, ticket).0 else s
    case ReleaseSession(session, isIdle) => Release(c, s, session, isIdle)
    case CleanupIdleSessions(lastActivity) => CleanupIdle(c, s, lastActivity)
    case ShutdownPool => Shutdown(s)
    case ResetStats => ResetStatistics(s)
  }

  function Machine(c: Config): (Pool, Step) -> Pool {
    (s, step) => Next(c, s, step)
  }

  function Exec(c: Config, s: Pool, steps: seq<Step>): Pool {
    Fold(Machine(c), s, steps)
  }

  ghost predicate Monotone(clock: nat -> int) {
    forall i: nat, j: nat :: i <= j ==> clock(i) <= clock(j)
  }
}
