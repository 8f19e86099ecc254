/** ConnectionPoolManager itself: its fields, updated in place by the source's loops.

    Every public method is one critical section, so `acquireConnection` is two methods. Each does
    exactly its step of SessionPoolModel, so a pool's life is a run of that machine. */
module SessionPool {
  import opened Options
  import opened SessionPoolModel

  class ConnectionPoolManager {
    const config: Config
    var idleConnections: seq<nat>
    var activeConnections: set<nat>
    var requestQueue: seq<Request>
    var shutdownRequested: bool
    var connectionReuseCount: nat
    var totalConnectionsCreated: nat
    var rejectedRequestCount: nat
    var tick: nat            // clock readings taken
    var nextSession: nat     // identity of the next session object
    var nextTicket: nat      // identity of the next queued request
    ghost var createdBefore: nat
    ghost var dropped: set<nat>
    ghost var waiting: map<nat, int>
    ghost var departed: seq<Departure>
    ghost var woken: seq<nat>

    ghost function View(): Pool
      reads this
    {
      Pool(idleConnections, activeConnections, requestQueue, shutdownRequested, connectionReuseCount,
           totalConnectionsCreated, rejectedRequestCount, tick, nextSession, createdBefore, dropped,
           nextTicket, waiting, departed, woken)
    }

    constructor (config: Config)
      ensures this.config == config && View() == Init()
    {
      this.config := config;
      idleConnections, activeConnections, requestQueue, shutdownRequested := [], {}, [], false;
      connectionReuseCount, totalConnectionsCreated, rejectedRequestCount := 0, 0, 0;
      tick, nextSession, nextTicket, createdBefore := 0, 0, 0, 0;
      dropped, waiting, departed, woken := {}, map[], [], [];
    }

    // steady_clock::now()
    method Now() returns (now: int)
      modifies this`tick
      ensures tick == old(tick) + 1 && now == config.clock(old(tick))
    {
      now := config.clock(tick);
      tick := tick + 1;
    }

    // The loop of the sweep, into a new queue.
    method FilterQueue(now: int) returns (newQueue: seq<Request>, cleanedUp: nat)
      modifies this`requestQueue, this`rejectedRequestCount, this`departed
      ensures newQueue == Unexpired(config, old(requestQueue), now)
      ensures cleanedUp == |Overdue(config, old(requestQueue), now)|
      ensures rejectedRequestCount == old(rejectedRequestCount) + cleanedUp
      ensures departed == old(departed) + Refusals(Overdue(config, old(requestQueue), now))
    {
      newQueue, cleanedUp := [], 0;
      ghost var q, i := requestQueue, 0;
      while requestQueue != []
        invariant i <= |q| && requestQueue == q[i..]
        invariant newQueue == Unexpired(config, q[..i], now)
        invariant cleanedUp == |Overdue(config, q[..i], now)|
        invariant rejectedRequestCount == old(rejectedRequestCount) + cleanedUp
        invariant departed == old(departed) + Refusals(Overdue(config, q[..i], now))
      {
        var request := requestQueue[0];
        requestQueue := requestQueue[1..];
        assert q[..i + 1][..i] == q[..i];
        if Expired(config, request, now) {
          cleanedUp := cleanedUp + 1;
          rejectedRequestCount := rejectedRequestCount + 1;
          departed := departed + [Departure(request.ticket, Refused)];
        } else {
          newQueue := newQueue + [request];
        }
        i := i + 1;
      }
      assert q[..i] == q;
    }

    method CleanupExpiredQueuedRequests() returns (cleanedUp: nat)
      modifies this
      ensures View() == Sweep(config, old(View()))
      ensures cleanedUp == |Overdue(config, old(requestQueue), config.clock(old(tick)))|
    {
      var now := Now();
      requestQueue, cleanedUp := FilterQueue(now);
    }

    // One turn of the loop in processQueuedRequests.
    method ServeHead()
      requires requestQueue != [] && idleConnections != []
      modifies this
      ensures View() == DrainOne(config, old(View()))
    {
      var queuedRequest := requestQueue[0];
      requestQueue := requestQueue[1..];
      var now := Now();
      if Expired(config, queuedRequest, now) {
        rejectedRequestCount := rejectedRequestCount + 1;
        departed := departed + [Departure(queuedRequest.ticket, Refused)];
      } else {
        HandSession(queuedRequest.ticket);
      }
    }

    // The first idle session is handed to a queued request and started.
    method HandSession(ticket: nat)
      requires idleConnections != []
      modifies this
      ensures var s1 := old(View());
              var s2 := TakeIdle(s1).(departed := s1.departed + [Departure(ticket, Handed(s1.idle[0]))]);
              View() == if config.runThrows(ticket)
                        then s2.(active := s2.active - {s1.idle[0]}, dropped := s1.dropped + {s1.idle[0]})
                        else s2
    {
      var session := AcquireIdle();
      departed := departed + [Departure(ticket, Handed(session))];
      if config.runThrows(ticket) {
        activeConnections := activeConnections - {session};
        dropped := dropped + {session};
      }
    }

    method ProcessQueuedRequests()
      modifies this
      ensures View() == Drain(config, old(View()))
    {
      while requestQueue != [] && idleConnections != []
        invariant Drain(config, View()) == Drain(config, old(View()))
        decreases |requestQueue|
      {
        ServeHead();
      }
    }

    method AcquireIdle() returns (session: nat)
      requires idleConnections != []
      modifies this`idleConnections, this`activeConnections, this`connectionReuseCount
      ensures View() == TakeIdle(old(View())) && session == old(idleConnections)[0]
    {
      session := idleConnections[0];
      idleConnections := idleConnections[1..];
      activeConnections := activeConnections + {session};
      connectionReuseCount := connectionReuseCount + 1;
    }

    // A null session stands for a failed creation.
    method CreateNewSession() returns (session: Option<nat>)
      modifies this
      ensures session == if config.canCreate then Some(old(nextSession)) else None
      ensures View() == if config.canCreate
                        then old(View()).(nextSession := old(nextSession) + 1,
                                          created := old(totalConnectionsCreated) + 1)
                        else old(View())
    {
      if !config.canCreate { return None; }
      session := Some(nextSession);
      nextSession := nextSession + 1;
      totalConnectionsCreated := totalConnectionsCreated + 1;
    }

    /** acquireConnection, until it returns, throws or starts to wait. */
    method BeginAcquireConnection() returns (result: AcquireResult)
      modifies this
      ensures (View(), result) == Begin(config, old(View()))
    {
      if shutdownRequested { return ShuttingDown; }
      var _ := CleanupExpiredQueuedRequests();
      if idleConnections != [] {
        var session := AcquireIdle();
        return Acquired(session);
      }
      if |activeConnections| + |idleConnections| < config.maxConnections {
        var session := CreateNewSession();
        if session.Some? {
          activeConnections := activeConnections + {session.value};
          return Acquired(session.value);
        }
        rejectedRequestCount := rejectedRequestCount + 1;
        return CreateFailed;
      }
      if |requestQueue| >= config.maxQueueSize {
        rejectedRequestCount := rejectedRequestCount + 1;
        return QueueFull;
      }
      var ticket := QueueRequest();
      return Waiting(ticket);
    }

    // The new entry is stamped, and the wait for it starts.
    method QueueRequest() returns (ticket: nat)
      modifies this
      ensures View() == Enqueue(config, old(View())) && ticket == old(nextTicket)
    {
      ticket := nextTicket;
      var queueTime := Now();
      requestQueue := requestQueue + [Request(ticket, queueTime)];
      var waitStart := Now();
      waiting := waiting[ticket := waitStart + config.maxWait * NANOS_PER_SECOND];
      nextTicket := ticket + 1;
    }

    // The timeout branch: entries move aside until one is expired ...
    method ScanForExpired() returns (tempQueue: seq<Request>, found: bool)
      modifies this`requestQueue, this`tick, this`departed
      ensures var q, k := old(requestQueue), ScanPosition(config, old(requestQueue), old(tick), 0);
              && found == (k < |q|) && tempQueue == q[..k]
              && requestQueue == (if found then q[k + 1..] else [])
              && tick == old(tick) + k + (if found then 1 else 0)
              && departed == old(departed) + if found then [Departure(q[k].ticket, Refused)] else []
    {
      tempQueue, found := [], false;
      ghost var q, i := requestQueue, 0;
      while requestQueue != [] && !found
        invariant i <= |q| && tempQueue == q[..i]
        invariant found ==> i < |q|
        invariant requestQueue == if found then q[i + 1..] else q[i..]
        invariant tick == old(tick) + i + (if found then 1 else 0)
        invariant ScanPosition(config, q, old(tick), 0) == if found then i
                                                           else ScanPosition(config, q, old(tick), i)
        invariant departed == old(departed) + if found then [Departure(q[i].ticket, Refused)] else []
        decreases |requestQueue|
      {
        var req := requestQueue[0];
        assert req == q[i] && requestQueue[1..] == q[i + 1..] && q[..i] + [q[i]] == q[..i + 1];
        requestQueue := requestQueue[1..];
        var now := Now();
        if Expired(config, req, now) {
          departed := departed + [Departure(req.ticket, Refused)];
          found := true;
        } else {
          tempQueue := tempQueue + [req];
          i := i + 1;
        }
      }
    }

    // ... and then go back behind the rest.
    method RestoreQueue(aside: seq<Request>)
      modifies this`requestQueue
      ensures requestQueue == old(requestQueue) + aside
    {
      var tempQueue := aside;
      ghost var j := 0;
      while tempQueue != []
        invariant j <= |aside| && tempQueue == aside[j..]
        invariant requestQueue == old(requestQueue) + aside[..j]
        decreases |tempQueue|
      {
        requestQueue := requestQueue + [tempQueue[0]];
        tempQueue := tempQueue[1..];
        j := j + 1;
      }
    }

    method RemoveTimedOut()
      modifies this
      ensures View() == TimeOut(config, old(View()))
    {
      var tempQueue, found := ScanForExpired();
      RestoreQueue(tempQueue);
      rejectedRequestCount := rejectedRequestCount + 1;
    }

    /** acquireConnection, when its wait ends or its timer fires. The code's last branch, no
        session after a successful wait, is unreachable. */
    method ResumeAcquireConnection(ticket: nat, deadline: int)
      returns (result: AcquireResult)
      requires ticket in waiting && waiting[ticket] == deadline
      modifies this
      ensures (View(), result) == Resume(config, old(View()), ticket)
    {
      var waitResult := idleConnections != [] || shutdownRequested;
      if !waitResult {
        var now := Now();
        if now < deadline { return Waiting(ticket); }
      }
      waiting := waiting - {ticket};
      if shutdownRequested { return ShuttingDown; }
      if !waitResult {
        RemoveTimedOut();
        return TimedOut;
      }
      if idleConnections != [] {
        woken := woken + [ticket];
        var session := AcquireIdle();
        return Acquired(session);
      }
      assert false;
    }

    method ReleaseConnection(session: Option<nat>, isIdle: bool)
      modifies this
      ensures View() == Release(config, old(View()), session, isIdle)
    {
      if session.None? { return; }
      var x := session.value;
      if shutdownRequested {
        dropped := if x in activeConnections then dropped + {x} else dropped;
        activeConnections := activeConnections - {x};
        return;
      }
      if x !in activeConnections { return; }
      activeConnections := activeConnections - {x};
      if isIdle {
        idleConnections := idleConnections + [x];
      } else {
        dropped := dropped + {x};
      }
      assert View() == BeforeDrain(old(View()), x, isIdle);
      ProcessQueuedRequests();
    }

    method FilterIdle(lastActivity: nat -> int) returns (cleanedUp: nat)
      modifies this`idleConnections, this`tick
      ensures idleConnections == Fresh(config, old(idleConnections), lastActivity, old(tick))
      ensures tick == old(tick) + |old(idleConnections)|
      ensures cleanedUp == |old(idleConnections)| - |idleConnections|
    {
      cleanedUp := 0;
      var newIdleQueue: seq<nat> := [];
      ghost var idle, i := idleConnections, 0;
      while idleConnections != []
        invariant i <= |idle| && idleConnections == idle[i..] && tick == old(tick) + i
        invariant newIdleQueue == Fresh(config, idle[..i], lastActivity, old(tick))
        invariant cleanedUp + |newIdleQueue| == i
        decreases |idleConnections|
      {
        var session := idleConnections[0];
        idleConnections := idleConnections[1..];
        var now := Now();
        assert idle[..i + 1][..i] == idle[..i];
        if Stale(config, lastActivity, session, now) {
          cleanedUp := cleanedUp + 1;
        } else {
          newIdleQueue := newIdleQueue + [session];
        }
        i := i + 1;
      }
      assert idle[..i] == idle;
      idleConnections := newIdleQueue;
    }

    method CleanupIdleConnections(lastActivity: nat -> int) returns (cleanedUp: nat)
      modifies this`idleConnections, this`tick, this`dropped
      ensures View() == CleanupIdle(config, old(View()), lastActivity)
      ensures cleanedUp == |old(idleConnections)| - |idleConnections|
    {
      var _ := Now();
      cleanedUp := DropStale(lastActivity);
    }

    // The loop, and what it lets go of.
    method DropStale(lastActivity: nat -> int) returns (cleanedUp: nat)
      modifies this`idleConnections, this`tick, this`dropped
      ensures var kept := Fresh(config, old(idleConnections), lastActivity, old(tick));
              && idleConnections == kept && dropped == old(dropped) + (Ids(old(idleConnections)) - Ids(kept))
              && tick == old(tick) + |old(idleConnections)| && cleanedUp == |old(idleConnections)| - |kept|
    {
      ghost var before := idleConnections;
      cleanedUp := FilterIdle(lastActivity);
      dropped := dropped + (Ids(before) - Ids(idleConnections));
    }

    method Shutdown()
      modifies this
      ensures View() == SessionPoolModel.Shutdown(old(View()))
    {
      if shutdownRequested { return; }
      shutdownRequested := true;
      dropped := dropped + activeConnections + Ids(idleConnections);
      ghost var mid := View();
      while idleConnections != []
        invariant View() == mid.(idle := idleConnections)
        decreases |idleConnections|
      {
        idleConnections := idleConnections[1..];
      }
      activeConnections := {};
    }

    method ResetStatistics()
      modifies this
      ensures View() == SessionPoolModel.ResetStatistics(old(View()))
    {
      connectionReuseCount := 0;
      totalConnectionsCreated := 0;
      rejectedRequestCount := 0;
      createdBefore := nextSession;
    }
  }
}
