/** RetryQueueManager of include/notification_service_recovery.hpp.

    `clock(i)` is the i-th reading of the system clock. The scan looks at the head of the queue
    only; whether that finds everything that is due depends on the clock never going back. */
module RetryQueue {

  datatype FailedNotification = FailedNotification(
    notificationId: string, recipient: string, content: string, nextRetryTime: int,
    failureReason: string, retryCount: int, failedMethodIndex: int)

  // Only addFailedNotification asks for a delay, always for zero retries.
  datatype Config = Config(baseRetryDelay: int, clock: nat -> int)

  // The rest is history: everything ever queued or handed out since the last clear, and for each
  // entry ever queued the clock reading that stamped it.
  datatype Queue = Queue(items: seq<FailedNotification>, tick: nat,
                         added: seq<FailedNotification>, taken: seq<FailedNotification>, stamps: seq<nat>)

  predicate Due(n: FailedNotification, now: int) {
    now >= n.nextRetryTime
  }

  function Add(c: Config, q: Queue, id: string, recipient: string, content: string, reason: string,
               method': int): Queue {
    var n := FailedNotification(id, recipient, content, c.clock(q.tick) + c.baseRetryDelay, reason, 0, method');
    q.(items := q.items + [n], added := q.added + [n], stamps := q.stamps + [q.tick], tick := q.tick + 1)
  }

  // How many entries the scan takes: it reads the clock once for each head it looks at.
  function ReadyCount(c: Config, items: seq<FailedNotification>, tick: nat, i: nat): (k: nat)
    requires i <= |items|
    ensures i <= k <= |items|
    decreases |items| - i
  {
    if i < |items| && Due(items[i], c.clock(tick + i)) then ReadyCount(c, items, tick, i + 1) else i
  }

  // Clock readings taken by the scan.
  function Readings(items: seq<FailedNotification>, k: nat): nat {
    if k < |items| then k + 1 else k
  }

  function Take(c: Config, q: Queue): Queue {
    var k := ReadyCount(c, q.items, q.tick, 0);
    q.(items := q.items[k..], taken := q.taken + q.items[..k], tick := q.tick + Readings(q.items, k))
  }

  datatype Step =
    | AddFailed(id: string, recipient: string, content: string, reason: string, failedMethod: int)
    | TakeReady
    | Clear

  function Next(c: Config, q: Queue, step: Step): Queue {
    match step
    case AddFailed(id, recipient, content, reason, m) => Add(c, q, id, recipient, content, reason, m)
    case TakeReady => Take(c, q)
    case Clear => Queue([], q.tick, [], [], [])
  }

  function Exec(c: Config, steps: seq<Step>): Queue {
    if steps == [] then Queue([], 0, [], [], []) else
      var n := |steps| - 1;
      Next(c, Exec(c, steps[..n]), steps[n])
  }

  ghost predicate Monotone(clock: nat -> int) {
    forall i: nat, j: nat :: i <= j ==> clock(i) <= clock(j)
  }

  ghost predicate Sorted(items: seq<FailedNotification>) {
    forall i, j :: 0 <= i < j < |items| ==> items[i].nextRetryTime <= items[j].nextRetryTime
  }

  ghost predicate Inv(c: Config, q: Queue) {
    && Sorted(q.items)
    && (forall i :: 0 <= i < |q.items| ==> q.items[i].nextRetryTime <= c.clock(q.tick) + c.baseRetryDelay)
  }

  lemma {:induction false} EveryRunIsSorted(c: Config, steps: seq<Step>)
    requires Monotone(c.clock)
    ensures Inv(c, Exec(c, steps))
  {
    if steps != [] {
      var q := Exec(c, steps[..|steps| - 1]);
      EveryRunIsSorted(c, steps[..|steps| - 1]);
      assert c.clock(q.tick) <= c.clock(Exec(c, steps).tick);
    }
  }

  /** Nothing is lost, doubled or reordered: what was handed out, followed by what is still queued,
      is what was added, in order. Whatever the clock does. */
  lemma {:induction false} HandedOutInOrder(c: Config, steps: seq<Step>)
    ensures var q := Exec(c, steps); q.taken + q.items == q.added
  {
    if steps != [] { HandedOutInOrder(c, steps[..|steps| - 1]); }
  }

  lemma {:induction false} ReadyCountSplits(c: Config, items: seq<FailedNotification>, tick: nat, i: nat)
    requires i <= |items|
    ensures var k := ReadyCount(c, items, tick, i);
            && (forall j :: i <= j < k ==> Due(items[j], c.clock(tick + j)))
            && (k < |items| ==> !Due(items[k], c.clock(tick + k)))
    decreases |items| - i
  {
    if i < |items| && Due(items[i], c.clock(tick + i)) { ReadyCountSplits(c, items, tick, i + 1); }
  }

  // The last clock reading of a scan that found something queued.
  function LastReading(c: Config, q: Queue): int
    requires q.items != []
  {
    c.clock(Take(c, q).tick - 1)
  }

  /** The head-only scan is complete: on a queue sorted by retry time it takes exactly the entries
      that are due at its last clock reading. */
  lemma ScanIsComplete(c: Config, q: Queue)
    requires Monotone(c.clock) && Inv(c, q) && q.items != []
    ensures forall i :: 0 <= i < |q.items| ==>
              (i < ReadyCount(c, q.items, q.tick, 0) <==> Due(q.items[i], LastReading(c, q)))
  {
    ReadyCountSplits(c, q.items, q.tick, 0);
    var k := ReadyCount(c, q.items, q.tick, 0);
    var last := Take(c, q).tick - 1;
    forall i | 0 <= i < |q.items| ensures i < k <==> Due(q.items[i], c.clock(last)) {
      if i < k { assert c.clock(q.tick + i) <= c.clock(last); }
    }
  }

  /** In every run with a clock that never goes back, every scan is complete. */
  lemma EveryScanIsComplete(c: Config, steps: seq<Step>)
    requires Monotone(c.clock) && Exec(c, steps).items != []
    ensures var q := Exec(c, steps);
            forall i :: 0 <= i < |q.items| ==>
              (i < ReadyCount(c, q.items, q.tick, 0) <==> Due(q.items[i], LastReading(c, q)))
  {
    EveryRunIsSorted(c, steps);
    ScanIsComplete(c, Exec(c, steps));
  }

  // ----- what an entry carries -----

  // The additions since the last clear.
  function Additions(steps: seq<Step>): seq<Step> {
    if steps == [] then [] else
      var n := |steps| - 1;
      match steps[n]
      case AddFailed(_, _, _, _, _) => Additions(steps[..n]) + [steps[n]]
      case TakeReady => Additions(steps[..n])
      case Clear => []
  }

  ghost predicate Carries(n: FailedNotification, step: Step) {
    && step.AddFailed? && n.notificationId == step.id && n.recipient == step.recipient
    && n.content == step.content && n.failureReason == step.reason
    && n.failedMethodIndex == step.failedMethod && n.retryCount == 0
  }

  /** Since the last clear, the entries handed out and then those still queued are, one for one and in
      order, the additions made, each with everything it was added with. */
  lemma {:induction false} EntriesCarryWhatWasAdded(c: Config, steps: seq<Step>)
    ensures var q := Exec(c, steps);
            && |q.taken + q.items| == |Additions(steps)|
            && forall i :: 0 <= i < |Additions(steps)| ==> Carries((q.taken + q.items)[i], Additions(steps)[i])
  {
    if steps != [] {
      HandedOutInOrder(c, steps[..|steps| - 1]);
      HandedOutInOrder(c, steps);
      EntriesCarryWhatWasAdded(c, steps[..|steps| - 1]);
    }
  }

  // ----- when the clock goes back -----

  // A scan during which the clock shows t takes exactly the entries due at t.
  ghost predicate StillScanIsComplete(items: seq<FailedNotification>, t: int) {
    var k := ReadyCount(Config(0, _ => t), items, 0, 0);
    forall i :: 0 <= i < |items| ==> (i < k <==> Due(items[i], t))
  }

  /** The head-only scan is complete at every time if and only if the queue is sorted by retry time:
      otherwise there is a time at which it misses an entry that is due. */
  lemma CompleteExactlyWhenSorted(items: seq<FailedNotification>)
    ensures Sorted(items) <==> forall t :: StillScanIsComplete(items, t)
  {
    forall t | Sorted(items) ensures StillScanIsComplete(items, t) {
      ReadyCountSplits(Config(0, _ => t), items, 0, 0);
    }
    if i, j :| 0 <= i < j < |items| && items[i].nextRetryTime > items[j].nextRetryTime {
      var t := items[j].nextRetryTime;
      assert Due(items[j], t) && !Due(items[i], t);
      assert !StillScanIsComplete(items, t);
    }
  }

  // Every entry is due a base delay after the reading that stamped it, and the readings were taken
  // in the order of the entries.
  ghost predicate Stamped(c: Config, q: Queue) {
    && |q.stamps| == |q.added|
    && (forall i :: 0 <= i < |q.added| ==>
          q.added[i].nextRetryTime == c.clock(q.stamps[i]) + c.baseRetryDelay && q.stamps[i] < q.tick)
    && (forall i, j :: 0 <= i < j < |q.stamps| ==> q.stamps[i] < q.stamps[j])
  }

  lemma {:induction false} EveryRunIsStamped(c: Config, steps: seq<Step>)
    ensures Stamped(c, Exec(c, steps))
  {
    if steps != [] { EveryRunIsStamped(c, steps[..|steps| - 1]); }
  }

  /** Whatever the clock does, the queue is sorted by retry time if and only if the readings that
      stamped the entries still queued show times in order. */
  lemma SortedExactlyByStamps(c: Config, steps: seq<Step>)
    ensures var q := Exec(c, steps);
            && |q.stamps| == |q.taken| + |q.items|
            && (Sorted(q.items) <==>
                forall i, j :: |q.taken| <= i < j < |q.stamps| ==> c.clock(q.stamps[i]) <= c.clock(q.stamps[j]))
  {
    var q := Exec(c, steps);
    HandedOutInOrder(c, steps);
    EveryRunIsStamped(c, steps);
    var n := |q.taken|;
    assert forall i :: 0 <= i < |q.items| ==>
             q.items[i].nextRetryTime == c.clock(q.stamps[n + i]) + c.baseRetryDelay by {
      assert forall i :: 0 <= i < |q.items| ==> q.items[i] == q.added[n + i];
    }
    if Sorted(q.items) {
      forall i, j | n <= i < j < |q.stamps| ensures c.clock(q.stamps[i]) <= c.clock(q.stamps[j]) {
        assert q.items[i - n].nextRetryTime <= q.items[j - n].nextRetryTime;
      }
    }
  }

  /** With two entries queued, the second is due but hidden behind the first exactly when the clock
      now shows a time between the two times at which they fall due. */
  lemma ClockSetBackHidesDueEntry(c: Config, first: Step, second: Step)
    requires first.AddFailed? && second.AddFailed?
    ensures var q := Exec(c, [first, second]);
            && q.tick == 2 && |q.items| == 2
            && (Due(q.items[1], c.clock(2)) && ReadyCount(c, q.items, q.tick, 0) == 0 <==>
                c.clock(1) + c.baseRetryDelay <= c.clock(2) < c.clock(0) + c.baseRetryDelay)
  {
    assert [first, second][..1] == [first] && [first][..0] == [];
    assert Exec(c, [first]).items[0].nextRetryTime == c.clock(0) + c.baseRetryDelay;
  }

  class RetryQueueManager {
    const config: Config
    var retryQueue: seq<FailedNotification>
    var tick: nat
    ghost var added: seq<FailedNotification>
    ghost var taken: seq<FailedNotification>
    ghost var stamps: seq<nat>

    ghost function View(): Queue
      reads this
    {
      Queue(retryQueue, tick, added, taken, stamps)
    }

    constructor (config: Config)
      ensures this.config == config && View() == Exec(config, [])
    {
      this.config := config;
      retryQueue, tick, added, taken, stamps := [], 0, [], [], [];
    }

    // system_clock::now()
    method Now() returns (now: int)
      modifies this`tick
      ensures tick == old(tick) + 1 && now == config.clock(old(tick))
    {
      now := config.clock(tick);
      tick := tick + 1;
    }

    method AddFailedNotification(id: string, recipient: string, content: string, reason: string, failedMethod: int)
      modifies this
      ensures View() == Next(config, old(View()), AddFailed(id, recipient, content, reason, failedMethod))
    {
      stamps := stamps + [tick];
      var now := Now();
      var n := FailedNotification(id, recipient, content, now + config.baseRetryDelay, reason, 0, failedMethod);
      retryQueue := retryQueue + [n];
      added := added + [n];
    }

    method ClearQueue()
      modifies this
      ensures View() == Next(config, old(View()), Clear)
    {
      while retryQueue != []
        modifies this`retryQueue
        decreases |retryQueue|
      {
        retryQueue := retryQueue[1..];
      }
      added, taken, stamps := [], [], [];
    }

    method TakeHeads() returns (ready: seq<FailedNotification>)
      modifies this`retryQueue, this`tick
      ensures var items, k := old(retryQueue), ReadyCount(config, old(retryQueue), old(tick), 0);
              && ready == items[..k] && retryQueue == items[k..]
              && tick == old(tick) + Readings(items, k)
    {
      ready := [];
      ghost var items, i, start := retryQueue, 0, tick;
      var looking := true;
      while looking && retryQueue != []
        invariant i <= |items| && retryQueue == items[i..] && ready == items[..i]
        invariant ReadyCount(config, items, start, 0) == if looking then ReadyCount(config, items, start, i) else i
        invariant tick == start + i + (if looking then 0 else 1)
        invariant !looking ==> i < |items|
        decreases |retryQueue|, looking
      {
        var now := Now();
        looking := now >= retryQueue[0].nextRetryTime;
        if looking {
          ready := ready + [retryQueue[0]];
          retryQueue := retryQueue[1..];
          i := i + 1;
        }
      }
    }

    method GetReadyForRetry() returns (ready: seq<FailedNotification>)
      modifies this
      ensures View() == Next(config, old(View()), TakeReady)
      ensures ready + retryQueue == old(retryQueue)
    {
      ready := TakeHeads();
      taken := taken + ready;
    }
  }
}
