/** The circuit breaker of include/job_monitor_service_recovery.hpp; NotificationCircuitBreaker in
    include/notification_service_recovery.hpp is the same machine with another time unit.

    Times are readings of the steady clock. The history of a breaker is the sequence of calls made
    to it; every result below is about all such sequences. */
module CircuitBreaker {

  datatype State = Closed | Open | HalfOpen

  datatype Limits = Limits(failureThreshold: int, timeout: int, successThreshold: int)

  datatype Breaker = Breaker(state: State, failureCount: int, successCount: int, lastFailureTime: int)

  const INITIAL := Breaker(Closed, 0, 0, 0)

  datatype Event = Allow | Success | Failure
  datatype Call = Call(event: Event, time: int)

  predicate TimeoutExpired(l: Limits, b: Breaker, now: int) {
    now - b.lastFailureTime >= l.timeout
  }

  predicate Admits(l: Limits, b: Breaker, now: int) {
    b.state.Open? ==> TimeoutExpired(l, b, now)
  }

  function Next(l: Limits, b: Breaker, call: Call): Breaker {
    match (call.event, b.state)
    case (Allow, Open) =>
      if TimeoutExpired(l, b, call.time) then b.(state := HalfOpen, successCount := 0) else b
    case (Allow, _) => b
    case (Success, Closed) => b.(failureCount := 0)
    case (Success, HalfOpen) =>
      var b1 := b.(successCount := b.successCount + 1);
      if b1.successCount >= l.successThreshold then b1.(state := Closed, failureCount := 0) else b1
    case (Success, Open) => b
    case (Failure, Closed) =>
      var b1 := b.(failureCount := b.failureCount + 1);
      if b1.failureCount >= l.failureThreshold then b1.(state := Open, lastFailureTime := call.time) else b1
    case (Failure, _) => b.(state := Open, lastFailureTime := call.time)
  }

  function Exec(l: Limits, calls: seq<Call>): Breaker {
    if calls == [] then INITIAL else
      var n := |calls| - 1;
      Next(l, Exec(l, calls[..n]), calls[n])
  }

  // ----- the source's class -----

  class ServiceCircuitBreaker {
    const limits: Limits
    var state: State
    var failureCount: int
    var successCount: int
    var lastFailureTime: int

    function View(): Breaker
      reads this
    {
      Breaker(state, failureCount, successCount, lastFailureTime)
    }

    constructor (limits: Limits)
      ensures this.limits == limits && View() == INITIAL
    {
      this.limits := limits;
      state, failureCount, successCount, lastFailureTime := Closed, 0, 0, 0;
    }

    method AllowOperation(now: int) returns (allowed: bool)
      modifies this
      ensures View() == Next(limits, old(View()), Call(Allow, now))
      ensures allowed <==> Admits(limits, old(View()), now)
      ensures allowed <==> !state.Open?
    {
      match state
      case Closed => return true;
      case Open =>
        if now - lastFailureTime >= limits.timeout {
          state := HalfOpen;
          successCount := 0;
          return true;
        }
        return false;
      case HalfOpen => return true;
    }

    method OnSuccess(now: int)
      modifies this
      ensures View() == Next(limits, old(View()), Call(Success, now))
    {
      match state
      case Closed => failureCount := 0;
      case HalfOpen =>
        successCount := successCount + 1;
        if successCount >= limits.successThreshold {
          state := Closed;
          failureCount := 0;
        }
      case Open =>
    }

    method OnFailure(now: int)
      modifies this
      ensures View() == Next(limits, old(View()), Call(Failure, now))
    {
      match state
      case Closed =>
        failureCount := failureCount + 1;
        if failureCount >= limits.failureThreshold {
          state := Open;
          lastFailureTime := now;
        }
      case HalfOpen =>
        state := Open;
        lastFailureTime := now;
      case Open =>
        lastFailureTime := now;
    }
  }

  // ----- counters never overflow -----

  function Cap(threshold: int): int {
    if threshold < 1 then 1 else threshold
  }

  /** Whatever the calls and the thresholds, a counter never passes the larger of 1 and its
      threshold, so neither overflows an int. */
  lemma {:induction false} CountersStayBounded(l: Limits, calls: seq<Call>)
    ensures var b := Exec(l, calls);
            && 0 <= b.failureCount <= Cap(l.failureThreshold)
            && 0 <= b.successCount <= Cap(l.successThreshold)
            && (b.state.Closed? ==> b.failureCount < Cap(l.failureThreshold))
            && (b.state.HalfOpen? ==> b.successCount < Cap(l.successThreshold))
  {
    if calls != [] { CountersStayBounded(l, calls[..|calls| - 1]); }
  }

  // ----- two openings are a timeout apart -----

  ghost predicate InTimeOrder(calls: seq<Call>) {
    forall i, j :: 0 <= i < j < |calls| ==> calls[i].time <= calls[j].time
  }

  ghost predicate OpensAt(l: Limits, calls: seq<Call>, i: nat) {
    i < |calls| && !Exec(l, calls[..i]).state.Open? && Exec(l, calls[..i + 1]).state.Open?
  }

  lemma {:induction false} AfterOpening(l: Limits, calls: seq<Call>, i: nat, n: nat)
    requires InTimeOrder(calls) && OpensAt(l, calls, i) && i < n <= |calls|
    ensures var b := Exec(l, calls[..n]);
            if b.state.Open? then b.lastFailureTime >= calls[i].time
            else calls[n - 1].time >= calls[i].time + l.timeout
    decreases n
  {
    assert calls[..n][..n - 1] == calls[..n - 1];
    if n > i + 1 { AfterOpening(l, calls, i, n - 1); }
  }

  /** In any order of calls, from any number of threads, two entries into OPEN are at least
      `timeout` apart. */
  lemma OpeningsAreATimeoutApart(l: Limits, calls: seq<Call>, i: nat, j: nat)
    requires InTimeOrder(calls) && i < j && OpensAt(l, calls, i) && OpensAt(l, calls, j)
    ensures calls[j].time - calls[i].time >= l.timeout
  {
    AfterOpening(l, calls, i, j);
  }

  // ----- counters agree with the history -----

  function FailuresSinceSuccess(calls: seq<Call>): nat {
    if calls == [] then 0 else
      var n := |calls| - 1;
      match calls[n].event
      case Allow => FailuresSinceSuccess(calls[..n])
      case Success => 0
      case Failure => FailuresSinceSuccess(calls[..n]) + 1
  }

  function Successes(calls: seq<Call>): nat {
    if calls == [] then 0 else
      var n := |calls| - 1;
      Successes(calls[..n]) + if calls[n].event.Success? then 1 else 0
  }

  // Call p moved the breaker from OPEN to HALF_OPEN, and no failure was reported since.
  ghost predicate ProbingSince(l: Limits, calls: seq<Call>, p: nat) {
    && p < |calls|
    && Exec(l, calls[..p]).state.Open? && Exec(l, calls[..p + 1]).state.HalfOpen?
    && forall i :: p < i < |calls| ==> !calls[i].event.Failure?
  }

  /** In CLOSED the failure counter is the number of failures since the last success, and is below
      the threshold. */
  lemma {:induction false} FailureCountIsHistory(l: Limits, calls: seq<Call>)
    requires l.failureThreshold >= 1 && l.successThreshold >= 1
    ensures Exec(l, calls).state.Closed? ==>
              Exec(l, calls).failureCount == FailuresSinceSuccess(calls) < l.failureThreshold
  {
    if calls != [] { FailureCountIsHistory(l, calls[..|calls| - 1]); }
  }

  lemma ProbeExtends(l: Limits, calls: seq<Call>, p: nat)
    requires calls != [] && ProbingSince(l, calls[..|calls| - 1], p) && !calls[|calls| - 1].event.Failure?
    ensures ProbingSince(l, calls, p)
    ensures Successes(calls[p + 1..]) ==
            Successes(calls[..|calls| - 1][p + 1..]) + if calls[|calls| - 1].event.Success? then 1 else 0
  {
    var n := |calls| - 1;
    assert calls[..n][..p] == calls[..p] && calls[..n][..p + 1] == calls[..p + 1];
    assert calls[p + 1..][..n - p - 1] == calls[..n][p + 1..];
    assert forall i :: p < i < n ==> calls[..n][i] == calls[i];
  }

  /** In HALF_OPEN the success counter is the number of successes since the probe began, below the
      threshold, with no failure in between. */
  lemma {:induction false} SuccessCountIsHistory(l: Limits, calls: seq<Call>) returns (p: nat)
    requires l.successThreshold >= 1
    ensures Exec(l, calls).state.HalfOpen? ==>
              ProbingSince(l, calls, p)
              && Exec(l, calls).successCount == Successes(calls[p + 1..]) < l.successThreshold
  {
    p := 0;
    if calls != [] && Exec(l, calls).state.HalfOpen? {
      var n := |calls| - 1;
      var b := Exec(l, calls[..n]);
      p := SuccessCountIsHistory(l, calls[..n]);
      if b.state.Open? {
        p := n;
        assert calls[..n + 1] == calls && calls[n + 1..] == [];
      } else {
        assert b.state.HalfOpen?;
        ProbeExtends(l, calls, p);
      }
    }
  }

  /** CLOSED is entered only from HALF_OPEN, by the success that completes successThreshold of
      them since the probe began, with no failure in between. */
  lemma ClosesOnlyAfterEnoughSuccesses(l: Limits, calls: seq<Call>)
    requires l.successThreshold >= 1 && calls != []
    requires !Exec(l, calls[..|calls| - 1]).state.Closed? && Exec(l, calls).state.Closed?
    ensures calls[|calls| - 1].event.Success?
    ensures exists p :: ProbingSince(l, calls, p) && Successes(calls[p + 1..]) == l.successThreshold
  {
    var p := SuccessCountIsHistory(l, calls[..|calls| - 1]);
    ProbeExtends(l, calls, p);
  }

  lemma ProbePrefix(l: Limits, calls: seq<Call>, p: nat)
    requires ProbingSince(l, calls, p) && p < |calls| - 1
    ensures ProbingSince(l, calls[..|calls| - 1], p)
    ensures Successes(calls[p + 1..]) ==
            Successes(calls[..|calls| - 1][p + 1..]) + if calls[|calls| - 1].event.Success? then 1 else 0
  {
    var n := |calls| - 1;
    assert calls[..n][..p] == calls[..p] && calls[..n][..p + 1] == calls[..p + 1];
    assert calls[p + 1..][..n - p - 1] == calls[..n][p + 1..];
  }

  // While fewer than successThreshold successes followed the probe, and no failure, it goes on.
  lemma {:induction false} ProbeGoesOn(l: Limits, calls: seq<Call>, p: nat)
    requires l.successThreshold >= 1 && ProbingSince(l, calls, p)
    requires Successes(calls[p + 1..]) < l.successThreshold
    ensures Exec(l, calls).state.HalfOpen? && Exec(l, calls).successCount == Successes(calls[p + 1..])
    decreases |calls|
  {
    var n := |calls| - 1;
    if p == n {
      assert calls[..n + 1] == calls && calls[n + 1..] == [];
    } else {
      ProbePrefix(l, calls, p);
      ProbeGoesOn(l, calls[..n], p);
    }
  }

  ghost predicate CompletesProbe(l: Limits, calls: seq<Call>, p: nat) {
    && calls != [] && calls[|calls| - 1].event.Success?
    && ProbingSince(l, calls, p) && Successes(calls[p + 1..]) == l.successThreshold
  }

  lemma CompletingCloses(l: Limits, calls: seq<Call>, p: nat)
    requires l.successThreshold >= 1 && CompletesProbe(l, calls, p)
    ensures Exec(l, calls[..|calls| - 1]).state.HalfOpen? && Exec(l, calls).state.Closed?
  {
    var n := |calls| - 1;
    assert calls[|calls|..] == [];
    ProbePrefix(l, calls, p);
    ProbeGoesOn(l, calls[..n], p);
  }

  lemma ClosingCompletes(l: Limits, calls: seq<Call>) returns (p: nat)
    requires l.successThreshold >= 1 && calls != []
    requires !Exec(l, calls[..|calls| - 1]).state.Closed? && Exec(l, calls).state.Closed?
    ensures CompletesProbe(l, calls, p)
  {
    p := SuccessCountIsHistory(l, calls[..|calls| - 1]);
    ProbeExtends(l, calls, p);
  }

  /** The breaker closes with a call exactly if that is the success that completes successThreshold of
      them since a probe began, with no failure in between. */
  lemma ClosesExactly(l: Limits, calls: seq<Call>)
    requires l.successThreshold >= 1 && calls != []
    ensures !Exec(l, calls[..|calls| - 1]).state.Closed? && Exec(l, calls).state.Closed?
       <==> exists p: nat :: CompletesProbe(l, calls, p)
  {
    if !Exec(l, calls[..|calls| - 1]).state.Closed? && Exec(l, calls).state.Closed? {
      var p := ClosingCompletes(l, calls);
    }
    if p: nat :| CompletesProbe(l, calls, p) { CompletingCloses(l, calls, p); }
  }

  // The time of the last failure reported.
  function LastFailure(calls: seq<Call>): int {
    if calls == [] then 0 else
      var n := |calls| - 1;
      if calls[n].event.Failure? then calls[n].time else LastFailure(calls[..n])
  }

  lemma {:induction false} OpenSinceLastFailure(l: Limits, calls: seq<Call>)
    ensures Exec(l, calls).state.Open? ==> Exec(l, calls).lastFailureTime == LastFailure(calls)
  {
    if calls != [] { OpenSinceLastFailure(l, calls[..|calls| - 1]); }
  }

  function SuccessesAt(times: seq<int>): seq<Call> {
    seq(|times|, i requires 0 <= i < |times| => Call(Success, times[i]))
  }

  lemma ExecOne(l: Limits, calls: seq<Call>, call: Call)
    ensures Exec(l, calls + [call]) == Next(l, Exec(l, calls), call)
  {
    assert (calls + [call])[..|calls|] == calls;
  }

  lemma {:induction false} SuccessesCount(l: Limits, calls: seq<Call>, times: seq<int>)
    requires Exec(l, calls).state.HalfOpen? && Exec(l, calls).successCount == 0
    requires 0 < |times| <= l.successThreshold
    ensures var b := Exec(l, calls + SuccessesAt(times));
            && b.successCount == |times|
            && (if |times| < l.successThreshold then b.state.HalfOpen? else b.state.Closed? && b.failureCount == 0)
  {
    var front, last := times[..|times| - 1], Call(Success, times[|times| - 1]);
    assert SuccessesAt(times) == SuccessesAt(front) + [last];
    assert calls + SuccessesAt(times) == calls + SuccessesAt(front) + [last];
    ExecOne(l, calls + SuccessesAt(front), last);
    if front == [] {
      assert calls + SuccessesAt(front) == calls;
    } else {
      SuccessesCount(l, calls, front);
    }
  }

  /** The breaker recovers: whatever opened it, an operation asked for at least the timeout after the
      last failure is admitted, one asked for earlier is not, and successThreshold successes after it
      close the breaker, which then admits every operation. */
  lemma Recovers(l: Limits, calls: seq<Call>, now: int, times: seq<int>, later: int)
    requires Exec(l, calls).state.Open?
    ensures Admits(l, Exec(l, calls), now) <==> now - LastFailure(calls) >= l.timeout
    ensures now - LastFailure(calls) >= l.timeout && |times| == l.successThreshold >= 1 ==>
              var b := Exec(l, calls + [Call(Allow, now)] + SuccessesAt(times));
              b.state.Closed? && b.failureCount == 0 && Admits(l, b, later)
  {
    OpenSinceLastFailure(l, calls);
    ExecOne(l, calls, Call(Allow, now));
    if now - LastFailure(calls) >= l.timeout && |times| == l.successThreshold >= 1 {
      SuccessesCount(l, calls + [Call(Allow, now)], times);
    }
  }

  /** The breaker opens: failureThreshold failures without a success in between leave no breaker
      closed. */
  lemma OpensAfterEnoughFailures(l: Limits, calls: seq<Call>)
    requires l.failureThreshold >= 1 && l.successThreshold >= 1
    requires FailuresSinceSuccess(calls) >= l.failureThreshold
    ensures !Exec(l, calls).state.Closed?
    ensures calls[|calls| - 1].event.Failure? ==> Exec(l, calls).state.Open?
  {
    FailureCountIsHistory(l, calls);
  }

  // ----- the failure budget of sequential callers -----

  // One caller asks, and if admitted, reports a failure.
  datatype Attempt = Attempt(askedAt: int, failedAt: int)

  ghost predicate Sequential(attempts: seq<Attempt>) {
    && (forall i :: 0 <= i < |attempts| ==> attempts[i].askedAt <= attempts[i].failedAt)
    && (forall i, j :: 0 <= i < j < |attempts| ==> attempts[i].failedAt <= attempts[j].askedAt)
  }

  // The breaker after the attempts, and when the admitted ones failed.
  function FailAll(l: Limits, b: Breaker, attempts: seq<Attempt>): (Breaker, seq<int>) {
    if attempts == [] then (b, []) else
      var n := |attempts| - 1;
      var (b1, times) := FailAll(l, b, attempts[..n]);
      var b2 := Next(l, b1, Call(Allow, attempts[n].askedAt));
      if Admits(l, b1, attempts[n].askedAt) then
        (Next(l, b2, Call(Failure, attempts[n].failedAt)), times + [attempts[n].failedAt])
      else (b2, times)
  }

  // How many admitted failures it takes to open (again).
  function ToOpen(l: Limits, b: Breaker): int {
    if b.state.Closed? then l.failureThreshold - b.failureCount else 1
  }

  ghost predicate Ready(l: Limits, b: Breaker) {
    l.failureThreshold >= 1 && l.timeout > 0 && (b.state.Closed? ==> 0 <= b.failureCount < l.failureThreshold)
  }

  lemma {:induction false} FailuresSpread(l: Limits, b: Breaker, attempts: seq<Attempt>)
    requires Ready(l, b) && Sequential(attempts)
    ensures var (b', times) := FailAll(l, b, attempts);
            var k, c := |times|, ToOpen(l, b);
            && (k > 0 ==> times[0] <= times[k - 1] <= attempts[|attempts| - 1].failedAt)
            && (k < c ==> if b.state.Closed? then b'.state.Closed? && ToOpen(l, b') == c - k
                          else !b'.state.Closed?)
            && (k >= c ==> b'.state.Open? && b'.lastFailureTime == times[k - 1]
                           && times[k - 1] >= times[0] + (k - c) * l.timeout)
  {
    if attempts != [] {
      var n := |attempts| - 1;
      FailuresSpread(l, b, attempts[..n]);
      var (b1, times) := FailAll(l, b, attempts[..n]);
      OneMore(|times| - ToOpen(l, b), l.timeout);
    }
  }

  lemma ProductGrows(a: int, b: int, t: nat)
    ensures a <= b ==> a * t <= b * t
  {
  }

  lemma OneMore(n: int, t: int)
    ensures (n + 1) * t == n * t + t
  {
  }

  lemma BudgetOf(n: int, d: nat, t: nat)
    requires t > 0 && (n >= 0 ==> n * t <= d)
    ensures n <= d / t
  {
    var q := d / t;
    assert d < (q + 1) * t;
    ProductGrows(q + 1, n, t);
  }

  /** Whatever history came before, a run of k consecutive admitted failures that lasts D has
      k <= failureThreshold + floor(D / timeout). */
  lemma FailureBudget(l: Limits, before: seq<Call>, attempts: seq<Attempt>)
    requires l.failureThreshold >= 1 && l.timeout > 0 && Sequential(attempts)
    requires FailAll(l, Exec(l, before), attempts).1 != []
    ensures var b, times := Exec(l, before), FailAll(l, Exec(l, before), attempts).1;
            |times| <= ToOpen(l, b) + (times[|times| - 1] - times[0]) / l.timeout
            && ToOpen(l, b) <= l.failureThreshold
  {
    var b := Exec(l, before);
    CountersStayBounded(l, before);
    FailuresSpread(l, b, attempts);
    var times := FailAll(l, b, attempts).1;
    BudgetOf(|times| - ToOpen(l, b), times[|times| - 1] - times[0], l.timeout);
  }

  // failureThreshold failures at once, then one at every expiry of the timeout.
  function WorstCase(l: Limits, k: nat): seq<Attempt> {
    seq(k, i requires 0 <= i < k => var t := FailureTime(l, i); Attempt(t, t))
  }

  function FailureTime(l: Limits, i: nat): int {
    if i < l.failureThreshold then 0 else (i - l.failureThreshold + 1) * l.timeout
  }

  lemma FailureTimeStep(l: Limits, i: nat)
    requires i >= l.failureThreshold >= 1
    ensures FailureTime(l, i) == FailureTime(l, i - 1) + l.timeout
  {
  }

  lemma {:induction false} FailureTimesRise(l: Limits, i: nat, j: nat)
    requires l.failureThreshold >= 1 && l.timeout > 0 && i <= j
    ensures FailureTime(l, i) <= FailureTime(l, j)
    decreases j
  {
    if i < j {
      FailureTimesRise(l, i, j - 1);
      if j >= l.failureThreshold { FailureTimeStep(l, j); }
    }
  }

  lemma WorstCaseIsSequential(l: Limits, k: nat)
    requires l.failureThreshold >= 1 && l.timeout > 0
    ensures Sequential(WorstCase(l, k))
  {
    var w := WorstCase(l, k);
    forall i, j | 0 <= i < j < |w| ensures w[i].failedAt <= w[j].askedAt { FailureTimesRise(l, i, j); }
  }

  lemma TimesQuotient(n: nat, t: int)
    requires t > 0
    ensures n * t / t == n
  {
    var q := n * t / t;
    assert q * t <= n * t < (q + 1) * t;
    ProductGrows(n + 1, q, t);
    ProductGrows(q + 1, n, t);
    OneMore(n, t);
  }

  lemma {:induction false} WorstCaseFails(l: Limits, k: nat)
    requires l.failureThreshold >= 1 && l.timeout > 0
    ensures var (b, times) := FailAll(l, INITIAL, WorstCase(l, k));
            && |times| == k && (forall i :: 0 <= i < k ==> times[i] == FailureTime(l, i))
            && (if k < l.failureThreshold then b == INITIAL.(failureCount := k)
                else b.state.Open? && b.lastFailureTime == FailureTime(l, k - 1))
  {
    if k > 0 {
      WorstCaseFails(l, k - 1);
      assert WorstCase(l, k)[..k - 1] == WorstCase(l, k - 1);
      if k > l.failureThreshold { FailureTimeStep(l, k - 1); }
      var (b, times) := FailAll(l, INITIAL, WorstCase(l, k - 1));
      assert Admits(l, b, FailureTime(l, k - 1));
      assert FailAll(l, INITIAL, WorstCase(l, k)).1 == times + [FailureTime(l, k - 1)];
    }
  }

  /** The budget is exact: a sequential caller can fail any number of times from failureThreshold up
      within so short a time that the bound is reached. */
  lemma FailureBudgetIsTight(l: Limits, k: nat)
    requires l.failureThreshold >= 1 && l.timeout > 0
    ensures Sequential(WorstCase(l, k))
    ensures var times := FailAll(l, INITIAL, WorstCase(l, k)).1;
            && |times| == k && (forall i :: 0 <= i < k ==> times[i] == FailureTime(l, i))
            && (k >= l.failureThreshold ==>
                  |times| == l.failureThreshold + (times[k - 1] - times[0]) / l.timeout)
  {
    WorstCaseIsSequential(l, k);
    WorstCaseFails(l, k);
    if k >= l.failureThreshold { TimesQuotient(k - l.failureThreshold, l.timeout); }
  }
}
