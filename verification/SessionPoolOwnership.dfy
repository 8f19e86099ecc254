/** Who has a session of the pool: whoever it was given to, and nobody else until it is released. */
module SessionPoolOwnership {
  import opened Options
  import opened SessionPoolModel
  import opened SessionPoolSafety

  // ----- which session is given out -----

  // Among the entries that left the queue in the step, one was handed the session.
  ghost predicate HandsOut(before: seq<Departure>, after: seq<Departure>, x: nat) {
    exists i :: |before| <= i < |after| && after[i].outcome == Handed(x)
  }

  ghost predicate Answers(c: Config, s: Pool, step: Step, x: nat) {
    match step
    case BeginAcquire => Begin(c, s).1 == Acquired(x)
    case ResumeAcquire(ticket) => ticket in s.waiting && Resume(c, s, ticket).1 == Acquired(x)
    case _ => false
  }

  // The step gives session x to a caller or to a queued request.
  ghost predicate Gives(c: Config, s: Pool, step: Step, x: nat) {
    Answers(c, s, step, x) || HandsOut(s.departed, Next(c, s, step).departed, x)
  }

  /** A caller gets the session that has been idle longest, or one that never existed before. Nobody
      had it, and from now on it is active and not idle. */
  lemma AcquiredIsExclusive(c: Config, s: Pool, step: Step, x: nat)
    requires SessionsOk(c, s) && Answers(c, s, step, x)
    ensures x !in s.active && x !in s.dropped
    ensures if s.idle != [] then x == s.idle[0] else x == s.nextSession
    ensures var s' := Next(c, s, step);
            x in s'.active && x !in s'.idle && x !in s'.dropped
    ensures Next(c, s, step).active == s.active + {x}
  {
    assert Placed(s.idle, s.active, s.dropped, s.nextSession, x);
    NextKeepsSessions(c, s, step);
    var s' := Next(c, s, step);
    assert Placed(s'.idle, s'.active, s'.dropped, s'.nextSession, x);
  }

  // The session exists and cannot be given out: it is not idle.
  ghost predicate IsOut(s: Pool, x: nat) {
    x < s.nextSession && x !in s.idle
  }

  lemma DrainOneHands(c: Config, s: Pool, x: nat)
    requires SessionsOk(c, s) && s.queue != [] && s.idle != []
    ensures var s' := DrainOne(c, s);
            && SessionsOk(c, s') && s.departed <= s'.departed && |s'.departed| == |s.departed| + 1
            && (HandsOut(s.departed, s'.departed, x) ==> x in s.idle && IsOut(s', x))
            && (IsOut(s, x) ==> IsOut(s', x))
  {
    DrainOneKeepsSessions(c, s);
    assert s.idle == [s.idle[0]] + s.idle[1..];
    assert Placed(s.idle, s.active, s.dropped, s.nextSession, s.idle[0]);
  }

  lemma {:induction false} DrainHands(c: Config, s: Pool, x: nat)
    requires SessionsOk(c, s)
    ensures var s' := Drain(c, s);
            && s.departed <= s'.departed
            && (HandsOut(s.departed, s'.departed, x) ==> x in s.idle && IsOut(s', x))
            && (IsOut(s, x) ==> IsOut(s', x))
    decreases |s.queue|
  {
    if s.queue != [] && s.idle != [] {
      var s1 := DrainOne(c, s);
      DrainOneHands(c, s, x);
      DrainHands(c, s1, x);
      var s' := Drain(c, s1);
      if i :| |s.departed| <= i < |s'.departed| && s'.departed[i].outcome == Handed(x) {
        if i < |s1.departed| { assert s1.departed[i] == s'.departed[i]; }
      }
    }
  }

  lemma ReleaseHands(c: Config, s: Pool, session: Option<nat>, isIdle: bool, x: nat)
    requires SessionsOk(c, s)
    ensures var s' := Release(c, s, session, isIdle);
            && (HandsOut(s.departed, s'.departed, x) ==> x in s.idle || session == Some(x))
            && (HandsOut(s.departed, s'.departed, x) ==> IsOut(s', x))
            && (IsOut(s, x) && session != Some(x) ==> IsOut(s', x))
  {
    if session.Some? && !s.down && session.value in s.active {
      var y := session.value;
      ActiveToIdle(s.idle, s.active, s.dropped, s.nextSession, y);
      ActiveToDropped(s.idle, s.active, s.dropped, s.nextSession, y);
      DrainHands(c, BeforeDrain(s, y, isIdle), x);
    }
  }

  // Only acquiring and releasing give sessions out.
  lemma OthersHandNothing(c: Config, s: Pool, step: Step, x: nat)
    requires !step.ReleaseSession?
    ensures !HandsOut(s.departed, Next(c, s, step).departed, x)
  {
  }

  lemma GivenIsOut(c: Config, s: Pool, step: Step, x: nat)
    requires SessionsOk(c, s) && Gives(c, s, step, x)
    ensures IsOut(Next(c, s, step), x)
  {
    NextKeepsSessions(c, s, step);
    if Answers(c, s, step, x) {
      AcquiredIsExclusive(c, s, step, x);
      var s' := Next(c, s, step);
      assert Placed(s'.idle, s'.active, s'.dropped, s'.nextSession, x);
    } else if step.ReleaseSession? {
      ReleaseHands(c, s, step.session, step.isIdle, x);
    } else {
      OthersHandNothing(c, s, step, x);
    }
  }

  lemma OutIsNotGiven(c: Config, s: Pool, step: Step, x: nat)
    requires SessionsOk(c, s) && IsOut(s, x) && Gives(c, s, step, x)
    ensures step.ReleaseSession? && step.session == Some(x)
  {
    if Answers(c, s, step, x) {
      AcquiredIsExclusive(c, s, step, x);
    } else if step.ReleaseSession? {
      ReleaseHands(c, s, step.session, step.isIdle, x);
    } else {
      OthersHandNothing(c, s, step, x);
    }
  }

  lemma OutStaysOut(c: Config, s: Pool, step: Step, x: nat)
    requires SessionsOk(c, s) && IsOut(s, x) && !(step.ReleaseSession? && step.session == Some(x))
    ensures IsOut(Next(c, s, step), x)
  {
    match step
    case ReleaseSession(session, isIdle) => ReleaseHands(c, s, session, isIdle, x);
    case CleanupIdleSessions(lastActivity) =>
      FreshIsSubsequence(c, s.idle, lastActivity, s.tick + 1);
      assert x in Ids(Fresh(c, s.idle, lastActivity, s.tick + 1)) ==> x in Ids(s.idle);
    case BeginAcquire =>
    case ResumeAcquire(_) =>
    case ShutdownPool =>
    case ResetStats =>
  }

  ghost predicate GivesAt(c: Config, steps: seq<Step>, i: nat, x: nat) {
    i < |steps| && Gives(c, Exec(c, Init(), steps[..i]), steps[i], x)
  }

  lemma RunStep(c: Config, steps: seq<Step>, j: nat)
    requires j < |steps|
    ensures Exec(c, Init(), steps[..j + 1]) == Next(c, Exec(c, Init(), steps[..j]), steps[j])
    ensures SessionsOk(c, Exec(c, Init(), steps[..j]))
  {
    EveryRunIsSafe(c, steps[..j]);
    assert steps[..j + 1] == steps[..j] + [steps[j]];
    ExecStep(c, Init(), steps[..j], steps[j]);
  }

  predicate Releases(step: Step, x: nat) {
    step.ReleaseSession? && step.session == Some(x)
  }

  lemma GivenAtIsOut(c: Config, steps: seq<Step>, i: nat, x: nat)
    requires GivesAt(c, steps, i, x)
    ensures IsOut(Exec(c, Init(), steps[..i + 1]), x)
  {
    RunStep(c, steps, i);
    GivenIsOut(c, Exec(c, Init(), steps[..i]), steps[i], x);
  }

  lemma OutAtStaysOut(c: Config, steps: seq<Step>, j: nat, x: nat)
    requires j < |steps| && IsOut(Exec(c, Init(), steps[..j]), x) && !Releases(steps[j], x)
    ensures IsOut(Exec(c, Init(), steps[..j + 1]), x)
  {
    RunStep(c, steps, j);
    OutStaysOut(c, Exec(c, Init(), steps[..j]), steps[j], x);
  }

  lemma OutIsNotGivenAt(c: Config, steps: seq<Step>, j: nat, x: nat)
    requires GivesAt(c, steps, j, x) && IsOut(Exec(c, Init(), steps[..j]), x)
    ensures Releases(steps[j], x)
  {
    RunStep(c, steps, j);
    OutIsNotGiven(c, Exec(c, Init(), steps[..j]), steps[j], x);
  }

  lemma {:induction false} OutUntilReleased(c: Config, steps: seq<Step>, i: nat, j: nat, x: nat)
    requires i <= j < |steps| && IsOut(Exec(c, Init(), steps[..i + 1]), x)
    requires forall k :: i < k < j + 1 ==> !Releases(steps[k], x)
    ensures IsOut(Exec(c, Init(), steps[..j + 1]), x)
    decreases j
  {
    if i < j {
      OutUntilReleased(c, steps, i, j - 1, x);
      OutAtStaysOut(c, steps, j, x);
    }
  }

  /** A session has one owner at a time: if two steps of a run give it out, to a caller or to a queued
      request, it was released in between, at the latest by the second of them. */
  lemma OneOwnerAtATime(c: Config, steps: seq<Step>, i: nat, j: nat, x: nat)
    requires i < j && GivesAt(c, steps, i, x) && GivesAt(c, steps, j, x)
    ensures exists k :: i < k <= j && Releases(steps[k], x)
  {
    GivenAtIsOut(c, steps, i, x);
    if !Releases(steps[j], x) {
      if forall k :: i < k < j ==> !Releases(steps[k], x) {
        OutUntilReleased(c, steps, i, j - 1, x);
        OutIsNotGivenAt(c, steps, j, x);
        assert false;
      }
    }
  }

  // ----- where a released session goes -----

  lemma DrainKeepsDropped(c: Config, s: Pool)
    ensures s.dropped <= Drain(c, s).dropped
    decreases |s.queue|
  {
    if s.queue != [] && s.idle != [] { DrainKeepsDropped(c, DrainOne(c, s)); }
  }

  lemma NextKeepsDropped(c: Config, s: Pool, step: Step)
    ensures s.dropped <= Next(c, s, step).dropped
  {
    if step.ReleaseSession? && step.session.Some? && !s.down && step.session.value in s.active {
      DrainKeepsDropped(c, BeforeDrain(s, step.session.value, step.isIdle));
    }
  }

  lemma {:induction false} DroppedForever(c: Config, before: seq<Step>, after: seq<Step>, x: nat)
    requires x in Exec(c, Init(), before).dropped
    ensures x in Exec(c, Init(), before + after).dropped
  {
    if after == [] {
      assert before + after == before;
    } else {
      var front, step := after[..|after| - 1], after[|after| - 1];
      DroppedForever(c, before, front, x);
      assert before + after == before + front + [step];
      ExecStep(c, Init(), before + front, step);
      NextKeepsDropped(c, Exec(c, Init(), before + front), step);
    }
  }

  lemma DroppedIsGone(c: Config, steps: seq<Step>, x: nat, step: Step)
    requires x in Exec(c, Init(), steps).dropped
    ensures var s := Exec(c, Init(), steps);
            x !in s.active && x !in s.idle && !Gives(c, s, step, x)
  {
    var s := Exec(c, Init(), steps);
    EveryRunIsSafe(c, steps);
    assert Placed(s.idle, s.active, s.dropped, s.nextSession, x);
    if Answers(c, s, step, x) { AcquiredIsExclusive(c, s, step, x); }
    if HandsOut(s.departed, Next(c, s, step).departed, x) {
      if step.ReleaseSession? {
        ReleaseHands(c, s, step.session, step.isIdle, x);
      } else {
        OthersHandNothing(c, s, step, x);
      }
    }
  }

  lemma UnusableIsDropped(c: Config, s: Pool, x: nat)
    requires x in s.active
    ensures x in Release(c, s, Some(x), false).dropped
  {
    if !s.down { DrainKeepsDropped(c, BeforeDrain(s, x, false)); }
  }

  /** A session released while it is not usable never comes back: not to the idle queue, not to a
      caller, not to a queued request, whatever happens later. */
  lemma UnusableNeverReturns(c: Config, before: seq<Step>, x: nat, after: seq<Step>, step: Step)
    requires x in Exec(c, Init(), before).active
    ensures var s := Exec(c, Init(), before + [ReleaseSession(Some(x), false)] + after);
            x in s.dropped && x !in s.active && x !in s.idle && !Gives(c, s, step, x)
  {
    var release := ReleaseSession(Some(x), false);
    ExecStep(c, Init(), before, release);
    UnusableIsDropped(c, Exec(c, Init(), before), x);
    DroppedForever(c, before + [release], after, x);
    DroppedIsGone(c, before + [release] + after, x, step);
  }

  // A request whose session failed to start was given x in the step.
  ghost predicate FailedToRun(c: Config, before: seq<Departure>, after: seq<Departure>, x: nat) {
    exists i :: |before| <= i < |after| && after[i].outcome == Handed(x) && c.runThrows(after[i].ticket)
  }

  lemma DrainOneDrops(c: Config, s: Pool, x: nat)
    requires s.queue != [] && s.idle != [] && x !in s.dropped && x in DrainOne(c, s).dropped
    ensures FailedToRun(c, s.departed, DrainOne(c, s).departed, x)
  {
    var d := DrainOne(c, s).departed;
    assert d[|s.departed|].outcome == Handed(x) && c.runThrows(d[|s.departed|].ticket);
  }

  lemma {:induction false} DrainDropsOnlyFailures(c: Config, s: Pool, x: nat)
    requires SessionsOk(c, s) && x !in s.dropped && x in Drain(c, s).dropped
    ensures FailedToRun(c, s.departed, Drain(c, s).departed, x)
    decreases |s.queue|
  {
    var s1, s' := DrainOne(c, s), Drain(c, s);
    DrainOneHands(c, s, x);
    DrainHands(c, s1, x);
    if x in s1.dropped {
      DrainOneDrops(c, s, x);
      var i :| |s.departed| <= i < |s1.departed| && s1.departed[i].outcome == Handed(x)
               && c.runThrows(s1.departed[i].ticket);
      assert s'.departed[i] == s1.departed[i];
    } else {
      DrainDropsOnlyFailures(c, s1, x);
    }
  }

  lemma {:induction false} DrainKeepsActive(c: Config, s: Pool, x: nat)
    requires SessionsOk(c, s) && x in s.active
    ensures x in Drain(c, s).active
    decreases |s.queue|
  {
    if s.queue != [] && s.idle != [] {
      DrainOneHands(c, s, x);
      assert Placed(s.idle, s.active, s.dropped, s.nextSession, s.idle[0]);
      DrainKeepsActive(c, DrainOne(c, s), x);
    }
  }

  lemma DrainOneStarts(c: Config, s: Pool)
    requires SessionsOk(c, s) && s.queue != [] && s.idle != []
    ensures var s', d := DrainOne(c, s), DrainOne(c, s).departed[|s.departed|];
            d.outcome.Handed? ==>
              var x := d.outcome.session;
              x in s.idle && if c.runThrows(d.ticket) then x in s'.dropped else x in s'.active
  {
  }

  /** A queued request that is handed a session keeps it, unless starting it fails: then the session is
      dropped. */
  lemma {:induction false} HandedIsStarted(c: Config, s: Pool, i: nat)
    requires SessionsOk(c, s) && |s.departed| <= i < |Drain(c, s).departed|
    requires Drain(c, s).departed[i].outcome.Handed?
    ensures var s', d := Drain(c, s), Drain(c, s).departed[i];
            var x := d.outcome.session;
            if c.runThrows(d.ticket) then x in s'.dropped && x !in s'.active else x in s'.active && x !in s'.dropped
    decreases |s.queue|
  {
    var s1, s' := DrainOne(c, s), Drain(c, s);
    var d := s'.departed[i];
    DrainOneKeepsSessions(c, s);
    DrainKeepsSessions(c, s);
    assert Placed(s'.idle, s'.active, s'.dropped, s'.nextSession, d.outcome.session);
    DrainHands(c, s1, d.outcome.session);
    if i == |s.departed| {
      assert s1.departed[i] == d;
      DrainOneStarts(c, s);
      if c.runThrows(d.ticket) {
        DrainKeepsDropped(c, s1);
      } else {
        DrainKeepsActive(c, s1, d.outcome.session);
      }
    } else {
      HandedIsStarted(c, s1, i);
    }
  }

  /** A session released while usable goes back to the idle queue or straight to a queued request; it
      is let go of only if that request failed to start. */
  lemma UsableStays(c: Config, s: Pool, x: nat)
    requires SessionsOk(c, s) && !s.down && x in s.active
    ensures var s' := Release(c, s, Some(x), true);
            && (x in s'.idle || x in s'.active || x in s'.dropped)
            && (x in s'.dropped ==> FailedToRun(c, s.departed, s'.departed, x))
            && (s.queue == [] ==> s'.idle == s.idle + [x])
  {
    var s1 := BeforeDrain(s, x, true);
    ActiveToIdle(s.idle, s.active, s.dropped, s.nextSession, x);
    assert Placed(s.idle, s.active, s.dropped, s.nextSession, x);
    ReleaseKeepsSessions(c, s, Some(x), true);
    var s' := Release(c, s, Some(x), true);
    DrainKeepsNextSession(c, s1);
    assert Placed(s'.idle, s'.active, s'.dropped, s'.nextSession, x);
    if x in s'.dropped { DrainDropsOnlyFailures(c, s1, x); }
  }

  lemma {:induction false} DrainKeepsNextSession(c: Config, s: Pool)
    ensures Drain(c, s).nextSession == s.nextSession
    decreases |s.queue|
  {
    if s.queue != [] && s.idle != [] { DrainKeepsNextSession(c, DrainOne(c, s)); }
  }

  // ----- after shutdown -----

  /** Once `shutdown` has run, no later step gives a session out, and every thread that asks, or that
      was waiting, is told that the pool is shutting down. */
  lemma NothingAfterShutdown(c: Config, before: seq<Step>, after: seq<Step>, step: Step, x: nat, ticket: nat)
    ensures var s := Exec(c, Init(), before + [ShutdownPool] + after);
            && s.down && s.active == {} && s.idle == []
            && !Gives(c, s, step, x)
            && Begin(c, s).1 == ShuttingDown
            && (ticket in s.waiting ==> Resume(c, s, ticket).1 == ShuttingDown)
  {
    ExecStep(c, Init(), before, ShutdownPool);
    ShutdownIsFinal(c, before + [ShutdownPool], after);
    var s := Exec(c, Init(), before + [ShutdownPool] + after);
    if HandsOut(s.departed, Next(c, s, step).departed, x) && !step.ReleaseSession? {
      OthersHandNothing(c, s, step, x);
    }
  }
}
