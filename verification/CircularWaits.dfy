/** When threads that lock in the order of include/lock_utils.hpp can deadlock.

    The detector admits a second lock of the same level, so it does not prevent circular waits by
    itself: what it leaves to its callers is stated and proved exactly by CircularWaitExactly, both
    for shared mutexes that let waiting writers go first and for those that do not. */
module CircularWaits {
  import opened LockOrdering

  // u keeps t from being granted what it wants.
  ghost predicate WaitsFor(r: Rules, s: Threads, t: nat, u: nat) {
    IsBlocked(s, t) && Bars(r, Of(s, u), Want(s, t))
  }

  // Each thread of the chain waits for the next.
  ghost predicate Chain(r: Rules, s: Threads, path: seq<nat>) {
    path != [] && forall i :: 0 <= i < |path| - 1 ==> WaitsFor(r, s, path[i], path[i + 1])
  }

  // A circular wait: none of its threads can be granted what it wants.
  ghost predicate ClosedChain(r: Rules, s: Threads, path: seq<nat>) {
    |path| > 1 && Chain(r, s, path) && path[0] == path[|path| - 1]
  }

  ghost predicate CanMove(r: Rules, s: Threads, t: nat) {
    IsBlocked(s, t) ==> Grantable(r, s, Want(s, t))
  }

  lemma ClosedChainIsStuck(r: Rules, s: Threads, path: seq<nat>, i: nat)
    requires ClosedChain(r, s, path) && i < |path|
    ensures IsBlocked(s, path[i]) && !Grantable(r, s, Want(s, path[i]))
  {
    var k := if i < |path| - 1 then i else 0;
    assert WaitsFor(r, s, path[k], path[k + 1]);
  }

  lemma ChainStep(r: Rules, s: Threads, path: seq<nat>, u: nat)
    requires Chain(r, s, path) && WaitsFor(r, s, path[|path| - 1], u)
    ensures Chain(r, s, path + [u])
  {
    var path' := path + [u];
    forall k | 0 <= k < |path'| - 1 ensures WaitsFor(r, s, path'[k], path'[k + 1]) {
      if k < |path| - 1 { assert WaitsFor(r, s, path[k], path[k + 1]); }
    }
  }

  // ----- a circular wait comes from a cycle of nestings -----

  lemma WaitingNeverDescends(r: Rules, uses: iset<Nesting>, s: Threads, t: nat, u: nat)
    requires Inv(r, uses, s) && WaitsFor(r, s, t, u) && IsBlocked(s, u)
    ensures r.level(Want(s, t).mutex) <= r.level(Want(s, u).mutex)
  {
    assert ThreadOk(r, uses, Of(s, u));
  }

  lemma {:induction false} NeverFalls(xs: seq<int>, i: nat, j: nat)
    requires i <= j < |xs| && forall k :: 0 <= k < |xs| - 1 ==> xs[k] <= xs[k + 1]
    ensures xs[i] <= xs[j]
    decreases j
  {
    if i < j {
      NeverFalls(xs, i, j - 1);
      assert xs[j - 1] <= xs[j - 1 + 1];
    }
  }

  lemma ChainIsBlocked(r: Rules, s: Threads, path: seq<nat>, i: nat)
    requires Chain(r, s, path) && i < |path| && (i == |path| - 1 ==> IsBlocked(s, path[i]))
    ensures IsBlocked(s, path[i])
  {
    if i < |path| - 1 { assert WaitsFor(r, s, path[i], path[i + 1]); }
  }

  ghost predicate AllBlocked(s: Threads, path: seq<nat>) {
    forall i :: 0 <= i < |path| ==> IsBlocked(s, path[i])
  }

  lemma ChainAllBlocked(r: Rules, s: Threads, path: seq<nat>)
    requires Chain(r, s, path) && IsBlocked(s, path[|path| - 1])
    ensures AllBlocked(s, path)
  {
    forall i | 0 <= i < |path| ensures IsBlocked(s, path[i]) { ChainIsBlocked(r, s, path, i); }
  }

  ghost function Levels(r: Rules, s: Threads, path: seq<nat>): seq<int>
    requires AllBlocked(s, path)
  {
    seq(|path|, i requires 0 <= i < |path| => r.level(Want(s, path[i]).mutex))
  }

  lemma LevelsRise(r: Rules, uses: iset<Nesting>, s: Threads, path: seq<nat>, k: nat)
    requires Inv(r, uses, s) && Chain(r, s, path) && AllBlocked(s, path) && k < |path| - 1
    ensures Levels(r, s, path)[k] <= Levels(r, s, path)[k + 1]
  {
    assert IsBlocked(s, path[k]) && IsBlocked(s, path[k + 1]);
    WaitingNeverDescends(r, uses, s, path[k], path[k + 1]);
  }

  ghost predicate OnLevel(r: Rules, s: Threads, t: nat, l: Level) {
    IsBlocked(s, t) && r.level(Want(s, t).mutex) == l
  }

  // Around a closed chain, what is wanted neither rises nor falls.
  lemma ClosedChainIsLevel(r: Rules, uses: iset<Nesting>, s: Threads, path: seq<nat>) returns (l: Level)
    requires Inv(r, uses, s) && ClosedChain(r, s, path)
    ensures forall i :: 0 <= i < |path| ==> OnLevel(r, s, path[i], l)
  {
    ChainIsBlocked(r, s, path, 0);
    ChainAllBlocked(r, s, path);
    var ls := Levels(r, s, path);
    forall k | 0 <= k < |ls| - 1 ensures ls[k] <= ls[k + 1] { LevelsRise(r, uses, s, path, k); }
    l := r.level(Want(s, path[0]).mutex);
    forall i | 0 <= i < |path| ensures ls[i] == l {
      NeverFalls(ls, 0, i);
      NeverFalls(ls, i, |path| - 1);
    }
    forall i | 0 <= i < |path| ensures OnLevel(r, s, path[i], l) {
      assert ls[i] == l && IsBlocked(s, path[i]);
    }
  }

  /** All threads of a circular wait want mutexes of one level, unless callers take a lock twice that
      is not of the lowest level. */
  lemma CircularWaitStaysOnOneLevel(r: Rules, uses: iset<Nesting>, steps: seq<Step>, path: seq<nat>)
    returns (l: Level)
    requires NeverDescends(r, uses) && Follows(r, uses, steps) && ClosedChain(r, Exec(r, map[], steps), path)
    ensures forall i :: 0 <= i < |path| ==> OnLevel(r, Exec(r, map[], steps), path[i], l)
  {
    EveryRunKeepsInv(r, uses, steps);
    l := ClosedChainIsLevel(r, uses, Exec(r, map[], steps), path);
  }

  // Holding h keeps others from getting w, at least while a writer waits that goes first.
  ghost predicate Links(r: Rules, w: Lock, h: Lock) {
    w.mutex == h.mutex && (r.writersFirst || Conflict(w, h))
  }

  ghost predicate Linked(r: Rules, ps: seq<Nesting>) {
    forall i :: 0 <= i < |ps| - 1 ==> Links(r, ps[i].wanted, ps[i + 1].held)
  }

  ghost predicate Usable(r: Rules, uses: iset<Nesting>, p: Nesting) {
    p in uses && r.level(p.held.mutex) == r.level(p.wanted.mutex)
  }

  // Nestings on one level, each of which wants what the next one holds, in a circle.
  ghost predicate NestingCycle(r: Rules, uses: iset<Nesting>, ps: seq<Nesting>) {
    && ps != [] && Linked(r, ps) && Links(r, ps[|ps| - 1].wanted, ps[0].held)
    && forall i :: 0 <= i < |ps| ==> Usable(r, uses, ps[i])
  }

  // The nesting behind one wait; there is none if a reader waits for a writer that goes first.
  lemma NestingOfWait(r: Rules, uses: iset<Nesting>, s: Threads, t: nat, u: nat, l: Level)
    returns (p: seq<Nesting>)
    requires Inv(r, uses, s) && WaitsFor(r, s, t, u) && OnLevel(r, s, t, l) && OnLevel(r, s, u, l)
    ensures if p == [] then
              r.writersFirst && Want(s, t).mode.Shared? && Want(s, u) == Lock(Want(s, t).mutex, Exclusive)
            else
              |p| == 1 && Usable(r, uses, p[0]) && Links(r, Want(s, t), p[0].held) && p[0].wanted == Want(s, u)
  {
    p := [];
    if h :| h in Of(s, u).held && Conflict(Want(s, t), h) {
      assert ThreadOk(r, uses, Of(s, u));
      p := [Nesting(h, Want(s, u))];
    }
  }

  lemma LinkedStep(r: Rules, p: Nesting, ps: seq<Nesting>)
    requires Linked(r, ps) && (ps != [] ==> Links(r, p.wanted, ps[0].held))
    ensures Linked(r, [p] + ps)
  {
    var qs := [p] + ps;
    forall i | 0 <= i < |qs| - 1 ensures Links(r, qs[i].wanted, qs[i + 1].held) {
      if i > 0 { assert Links(r, ps[i - 1].wanted, ps[i - 1 + 1].held); }
    }
  }

  // The wanted lock at one end of a chain of waits, and what the nestings read off it end with.
  ghost predicate EndsWith(r: Rules, ps: seq<Nesting>, last: Lock)
    requires ps != []
  {
    ps[|ps| - 1].wanted == last || (r.writersFirst && ps[|ps| - 1].wanted.mutex == last.mutex)
  }

  // Reads the nestings off the rest of a chain of waits on one level. There are none only if a
  // reader waits for a writer there and for nobody else.
  lemma {:induction false} NestingsOfChain(r: Rules, uses: iset<Nesting>, s: Threads, path: seq<nat>, l: Level, i: nat)
    returns (ps: seq<Nesting>)
    requires Inv(r, uses, s) && Chain(r, s, path) && i < |path|
    requires forall k :: 0 <= k < |path| ==> OnLevel(r, s, path[k], l)
    ensures Linked(r, ps) && forall k :: 0 <= k < |ps| ==> Usable(r, uses, ps[k])
    ensures OnLevel(r, s, path[i], l) && OnLevel(r, s, path[|path| - 1], l)
    ensures var first, last := Want(s, path[i]), Want(s, path[|path| - 1]);
            if ps != [] then
              Links(r, first, ps[0].held) && EndsWith(r, ps, last)
            else
              i == |path| - 1
              || (r.writersFirst && first.mode.Shared? && last.mode.Exclusive? && first.mutex == last.mutex)
    decreases |path| - i
  {
    ps := [];
    assert OnLevel(r, s, path[i], l) && OnLevel(r, s, path[|path| - 1], l);
    if i < |path| - 1 {
      assert WaitsFor(r, s, path[i], path[i + 1]) && OnLevel(r, s, path[i + 1], l);
      var p := NestingOfWait(r, uses, s, path[i], path[i + 1], l);
      ps := NestingsOfChain(r, uses, s, path, l, i + 1);
      if p != [] {
        LinkedStep(r, p[0], ps);
        ps := p + ps;
      }
    }
  }

  lemma NestingsOfCircularWait(r: Rules, uses: iset<Nesting>, steps: seq<Step>, path: seq<nat>)
    returns (ps: seq<Nesting>)
    requires NeverDescends(r, uses) && Follows(r, uses, steps) && ClosedChain(r, Exec(r, map[], steps), path)
    ensures NestingCycle(r, uses, ps)
  {
    var s := Exec(r, map[], steps);
    EveryRunKeepsInv(r, uses, steps);
    var l := ClosedChainIsLevel(r, uses, s, path);
    ps := NestingsOfChain(r, uses, s, path, l, 0);
  }

  // ----- a cycle of nestings gives a circular wait -----

  // All first locks can be held at the same time.
  ghost predicate Compatible(ps: seq<Nesting>) {
    forall i, j :: 0 <= i < j < |ps| ==> !Conflict(ps[i].held, ps[j].held)
  }

  lemma InnerPart(r: Rules, uses: iset<Nesting>, ps: seq<Nesting>, i: nat, j: nat)
    requires NestingCycle(r, uses, ps) && i < j < |ps| && ps[i].held.mutex == ps[j].held.mutex
    requires r.writersFirst || ps[i].held.mode.Exclusive?
    ensures NestingCycle(r, uses, ps[i..j])
  {
    var qs := ps[i..j];
    forall k | 0 <= k < |qs| - 1 ensures Links(r, qs[k].wanted, qs[k + 1].held) {
      assert Links(r, ps[i + k].wanted, ps[i + k + 1].held);
    }
    assert Links(r, ps[j - 1].wanted, ps[j - 1 + 1].held);
  }

  lemma OuterPart(r: Rules, uses: iset<Nesting>, ps: seq<Nesting>, i: nat, j: nat)
    requires NestingCycle(r, uses, ps) && i < j < |ps| && ps[i].held.mutex == ps[j].held.mutex
    requires r.writersFirst || ps[j].held.mode.Exclusive?
    ensures NestingCycle(r, uses, ps[..i] + ps[j..])
  {
    var qs := ps[..i] + ps[j..];
    forall k | 0 <= k < |qs| - 1 ensures Links(r, qs[k].wanted, qs[k + 1].held) {
      if k + 1 <= i {
        assert Links(r, ps[k].wanted, ps[k + 1].held);
      } else {
        assert Links(r, ps[k - i + j].wanted, ps[k - i + j + 1].held);
      }
    }
  }

  lemma {:induction false} SimpleCycle(r: Rules, uses: iset<Nesting>, ps: seq<Nesting>) returns (qs: seq<Nesting>)
    requires NestingCycle(r, uses, ps)
    ensures NestingCycle(r, uses, qs) && Compatible(qs)
    decreases |ps|
  {
    if Compatible(ps) { return ps; }
    var i, j :| 0 <= i < j < |ps| && Conflict(ps[i].held, ps[j].held);
    if ps[i].held.mode.Exclusive? {
      InnerPart(r, uses, ps, i, j);
      qs := SimpleCycle(r, uses, ps[i..j]);
    } else {
      OuterPart(r, uses, ps, i, j);
      qs := SimpleCycle(r, uses, ps[..i] + ps[j..]);
    }
  }

  // ----- runs of threads that lock one or two mutexes -----

  function Holding(h: Lock): Thread {
    Thread(Running, multiset{h}, multiset{h})
  }

  function Waiting(held: multiset<Lock>, w: Lock): Thread {
    Thread(Blocked(w), held + multiset{w}, held)
  }

  // A run that goes on with a step of thread t and leaves it as `th`.
  ghost predicate GoesOn(r: Rules, uses: iset<Nesting>, steps: seq<Step>, step: Step, th: Thread) {
    && Follows(r, uses, steps + [step])
    && Exec(r, map[], steps + [step]) == Exec(r, map[], steps)[step.thread := th]
  }

  lemma TakeStep(r: Rules, uses: iset<Nesting>, steps: seq<Step>, step: Step)
    requires Follows(r, uses, steps) && Enabled(r, Exec(r, map[], steps), step)
    requires StepFollows(r, uses, Exec(r, map[], steps), step)
    ensures GoesOn(r, uses, steps, step, After(r, Of(Exec(r, map[], steps), step.thread), step))
  {
    assert (steps + [step])[..|steps|] == steps;
    ExecStep(r, map[], steps, step);
  }

  lemma AskFirst(r: Rules, uses: iset<Nesting>, steps: seq<Step>, t: nat, a: Lock)
    requires Follows(r, uses, steps) && Of(Exec(r, map[], steps), t) == IDLE
    ensures GoesOn(r, uses, steps, Register(t, a), Waiting(multiset{}, a))
  {
    TakeStep(r, uses, steps, Register(t, a));
    assert multiset{} + multiset{a} == multiset{a};
  }

  lemma StillGrantable(r: Rules, s: Threads, t: nat, a: Lock)
    requires Grantable(r, s, a)
    ensures Grantable(r, s[t := Waiting(multiset{}, a)], a)
  {
  }

  // An idle thread takes a free lock.
  lemma TakeOne(r: Rules, uses: iset<Nesting>, steps: seq<Step>, t: nat, a: Lock) returns (steps': seq<Step>)
    requires Follows(r, uses, steps) && Of(Exec(r, map[], steps), t) == IDLE
    requires Grantable(r, Exec(r, map[], steps), a)
    ensures Follows(r, uses, steps') && Exec(r, map[], steps') == Exec(r, map[], steps)[t := Holding(a)]
  {
    AskFirst(r, uses, steps, t, a);
    StillGrantable(r, Exec(r, map[], steps), t, a);
    steps' := steps + [Register(t, a)];
    TakeStep(r, uses, steps', Acquire(t));
    assert multiset{} + multiset{a} == multiset{a};
    steps' := steps' + [Acquire(t)];
  }

  lemma AskSecond(r: Rules, uses: iset<Nesting>, steps: seq<Step>, t: nat, h: Lock, w: Lock)
    requires Follows(r, uses, steps) && Of(Exec(r, map[], steps), t) == Holding(h)
    requires r.level(h.mutex) <= r.level(w.mutex)
    requires r.level(h.mutex) == r.level(w.mutex) ==> Nesting(h, w) in uses
    ensures GoesOn(r, uses, steps, Register(t, w), Waiting(multiset{h}, w))
  {
    TakeStep(r, uses, steps, Register(t, w));
  }

  // ----- the run that closes a cycle of nestings -----

  function Writer(p: Nesting): Lock {
    Lock(p.wanted.mutex, Exclusive)
  }

  // One thread for each nesting, and one that wants to write what the nesting wants: so far
  // `holding` of the former hold their first lock, `writers` of the latter wait, and `blocked`
  // of the former want their second lock.
  datatype Progress = Progress(holding: nat, writers: nat, blocked: nat)

  predicate Within(g: Progress, n: nat) {
    g.blocked <= g.holding <= n && g.writers <= n
  }

  function Actor(ps: seq<Nesting>, g: Progress, t: nat): Thread
    requires Within(g, |ps|)
  {
    if t < g.blocked then Waiting(multiset{ps[t].held}, ps[t].wanted)
    else if t < g.holding then Holding(ps[t].held)
    else if |ps| <= t < |ps| + g.writers then Waiting(multiset{}, Writer(ps[t - |ps|]))
    else IDLE
  }

  ghost predicate Staged(s: Threads, ps: seq<Nesting>, g: Progress)
    requires Within(g, |ps|)
  {
    forall t: nat :: Of(s, t) == Actor(ps, g, t)
  }

  // One more actor has moved.
  lemma StageGrows(s: Threads, ps: seq<Nesting>, g: Progress, t: nat, g': Progress)
    requires Within(g, |ps|) && Within(g', |ps|) && Staged(s, ps, g)
    requires forall u: nat :: u != t ==> Actor(ps, g', u) == Actor(ps, g, u)
    ensures Staged(s[t := Actor(ps, g', t)], ps, g')
    ensures Of(s, t) == Actor(ps, g, t)
  {
    var s' := s[t := Actor(ps, g', t)];
    forall u: nat ensures Of(s', u) == Actor(ps, g', u) {
      assert Of(s, u) == Actor(ps, g, u);
    }
  }

  lemma FreeMutex(r: Rules, s: Threads, ps: seq<Nesting>, k: nat)
    requires Compatible(ps) && k < |ps| && Staged(s, ps, Progress(k, 0, 0))
    ensures Grantable(r, s, ps[k].held)
  {
    forall t | t in s ensures !Bars(r, s[t], ps[k].held) {
      assert Of(s, t) == Actor(ps, Progress(k, 0, 0), t);
      if t < k { assert !Conflict(ps[t].held, ps[k].held); }
    }
  }

  lemma {:induction false} ReachHolding(r: Rules, uses: iset<Nesting>, ps: seq<Nesting>, k: nat)
    returns (steps: seq<Step>)
    requires Compatible(ps) && k <= |ps|
    ensures Follows(r, uses, steps) && Staged(Exec(r, map[], steps), ps, Progress(k, 0, 0))
  {
    steps := [];
    if k > 0 {
      var t, g, g' := k - 1, Progress(k - 1, 0, 0), Progress(k, 0, 0);
      steps := ReachHolding(r, uses, ps, t);
      assert Actor(ps, g, t) == IDLE && Actor(ps, g', t) == Holding(ps[t].held);
      StageGrows(Exec(r, map[], steps), ps, g, t, g');
      FreeMutex(r, Exec(r, map[], steps), ps, t);
      steps := TakeOne(r, uses, steps, t, ps[t].held);
    }
  }

  lemma {:induction false} ReachWriters(r: Rules, uses: iset<Nesting>, ps: seq<Nesting>, k: nat)
    returns (steps: seq<Step>)
    requires Compatible(ps) && k <= |ps|
    ensures Follows(r, uses, steps) && Staged(Exec(r, map[], steps), ps, Progress(|ps|, k, 0))
  {
    if k == 0 {
      steps := ReachHolding(r, uses, ps, |ps|);
    } else {
      var t, g, g' := |ps| + (k - 1), Progress(|ps|, k - 1, 0), Progress(|ps|, k, 0);
      steps := ReachWriters(r, uses, ps, k - 1);
      assert Actor(ps, g, t) == IDLE && Actor(ps, g', t) == Waiting(multiset{}, Writer(ps[k - 1]));
      StageGrows(Exec(r, map[], steps), ps, g, t, g');
      AskFirst(r, uses, steps, t, Writer(ps[k - 1]));
      steps := steps + [Register(t, Writer(ps[k - 1]))];
    }
  }

  lemma {:induction false} ReachBlocked(r: Rules, uses: iset<Nesting>, ps: seq<Nesting>, k: nat)
    returns (steps: seq<Step>)
    requires Compatible(ps) && k <= |ps|
    requires forall i :: 0 <= i < |ps| ==> Usable(r, uses, ps[i])
    ensures Follows(r, uses, steps) && Staged(Exec(r, map[], steps), ps, Progress(|ps|, |ps|, k))
  {
    if k == 0 {
      steps := ReachWriters(r, uses, ps, |ps|);
    } else {
      var p := ps[k - 1];
      assert Usable(r, uses, p) && p == Nesting(p.held, p.wanted);
      steps := ReachBlocked(r, uses, ps, k - 1);
      StageGrows(Exec(r, map[], steps), ps, Progress(|ps|, |ps|, k - 1), k - 1, Progress(|ps|, |ps|, k));
      AskSecond(r, uses, steps, k - 1, p.held, p.wanted);
      steps := steps + [Register(k - 1, p.wanted)];
    }
  }

  // All actors have moved: nesting i waits for j, or for its writer, which waits for j.
  ghost predicate AllStaged(s: Threads, ps: seq<Nesting>) {
    Staged(s, ps, Progress(|ps|, |ps|, |ps|))
  }

  lemma HolderBars(r: Rules, th: Thread, h: Lock, a: Lock)
    requires h in th.held && Conflict(a, h)
    ensures Bars(r, th, a)
  {
  }

  // From the thread of nesting i to that of nesting j, perhaps over the writer of nesting i.
  ghost predicate WaitsOn(r: Rules, s: Threads, n: nat, i: nat, j: nat) {
    WaitsFor(r, s, i, j) || (WaitsFor(r, s, i, n + i) && WaitsFor(r, s, n + i, j))
  }

  lemma StageWaits(r: Rules, s: Threads, ps: seq<Nesting>, i: nat, j: nat)
    requires AllStaged(s, ps) && i < |ps| && j < |ps| && Links(r, ps[i].wanted, ps[j].held)
    ensures WaitsOn(r, s, |ps|, i, j)
  {
    var g, h, w := Progress(|ps|, |ps|, |ps|), ps[j].held, ps[i].wanted;
    assert Of(s, i) == Actor(ps, g, i);
    assert Of(s, j) == Actor(ps, g, j);
    assert Of(s, |ps| + i) == Actor(ps, g, |ps| + i);
    if Conflict(w, h) {
      HolderBars(r, Of(s, j), h, w);
    } else {
      HolderBars(r, Of(s, j), h, Writer(ps[i]));
    }
  }

  function Succ(n: nat, i: nat): nat {
    if i + 1 < n then i + 1 else 0
  }

  lemma CycleWaits(r: Rules, s: Threads, ps: seq<Nesting>, i: nat)
    requires AllStaged(s, ps) && i < |ps|
    requires Linked(r, ps) && Links(r, ps[|ps| - 1].wanted, ps[0].held)
    ensures WaitsOn(r, s, |ps|, i, Succ(|ps|, i))
  {
    if i + 1 < |ps| { assert Links(r, ps[i].wanted, ps[i + 1].held); }
    StageWaits(r, s, ps, i, Succ(|ps|, i));
  }

  lemma ExtendChain(r: Rules, s: Threads, path: seq<nat>, n: nat, i: nat, j: nat) returns (longer: seq<nat>)
    requires Chain(r, s, path) && path[|path| - 1] == i && WaitsOn(r, s, n, i, j)
    ensures Chain(r, s, longer) && |longer| > 1 && longer[0] == path[0] && longer[|longer| - 1] == j
  {
    longer := path;
    if !WaitsFor(r, s, i, j) {
      ChainStep(r, s, path, n + i);
      longer := path + [n + i];
    }
    ChainStep(r, s, longer, j);
    longer := longer + [j];
  }

  // From the first thread around to the one that nesting k - 1 waits on.
  lemma {:induction false} ChainAround(r: Rules, s: Threads, n: nat, k: nat) returns (path: seq<nat>)
    requires 0 < k <= n && forall i :: 0 <= i < n ==> WaitsOn(r, s, n, i, Succ(n, i))
    ensures |path| > 1 && Chain(r, s, path) && path[0] == 0 && path[|path| - 1] == Succ(n, k - 1)
  {
    path := [0];
    if k > 1 { path := ChainAround(r, s, n, k - 1); }
    path := ExtendChain(r, s, path, n, k - 1, Succ(n, k - 1));
  }

  lemma CycleCloses(r: Rules, s: Threads, ps: seq<Nesting>) returns (path: seq<nat>)
    requires AllStaged(s, ps) && ps != []
    requires Linked(r, ps) && Links(r, ps[|ps| - 1].wanted, ps[0].held)
    ensures ClosedChain(r, s, path)
  {
    forall i | 0 <= i < |ps| ensures WaitsOn(r, s, |ps|, i, Succ(|ps|, i)) { CycleWaits(r, s, ps, i); }
    path := ChainAround(r, s, |ps|, |ps|);
  }

  // ----- the run in which a lock taken twice is held unregistered -----

  // What the four steps do that take a lock again and unlock the inner one of the two.
  lemma TwiceAndOnce(r: Rules, h: Lock, t: nat)
    ensures var asking := Waiting(multiset{h}, h);
            var twice := Thread(Running, multiset{h, h}, multiset{h, h});
            var dropping := Thread(Releasing(h), multiset{}, multiset{h, h});
            && After(r, asking, Acquire(t)) == twice
            && After(r, twice, Unregister(t, h)) == dropping
            && After(r, dropping, Unlock(t)) == Thread(Running, multiset{}, multiset{h})
  {
    assert multiset{h} + multiset{h} == multiset{h, h};
    assert multiset{h, h}[h := 0] == multiset{};
    assert multiset{h, h} - multiset{h} == multiset{h};
  }

  lemma TakeInner(r: Rules, uses: iset<Nesting>, before: seq<Step>, h: Lock) returns (steps: seq<Step>)
    requires Follows(r, uses, before) && h.mode.Shared?
    requires Exec(r, map[], before) == map[0 := Waiting(multiset{h}, h)]
    ensures Follows(r, uses, steps)
    ensures Exec(r, map[], steps) == map[0 := Thread(Running, multiset{h, h}, multiset{h, h})]
  {
    TwiceAndOnce(r, h, 0);
    TakeStep(r, uses, before, Acquire(0));
    steps := before + [Acquire(0)];
  }

  lemma DropInner(r: Rules, uses: iset<Nesting>, before: seq<Step>, h: Lock) returns (steps: seq<Step>)
    requires Follows(r, uses, before)
    requires Exec(r, map[], before) == map[0 := Thread(Running, multiset{h, h}, multiset{h, h})]
    ensures Follows(r, uses, steps)
    ensures Exec(r, map[], steps) == map[0 := Thread(Running, multiset{}, multiset{h})]
  {
    TwiceAndOnce(r, h, 0);
    TakeStep(r, uses, before, Unregister(0, h));
    steps := before + [Unregister(0, h)];
    assert Exec(r, map[], steps) == map[0 := Thread(Releasing(h), multiset{}, multiset{h, h})];
    TakeStep(r, uses, steps, Unlock(0));
    steps := steps + [Unlock(0)];
  }

  // Takes a free shared lock twice and unlocks the inner one.
  lemma TakeTwice(r: Rules, uses: iset<Nesting>, h: Lock) returns (steps: seq<Step>)
    requires Relocked(uses, h)
    ensures Follows(r, uses, steps)
    ensures Exec(r, map[], steps) == map[0 := Thread(Running, multiset{}, multiset{h})]
  {
    steps := TakeOne(r, uses, [], 0, h);
    AskSecond(r, uses, steps, 0, h, h);
    steps := TakeInner(r, uses, steps + [Register(0, h)], h);
    steps := DropInner(r, uses, steps, h);
  }

  lemma AskBelow(r: Rules, uses: iset<Nesting>, steps: seq<Step>, t: nat, h: Lock, w: Lock)
    requires Follows(r, uses, steps) && Of(Exec(r, map[], steps), t) == Thread(Running, multiset{}, multiset{h})
    requires r.level(h.mutex) != r.level(w.mutex)
    ensures GoesOn(r, uses, steps, Register(t, w), Thread(Blocked(w), multiset{w}, multiset{h}))
  {
    TakeStep(r, uses, steps, Register(t, w));
    assert multiset{} + multiset{w} == multiset{w};
  }

  lemma EachWaitsForTheOther(r: Rules, s: Threads, h: Lock, low: Lock, up: Lock)
    requires Of(s, 0) == Thread(Blocked(low), multiset{low}, multiset{h}) && Conflict(up, h)
    requires Of(s, 1) == Waiting(multiset{low}, up) && Conflict(low, low)
    ensures ClosedChain(r, s, [0, 1, 0])
  {
    HolderBars(r, Of(s, 1), low, low);
    HolderBars(r, Of(s, 0), h, up);
    assert WaitsFor(r, s, 0, 1) && WaitsFor(r, s, 1, 0);
  }

  lemma DescentDeadlocks(r: Rules, uses: iset<Nesting>, h: Lock, b: nat) returns (steps: seq<Step>)
    requires CanDescend(r, uses, h, b)
    ensures Follows(r, uses, steps) && ClosedChain(r, Exec(r, map[], steps), [0, 1, 0])
  {
    var low, up := Lock(b, Exclusive), Lock(h.mutex, Exclusive);
    steps := TakeTwice(r, uses, h);
    steps := TakeOne(r, uses, steps, 1, low);
    AskSecond(r, uses, steps, 1, low, up);
    steps := steps + [Register(1, up)];
    AskBelow(r, uses, steps, 0, h, low);
    steps := steps + [Register(0, low)];
    EachWaitsForTheOther(r, Exec(r, map[], steps), h, low, up);
  }

  // ----- what the detector leaves to its callers -----

  ghost predicate DeadlockProne(r: Rules, uses: iset<Nesting>) {
    (exists ps :: NestingCycle(r, uses, ps)) || !NeverDescends(r, uses)
  }

  /** The detector leaves exactly this to its callers. Runs whose threads nest locks of one level as
      `uses` says can reach a circular wait if and only if some of those nestings form a cycle, in
      which each wants what the next one holds, or if a shared lock is taken twice above another
      level. A reader and a holding reader count as such only where waiting writers go first. */
  lemma CircularWaitExactly(r: Rules, uses: iset<Nesting>)
    ensures (exists steps, path :: Follows(r, uses, steps) && ClosedChain(r, Exec(r, map[], steps), path))
       <==> DeadlockProne(r, uses)
  {
    if steps, path :| Follows(r, uses, steps) && ClosedChain(r, Exec(r, map[], steps), path) {
      if NeverDescends(r, uses) { var ps := NestingsOfCircularWait(r, uses, steps, path); }
    }
    if ps: seq<Nesting> :| NestingCycle(r, uses, ps) {
      var qs := SimpleCycle(r, uses, ps);
      var steps := ReachBlocked(r, uses, qs, |qs|);
      var path := CycleCloses(r, Exec(r, map[], steps), qs);
    }
    if h, b :| CanDescend(r, uses, h, b) {
      var steps := DescentDeadlocks(r, uses, h, b);
    }
  }

  lemma SwapCycle(r: Rules, a: Lock, b: Lock, ps: seq<Nesting>, i: nat)
    requires a.mutex != b.mutex && i < |ps|
    requires NestingCycle(r, iset{Nesting(a, b), Nesting(b, a)}, ps)
    ensures r.writersFirst || ps[i].wanted.mode.Exclusive?
  {
    var uses, next := iset{Nesting(a, b), Nesting(b, a)}, if i + 1 < |ps| then i + 1 else 0;
    assert Usable(r, uses, ps[i]) && Usable(r, uses, ps[next]) && Links(r, ps[i].wanted, ps[next].held);
  }

  /** Two mutexes of one level, locked in both orders: they can close a circular wait if and only if
      both locks are exclusive or waiting writers go first. */
  lemma EqualLevelsCanDeadlock(r: Rules, a: Lock, b: Lock)
    requires a.mutex != b.mutex && r.level(a.mutex) == r.level(b.mutex)
    ensures (exists steps, path ::
               && Follows(r, iset{Nesting(a, b), Nesting(b, a)}, steps)
               && ClosedChain(r, Exec(r, map[], steps), path))
       <==> r.writersFirst || (a.mode.Exclusive? && b.mode.Exclusive?)
  {
    var uses := iset{Nesting(a, b), Nesting(b, a)};
    CircularWaitExactly(r, uses);
    if r.writersFirst || (a.mode.Exclusive? && b.mode.Exclusive?) {
      assert NestingCycle(r, uses, [Nesting(a, b), Nesting(b, a)]);
    }
    if ps: seq<Nesting> :| NestingCycle(r, uses, ps) {
      SwapCycle(r, a, b, ps, 0);
      assert Usable(r, uses, ps[0]);
      if |ps| > 1 {
        SwapCycle(r, a, b, ps, 1);
        assert Usable(r, uses, ps[1]) && Links(r, ps[0].wanted, ps[0 + 1].held);
      }
    }
  }

  /** No circular wait is reachable, with any number of threads, modes and timeouts, as long as the
      callers' nestings within one level are not prone to it; in particular if there are none. */
  lemma NoCircularWait(r: Rules, uses: iset<Nesting>, steps: seq<Step>, path: seq<nat>)
    requires Follows(r, uses, steps) && !DeadlockProne(r, uses)
    ensures !ClosedChain(r, Exec(r, map[], steps), path)
  {
    CircularWaitExactly(r, uses);
  }

  /** Shared locks alone do not deadlock, in whatever order they are nested, where readers need not
      let writers go first. */
  lemma SharedLocksAreSafe(r: Rules, uses: iset<Nesting>, steps: seq<Step>, path: seq<nat>)
    requires !r.writersFirst && NeverRelocks(uses) && Follows(r, uses, steps)
    requires forall p :: p in uses ==> p.held.mode.Shared? && p.wanted.mode.Shared?
    ensures !ClosedChain(r, Exec(r, map[], steps), path)
  {
    forall ps: seq<Nesting> ensures !NestingCycle(r, uses, ps) {
      if ps != [] {
        var p, q := ps[|ps| - 1], ps[0];
        assert !(Usable(r, uses, p) && Usable(r, uses, q) && Links(r, p.wanted, q.held));
      }
    }
    forall h, b ensures !CanDescend(r, uses, h, b) { assert Nesting(h, h) !in uses; }
    NoCircularWait(r, uses, steps, path);
  }

  // ----- progress -----

  // The last thread of the chain can move. It holds a lock, or it is a writer that goes first.
  ghost predicate LeadsToMover(r: Rules, s: Threads, t: nat, path: seq<nat>) {
    && |path| > 1 && path[0] == t && Chain(r, s, path)
    && var u := path[|path| - 1];
    && CanMove(r, s, u)
    && (Of(s, u).held != multiset{} || (r.writersFirst && IsBlocked(s, u)))
  }

  lemma ReturningCloses(r: Rules, s: Threads, path: seq<nat>, i: nat)
    requires Chain(r, s, path) && i < |path| - 1 && path[i] == path[|path| - 1]
    ensures ClosedChain(r, s, path[i..])
  {
    var part := path[i..];
    forall k | 0 <= k < |part| - 1 ensures WaitsFor(r, s, part[k], part[k + 1]) {
      assert WaitsFor(r, s, path[i + k], path[i + k + 1]);
    }
  }

  lemma SomeoneBars(r: Rules, s: Threads, t: nat) returns (u: nat)
    requires !CanMove(r, s, t)
    ensures u in s && WaitsFor(r, s, t, u)
    ensures Of(s, u).held != multiset{} || (r.writersFirst && IsBlocked(s, u))
  {
    u :| u in s && Bars(r, s[u], Want(s, t));
  }

  // Without a circular wait, following waits from a thread that is stuck ends at one that is not.
  lemma {:induction false} FollowWaits(r: Rules, s: Threads, path: seq<nat>, left: set<nat>) returns (longer: seq<nat>)
    requires forall p :: !ClosedChain(r, s, p)
    requires Chain(r, s, path) && !CanMove(r, s, path[|path| - 1])
    requires forall t :: t in s ==> t in path || t in left
    ensures LeadsToMover(r, s, path[0], longer)
    decreases left
  {
    var u := SomeoneBars(r, s, path[|path| - 1]);
    ChainStep(r, s, path, u);
    longer := path + [u];
    if u in path {
      var i :| 0 <= i < |path| && path[i] == u;
      ReturningCloses(r, s, longer, i);
      assert false;
    } else if !CanMove(r, s, u) {
      longer := FollowWaits(r, s, longer, left - {u});
    }
  }

  /** Progress: if a thread cannot be granted what it wants, some chain of waits leads from it to
      one that is running, releasing or can be granted its own lock. */
  lemma SomeHolderCanMove(r: Rules, uses: iset<Nesting>, steps: seq<Step>, t: nat)
    requires Follows(r, uses, steps) && !DeadlockProne(r, uses)
    requires !CanMove(r, Exec(r, map[], steps), t)
    ensures exists path :: LeadsToMover(r, Exec(r, map[], steps), t, path)
  {
    var s := Exec(r, map[], steps);
    forall p ensures !ClosedChain(r, s, p) { NoCircularWait(r, uses, steps, p); }
    var path := FollowWaits(r, s, [t], s.Keys);
  }

  // ----- without nesting on one level, chains are short -----

  ghost function Rank(r: Rules, s: Threads, t: nat): (rank: int)
    requires IsBlocked(s, t)
    ensures 2 <= rank <= 9
  {
    2 * r.level(Want(s, t).mutex) + if Want(s, t).mode.Exclusive? then 1 else 0
  }

  lemma WaitingRaisesRank(r: Rules, s: Threads, t: nat, u: nat)
    requires Inv(r, iset{}, s) && WaitsFor(r, s, t, u) && IsBlocked(s, u)
    ensures Rank(r, s, t) < Rank(r, s, u)
  {
    assert ThreadOk(r, iset{}, Of(s, u));
  }

  lemma {:induction false} RisesByOne(xs: seq<int>, j: nat)
    requires j < |xs| && forall k :: 0 <= k < |xs| - 1 ==> xs[k] < xs[k + 1]
    ensures xs[0] + j <= xs[j]
  {
    if j > 0 {
      RisesByOne(xs, j - 1);
      assert xs[j - 1] < xs[j - 1 + 1];
    }
  }

  ghost function Ranks(r: Rules, s: Threads, path: seq<nat>): seq<int>
    requires AllBlocked(s, path)
  {
    seq(|path|, i requires 0 <= i < |path| => Rank(r, s, path[i]))
  }

  lemma RanksRise(r: Rules, s: Threads, path: seq<nat>, k: nat)
    requires Inv(r, iset{}, s) && Chain(r, s, path) && AllBlocked(s, path) && k < |path| - 1
    ensures Ranks(r, s, path)[k] < Ranks(r, s, path)[k + 1]
  {
    assert IsBlocked(s, path[k]) && IsBlocked(s, path[k + 1]);
    WaitingRaisesRank(r, s, path[k], path[k + 1]);
  }

  lemma RankedChainIsShort(r: Rules, s: Threads, path: seq<nat>)
    requires Inv(r, iset{}, s) && Chain(r, s, path) && AllBlocked(s, path)
    ensures |path| <= 8
  {
    var ranks := Ranks(r, s, path);
    forall k | 0 <= k < |ranks| - 1 ensures ranks[k] < ranks[k + 1] { RanksRise(r, s, path, k); }
    RisesByOne(ranks, |path| - 1);
    assert ranks[0] == Rank(r, s, path[0]) && ranks[|path| - 1] == Rank(r, s, path[|path| - 1]);
  }

  /** If no thread ever nests two locks of one level, a chain of blocked threads is never longer
      than two per level. */
  lemma ChainsAreShort(r: Rules, steps: seq<Step>, path: seq<nat>)
    requires Follows(r, iset{}, steps) && Chain(r, Exec(r, map[], steps), path)
    requires IsBlocked(Exec(r, map[], steps), path[|path| - 1])
    ensures |path| <= 8
  {
    var s := Exec(r, map[], steps);
    EveryRunKeepsInv(r, iset{}, steps);
    ChainAllBlocked(r, s, path);
    RankedChainIsShort(r, s, path);
  }
}
