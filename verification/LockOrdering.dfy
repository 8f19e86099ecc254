/** The lock-ordering protocol of include/lock_utils.hpp and src/lock_utils.cpp.

    A thread constructing a ScopedTimedLock first registers the lock with the DeadlockDetector,
    which throws when a lock of a higher level is registered; then it blocks in try_lock_for until
    it is granted the lock or times out. The destructor unregisters, then unlocks. A timeout leaves
    the registration behind. Each of these is one step here; the steps of any number of threads
    interleave freely. CircularWaits.dfy proves when they can deadlock. */
module LockOrdering {
  import opened Runs

  // LockLevel: CONFIG = 1, CONTAINER = 2, RESOURCE = 3, STATE = 4
  type Level = n: int | 1 <= n <= 4 witness 1

  // The level of each mutex, and whether shared mutexes refuse readers while a writer waits; the
  // C++ standard leaves the latter to the library.
  datatype Rules = Rules(level: nat -> Level, writersFirst: bool)

  datatype Mode = Exclusive | Shared
  datatype Lock = Lock(mutex: nat, mode: Mode)

  // Between two constructors or destructors, inside try_lock_for, or between the two halves of
  // a destructor.
  datatype Phase = Running | Blocked(want: Lock) | Releasing(lock: Lock)

  // `registered` holds both lists of a ThreadLockInfo, in which a lock can occur more than once.
  datatype Thread = Thread(phase: Phase, registered: multiset<Lock>, held: multiset<Lock>)

  const IDLE := Thread(Running, multiset{}, multiset{})

  // Threads that never locked anything are not in the map.
  type Threads = map<nat, Thread>

  function Of(s: Threads, t: nat): Thread {
    if t in s then s[t] else IDLE
  }

  // validateLockOrdering: nothing registered is of a higher level.
  predicate Allowed(r: Rules, registered: multiset<Lock>, a: Lock) {
    forall e :: e in registered ==> r.level(e.mutex) <= r.level(a.mutex)
  }

  predicate Conflict(a: Lock, b: Lock) {
    a.mutex == b.mutex && (a.mode.Exclusive? || b.mode.Exclusive?)
  }

  // The thread keeps others from being granted a: it holds the mutex against it, or it is a waiting
  // writer that goes first.
  predicate Bars(r: Rules, th: Thread, a: Lock) {
    || (exists h :: h in th.held && Conflict(a, h))
    || (r.writersFirst && a.mode.Shared? && th.phase == Blocked(Lock(a.mutex, Exclusive)))
  }

  predicate Grantable(r: Rules, s: Threads, a: Lock) {
    forall t :: t in s ==> !Bars(r, s[t], a)
  }

  datatype Step =
    | Register(thread: nat, lock: Lock)
    | Acquire(thread: nat)
    | TimeOut(thread: nat)
    | Unregister(thread: nat, lock: Lock)
    | Unlock(thread: nat)

  // May a thread in this state take the step, as far as it depends on the thread alone?
  predicate Ready(r: Rules, th: Thread, step: Step) {
    match step
    case Register(_, a) => th.phase.Running? && Allowed(r, th.registered, a)
    case Acquire(_) => th.phase.Blocked?
    case TimeOut(_) => th.phase.Blocked?
    case Unregister(_, a) => th.phase.Running? && a in th.held
    case Unlock(_) => th.phase.Releasing?
  }

  predicate Enabled(r: Rules, s: Threads, step: Step) {
    var th := Of(s, step.thread);
    Ready(r, th, step) && (step.Acquire? ==> Grantable(r, s, th.phase.want))
  }

  function After(r: Rules, th: Thread, step: Step): Thread
    requires Ready(r, th, step)
  {
    match step
    case Register(_, a) => th.(phase := Blocked(a), registered := th.registered + multiset{a})
    case Acquire(_) => th.(phase := Running, held := th.held + multiset{th.phase.want})
    case TimeOut(_) => th.(phase := Running)
    case Unregister(_, a) => th.(phase := Releasing(a), registered := th.registered[a := 0])
    case Unlock(_) => th.(phase := Running, held := th.held - multiset{th.phase.lock})
  }

  // A step that is not enabled, or that throws, changes nothing.
  function Next(r: Rules, s: Threads, step: Step): Threads {
    if Enabled(r, s, step) then s[step.thread := After(r, Of(s, step.thread), step)] else s
  }

  function Exec(r: Rules, s: Threads, steps: seq<Step>): Threads {
    Fold((s1, step) => Next(r, s1, step), s, steps)
  }

  lemma ExecStep(r: Rules, s: Threads, steps: seq<Step>, step: Step)
    ensures Exec(r, s, steps + [step]) == Next(r, Exec(r, s, steps), step)
  {
    FoldOne((s1, step1) => Next(r, s1, step1), s, steps, step);
  }

  // ----- exclusion -----

  ghost predicate Exclusion(s: Threads) {
    forall t, u, a, b :: t in s && u in s && t != u && a in s[t].held && b in s[u].held ==> !Conflict(a, b)
  }

  // Whatever a thread newly holds was just granted to it.
  lemma NewlyHeldWasFree(r: Rules, s: Threads, step: Step, t: nat, a: Lock)
    requires a in Of(Next(r, s, step), t).held && a !in Of(s, t).held
    ensures Grantable(r, s, a) && step == Acquire(t)
  {
  }

  lemma GrantedIsCompatible(r: Rules, s: Threads, a: Lock, u: nat, b: Lock)
    requires Grantable(r, s, a) && u in s && b in s[u].held
    ensures !Conflict(a, b) && !Conflict(b, a)
  {
    assert !Bars(r, s[u], a);
  }

  lemma NextKeepsExclusion(r: Rules, s: Threads, step: Step)
    requires Exclusion(s)
    ensures Exclusion(Next(r, s, step))
  {
    var s' := Next(r, s, step);
    forall t, u, a, b | t in s' && u in s' && t != u && a in s'[t].held && b in s'[u].held
      ensures !Conflict(a, b)
    {
      if a !in Of(s, t).held {
        NewlyHeldWasFree(r, s, step, t, a);
        GrantedIsCompatible(r, s, a, u, b);
      } else if b !in Of(s, u).held {
        NewlyHeldWasFree(r, s, step, u, b);
        GrantedIsCompatible(r, s, b, t, a);
      }
    }
  }

  /** No two threads ever hold conflicting locks. */
  lemma {:induction false} EveryRunExcludes(r: Rules, steps: seq<Step>)
    ensures Exclusion(Exec(r, map[], steps))
  {
    if steps != [] {
      EveryRunExcludes(r, steps[..|steps| - 1]);
      NextKeepsExclusion(r, Exec(r, map[], steps[..|steps| - 1]), steps[|steps| - 1]);
    }
  }

  // ----- what callers do within one level -----

  // A lock wanted while another one of the same level is held.
  datatype Nesting = Nesting(held: Lock, wanted: Lock)

  ghost predicate NestsAs(r: Rules, uses: iset<Nesting>, held: multiset<Lock>, a: Lock) {
    forall h :: h in held && r.level(h.mutex) == r.level(a.mutex) ==> Nesting(h, a) in uses
  }

  ghost predicate StepFollows(r: Rules, uses: iset<Nesting>, s: Threads, step: Step) {
    step.Register? && Enabled(r, s, step) ==> NestsAs(r, uses, Of(s, step.thread).held, step.lock)
  }

  // Within one level, the threads of the run nest locks only as `uses` says.
  ghost predicate Follows(r: Rules, uses: iset<Nesting>, steps: seq<Step>) {
    steps != [] ==>
      var n := |steps| - 1;
      Follows(r, uses, steps[..n]) && StepFollows(r, uses, Exec(r, map[], steps[..n]), steps[n])
  }

  // Whoever holds the lock may take it again. When the inner one of the two is unlocked, the entries
  // for both are gone.
  ghost predicate Relocked(uses: iset<Nesting>, h: Lock) {
    h.mode.Shared? && Nesting(h, h) in uses
  }

  // So a thread can hold such a lock unregistered, and go on to a lower level if there is one.
  ghost predicate CanDescend(r: Rules, uses: iset<Nesting>, h: Lock, b: nat) {
    Relocked(uses, h) && r.level(b) < r.level(h.mutex)
  }

  ghost predicate NeverDescends(r: Rules, uses: iset<Nesting>) {
    forall h, b :: !CanDescend(r, uses, h, b)
  }

  // What is held is registered, except the lock a destructor is halfway through releasing, and
  // locks that were taken twice.
  ghost predicate HeldIsRegistered(uses: iset<Nesting>, th: Thread) {
    forall h :: h in th.held ==>
      && (h in th.registered || th.phase == Releasing(h) || Relocked(uses, h))
      && (th.held[h] > 1 ==> Relocked(uses, h))
  }

  // Whoever blocks holds only locks of lower levels, or of the same level as `uses` says.
  ghost predicate BlocksUpward(r: Rules, uses: iset<Nesting>, held: multiset<Lock>, want: Lock) {
    && NestsAs(r, uses, held, want)
    && forall h :: h in held ==> r.level(h.mutex) <= r.level(want.mutex)
  }

  ghost predicate ThreadOk(r: Rules, uses: iset<Nesting>, th: Thread) {
    && HeldIsRegistered(uses, th)
    && (th.phase.Blocked? ==> th.phase.want in th.registered && BlocksUpward(r, uses, th.held, th.phase.want))
  }

  ghost predicate Inv(r: Rules, uses: iset<Nesting>, s: Threads) {
    forall t :: t in s ==> ThreadOk(r, uses, s[t])
  }

  lemma RegisterKeepsOk(r: Rules, uses: iset<Nesting>, th: Thread, step: Step)
    requires NeverDescends(r, uses) && ThreadOk(r, uses, th)
    requires step.Register? && Ready(r, th, step) && NestsAs(r, uses, th.held, step.lock)
    ensures ThreadOk(r, uses, After(r, th, step))
  {
    forall h | h in th.held ensures r.level(h.mutex) <= r.level(step.lock.mutex) {
      assert !CanDescend(r, uses, h, step.lock.mutex);
    }
  }

  lemma AcquireKeepsOk(r: Rules, uses: iset<Nesting>, th: Thread, step: Step)
    requires ThreadOk(r, uses, th) && step.Acquire? && Ready(r, th, step) && !Bars(r, th, th.phase.want)
    ensures ThreadOk(r, uses, After(r, th, step))
  {
    var a, th' := th.phase.want, After(r, th, step);
    if a in th.held { assert !Conflict(a, a) && Nesting(a, a) in uses; }
    forall h | h in th'.held
      ensures (h in th'.registered || Relocked(uses, h)) && (th'.held[h] > 1 ==> Relocked(uses, h))
    {
      if h != a { assert h in th.held && th'.held[h] == th.held[h]; }
    }
  }

  lemma ReleaseKeepsOk(r: Rules, uses: iset<Nesting>, th: Thread, step: Step)
    requires ThreadOk(r, uses, th) && !step.Register? && !step.Acquire? && Ready(r, th, step)
    ensures ThreadOk(r, uses, After(r, th, step))
  {
    var th' := After(r, th, step);
    forall h | h in th'.held
      ensures h in th'.registered || th'.phase == Releasing(h) || Relocked(uses, h)
      ensures th'.held[h] > 1 ==> Relocked(uses, h)
    {
      assert h in th.held;
    }
  }

  lemma NextKeepsInv(r: Rules, uses: iset<Nesting>, s: Threads, step: Step)
    requires NeverDescends(r, uses) && Inv(r, uses, s) && StepFollows(r, uses, s, step)
    ensures Inv(r, uses, Next(r, s, step))
  {
    var s', th := Next(r, s, step), Of(s, step.thread);
    assert ThreadOk(r, uses, th);
    if Enabled(r, s, step) {
      if step.Register? {
        RegisterKeepsOk(r, uses, th, step);
      } else if step.Acquire? {
        assert !Bars(r, th, th.phase.want);
        AcquireKeepsOk(r, uses, th, step);
      } else {
        ReleaseKeepsOk(r, uses, th, step);
      }
    }
    forall t | t in s' ensures ThreadOk(r, uses, s'[t]) {
      if t != step.thread { assert s'[t] == s[t]; }
    }
  }

  /** In every run: what is held is registered, except in the middle of a destructor, and whoever
      blocks holds nothing of a higher level, as long as the locks callers take twice, if any, are
      of the lowest level. */
  lemma {:induction false} EveryRunKeepsInv(r: Rules, uses: iset<Nesting>, steps: seq<Step>)
    requires NeverDescends(r, uses) && Follows(r, uses, steps)
    ensures Inv(r, uses, Exec(r, map[], steps))
  {
    if steps != [] {
      EveryRunKeepsInv(r, uses, steps[..|steps| - 1]);
      NextKeepsInv(r, uses, Exec(r, map[], steps[..|steps| - 1]), steps[|steps| - 1]);
    }
  }

  // ----- waiting -----

  ghost predicate IsBlocked(s: Threads, t: nat) {
    Of(s, t).phase.Blocked?
  }

  ghost function Want(s: Threads, t: nat): Lock
    requires IsBlocked(s, t)
  {
    Of(s, t).phase.want
  }

  // ----- stale registrations -----

  // What a timeout leaves: registered, but neither held nor wanted.
  ghost predicate Stale(th: Thread, a: Lock) {
    a in th.registered && a !in th.held && th.phase != Blocked(a) && th.phase != Releasing(a)
  }

  // No thread locks a mutex again that it already holds.
  ghost predicate NeverRelocks(uses: iset<Nesting>) {
    forall p :: p in uses ==> p.held.mutex != p.wanted.mutex
  }

  /** A timeout leaves a stale registration, in runs that never lock a held mutex again. */
  lemma TimeOutLeavesStale(r: Rules, uses: iset<Nesting>, steps: seq<Step>, t: nat)
    requires Follows(r, uses, steps) && NeverRelocks(uses)
    requires IsBlocked(Exec(r, map[], steps), t)
    ensures var s := Exec(r, map[], steps);
            Stale(Of(Next(r, s, TimeOut(t)), t), Want(s, t))
  {
    var s := Exec(r, map[], steps);
    EveryRunKeepsInv(r, uses, steps);
    assert ThreadOk(r, uses, Of(s, t));
    assert Nesting(Want(s, t), Want(s, t)) !in uses;
  }

  // In step i of the run the thread is granted the lock.
  ghost predicate AcquiresAt(r: Rules, s: Threads, steps: seq<Step>, t: nat, a: Lock, i: nat) {
    && i < |steps| && steps[i] == Acquire(t)
    && Of(Exec(r, s, steps[..i]), t).phase == Blocked(a) && Grantable(r, Exec(r, s, steps[..i]), a)
  }

  // In step j of the run the thread's destructor unregisters the lock.
  ghost predicate UnregistersAt(r: Rules, s: Threads, steps: seq<Step>, t: nat, a: Lock, j: nat) {
    && j < |steps| && steps[j] == Unregister(t, a)
    && Of(Exec(r, s, steps[..j]), t).phase.Running? && a in Of(Exec(r, s, steps[..j]), t).held
  }

  lemma AcquiresPrefix(r: Rules, s: Threads, steps: seq<Step>, t: nat, a: Lock, i: nat, n: nat)
    requires n <= |steps| && AcquiresAt(r, s, steps[..n], t, a, i)
    ensures AcquiresAt(r, s, steps, t, a, i)
  {
    assert steps[..n][..i] == steps[..i];
  }

  lemma UnregistersPrefix(r: Rules, s: Threads, steps: seq<Step>, t: nat, a: Lock, j: nat, n: nat)
    requires n <= |steps| && UnregistersAt(r, s, steps[..n], t, a, j)
    ensures UnregistersAt(r, s, steps, t, a, j)
  {
    assert steps[..n][..j] == steps[..j];
  }

  lemma NextHolds(r: Rules, s: Threads, step: Step, t: nat, a: Lock)
    requires a !in Of(s, t).held && a in Of(Next(r, s, step), t).held
    ensures step == Acquire(t) && Of(s, t).phase == Blocked(a) && Grantable(r, s, a)
  {
  }

  lemma NextLoses(r: Rules, s: Threads, step: Step, t: nat, a: Lock)
    requires a in Of(s, t).registered
    ensures a !in Of(Next(r, s, step), t).registered
       <==> step == Unregister(t, a) && Of(s, t).phase.Running? && a in Of(s, t).held
  {
  }

  lemma {:induction false} HeldWasAcquired(r: Rules, s: Threads, steps: seq<Step>, t: nat, a: Lock)
    returns (i: nat)
    requires a !in Of(s, t).held && a in Of(Exec(r, s, steps), t).held
    ensures AcquiresAt(r, s, steps, t, a, i)
  {
    var n := |steps| - 1;
    if a in Of(Exec(r, s, steps[..n]), t).held {
      i := HeldWasAcquired(r, s, steps[..n], t, a);
      AcquiresPrefix(r, s, steps, t, a, i, n);
    } else {
      NextHolds(r, Exec(r, s, steps[..n]), steps[n], t, a);
      i := n;
    }
  }

  lemma {:induction false} LostWasUnregistered(r: Rules, s: Threads, steps: seq<Step>, t: nat, a: Lock)
    returns (j: nat)
    requires a in Of(s, t).registered && a !in Of(Exec(r, s, steps), t).registered
    ensures UnregistersAt(r, s, steps, t, a, j)
  {
    var n := |steps| - 1;
    if a in Of(Exec(r, s, steps[..n]), t).registered {
      NextLoses(r, Exec(r, s, steps[..n]), steps[n], t, a);
      j := n;
    } else {
      j := LostWasUnregistered(r, s, steps[..n], t, a);
      UnregistersPrefix(r, s, steps, t, a, j, n);
    }
  }

  ghost predicate StaysRegistered(r: Rules, s: Threads, steps: seq<Step>, t: nat, a: Lock) {
    forall k :: 0 <= k <= |steps| ==> a in Of(Exec(r, s, steps[..k]), t).registered
  }

  lemma UnregisteringEndsIt(r: Rules, s: Threads, steps: seq<Step>, t: nat, a: Lock, j: nat)
    requires UnregistersAt(r, s, steps, t, a, j)
    ensures !StaysRegistered(r, s, steps, t, a)
  {
    if a in Of(Exec(r, s, steps[..j]), t).registered {
      assert steps[..j + 1] == steps[..j] + [steps[j]];
      ExecStep(r, s, steps[..j], steps[j]);
      NextLoses(r, Exec(r, s, steps[..j]), steps[j], t, a);
      assert a !in Of(Exec(r, s, steps[..j + 1]), t).registered;
    }
  }

  /** A stale registration survives a run if and only if the thread does not, in the course of it,
      lock that mutex in that mode and unlock it again. */
  lemma StaleSurvivesExactly(r: Rules, s: Threads, steps: seq<Step>, t: nat, a: Lock)
    requires Stale(Of(s, t), a)
    ensures StaysRegistered(r, s, steps, t, a)
       <==> !exists i, j :: i < j && AcquiresAt(r, s, steps, t, a, i) && UnregistersAt(r, s, steps, t, a, j)
  {
    if i, j :| i < j && AcquiresAt(r, s, steps, t, a, i) && UnregistersAt(r, s, steps, t, a, j) {
      UnregisteringEndsIt(r, s, steps, t, a, j);
    }
    if k :| 0 <= k <= |steps| && a !in Of(Exec(r, s, steps[..k]), t).registered {
      var j := LostWasUnregistered(r, s, steps[..k], t, a);
      UnregistersPrefix(r, s, steps, t, a, j, k);
      var i := HeldWasAcquired(r, s, steps[..j], t, a);
      AcquiresPrefix(r, s, steps, t, a, i, j);
    }
  }

  /** While a lock stays registered, stale or not, every lock of a strictly lower level is refused;
      and if it is of the highest level registered, no other lock is. */
  lemma RegisteredLevelRefusesExactly(r: Rules, s: Threads, t: nat, a: Lock, b: Lock)
    requires Of(s, t).phase.Running? && a in Of(s, t).registered
    ensures r.level(b.mutex) < r.level(a.mutex) ==> Next(r, s, Register(t, b)) == s
    ensures Allowed(r, Of(s, t).registered, a) ==>
              (Next(r, s, Register(t, b)) == s <==> r.level(b.mutex) < r.level(a.mutex))
  {
    if Enabled(r, s, Register(t, b)) { assert Of(Next(r, s, Register(t, b)), t).phase == Blocked(b); }
  }

  // ----- the protocol in place -----

  /** The detector's per-thread records and the mutexes' owners, changed in place. */
  class LockTable {
    const rules: Rules
    var threads: Threads

    constructor (rules: Rules)
      ensures this.rules == rules && threads == map[]
    {
      this.rules := rules;
      threads := map[];
    }

    /** checkLockOrdering; `ordered` is false when DeadlockException is thrown: exactly when a
        lock of a higher level is registered. */
    method CheckLockOrdering(t: nat, a: Lock) returns (ordered: bool)
      requires Of(threads, t).phase.Running?
      modifies this
      ensures threads == Next(rules, old(threads), Register(t, a))
      ensures ordered <==> IsBlocked(threads, t)
      ensures !ordered <==>
                exists e :: e in Of(old(threads), t).registered && rules.level(e.mutex) > rules.level(a.mutex)
    {
      var th := Of(threads, t);
      ordered := Allowed(rules, th.registered, a);
      if ordered {
        threads := threads[t := th.(phase := Blocked(a), registered := th.registered + multiset{a})];
      }
    }

    /** try_lock_for or try_lock_shared_for; false when LockTimeoutException is thrown. Whether a
        free mutex is granted before the timeout is up to the scheduler. */
    method TryLockFor(t: nat, inTime: bool) returns (locked: bool)
      requires Of(threads, t).phase.Blocked?
      modifies this
      ensures threads == Next(rules, old(threads), if locked then Acquire(t) else TimeOut(t))
      ensures locked <==> inTime && Grantable(rules, old(threads), Of(old(threads), t).phase.want)
      ensures locked ==>
                Of(threads, t).held == Of(old(threads), t).held + multiset{Of(old(threads), t).phase.want}
    {
      var th := Of(threads, t);
      locked := inTime && Grantable(rules, threads, th.phase.want);
      threads := threads[t := if locked then th.(phase := Running, held := th.held + multiset{th.phase.want})
                              else th.(phase := Running)];
    }

    /** The destructor's two halves, between which other threads may run. Every entry for the lock
        goes, a stale one as well. */
    method UnregisterLockAcquisition(t: nat, a: Lock)
      requires Of(threads, t).phase.Running? && a in Of(threads, t).held
      modifies this
      ensures threads == Next(rules, old(threads), Unregister(t, a))
      ensures a !in Of(threads, t).registered
    {
      var th := Of(threads, t);
      threads := threads[t := th.(phase := Releasing(a), registered := th.registered[a := 0])];
    }

    method Release(t: nat)
      requires Of(threads, t).phase.Releasing?
      modifies this
      ensures threads == Next(rules, old(threads), Unlock(t))
      ensures var a := Of(old(threads), t).phase.lock;
              Of(threads, t).phase.Running? && Of(threads, t).held == Of(old(threads), t).held - multiset{a}
    {
      var th := Of(threads, t);
      threads := threads[t := th.(phase := Running, held := th.held - multiset{th.phase.lock})];
    }
  }
}
