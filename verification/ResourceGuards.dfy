/** ResourceGuard of include/exception_handler.hpp: a resource with a cleanup that runs once.

    A resource is named by a number. What a moved-from resource or cleanup looks like is up to its
    type, so every move leaves arbitrary values behind. */
module ResourceGuards {

  datatype Guard = Guard(resource: nat, hasCleanup: bool, released: bool)

  // The guard still owes its resource a cleanup or, with a null cleanup, a silent end.
  predicate Owns(g: Guard, r: nat) {
    !g.released && g.resource == r
  }

  // Live guards, and how often each resource was cleaned up. `made` is history: the resources
  // guards were constructed with, and whether with a non-null cleanup. `given` are those whose
  // owner was told to release them.
  datatype World = World(guards: map<nat, Guard>, cleaned: map<nat, nat>, made: map<nat, bool>, given: set<nat>)

  function Start(): World {
    World(map[], map[], map[], {})
  }

  function Count(cleaned: map<nat, nat>, r: nat): nat {
    if r in cleaned then cleaned[r] else 0
  }

  function Cleanups(w: World, r: nat): nat {
    Count(w.cleaned, r)
  }

  datatype Step =
    | Construct(g: nat, resource: nat, hasCleanup: bool)
    | MoveConstruct(g: nat, from: nat, residue: nat, cleanupStays: bool)
    | MoveAssign(g: nat, from: nat, residue: nat, cleanupStays: bool)
    | Release(g: nat)
    | Destroy(g: nat)

  function RunCleanup(cleaned: map<nat, nat>, g: Guard): map<nat, nat> {
    if !g.released && g.hasCleanup then cleaned[g.resource := Count(cleaned, g.resource) + 1] else cleaned
  }

  function Husk(residue: nat, cleanupStays: bool): Guard {
    Guard(residue, cleanupStays, true)
  }

  // Steps on guards that do not exist, or that would reuse a name, do nothing.
  function Next(w: World, step: Step): World {
    match step
    case Construct(g, r, hasCleanup) =>
      if g in w.guards || r in w.made then w
      else w.(guards := w.guards[g := Guard(r, hasCleanup, false)], made := w.made[r := hasCleanup])
    case MoveConstruct(g, from, residue, cleanupStays) =>
      if g in w.guards || from !in w.guards then w
      else w.(guards := w.guards[g := w.guards[from]][from := Husk(residue, cleanupStays)])
    case MoveAssign(g, from, residue, cleanupStays) =>
      if g !in w.guards || from !in w.guards || g == from then w
      else w.(cleaned := RunCleanup(w.cleaned, w.guards[g]),
              guards := w.guards[g := w.guards[from]][from := Husk(residue, cleanupStays)])
    case Release(g) =>
      if g !in w.guards then w
      else w.(guards := w.guards[g := w.guards[g].(released := true)],
              given := if w.guards[g].released then w.given else w.given + {w.guards[g].resource})
    case Destroy(g) =>
      if g !in w.guards then w
      else w.(cleaned := RunCleanup(w.cleaned, w.guards[g]), guards := w.guards - {g})
  }

  function Exec(steps: seq<Step>): World {
    if steps == [] then Start() else
      var n := |steps| - 1;
      Next(Exec(steps[..n]), steps[n])
  }

  // ----- ownership -----

  ghost predicate Owned(w: World, r: nat) {
    exists g :: g in w.guards && Owns(w.guards[g], r)
  }

  ghost predicate SingleOwner(w: World) {
    forall g, h ::
      (g in w.guards && h in w.guards && !w.guards[g].released && !w.guards[h].released
       && w.guards[g].resource == w.guards[h].resource) ==> g == h
  }

  // A resource is untouched while it is owned; afterwards it was cleaned up once, unless it was
  // given away or had no cleanup.
  ghost predicate Settled(w: World, r: nat) {
    && (r !in w.made ==> !Owned(w, r) && Cleanups(w, r) == 0 && r !in w.given)
    && (Owned(w, r) ==> Cleanups(w, r) == 0 && r !in w.given)
    && (r in w.made && !Owned(w, r) ==> Cleanups(w, r) == if w.made[r] && r !in w.given then 1 else 0)
  }

  ghost predicate CleanupsMatch(w: World) {
    forall g :: g in w.guards && !w.guards[g].released ==>
      w.guards[g].resource in w.made && w.made[w.guards[g].resource] == w.guards[g].hasCleanup
  }

  ghost predicate Inv(w: World) {
    SingleOwner(w) && CleanupsMatch(w) && forall r: nat :: Settled(w, r)
  }

  lemma OwnerIn(w: World, g: nat)
    requires g in w.guards && !w.guards[g].released
    ensures Owned(w, w.guards[g].resource)
  {
    assert Owns(w.guards[g], w.guards[g].resource);
  }

  // What a guard h other than g and `from` owns, it goes on owning.
  lemma StillOwned(w: World, w': World, x: nat, h: nat)
    requires h in w.guards && Owns(w.guards[h], x) && h in w'.guards && w'.guards[h] == w.guards[h]
    ensures Owned(w', x)
  {
  }

  lemma ConstructKeepsInv(w: World, g: nat, r: nat, hasCleanup: bool)
    requires Inv(w)
    ensures Inv(Next(w, Construct(g, r, hasCleanup)))
  {
    var w' := Next(w, Construct(g, r, hasCleanup));
    assert Settled(w, r);
    if w' != w {
      OwnerIn(w', g);
      forall x: nat ensures Settled(w', x) {
        assert Settled(w, x);
        if Owned(w, x) {
          var h :| h in w.guards && Owns(w.guards[h], x);
          StillOwned(w, w', x, h);
        }
      }
      forall h | h in w.guards && !w.guards[h].released ensures w.guards[h].resource != r { OwnerIn(w, h); }
    }
  }

  lemma MoveConstructKeepsInv(w: World, g: nat, from: nat, residue: nat, cleanupStays: bool)
    requires Inv(w)
    ensures Inv(Next(w, MoveConstruct(g, from, residue, cleanupStays)))
  {
    var w' := Next(w, MoveConstruct(g, from, residue, cleanupStays));
    if w' != w {
      forall x: nat ensures Settled(w', x) {
        assert Settled(w, x);
        if Owned(w, x) {
          var h :| h in w.guards && Owns(w.guards[h], x);
          assert Owns(w'.guards[if h == from then g else h], x);
        }
      }
    }
  }

  // The guard g stops owning, by a cleanup, and everything else is owned as before.
  lemma EndKeepsSettled(w: World, w': World, g: nat, x: nat)
    requires Inv(w) && g in w.guards
    requires w'.made == w.made
    requires w'.cleaned == RunCleanup(w.cleaned, w.guards[g]) && w'.given == w.given
    requires Owned(w', x) <==> Owned(w, x) && !Owns(w.guards[g], x)
    ensures Settled(w', x)
  {
    assert Settled(w, x);
    if Owns(w.guards[g], x) { OwnerIn(w, g); }
  }

  lemma MoveAssignKeepsInv(w: World, g: nat, from: nat, residue: nat, cleanupStays: bool)
    requires Inv(w)
    ensures Inv(Next(w, MoveAssign(g, from, residue, cleanupStays)))
  {
    var w' := Next(w, MoveAssign(g, from, residue, cleanupStays));
    if w' != w {
      forall x: nat ensures Settled(w', x) {
        if Owned(w, x) && !Owns(w.guards[g], x) {
          var h :| h in w.guards && Owns(w.guards[h], x);
          assert Owns(w'.guards[if h == from then g else h], x);
        }
        EndKeepsSettled(w, w', g, x);
      }
    }
  }

  lemma DestroyKeepsInv(w: World, g: nat)
    requires Inv(w)
    ensures Inv(Next(w, Destroy(g)))
  {
    var w' := Next(w, Destroy(g));
    if w' != w {
      forall x: nat ensures Settled(w', x) {
        if Owned(w, x) && !Owns(w.guards[g], x) {
          var h :| h in w.guards && Owns(w.guards[h], x);
          StillOwned(w, w', x, h);
        }
        EndKeepsSettled(w, w', g, x);
      }
    }
  }

  lemma ReleaseKeepsInv(w: World, g: nat)
    requires Inv(w)
    ensures Inv(Next(w, Release(g)))
  {
    var w' := Next(w, Release(g));
    if w' != w {
      forall x: nat ensures Settled(w', x) {
        assert Settled(w, x);
        if Owns(w.guards[g], x) { OwnerIn(w, g); }
        if Owned(w, x) && !Owns(w.guards[g], x) {
          var h :| h in w.guards && Owns(w.guards[h], x);
          StillOwned(w, w', x, h);
        }
      }
    }
  }

  lemma {:induction false} EveryRunKeepsInv(steps: seq<Step>)
    ensures Inv(Exec(steps))
  {
    if steps != [] {
      var w := Exec(steps[..|steps| - 1]);
      EveryRunKeepsInv(steps[..|steps| - 1]);
      match steps[|steps| - 1]
      case Construct(g, r, hasCleanup) => ConstructKeepsInv(w, g, r, hasCleanup);
      case MoveConstruct(g, from, residue, stays) => MoveConstructKeepsInv(w, g, from, residue, stays);
      case MoveAssign(g, from, residue, stays) => MoveAssignKeepsInv(w, g, from, residue, stays);
      case Release(g) => ReleaseKeepsInv(w, g);
      case Destroy(g) => DestroyKeepsInv(w, g);
    }
  }

  /** At any time a resource has at most one live guard that will clean it up. */
  lemma AtMostOneOwner(steps: seq<Step>, g: nat, h: nat, r: nat)
    requires var w := Exec(steps);
             g in w.guards && h in w.guards && Owns(w.guards[g], r) && Owns(w.guards[h], r)
    ensures g == h
  {
    EveryRunKeepsInv(steps);
  }

  /** A cleanup never runs while a guard still owns the resource, and never twice. */
  lemma NeverTwice(steps: seq<Step>, r: nat)
    ensures Cleanups(Exec(steps), r) <= 1
    ensures Owned(Exec(steps), r) ==> Cleanups(Exec(steps), r) == 0
  {
    EveryRunKeepsInv(steps);
    assert Settled(Exec(steps), r);
  }

  /** When all guards are gone, every resource made with a cleanup was cleaned up exactly once, or
      never if its owner had released it. */
  lemma CleanedExactlyOnce(steps: seq<Step>, r: nat)
    requires Exec(steps).guards == map[] && r in Exec(steps).made
    ensures Cleanups(Exec(steps), r) == if Exec(steps).made[r] && r !in Exec(steps).given then 1 else 0
  {
    EveryRunKeepsInv(steps);
    assert Settled(Exec(steps), r);
  }

  // ----- the source's class -----

  // Where cleanups leave their trace.
  class CleanupLog {
    var cleaned: map<nat, nat>

    constructor ()
      ensures cleaned == map[]
    {
      cleaned := map[];
    }

    method Run(resource: nat)
      modifies this
      ensures cleaned == old(cleaned)[resource := Count(old(cleaned), resource) + 1]
    {
      cleaned := cleaned[resource := Count(cleaned, resource) + 1];
    }
  }

  class ResourceGuard {
    var resource: nat
    var hasCleanup: bool
    var released: bool

    function View(): Guard
      reads this
    {
      Guard(resource, hasCleanup, released)
    }

    constructor Make(hasCleanup: bool, resource: nat)
      ensures View() == Guard(resource, hasCleanup, false)
    {
      this.resource, this.hasCleanup, released := resource, hasCleanup, false;
    }

    constructor MoveFrom(other: ResourceGuard, residue: nat, cleanupStays: bool)
      modifies other
      ensures View() == old(other.View()) && other.View() == Husk(residue, cleanupStays)
    {
      resource, hasCleanup, released := other.resource, other.hasCleanup, other.released;
      new;
      other.resource, other.hasCleanup, other.released := residue, cleanupStays, true;
    }

    method Assign(other: ResourceGuard, log: CleanupLog, residue: nat, cleanupStays: bool)
      modifies this, other, log
      ensures this == other ==> View() == old(View()) && log.cleaned == old(log.cleaned)
      ensures this != other ==>
                View() == old(other.View()) && other.View() == Husk(residue, cleanupStays)
                && log.cleaned == RunCleanup(old(log.cleaned), old(View()))
    {
      if this != other {
        if !released && hasCleanup { log.Run(resource); }
        resource, hasCleanup, released := other.resource, other.hasCleanup, other.released;
        other.resource, other.hasCleanup, other.released := residue, cleanupStays, true;
      }
    }

    method Release()
      modifies this
      ensures View() == old(View()).(released := true)
    {
      released := true;
    }

    // The destructor.
    method Destroy(log: CleanupLog)
      modifies log
      ensures log.cleaned == RunCleanup(old(log.cleaned), View())
    {
      if !released && hasCleanup { log.Run(resource); }
    }
  }
}
