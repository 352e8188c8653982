/** The lock objects and closures of d3_transition on one node, proved against the state machine. */
module TransitionNodes {
  import opened Wrappers
  import T = TransitionLock

  class LockObject {
    ghost const index: nat
    var active: int
    var count: int

    constructor (ghost index: nat)
      ensures this.index == index && active == 0 && count == 0
    {
      this.index, active, count := index, 0, 0;
    }
  }

  /** What the closures start, tick and stop of one transition share. */
  class Closure {
    ghost const index: nat
    const id: int
    const lock: LockObject
    var phase: T.Phase

    constructor (ghost index: nat, id: int, lock: LockObject)
      ensures this.index == index && this.id == id && this.lock == lock && phase == T.Waiting
    {
      this.index, this.id, this.lock, phase := index, id, lock, T.Waiting;
    }
  }

  class Element {
    var transition: LockObject?  // node.__transition__
    ghost var locks: seq<LockObject>
    ghost var closures: seq<Closure>
    ghost var log: seq<T.Event>
    ghost var Repr: set<object>

    ghost predicate Valid()
      reads this, Repr
    {
      && (forall l {:trigger locks[l]} :: 0 <= l < |locks| ==> locks[l] in Repr && locks[l].index == l)
      && (forall h {:trigger closures[h]} :: 0 <= h < |closures| ==> closures[h] in Repr && closures[h].index == h)
      && (forall h {:trigger closures[h].lock} :: 0 <= h < |closures| ==> Known(closures[h].lock))
      && (transition != null ==> Known(transition))
    }

    ghost predicate Known(l: LockObject)
      reads this
    {
      l.index < |locks| && locks[l.index] == l
    }

    ghost function State(): (s: T.State)
      requires Valid()
      reads this, Repr
      ensures |s.locks| == |locks| && |s.holders| == |closures| && s.log == log
      ensures forall l {:trigger s.locks[l]} :: 0 <= l < |locks| ==> s.locks[l] == T.Lock(locks[l].active, locks[l].count)
      ensures forall h {:trigger s.holders[h]} :: 0 <= h < |closures| ==>
        s.holders[h] == T.Holder(closures[h].id, closures[h].lock.index, closures[h].phase)
      ensures s.attached == if transition == null then None else Some(transition.index)
    {
      T.State(
        seq(|locks|, l requires 0 <= l < |locks| reads this, Repr =>
          if locks[l] in Repr then T.Lock(locks[l].active, locks[l].count) else T.Lock(0, 0)),
        if transition == null then None else Some(transition.index),
        seq(|closures|, h requires 0 <= h < |closures| reads this, Repr =>
          T.Holder(closures[h].id, closures[h].lock.index, if closures[h] in Repr then closures[h].phase else T.Waiting)),
        log)
    }

    constructor ()
      ensures Valid() && State() == T.INITIAL && fresh(Repr)
    {
      transition, locks, closures, log, Repr := null, [], [], [], {};
    }

    method Stop(c: Closure)
      requires Valid() && c.index < |closures| && closures[c.index] == c
      modifies this, Repr
      ensures Valid() && Repr == old(Repr) && closures == old(closures) && locks == old(locks)
      ensures State() == T.Stop(old(State()), c.index)
    {
      c.lock.count := c.lock.count - 1;
      if c.lock.count == 0 { transition := null; }
      c.phase := T.Stopped;
      log := log + [T.Ended(c.index, c.id, c.lock.index)];
    }

    method Tick(c: Closure, finished: bool)
      requires Valid() && c.index < |closures| && closures[c.index] == c
      modifies this, Repr
      ensures Valid() && Repr == old(Repr) && closures == old(closures) && locks == old(locks)
      ensures State() == T.DoTick(old(State()), c.index, finished)
    {
      if c.lock.active != c.id {
        Stop(c);
        return;
      }
      log := log + [T.Applied(c.index, c.id, c.lock.index)];
      if finished {
        Stop(c);
      }
    }

    method Start(c: Closure, finished: bool)
      requires Valid() && c.index < |closures| && closures[c.index] == c
      modifies this, Repr
      ensures Valid() && Repr == old(Repr) && closures == old(closures) && locks == old(locks)
      ensures State() == T.DoStart(old(State()), c.index, finished)
    {
      hide T.DoTick, T.Stop;
      if c.lock.active > c.id {
        Stop(c);
      } else {
        Take(c);
        Tick(c, finished);
      }
    }

    method Take(c: Closure)
      requires Valid() && c.index < |closures| && closures[c.index] == c
      modifies this, Repr
      ensures Valid() && Repr == old(Repr) && closures == old(closures) && locks == old(locks)
      ensures State() == T.Take(old(State()), c.index)
    {
      c.lock.active := c.id;
      c.phase := T.Running;
      log := log + [T.Started(c.index, c.id, c.lock.index)];
    }

    method Schedule(id: int, due: bool, finished: bool) returns (c: Closure)
      requires Valid()
      modifies this, Repr
      ensures Valid() && fresh(Repr - old(Repr))
      ensures State() == T.Next(old(State()), T.Schedule(id, due, finished))
    {
      hide T.DoStart, T.Join;
      c := Join(id);
      if due {
        Start(c, finished);
      }
    }

    method Join(id: int) returns (c: Closure)
      requires Valid()
      modifies this, Repr
      ensures Valid() && fresh(Repr - old(Repr))
      ensures c.index == |old(closures)| && c.index < |closures| && closures[c.index] == c
      ensures State() == T.Join(old(State()), id)
    {
      if transition == null {
        AttachNew();
      }
      transition.count := transition.count + 1;
      c := new Closure(|closures|, id, transition);
      closures := closures + [c];
      Repr := Repr + {c};
    }

    method AttachNew()
      requires Valid() && transition == null
      modifies this
      ensures Valid() && fresh(Repr - old(Repr)) && old(Repr) <= Repr && transition != null && closures == old(closures)
      ensures State() == old(State()).(locks := old(State()).locks + [T.Lock(0, 0)], attached := Some(|old(locks)|))
    {
      transition := new LockObject(|locks|);
      locks := locks + [transition];
      Repr := Repr + {transition};
    }
  }
}
