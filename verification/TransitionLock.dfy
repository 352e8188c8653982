/** The per-node transition lock (d3_transition) as a state machine over schedule, start and tick steps. */
module TransitionLock {
  import opened Wrappers

  /** A scheduled transition waits for its start, then ticks until it stops. */
  datatype Phase = Waiting | Running | Stopped

  /** The closure that one transition keeps for the node: its id, the lock that it found there, and how far it is. */
  datatype Holder = Holder(id: int, lock: nat, phase: Phase)

  datatype Lock = Lock(active: int, count: int)

  /** What is observable: a transition took the lock, applied its tweens, or stopped. */
  datatype Event =
    | Started(holder: nat, id: int, lock: nat)
    | Applied(holder: nat, id: int, lock: nat)
    | Ended(holder: nat, id: int, lock: nat)

  /** All locks that the node ever had, oldest first; attached is node.__transition__. */
  datatype State = State(locks: seq<Lock>, attached: Option<nat>, holders: seq<Holder>, log: seq<Event>)

  const INITIAL := State([], None, [], [])

  datatype Step =
    | Schedule(id: int, due: bool, finished: bool)  // due: delay <= elapsed; finished: the tick from start reaches t >= 1
    | Start(holder: nat, finished: bool)
    | Tick(holder: nat, finished: bool)

  // ---------------------------------------------------------------- the steps

  /** The holder and its lock exist. */
  predicate Holds(s: State, h: nat) {
    h < |s.holders| && s.holders[h].lock < |s.locks|
  }

  function Stop(s: State, h: nat): State
    requires Holds(s, h)
  {
    var o := s.holders[h];
    var k := s.locks[o.lock].(count := s.locks[o.lock].count - 1);
    s.(locks := s.locks[o.lock := k], attached := if k.count == 0 then None else s.attached,
       holders := s.holders[h := o.(phase := Stopped)], log := s.log + [Ended(h, o.id, o.lock)])
  }

  /** lock.active = id, when the transition starts. */
  function Take(s: State, h: nat): State
    requires Holds(s, h)
  {
    var o := s.holders[h];
    s.(locks := s.locks[o.lock := s.locks[o.lock].(active := o.id)],
       holders := s.holders[h := o.(phase := Running)], log := s.log + [Started(h, o.id, o.lock)])
  }

  function Apply(s: State, h: nat): State
    requires Holds(s, h)
  {
    s.(log := s.log + [Applied(h, s.holders[h].id, s.holders[h].lock)])
  }

  function DoTick(s: State, h: nat, finished: bool): State
    requires Holds(s, h)
  {
    var o := s.holders[h];
    if s.locks[o.lock].active != o.id then Stop(s, h)
    else if finished then Stop(Apply(s, h), h) else Apply(s, h)
  }

  function DoStart(s: State, h: nat, finished: bool): State
    requires Holds(s, h)
  {
    var o := s.holders[h];
    if s.locks[o.lock].active > o.id then Stop(s, h)
    else DoTick(Take(s, h), h, finished)
  }

  /** Finds or makes the lock, and counts the new holder. */
  function Join(s: State, id: int): State
    requires s.attached.Some? ==> s.attached.value < |s.locks|
  {
    var l := if s.attached.Some? then s.attached.value else |s.locks|;
    var locks := if s.attached.Some? then s.locks else s.locks + [Lock(0, 0)];
    s.(locks := locks[l := locks[l].(count := locks[l].count + 1)], attached := Some(l),
       holders := s.holders + [Holder(id, l, Waiting)])
  }

  predicate Enabled(s: State, step: Step) {
    match step
    case Schedule(_, _, _) => s.attached.Some? ==> s.attached.value < |s.locks|
    case Start(h, _) => Holds(s, h) && s.holders[h].phase == Waiting
    case Tick(h, _) => Holds(s, h) && s.holders[h].phase == Running
  }

  function Next(s: State, step: Step): State
    requires Enabled(s, step)
  {
    match step
    case Schedule(id, due, finished) =>
      if due then DoStart(Join(s, id), |s.holders|, finished) else Join(s, id)
    case Start(h, finished) => DoStart(s, h, finished)
    case Tick(h, finished) => DoTick(s, h, finished)
  }

  // ---------------------------------------------------------------- the invariant

  /** The transitions that hold lock l and have not stopped. */
  function Unstopped(holders: seq<Holder>, l: nat): nat {
    if holders == [] then 0
    else (if holders[0].lock == l && holders[0].phase != Stopped then 1 else 0) + Unstopped(holders[1..], l)
  }

  ghost predicate LockOk(s: State, l: nat)
    requires l < |s.locks|
  {
    && s.locks[l].count == Unstopped(s.holders, l)
    && (s.attached == Some(l) <==> s.locks[l].count > 0)
  }

  ghost predicate HolderOk(s: State, h: nat)
    requires h < |s.holders|
  {
    && s.holders[h].lock < |s.locks|
    && (s.holders[h].phase == Running ==> s.holders[h].id <= s.locks[s.holders[h].lock].active)
  }

  /** Every event belongs to a holder, and a start has left its mark on the lock. */
  ghost predicate EventOk(s: State, e: Event) {
    && e.holder < |s.holders| && s.holders[e.holder].id == e.id && s.holders[e.holder].lock == e.lock
    && e.lock < |s.locks|
    && (e.Started? ==> e.id <= s.locks[e.lock].active)
  }

  /** A transition applies its tweens only while no higher id has started on the same lock before. */
  ghost predicate InTurn(log: seq<Event>) {
    forall a, b :: 0 <= a < b < |log| && log[a].Started? && log[b].Applied? ==>
      log[a].lock < log[b].lock || (log[a].lock == log[b].lock && log[a].id <= log[b].id)
  }

  /** How often holder h has stopped. */
  function Endings(log: seq<Event>, h: nat): nat {
    if log == [] then 0
    else (if log[|log| - 1].Ended? && log[|log| - 1].holder == h then 1 else 0) + Endings(log[..|log| - 1], h)
  }

  ghost predicate EndsOnce(s: State, h: nat)
    requires h < |s.holders|
  {
    Endings(s.log, h) == if s.holders[h].phase == Stopped then 1 else 0
  }

  ghost predicate Inv(s: State) {
    && (s.attached.Some? ==> s.attached.value == |s.locks| - 1)
    && (forall l :: 0 <= l < |s.locks| ==> LockOk(s, l))
    && (forall h :: 0 <= h < |s.holders| ==> HolderOk(s, h) && EndsOnce(s, h))
    && (forall i :: 0 <= i < |s.log| ==> EventOk(s, s.log[i]))
    && InTurn(s.log)
  }

  // ---------------------------------------------------------------- counting

  lemma {:induction false} UnstoppedAppend(holders: seq<Holder>, o: Holder, l: nat)
    ensures Unstopped(holders + [o], l) == Unstopped(holders, l) + (if o.lock == l && o.phase != Stopped then 1 else 0)
  {
    if holders == [] {
      assert holders + [o] == [o];
    } else {
      assert (holders + [o])[1..] == holders[1..] + [o];
      UnstoppedAppend(holders[1..], o, l);
    }
  }

  lemma {:induction false} UnstoppedUpdate(holders: seq<Holder>, h: nat, o: Holder, l: nat)
    requires h < |holders| && o.lock == holders[h].lock
    ensures Unstopped(holders[h := o], l) == Unstopped(holders, l)
      + (if o.lock == l && o.phase != Stopped then 1 else 0)
      - (if o.lock == l && holders[h].phase != Stopped then 1 else 0)
  {
    if h == 0 {
      assert holders[h := o][1..] == holders[1..];
    } else {
      assert holders[h := o][1..] == holders[1..][h - 1 := o];
      UnstoppedUpdate(holders[1..], h - 1, o, l);
    }
  }

  lemma {:induction false} UnstoppedPositive(holders: seq<Holder>, h: nat)
    requires h < |holders| && holders[h].phase != Stopped
    ensures Unstopped(holders, holders[h].lock) > 0
  {
    if h == 0 {
    } else {
      UnstoppedPositive(holders[1..], h - 1);
    }
  }

  /** The lock of an unstopped transition is the attached one, and the newest. */
  lemma HolderIsAttached(s: State, h: nat)
    requires Inv(s) && h < |s.holders| && s.holders[h].phase != Stopped
    ensures Holds(s, h) && s.attached == Some(s.holders[h].lock) && s.holders[h].lock == |s.locks| - 1
  {
    UnstoppedPositive(s.holders, h);
    assert HolderOk(s, h);
    assert LockOk(s, s.holders[h].lock);
  }

  lemma {:induction false} EndingsOfNewHolder(log: seq<Event>, h: nat)
    requires forall i :: 0 <= i < |log| ==> log[i].holder < h
    ensures Endings(log, h) == 0
  {
    if log == [] {
    } else {
      EndingsOfNewHolder(log[..|log| - 1], h);
    }
  }

  lemma EndingsAppend(log: seq<Event>, e: Event, h: nat)
    ensures Endings(log + [e], h) == Endings(log, h) + (if e.Ended? && e.holder == h then 1 else 0)
  {
    assert (log + [e])[..|log|] == log;
  }

  // ---------------------------------------------------------------- every step keeps the invariant

  lemma {:induction false} NoHolders(holders: seq<Holder>, l: nat)
    requires forall h :: 0 <= h < |holders| ==> holders[h].lock != l
    ensures Unstopped(holders, l) == 0
  {
    if holders == [] {
    } else {
      NoHolders(holders[1..], l);
    }
  }

  lemma JoinKeeps(s: State, id: int)
    requires Inv(s)
    ensures Inv(Join(s, id))
    ensures var h := |s.holders|; Holds(Join(s, id), h) && Join(s, id).holders[h].phase == Waiting
  {
    var t := Join(s, id);
    var l, o := t.attached.value, t.holders[|s.holders|];
    forall k | 0 <= k < |t.locks| ensures LockOk(t, k) {
      UnstoppedAppend(s.holders, o, k);
      if k < |s.locks| {
        assert LockOk(s, k);
      } else {
        forall h | 0 <= h < |s.holders| ensures s.holders[h].lock != k {
          assert HolderOk(s, h);
        }
        NoHolders(s.holders, k);
      }
    }
    forall h | 0 <= h < |t.holders| ensures HolderOk(t, h) && EndsOnce(t, h) {
      if h < |s.holders| {
        assert HolderOk(s, h) && EndsOnce(s, h);
      } else {
        forall i | 0 <= i < |s.log| ensures s.log[i].holder < h {
          assert EventOk(s, s.log[i]);
        }
        EndingsOfNewHolder(s.log, h);
      }
    }
    forall i | 0 <= i < |t.log| ensures EventOk(t, t.log[i]) {
      assert EventOk(s, s.log[i]);
    }
  }

  lemma StopKeeps(s: State, h: nat)
    requires Inv(s) && h < |s.holders| && s.holders[h].phase != Stopped
    ensures Holds(s, h) && Inv(Stop(s, h)) && Stop(s, h).holders[h].phase == Stopped
  {
    HolderIsAttached(s, h);
    var t, l := Stop(s, h), s.holders[h].lock;
    var e := t.log[|s.log|];
    forall k | 0 <= k < |t.locks| ensures LockOk(t, k) {
      assert LockOk(s, k);
      UnstoppedUpdate(s.holders, h, t.holders[h], k);
    }
    forall j | 0 <= j < |t.holders| ensures HolderOk(t, j) && EndsOnce(t, j) {
      assert HolderOk(s, j) && EndsOnce(s, j);
      EndingsAppend(s.log, e, j);
    }
    LogGrows(s, t, e);
  }

  lemma TakeKeeps(s: State, h: nat)
    requires Inv(s) && Holds(s, h) && s.holders[h].phase == Waiting && s.locks[s.holders[h].lock].active <= s.holders[h].id
    ensures Inv(Take(s, h)) && Holds(Take(s, h), h)
  {
    HolderIsAttached(s, h);
    var t := Take(s, h);
    var e := t.log[|s.log|];
    forall k | 0 <= k < |t.locks| ensures LockOk(t, k) {
      assert LockOk(s, k);
      UnstoppedUpdate(s.holders, h, t.holders[h], k);
    }
    forall j | 0 <= j < |t.holders| ensures HolderOk(t, j) && EndsOnce(t, j) {
      assert HolderOk(s, j) && EndsOnce(s, j);
      EndingsAppend(s.log, e, j);
    }
    LogGrows(s, t, e);
  }

  lemma ApplyKeeps(s: State, h: nat)
    requires Inv(s) && Holds(s, h) && s.holders[h].phase == Running && s.locks[s.holders[h].lock].active == s.holders[h].id
    ensures Inv(Apply(s, h))
  {
    HolderIsAttached(s, h);
    var t := Apply(s, h);
    var e := t.log[|s.log|];
    forall k | 0 <= k < |t.locks| ensures LockOk(t, k) {
      assert LockOk(s, k);
    }
    forall j | 0 <= j < |t.holders| ensures HolderOk(t, j) && EndsOnce(t, j) {
      assert HolderOk(s, j) && EndsOnce(s, j);
      EndingsAppend(s.log, e, j);
    }
    LogGrows(s, t, e);
  }

  /** Appending an event that is in turn keeps the log in order. */
  lemma LogGrows(s: State, t: State, e: Event)
    requires Inv(s) && t.log == s.log + [e] && |t.locks| == |s.locks| && |t.holders| == |s.holders|
    requires forall l :: 0 <= l < |s.locks| ==> s.locks[l].active <= t.locks[l].active
    requires forall h :: 0 <= h < |s.holders| ==> s.holders[h].id == t.holders[h].id && s.holders[h].lock == t.holders[h].lock
    requires EventOk(t, e) && (e.Applied? ==> e.lock == |s.locks| - 1 && e.id == s.locks[e.lock].active)
    ensures (forall i :: 0 <= i < |t.log| ==> EventOk(t, t.log[i])) && InTurn(t.log)
  {
    forall i | 0 <= i < |t.log| ensures EventOk(t, t.log[i]) {
      assert i < |s.log| ==> EventOk(s, s.log[i]);
    }
    forall a, b | 0 <= a < b < |t.log| && t.log[a].Started? && t.log[b].Applied?
      ensures t.log[a].lock < t.log[b].lock || (t.log[a].lock == t.log[b].lock && t.log[a].id <= t.log[b].id)
    {
      assert EventOk(s, s.log[a]);
    }
  }

  lemma TickKeeps(s: State, h: nat, finished: bool)
    requires Inv(s) && Holds(s, h) && s.holders[h].phase == Running
    ensures Inv(DoTick(s, h, finished))
  {
    hide Inv, Stop;
    if s.locks[s.holders[h].lock].active != s.holders[h].id {
      StopKeeps(s, h);
    } else {
      ApplyKeeps(s, h);
      if finished {
        StopKeeps(Apply(s, h), h);
      }
    }
  }

  lemma StartKeeps(s: State, h: nat, finished: bool)
    requires Inv(s) && Holds(s, h) && s.holders[h].phase == Waiting
    ensures Inv(DoStart(s, h, finished))
  {
    hide Inv, Stop, DoTick;
    if s.locks[s.holders[h].lock].active > s.holders[h].id {
      StopKeeps(s, h);
    } else {
      TakeKeeps(s, h);
      TickKeeps(Take(s, h), h, finished);
    }
  }

  lemma NextKeeps(s: State, step: Step)
    requires Inv(s) && Enabled(s, step)
    ensures Inv(Next(s, step))
  {
    hide Inv, DoTick, DoStart, Join;
    match step
    case Schedule(id, due, finished) =>
      JoinKeeps(s, id);
      if due {
        StartKeeps(Join(s, id), |s.holders|, finished);
      }
    case Start(h, finished) => StartKeeps(s, h, finished);
    case Tick(h, finished) => TickKeeps(s, h, finished);
  }

  // ---------------------------------------------------------------- whole runs

  /** The states that the node goes through from the start, one step at a time. */
  ghost predicate IsRun(states: seq<State>, steps: seq<Step>) {
    && |states| == |steps| + 1 && states[0] == INITIAL
    && forall i :: 0 <= i < |steps| ==> StepAt(states, steps, i)
  }

  ghost predicate StepAt(states: seq<State>, steps: seq<Step>, i: nat)
    requires i < |steps| && |states| == |steps| + 1
  {
    Enabled(states[i], steps[i]) && states[i + 1] == Next(states[i], steps[i])
  }

  lemma {:induction false} RunKeepsInv(states: seq<State>, steps: seq<Step>, i: nat)
    requires IsRun(states, steps) && i < |states|
    ensures Inv(states[i])
  {
    if i == 0 {
    } else {
      RunKeepsInv(states, steps, i - 1);
      assert StepAt(states, steps, i - 1);
      NextKeeps(states[i - 1], steps[i - 1]);
    }
  }

  /**
   * In every state of every run: the count of each lock is the number of its unstopped transitions, a lock is attached
   * exactly while one of its transitions has not stopped, and each transition has stopped at most once, as its phase says.
   */
  lemma LocksCountTransitions(states: seq<State>, steps: seq<Step>, i: nat)
    requires IsRun(states, steps) && i < |states|
    ensures var s := states[i];
      && (forall l :: 0 <= l < |s.locks| ==> s.locks[l].count == Unstopped(s.holders, l))
      && (forall l :: 0 <= l < |s.locks| ==> (s.attached == Some(l) <==> Unstopped(s.holders, l) > 0))
      && (s.attached.Some? <==> exists h :: 0 <= h < |s.holders| && s.holders[h].phase != Stopped)
      && (forall h :: 0 <= h < |s.holders| ==> Endings(s.log, h) == if s.holders[h].phase == Stopped then 1 else 0)
  {
    RunKeepsInv(states, steps, i);
    var s := states[i];
    forall l | 0 <= l < |s.locks|
      ensures s.locks[l].count == Unstopped(s.holders, l) && (s.attached == Some(l) <==> Unstopped(s.holders, l) > 0)
    {
      assert LockOk(s, l);
    }
    forall h | 0 <= h < |s.holders| ensures Endings(s.log, h) == if s.holders[h].phase == Stopped then 1 else 0 {
      assert EndsOnce(s, h);
    }
    if h :| 0 <= h < |s.holders| && s.holders[h].phase != Stopped {
      HolderIsAttached(s, h);
    }
    if s.attached.Some? {
      var h := SomeUnstopped(s.holders, s.attached.value);
    }
  }

  lemma {:induction false} SomeUnstopped(holders: seq<Holder>, l: nat) returns (h: nat)
    requires Unstopped(holders, l) > 0
    ensures h < |holders| && holders[h].phase != Stopped && holders[h].lock == l
  {
    if holders[0].lock == l && holders[0].phase != Stopped {
      h := 0;
    } else {
      h := SomeUnstopped(holders[1..], l);
      h := h + 1;
    }
  }

  /** No transition applies its tweens after one with a higher id has started on the same lock. */
  lemma NoLowerAfterHigher(states: seq<State>, steps: seq<Step>, i: nat, a: nat, b: nat)
    requires IsRun(states, steps) && i < |states|
    requires a < b < |states[i].log| && states[i].log[a].Started? && states[i].log[b].Applied?
    requires states[i].log[a].lock == states[i].log[b].lock
    ensures states[i].log[a].id <= states[i].log[b].id
  {
    RunKeepsInv(states, steps, i);
  }

  lemma StepKeepsActive(s: State, step: Step, l: nat)
    requires Inv(s) && Enabled(s, step) && l < |s.locks|
    ensures l < |Next(s, step).locks| && s.locks[l].active <= Next(s, step).locks[l].active
  {
  }

  /** The active id of a lock never decreases. */
  lemma {:induction false} ActiveNeverDecreases(states: seq<State>, steps: seq<Step>, i: nat, j: nat, l: nat)
    requires IsRun(states, steps) && i <= j < |states| && l < |states[i].locks|
    ensures l < |states[j].locks| && states[i].locks[l].active <= states[j].locks[l].active
    decreases j
  {
    hide Next;
    if i == j {
    } else {
      ActiveNeverDecreases(states, steps, i, j - 1, l);
      RunKeepsInv(states, steps, j - 1);
      assert StepAt(states, steps, j - 1);
      StepKeepsActive(states[j - 1], steps[j - 1], l);
    }
  }

  /**
   * Between two lives of the lock nothing is remembered: a transition that finishes at once removes the lock, and a lower
   * id that is scheduled afterwards still applies its tweens.
   */
  lemma LowerAfterHigherOnNewLock()
    ensures exists states: seq<State>, steps: seq<Step> ::
      && IsRun(states, steps)
      && states[|steps|].log == [Started(0, 2, 0), Applied(0, 2, 0), Ended(0, 2, 0), Started(1, 1, 1), Applied(1, 1, 1)]
  {
    var steps := [Schedule(2, true, true), Schedule(1, true, false)];
    var s1 := Next(INITIAL, steps[0]);
    var s2 := Next(s1, steps[1]);
    var states := [INITIAL, s1, s2];
    assert s1.attached == None && s1.log == [Started(0, 2, 0), Applied(0, 2, 0), Ended(0, 2, 0)];
    assert StepAt(states, steps, 0) && StepAt(states, steps, 1);
    assert s2.log == s1.log + [Started(1, 1, 1), Applied(1, 1, 1)];
    assert IsRun(states, steps);
  }
}
