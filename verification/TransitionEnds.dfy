/** When a transition of a node ends: in the step that finishes it or finds it superseded, and so exactly once. */
module TransitionEnds {
  import opened Wrappers
  import opened TransitionLock

  /** The active id of the lock that a transition scheduled in s gets; a new lock starts at 0. */
  function ActiveId(s: State): int
    requires s.attached.Some? ==> s.attached.value < |s.locks|
  {
    if s.attached.Some? then s.locks[s.attached.value].active else 0
  }

  /** In this step transition h starts, or ticks, and is finished or meets an active id that does not allow it to go on. */
  predicate Ends(s: State, step: Step, h: nat)
    requires Enabled(s, step)
  {
    match step
    case Schedule(id, due, finished) => h == |s.holders| && due && (finished || ActiveId(s) > id)
    case Start(g, finished) => h == g && (finished || s.locks[s.holders[h].lock].active > s.holders[h].id)
    case Tick(g, finished) => h == g && (finished || s.locks[s.holders[h].lock].active != s.holders[h].id)
  }

  /** What a step of transition h with this id on lock l logs: it may take the lock, go on, and end. */
  function Logged(h: nat, id: int, l: nat, starts: bool, applies: bool, ends: bool): seq<Event> {
    (if starts then [Started(h, id, l)] else []) + (if applies then [Applied(h, id, l)] else [])
    + (if ends then [Ended(h, id, l)] else [])
  }

  /** What a step logs. A start takes the lock unless its active id is higher; a tick goes on if the two ids agree. */
  function StepLog(s: State, step: Step): seq<Event>
    requires Enabled(s, step)
  {
    match step
    case Schedule(id, due, finished) =>
      var go := due && ActiveId(s) <= id;
      Logged(|s.holders|, id, if s.attached.Some? then s.attached.value else |s.locks|, go, go,
             due && (finished || ActiveId(s) > id))
    case Start(h, finished) =>
      var o := s.holders[h];
      var go := s.locks[o.lock].active <= o.id;
      Logged(h, o.id, o.lock, go, go, finished || !go)
    case Tick(h, finished) =>
      var o := s.holders[h];
      var go := s.locks[o.lock].active == o.id;
      Logged(h, o.id, o.lock, false, go, finished || !go)
  }

  /** Every step logs exactly that, and exactly the transitions that end in it are stopped by it. */
  lemma StepIs(s: State, step: Step)
    requires Enabled(s, step)
    ensures Next(s, step).log == s.log + StepLog(s, step)
    ensures |s.holders| <= |Next(s, step).holders| <= |s.holders| + 1
    ensures forall h :: 0 <= h < |Next(s, step).holders| ==>
      (Next(s, step).holders[h].phase == Stopped <==>
        (h < |s.holders| && s.holders[h].phase == Stopped) || Ends(s, step, h))
  {
    match step
    case Schedule(id, due, finished) =>
      if due {
        StartIs(Join(s, id), |s.holders|, finished);
      }
    case Start(h, finished) => StartIs(s, h, finished);
    case Tick(h, finished) => TickIs(s, h, finished);
  }

  lemma TickIs(s: State, h: nat, finished: bool)
    requires Holds(s, h) && s.holders[h].phase == Running
    ensures var t, o := DoTick(s, h, finished), s.holders[h];
      var go := s.locks[o.lock].active == o.id;
      && t.log == s.log + Logged(h, o.id, o.lock, false, go, finished || !go)
      && t.holders == s.holders[h := o.(phase := if finished || !go then Stopped else Running)]
  {}

  lemma StartIs(s: State, h: nat, finished: bool)
    requires Holds(s, h)
    ensures var t, o := DoStart(s, h, finished), s.holders[h];
      var go := s.locks[o.lock].active <= o.id;
      && t.log == s.log + Logged(h, o.id, o.lock, go, go, finished || !go)
      && t.holders == s.holders[h := o.(phase := if finished || !go then Stopped else Running)]
  {
    hide DoTick;
    if s.locks[s.holders[h].lock].active <= s.holders[h].id {
      TickIs(Take(s, h), h, finished);
    }
  }

  ghost predicate EndsAt(states: seq<State>, steps: seq<Step>, h: nat, i: nat)
    requires i < |steps| && |states| == |steps| + 1
  {
    Enabled(states[i], steps[i]) && Ends(states[i], steps[i], h)
  }

  /** One of the first n steps ends transition h. */
  ghost predicate EndedBy(states: seq<State>, steps: seq<Step>, n: nat, h: nat)
    requires n <= |steps| && |states| == |steps| + 1
  {
    exists i :: 0 <= i < n && EndsAt(states, steps, h, i)
  }

  lemma {:induction false} StoppedIffEnded(states: seq<State>, steps: seq<Step>, n: nat, h: nat)
    requires IsRun(states, steps) && n <= |steps| && h < |states[n].holders|
    ensures states[n].holders[h].phase == Stopped <==> EndedBy(states, steps, n, h)
  {
    hide Next, Ends;
    if n == 0 {
    } else {
      assert StepAt(states, steps, n - 1);
      StepIs(states[n - 1], steps[n - 1]);
      if h < |states[n - 1].holders| {
        StoppedIffEnded(states, steps, n - 1, h);
      } else {
        NotBefore(states, steps, n - 1, h);
      }
      if states[n].holders[h].phase == Stopped && !EndedBy(states, steps, n - 1, h) {
        assert EndsAt(states, steps, h, n - 1);
      }
    }
  }

  /** No step ends a transition that has not been scheduled before or in it. */
  lemma {:induction false} NotBefore(states: seq<State>, steps: seq<Step>, n: nat, h: nat)
    requires IsRun(states, steps) && n <= |steps| && h >= |states[n].holders|
    ensures !EndedBy(states, steps, n, h)
  {
    if n == 0 {
    } else {
      assert StepAt(states, steps, n - 1);
      StepIs(states[n - 1], steps[n - 1]);
      NotBefore(states, steps, n - 1, h);
      NewHolder(states[n - 1], steps[n - 1], h);
    }
  }

  lemma NewHolder(s: State, step: Step, h: nat)
    requires Enabled(s, step) && h >= |Next(s, step).holders|
    ensures !Ends(s, step, h)
  {
    StepIs(s, step);
  }

  /** In every run a transition stops exactly once if some step ends it, and otherwise not at all. */
  lemma StopsOnceIffEnded(states: seq<State>, steps: seq<Step>, h: nat)
    requires IsRun(states, steps) && h < |states[|steps|].holders|
    ensures Endings(states[|steps|].log, h) == if EndedBy(states, steps, |steps|, h) then 1 else 0
  {
    hide EndedBy;
    LocksCountTransitions(states, steps, |steps|);
    StoppedIffEnded(states, steps, |steps|, h);
  }

  /** A run leaves a lock on the node if and only if it leaves a transition that no step ended. */
  lemma LockGoesIffAllEnded(states: seq<State>, steps: seq<Step>)
    requires IsRun(states, steps)
    ensures var s := states[|steps|];
      s.attached == None <==> forall h :: 0 <= h < |s.holders| ==> EndedBy(states, steps, |steps|, h)
  {
    hide EndedBy;
    LocksCountTransitions(states, steps, |steps|);
    var s := states[|steps|];
    forall h | 0 <= h < |s.holders| ensures s.holders[h].phase == Stopped <==> EndedBy(states, steps, |steps|, h) {
      StoppedIffEnded(states, steps, |steps|, h);
    }
  }

  /** A superseded transition stops at its next tick, and leaves the lock to the newer one. */
  lemma SupersededStops()
    ensures exists states: seq<State>, steps: seq<Step> ::
      && IsRun(states, steps) && steps == [Schedule(1, true, false), Schedule(2, true, false), Tick(0, false)]
      && states[3].holders == [Holder(1, 0, Stopped), Holder(2, 0, Running)] && states[3].locks == [Lock(2, 1)]
  {
    var steps := [Schedule(1, true, false), Schedule(2, true, false), Tick(0, false)];
    var s1 := Next(INITIAL, steps[0]);
    assert s1 == State([Lock(1, 1)], Some(0), [Holder(1, 0, Running)], s1.log);
    var s2 := Next(s1, steps[1]);
    assert s2 == State([Lock(2, 2)], Some(0), [Holder(1, 0, Running), Holder(2, 0, Running)], s2.log);
    var s3 := Next(s2, steps[2]);
    var states := [INITIAL, s1, s2, s3];
    assert StepAt(states, steps, 0) && StepAt(states, steps, 1) && StepAt(states, steps, 2);
    assert IsRun(states, steps);
  }
}
