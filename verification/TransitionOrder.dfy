/** When the transitions of a node keep their order across the locks that the node has had one after the other. */
module TransitionOrder {
  import opened TransitionLock

  /** No transition applies its tweens after one with a higher id has started, on whichever lock. */
  ghost predicate InOrder(log: seq<Event>) {
    forall a, b :: 0 <= a < b < |log| && log[a].Started? && log[b].Applied? ==> log[a].id <= log[b].id
  }

  /** The lock lets h start: its active id is not higher. */
  predicate Passes(s: State, h: nat)
    requires Holds(s, h)
  {
    s.locks[s.holders[h].lock].active <= s.holders[h].id
  }

  /** The step starts a transition and is let through by its own lock. */
  predicate Takes(s: State, step: Step)
    requires Enabled(s, step)
  {
    match step
    case Schedule(id, due, _) => due && Passes(Join(s, id), |s.holders|)
    case Start(h, _) => Passes(s, h)
    case Tick(_, _) => false
  }

  function StepId(s: State, step: Step): int
    requires Enabled(s, step)
  {
    match step
    case Schedule(id, _, _) => id
    case Start(h, _) => s.holders[h].id
    case Tick(h, _) => s.holders[h].id
  }

  /** A step that starts a transition has an id that no lock of the node, removed ones included, has passed. */
  ghost predicate Fresh(s: State, step: Step)
    requires Enabled(s, step)
  {
    Takes(s, step) ==> forall l :: 0 <= l < |s.locks| ==> s.locks[l].active <= StepId(s, step)
  }

  ghost predicate FreshAt(states: seq<State>, steps: seq<Step>, i: nat)
    requires i < |steps| && |states| == |steps| + 1
  {
    Enabled(states[i], steps[i]) && Fresh(states[i], steps[i])
  }

  // ---------------------------------------------------------------- what the locks remember

  /** The active id of lock l is the initial one, or that of a transition that started on it. */
  ghost predicate MarkedBy(s: State, l: nat)
    requires l < |s.locks|
  {
    s.locks[l].active == 0
    || (s.locks[l].active > 0 && exists a :: 0 <= a < |s.log| && s.log[a] == Started(s.log[a].holder, s.locks[l].active, l))
  }

  ghost predicate Marked(s: State) {
    forall l :: 0 <= l < |s.locks| ==> MarkedBy(s, l)
  }

  /** The log of t continues that of s, and the locks are marked as before. */
  lemma MarksStay(s: State, t: State)
    requires Marked(s) && s.log <= t.log && |s.locks| == |t.locks|
    requires forall l :: 0 <= l < |s.locks| ==> t.locks[l].active == s.locks[l].active
    ensures Marked(t)
  {
    forall l | 0 <= l < |t.locks| ensures MarkedBy(t, l) {
      assert MarkedBy(s, l);
      if a :| 0 <= a < |s.log| && s.log[a] == Started(s.log[a].holder, s.locks[l].active, l) {
        assert t.log[a] == s.log[a];
      }
    }
  }

  lemma JoinMarks(s: State, id: int)
    requires Inv(s) && Marked(s)
    ensures Marked(Join(s, id))
  {
    var t := Join(s, id);
    forall l | 0 <= l < |t.locks| ensures MarkedBy(t, l) {
      assert l < |s.locks| ==> MarkedBy(s, l);
    }
  }

  lemma TakeMarks(s: State, h: nat)
    requires Holds(s, h) && Marked(s) && Passes(s, h)
    ensures Marked(Take(s, h)) && s.holders[h].id >= 0
  {
    var t, o := Take(s, h), s.holders[h];
    assert MarkedBy(s, o.lock);
    assert t.log[|s.log|] == Started(h, o.id, o.lock);
    forall l | 0 <= l < |t.locks| ensures MarkedBy(t, l) {
      assert MarkedBy(s, l);
      if a :| 0 <= a < |s.log| && s.log[a] == Started(s.log[a].holder, s.locks[l].active, l) {
        assert t.log[a] == s.log[a];
      }
    }
  }

  lemma TickMarks(s: State, h: nat, finished: bool)
    requires Holds(s, h) && Marked(s)
    ensures Marked(DoTick(s, h, finished)) && s.log <= DoTick(s, h, finished).log
  {
    hide Marked;
    MarksStay(s, DoTick(s, h, finished));
  }

  lemma StartMarks(s: State, h: nat, finished: bool)
    requires Holds(s, h) && Marked(s)
    ensures Marked(DoStart(s, h, finished)) && s.log <= DoStart(s, h, finished).log
  {
    hide Marked, DoTick;
    if Passes(s, h) {
      TakeMarks(s, h);
      TickMarks(Take(s, h), h, finished);
    } else {
      MarksStay(s, Stop(s, h));
    }
  }

  lemma NextMarks(s: State, step: Step)
    requires Inv(s) && Marked(s) && Enabled(s, step)
    ensures Marked(Next(s, step)) && s.log <= Next(s, step).log
  {
    hide Inv, Marked, DoTick, DoStart;
    match step
    case Schedule(id, due, finished) =>
      JoinMarks(s, id);
      if due {
        StartMarks(Join(s, id), |s.holders|, finished);
      }
    case Start(h, finished) => StartMarks(s, h, finished);
    case Tick(h, finished) => TickMarks(s, h, finished);
  }

  // ---------------------------------------------------------------- a step that is not fresh breaks the order

  /** A transition that starts applies its tweens at once. */
  lemma StartApplies(s: State, h: nat, finished: bool)
    requires Holds(s, h) && Passes(s, h)
    ensures var t := DoStart(s, h, finished);
      |t.log| > |s.log| + 1 && t.log[..|s.log|] == s.log
      && t.log[|s.log| + 1] == Applied(h, s.holders[h].id, s.holders[h].lock)
  {
  }

  lemma StaleBreaksOrder(s: State, step: Step)
    requires Inv(s) && Marked(s) && Enabled(s, step) && !Fresh(s, step)
    ensures !InOrder(Next(s, step).log)
  {
    hide Inv, DoStart;
    var l :| 0 <= l < |s.locks| && s.locks[l].active > StepId(s, step);
    assert MarkedBy(s, l);
    var t := Next(s, step);
    match step {
      case Schedule(id, due, finished) =>
        JoinMarks(s, id);
        TakeMarks(Join(s, id), |s.holders|);
        StartApplies(Join(s, id), |s.holders|, finished);
      case Start(h, finished) =>
        TakeMarks(s, h);
        StartApplies(s, h, finished);
    }
    var a :| 0 <= a < |s.log| && s.log[a] == Started(s.log[a].holder, s.locks[l].active, l);
    assert t.log[a] == s.log[a];
  }

  lemma {:induction false} RunMarks(states: seq<State>, steps: seq<Step>, i: nat)
    requires IsRun(states, steps) && i < |states|
    ensures Marked(states[i])
  {
    hide Next, Inv;
    if i == 0 {
    } else {
      RunMarks(states, steps, i - 1);
      RunKeepsInv(states, steps, i - 1);
      assert StepAt(states, steps, i - 1);
      NextMarks(states[i - 1], steps[i - 1]);
    }
  }

  lemma {:induction false} LogOnlyGrows(states: seq<State>, steps: seq<Step>, i: nat, j: nat)
    requires IsRun(states, steps) && i <= j < |states|
    ensures states[i].log <= states[j].log
    decreases j
  {
    hide Next, Inv, Marked;
    if i == j {
    } else {
      LogOnlyGrows(states, steps, i, j - 1);
      RunMarks(states, steps, j - 1);
      RunKeepsInv(states, steps, j - 1);
      assert StepAt(states, steps, j - 1);
      NextMarks(states[j - 1], steps[j - 1]);
    }
  }

  // ---------------------------------------------------------------- fresh steps keep the order

  /** The lock of a running transition has the highest active id that the node has seen. */
  ghost predicate Topmost(s: State) {
    forall h, l :: 0 <= h < |s.holders| && s.holders[h].phase == Running && Holds(s, h) && 0 <= l < |s.locks| ==>
      s.locks[l].active <= s.locks[s.holders[h].lock].active
  }

  ghost predicate Settled(s: State) {
    Inv(s) && Topmost(s) && InOrder(s.log)
  }

  lemma JoinSettles(s: State, id: int)
    requires Settled(s)
    ensures Settled(Join(s, id))
  {
    JoinKeeps(s, id);
    var t := Join(s, id);
    forall h | 0 <= h < |t.holders| && t.holders[h].phase == Running ensures |t.locks| == |s.locks| {
      HolderIsAttached(s, h);
    }
  }

  lemma StopSettles(s: State, h: nat)
    requires Settled(s) && Holds(s, h) && s.holders[h].phase != Stopped
    ensures Settled(Stop(s, h))
  {
    StopKeeps(s, h);
  }

  lemma TakeSettles(s: State, h: nat)
    requires Settled(s) && Holds(s, h) && s.holders[h].phase == Waiting && Passes(s, h)
    requires forall l :: 0 <= l < |s.locks| ==> s.locks[l].active <= s.holders[h].id
    ensures Settled(Take(s, h))
  {
    TakeKeeps(s, h);
    var t := Take(s, h);
    HolderIsAttached(s, h);
    forall g | 0 <= g < |t.holders| && t.holders[g].phase == Running ensures t.holders[g].lock == s.holders[h].lock {
      HolderIsAttached(t, g);
    }
  }

  lemma ApplySettles(s: State, h: nat)
    requires Settled(s) && Holds(s, h) && s.holders[h].phase == Running && s.locks[s.holders[h].lock].active == s.holders[h].id
    ensures Settled(Apply(s, h))
  {
    ApplyKeeps(s, h);
    forall a | 0 <= a < |s.log| && s.log[a].Started? ensures s.log[a].id <= s.holders[h].id {
      assert EventOk(s, s.log[a]);
    }
  }

  lemma TickSettles(s: State, h: nat, finished: bool)
    requires Settled(s) && Holds(s, h) && s.holders[h].phase == Running
    ensures Settled(DoTick(s, h, finished))
  {
    hide Settled, Stop;
    if s.locks[s.holders[h].lock].active != s.holders[h].id {
      StopSettles(s, h);
    } else {
      ApplySettles(s, h);
      if finished {
        StopSettles(Apply(s, h), h);
      }
    }
  }

  lemma StartSettles(s: State, h: nat, finished: bool)
    requires Settled(s) && Holds(s, h) && s.holders[h].phase == Waiting
    requires Passes(s, h) ==> forall l :: 0 <= l < |s.locks| ==> s.locks[l].active <= s.holders[h].id
    ensures Settled(DoStart(s, h, finished))
  {
    hide Settled, Stop, DoTick;
    if Passes(s, h) {
      TakeSettles(s, h);
      TickSettles(Take(s, h), h, finished);
    } else {
      StopSettles(s, h);
    }
  }

  lemma FreshSettles(s: State, step: Step)
    requires Settled(s) && Enabled(s, step) && Fresh(s, step)
    ensures Settled(Next(s, step))
  {
    hide Inv, Topmost, InOrder, DoTick, DoStart;
    match step
    case Schedule(id, due, finished) =>
      JoinSettles(s, id);
      if due {
        StartSettles(Join(s, id), |s.holders|, finished);
      }
    case Start(h, finished) => StartSettles(s, h, finished);
    case Tick(h, finished) => TickSettles(s, h, finished);
  }

  lemma {:induction false} FreshRunSettles(states: seq<State>, steps: seq<Step>, i: nat)
    requires IsRun(states, steps) && i < |states|
    requires forall j :: 0 <= j < |steps| ==> FreshAt(states, steps, j)
    ensures Settled(states[i])
  {
    hide Next, Fresh;
    if i == 0 {
    } else {
      FreshRunSettles(states, steps, i - 1);
      assert StepAt(states, steps, i - 1);
      assert FreshAt(states, steps, i - 1);
      FreshSettles(states[i - 1], steps[i - 1]);
    }
  }

  /**
   * The transitions of a node keep their order in a run if and only if no step starts a transition with an id lower than
   * the active id of any lock that the node has had.
   */
  lemma InOrderIffFresh(states: seq<State>, steps: seq<Step>)
    requires IsRun(states, steps)
    ensures InOrder(states[|steps|].log)
      <==> forall i :: 0 <= i < |steps| ==> FreshAt(states, steps, i)
  {
    hide Inv, Next, Fresh, Marked;
    forall i | 0 <= i < |steps| && !FreshAt(states, steps, i)
      ensures !InOrder(states[|steps|].log)
    {
      assert StepAt(states, steps, i);
      RunKeepsInv(states, steps, i);
      RunMarks(states, steps, i);
      StaleBreaksOrder(states[i], steps[i]);
      LogOnlyGrows(states, steps, i + 1, |steps|);
      DisorderStays(states[i + 1].log, states[|steps|].log);
    }
    if forall i :: 0 <= i < |steps| ==> FreshAt(states, steps, i) {
      FreshRunSettles(states, steps, |steps|);
    }
  }

  lemma DisorderStays(log: seq<Event>, more: seq<Event>)
    requires log <= more && !InOrder(log)
    ensures !InOrder(more)
  {
    var a, b :| 0 <= a < b < |log| && log[a].Started? && log[b].Applied? && log[a].id > log[b].id;
    assert more[a] == log[a] && more[b] == log[b];
  }
}
