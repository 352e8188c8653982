/** The linked list behind d3.timer, proved against the queue of entries. */
module TimerList {
  import opened Wrappers
  import opened TimerQueue

  class TimerNode {
    const callback: Callback
    var start: real
    var delay: real
    var flush: bool
    var next: TimerNode?

    constructor (callback: Callback, start: real, delay: real, next: TimerNode?)
      ensures this.callback == callback && this.start == start && this.delay == delay && !flush && this.next == next
    {
      this.callback, this.start, this.delay, this.flush, this.next := callback, start, delay, false, next;
    }

    function Value(): Entry
      reads this
    {
      Entry(callback, start, delay, flush)
    }
  }

  class Timers {
    var head: TimerNode?
    ghost var spine: seq<TimerNode>
    ghost var Repr: set<TimerNode>

    /** Following next from the head visits the nodes of the spine, each once, and ends. */
    ghost predicate Valid()
      reads this, Repr
    {
      && head == NodeAt(0)
      && (forall i {:trigger spine[i]} :: 0 <= i < |spine| ==> spine[i] in Repr)
      && (forall i {:trigger spine[i].next} :: 0 <= i < |spine| ==> spine[i].next == NodeAt(i + 1))
      && Distinct(spine)
    }

    ghost function NodeAt(i: nat): TimerNode?
      reads this
    {
      if i < |spine| then spine[i] else null
    }

    ghost function Queue(): (q: seq<Entry>)
      requires Valid()
      reads this, Repr
      ensures |q| == |spine| && forall i :: 0 <= i < |q| ==> q[i] == spine[i].Value()
    {
      seq(|spine|, i requires 0 <= i < |spine| reads this, Repr => if spine[i] in Repr then spine[i].Value() else Entry(0, 0.0, 0.0, false))
    }

    constructor ()
      ensures Valid() && Queue() == [] && fresh(Repr)
    {
      head, spine, Repr := null, [], {};
    }

    /** d3.timer(callback, delay, start), without waking the clock. */
    method Timer(r: Request)
      requires Valid()
      modifies this, Repr
      ensures Valid() && Queue() == Add(old(Queue()), r) && fresh(Repr - old(Repr))
      ensures Extends()
    {
      var found := false;
      var t1 := head;
      ghost var i := 0;
      while t1 != null
        invariant i <= |spine| && t1 == NodeAt(i) && !found
        invariant forall k :: 0 <= k < i ==> spine[k].callback != r.callback
        decreases |spine| - i
      {
        if t1.callback == r.callback {
          t1.start := r.start;
          t1.delay := r.delay;
          found := true;
          FindIs(old(Queue()), r.callback, i);
          break;
        }
        t1 := t1.next;
        i := i + 1;
      }
      if !found {
        FindIs(old(Queue()), r.callback, i);
        Prepend(r);
      }
    }

    method Prepend(r: Request)
      requires Valid()
      modifies this
      ensures Valid() && Queue() == [Entry(r.callback, r.start, r.delay, false)] + old(Queue()) && fresh(Repr - old(Repr))
      ensures Extends()
    {
      hide Distinct, Queue;
      ghost var was, q := spine, Queue();
      head := new TimerNode(r.callback, r.start, r.delay, head);
      spine := [head] + spine;
      Repr := Repr + {head};
      forall k | 0 <= k < |spine| ensures spine[k].next == NodeAt(k + 1) && spine[k] in Repr {
        assert k > 0 ==> spine[k] == was[k - 1];
      }
      DistinctCons(head, was);
      forall k | 0 <= k < |was| ensures spine[k + 1].Value() == q[k] {
        assert spine[k + 1] == was[k];
      }
      assert spine[1..] == was;
    }

    /** The old nodes are still there, behind new ones. */
    twostate predicate Extends()
      reads this
    {
      |spine| >= |old(spine)| && spine[|spine| - |old(spine)|..] == old(spine)
    }

    /** d3_timer_flush: unlinks the flagged nodes in one walk and computes the earliest due time; None is Infinity. */
    method Flush() returns (due: Option<real>)
      requires Valid()
      modifies this, Repr
      ensures Valid() && Queue() == TimerQueue.Flush(old(Queue())) && Repr == old(Repr)
      ensures due == Earliest(old(Queue()), None)
    {
      hide TimerQueue.Flush, Earliest, Earlier, Distinct, Without;
      ghost var all, m := Queue(), 0;
      var t0: TimerNode?, t1 := null, head;
      due := None;
      assert all[..0] + TimerQueue.Flush(all[0..]) == TimerQueue.Flush(all) by {
        assert all[0..] == all;
      }
      while t1 != null
        invariant Valid() && m <= |spine| && Repr == old(Repr)
        invariant t1 == NodeAt(m) && t0 == (if m == 0 then null else spine[m - 1])
        invariant Queue()[..m] + TimerQueue.Flush(Queue()[m..]) == TimerQueue.Flush(all)
        invariant Earliest(Queue()[m..], due) == Earliest(all, None)
        decreases |spine| - m
      {
        ghost var q := Queue();
        FlushUnfold(q, m, due);
        assert t1 == spine[m] && q[m] == t1.Value();
        if t1.flush {
          Unlink(t0, t1, m);
          assert Queue() == Without(q, m);
          t1 := if t0 != null then t0.next else head;
        } else {
          due := Earlier(due, t1.start + t1.delay);
          t0 := t1;
          t1 := t0.next;
          m := m + 1;
        }
      }
      FlushEnd(Queue(), due);
    }

    /** Takes t1 out of the list, whose node before it is t0; without one, t1 was the head. */
    method Unlink(t0: TimerNode?, t1: TimerNode, ghost m: nat)
      requires Valid() && m < |spine| && t1 == spine[m] && t0 == if m == 0 then null else spine[m - 1]
      modifies this, Repr
      ensures Valid() && spine == Without(old(spine), m) && Repr == old(Repr)
      ensures (if t0 != null then t0.next else head) == NodeAt(m)
      ensures Queue() == Without(old(Queue()), m)
    {
      hide Distinct;
      ghost var was, q := spine, Queue();
      DistinctWithout(was, m);
      if t0 != null {
        t0.next := t1.next;
      } else {
        head := t1.next;
      }
      spine := Without(was, m);
      assert Valid();
      hide Valid;
      forall k | 0 <= k < |spine| ensures spine[k].Value() == Without(q, m)[k] {
        assert was[if k < m then k else k + 1].Value() == q[if k < m then k else k + 1];
      }
      assert Queue() == Without(q, m);
    }

    /** t1.flush = t1.callback(elapsed): the callback's requests come first, then the flag is set. */
    method CallNode(t1: TimerNode, ghost n: nat, now: real, react: React)
      requires Valid() && 0 < n <= |spine| && t1 == spine[|spine| - n]
      modifies this, Repr
      ensures Valid() && Queue() == Call(old(Queue()), n, now, react) && fresh(Repr - old(Repr))
      ensures n <= |spine| && t1 == spine[|spine| - n]
    {
      hide AddAll, Distinct, Call, NodeAt;
      ghost var q := Queue();
      assert q[|q| - n] == t1.Value();
      var reaction := react(t1.callback, now - t1.start);
      RequestAll(reaction.requests);
      CallIs(q, n, now, react);
      assert t1 == spine[|spine| - n];
      SetFlag(t1, |spine| - n, reaction.done);
    }

    method RequestAll(rs: seq<Request>)
      requires Valid()
      modifies this, Repr
      ensures Valid() && Queue() == AddAll(old(Queue()), rs) && fresh(Repr - old(Repr))
      ensures Extends()
    {
      hide Add, AddAll, Distinct, NodeAt, Valid;
      ghost var q := Queue();
      assert rs[0..] == rs;
      for i := 0 to |rs|
        invariant Valid() && Extends() && fresh(Repr - old(Repr))
        invariant AddAll(Queue(), rs[i..]) == AddAll(q, rs)
      {
        AddAllUnfold(Queue(), rs, i);
        Timer(rs[i]);
      }
      AddAllUnfold(Queue(), rs, |rs|);
    }

    method SetFlag(t1: TimerNode, ghost k: nat, done: bool)
      requires Valid() && k < |spine| && t1 == spine[k]
      modifies t1
      ensures Valid() && Queue() == old(Queue())[k := old(Queue())[k].(flush := done)]
    {
      ghost var q := Queue();
      t1.flush := done;
      forall i | 0 <= i < |spine| ensures spine[i].Value() == q[k := q[k].(flush := done)][i] {
        assert q[i].callback == spine[i].callback;
      }
    }

    /** The loop of d3_timer_step, or of d3.timer.flush. */
    method RunAll(mode: Mode, now: real, react: React)
      requires Valid()
      modifies this, Repr
      ensures Valid() && Queue() == Run(mode, old(Queue()), |old(Queue())|, now, react) && fresh(Repr - old(Repr))
    {
      hide Call, Distinct, Due, Run, Valid, NodeAt;
      var t1 := head;
      ghost var n: nat := |spine|;
      ghost var q := Queue();
      Links(0);
      while t1 != null
        invariant Valid() && fresh(Repr - old(Repr)) && n <= |spine| && t1 == NodeAt(|spine| - n)
        invariant Run(mode, Queue(), n, now, react) == Run(mode, q, |q|, now, react)
        decreases n
      {
        Links(|spine| - n);
        RunUnfold(mode, Queue(), n, now, react);
        var elapsed := now - t1.start;
        if Due(mode, t1.Value(), elapsed) {
          CallNode(t1, n, now, react);
        }
        Links(|spine| - n);
        t1 := t1.next;
        n := n - 1;
      }
      Links(|spine| - n);
      RunUnfold(mode, Queue(), 0, now, react);
    }

    lemma Links(k: nat)
      requires Valid() && k <= |spine|
      ensures head == NodeAt(0) && (NodeAt(k) == null <==> k == |spine|)
      ensures k < |spine| ==> NodeAt(k) == spine[k] && spine[k].next == NodeAt(k + 1) && spine[k].Value() == Queue()[k]
    {
    }

    /** One pass: run the callbacks, drop the done ones, report when the next one is due. */
    method MakePass(mode: Mode, now: real, react: React) returns (due: Option<real>)
      requires Valid()
      modifies this, Repr
      ensures Valid() && Queue() == Pass(mode, old(Queue()), now, react) && fresh(Repr - old(Repr))
      ensures due == Earliest(Run(mode, old(Queue()), |old(Queue())|, now, react), None)
    {
      RunAll(mode, now, react);
      due := Flush();
    }
  }

  ghost predicate Distinct(s: seq<TimerNode>) {
    forall i, j :: 0 <= i < j < |s| ==> s[i] != s[j]
  }

  ghost function Without<T>(s: seq<T>, m: nat): (r: seq<T>)
    requires m < |s|
    ensures |r| == |s| - 1 && forall k :: 0 <= k < |r| ==> r[k] == s[if k < m then k else k + 1]
  {
    s[..m] + s[m + 1..]
  }

  lemma DistinctCons(n: TimerNode, s: seq<TimerNode>)
    requires Distinct(s) && forall i :: 0 <= i < |s| ==> s[i] != n
    ensures Distinct([n] + s)
  {
  }

  lemma DistinctWithout(s: seq<TimerNode>, m: nat)
    requires Distinct(s) && m < |s|
    ensures Distinct(Without(s, m)) && forall k :: 0 <= k < |s| && k != m ==> s[k] != s[m]
    ensures m > 0 ==> forall k :: 0 <= k < |s| && k != m - 1 ==> s[k] != s[m - 1]
  {
  }

  lemma FlushUnfold(q: seq<Entry>, m: nat, due: Option<real>)
    requires m < |q|
    ensures q[m].flush ==>
      var r := Without(q, m);
      && r[..m] + TimerQueue.Flush(r[m..]) == q[..m] + TimerQueue.Flush(q[m..])
      && Earliest(r[m..], due) == Earliest(q[m..], due)
    ensures !q[m].flush ==>
      && q[..m + 1] + TimerQueue.Flush(q[m + 1..]) == q[..m] + TimerQueue.Flush(q[m..])
      && Earliest(q[m + 1..], Earlier(due, q[m].start + q[m].delay)) == Earliest(q[m..], due)
  {
    assert q[m..][1..] == q[m + 1..] && q[m..][0] == q[m];
    var r := Without(q, m);
    assert r[m..] == q[m + 1..] && r[..m] == q[..m];
    assert q[..m + 1] == q[..m] + [q[m]];
  }

  lemma FlushEnd(q: seq<Entry>, due: Option<real>)
    ensures q[..|q|] + TimerQueue.Flush(q[|q|..]) == q && Earliest(q[|q|..], due) == due
  {
  }

  lemma {:induction false} FindIs(q: seq<Entry>, c: Callback, i: nat)
    requires i <= |q| && (i < |q| ==> q[i].callback == c) && forall k :: 0 <= k < i ==> q[k].callback != c
    ensures Find(q, c) == i
  {
  }

  lemma AddAllUnfold(q: seq<Entry>, rs: seq<Request>, i: nat)
    requires i <= |rs|
    ensures i < |rs| ==> AddAll(q, rs[i..]) == AddAll(Add(q, rs[i]), rs[i + 1..])
    ensures i == |rs| ==> AddAll(q, rs[i..]) == q
  {
    if i < |rs| {
      assert rs[i..][1..] == rs[i + 1..];
    }
  }

  lemma CallIs(q: seq<Entry>, n: nat, now: real, react: React)
    requires 0 < n <= |q|
    ensures var reaction := react(q[|q| - n].callback, now - q[|q| - n].start);
      var q1 := AddAll(q, reaction.requests);
      |q1| >= n && Call(q, n, now, react) == q1[|q1| - n := q1[|q1| - n].(flush := reaction.done)]
  {
    hide AddAll;
    AddAllLonger(q, react(q[|q| - n].callback, now - q[|q| - n].start).requests);
  }

  lemma RunUnfold(mode: Mode, q: seq<Entry>, n: nat, now: real, react: React)
    requires n <= |q|
    ensures n == 0 ==> Run(mode, q, n, now, react) == q
    ensures n > 0 && Due(mode, q[|q| - n], now - q[|q| - n].start) ==>
      Run(mode, q, n, now, react) == Run(mode, Call(q, n, now, react), n - 1, now, react)
    ensures n > 0 && !Due(mode, q[|q| - n], now - q[|q| - n].start) ==>
      Run(mode, q, n, now, react) == Run(mode, q, n - 1, now, react)
  {
    hide Call;
  }
}
