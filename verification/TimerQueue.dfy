/** The timer queue (d3.timer) as a list of entries: what adding, running and flushing do to it. */
module TimerQueue {
  import opened Wrappers

  /** A callback, by identity. */
  type Callback = int

  datatype Entry = Entry(callback: Callback, start: real, delay: real, flush: bool)

  datatype Request = Request(callback: Callback, delay: real, start: real)

  /** What a callback does when it is called: the timers that it requests, in order, and whether it is done. */
  datatype Reaction = Reaction(requests: seq<Request>, done: bool)

  type React = (Callback, real) -> Reaction

  // ---------------------------------------------------------------- adding

  function Find(q: seq<Entry>, c: Callback): (i: nat)
    ensures i <= |q| && (i < |q| ==> q[i].callback == c) && forall k :: 0 <= k < i ==> q[k].callback != c
  {
    if q == [] || q[0].callback == c then 0 else 1 + Find(q[1..], c)
  }

  /** d3.timer(callback, delay, start): an entry that is there is rescheduled, a new one goes to the front. */
  function Add(q: seq<Entry>, r: Request): seq<Entry> {
    var i := Find(q, r.callback);
    if i < |q| then q[i := q[i].(start := r.start, delay := r.delay)]
    else [Entry(r.callback, r.start, r.delay, false)] + q
  }

  function AddAll(q: seq<Entry>, rs: seq<Request>): seq<Entry>
    decreases |rs|
  {
    if rs == [] then q else AddAll(Add(q, rs[0]), rs[1..])
  }

  // ---------------------------------------------------------------- flushing

  /** The entries that are not flagged, in order. */
  function Flush(q: seq<Entry>): seq<Entry> {
    if q == [] then [] else (if q[0].flush then [] else [q[0]]) + Flush(q[1..])
  }

  function Earlier(a: Option<real>, t: real): Option<real> {
    if a.Some? && a.value <= t then a else Some(t)
  }

  /** The earliest due time of the entries that are not flagged, starting from an earlier minimum; None is Infinity. */
  function Earliest(q: seq<Entry>, so_far: Option<real>): Option<real> {
    if q == [] then so_far
    else Earliest(q[1..], if q[0].flush then so_far else Earlier(so_far, q[0].start + q[0].delay))
  }

  // ---------------------------------------------------------------- running

  datatype Mode = Step | FlushNow

  /** d3_timer_step runs what is due; d3.timer.flush runs what has no delay. */
  predicate Due(mode: Mode, e: Entry, elapsed: real) {
    match mode
    case Step => elapsed >= e.delay
    case FlushNow => e.delay == 0.0
  }

  /** Calls the entry that is the n-th from the end: its requests are added, then it gets its flag. */
  function Call(q: seq<Entry>, n: nat, now: real, react: React): (r: seq<Entry>)
    requires 0 < n <= |q|
    ensures |q| <= |r|
  {
    var e := q[|q| - n];
    var reaction := react(e.callback, now - e.start);
    AddAllLonger(q, reaction.requests);
    var q1 := AddAll(q, reaction.requests);
    q1[|q1| - n := q1[|q1| - n].(flush := reaction.done)]
  }

  lemma {:induction false} AddAllLonger(q: seq<Entry>, rs: seq<Request>)
    ensures |q| <= |AddAll(q, rs)|
    decreases |rs|
  {
    if rs == [] {
    } else {
      AddAllLonger(Add(q, rs[0]), rs[1..]);
    }
  }

  predicate DueAt(mode: Mode, q: seq<Entry>, n: nat, now: real)
    requires 0 < n <= |q|
  {
    var e := q[|q| - n];
    Due(mode, e, now - e.start)
  }

  /** Runs the last n entries; what they request goes to the front, or reschedules entries anywhere. */
  function Run(mode: Mode, q: seq<Entry>, n: nat, now: real, react: React): seq<Entry>
    requires n <= |q|
    decreases n
  {
    if n == 0 then q else Run(mode, if DueAt(mode, q, n, now) then Call(q, n, now, react) else q, n - 1, now, react)
  }

  /** The callbacks that Run calls, in order, with the elapsed time that each is given. */
  function Calls(mode: Mode, q: seq<Entry>, n: nat, now: real, react: React): seq<(Callback, real)>
    requires n <= |q|
    decreases n
  {
    if n == 0 then []
    else if DueAt(mode, q, n, now) then
      [(q[|q| - n].callback, now - q[|q| - n].start)] + Calls(mode, Call(q, n, now, react), n - 1, now, react)
    else Calls(mode, q, n - 1, now, react)
  }

  /**
   * Adding never removes or moves an entry: the old list stays as the tail, callback by callback and flag by flag,
   * behind new entries without a flag.
   */
  ghost predicate Grows(q: seq<Entry>, r: seq<Entry>) {
    && |q| <= |r|
    && (forall k :: 0 <= k < |q| ==> SameTimer(q, r, k))
    && (forall k :: 0 <= k < |r| - |q| ==> !r[k].flush)
  }

  predicate SameTimer(q: seq<Entry>, r: seq<Entry>, k: nat)
    requires k < |q| <= |r|
  {
    q[k].callback == r[|r| - |q| + k].callback && q[k].flush == r[|r| - |q| + k].flush
  }

  lemma GrowsTransitive(a: seq<Entry>, b: seq<Entry>, c: seq<Entry>)
    requires Grows(a, b) && Grows(b, c)
    ensures Grows(a, c)
  {
    var d, e := |b| - |a|, |c| - |b|;
    forall k | 0 <= k < |a| ensures SameTimer(a, c, k) {
      assert SameTimer(a, b, k) && SameTimer(b, c, d + k);
    }
    forall k | 0 <= k < |c| - |a| ensures !c[k].flush {
      if k >= e {
        assert SameTimer(b, c, k - e);
      }
    }
  }

  lemma GrowsReflexive(q: seq<Entry>)
    ensures Grows(q, q)
  {
  }

  lemma AddGrows(q: seq<Entry>, r: Request)
    ensures Grows(q, Add(q, r))
  {
  }

  lemma {:induction false} AddAllGrows(q: seq<Entry>, rs: seq<Request>)
    ensures Grows(q, AddAll(q, rs))
    decreases |rs|
  {
    hide Grows, Add;
    if rs == [] {
      GrowsReflexive(q);
    } else {
      AddGrows(q, rs[0]);
      AddAllGrows(Add(q, rs[0]), rs[1..]);
      GrowsTransitive(q, Add(q, rs[0]), AddAll(q, rs));
    }
  }

  // ---------------------------------------------------------------- each callback at most once

  ghost predicate Unique(q: seq<Entry>) {
    forall i, j :: 0 <= i < j < |q| ==> q[i].callback != q[j].callback
  }

  lemma {:induction false} AddAllUnique(q: seq<Entry>, rs: seq<Request>)
    requires Unique(q)
    ensures Unique(AddAll(q, rs))
    decreases |rs|
  {
    if rs == [] {
    } else {
      AddAllUnique(Add(q, rs[0]), rs[1..]);
    }
  }

  lemma {:induction false} FlushMembers(q: seq<Entry>)
    ensures forall e :: e in Flush(q) <==> e in q && !e.flush
  {
    if q == [] {
    } else {
      FlushMembers(q[1..]);
      assert forall e :: e in q <==> e == q[0] || e in q[1..];
    }
  }

  lemma {:induction false} FlushUnique(q: seq<Entry>)
    requires Unique(q)
    ensures Unique(Flush(q)) && forall e :: e in Flush(q) <==> e in q && !e.flush
  {
    FlushMembers(q);
    if q == [] {
    } else {
      FlushUnique(q[1..]);
      NewInFront(q[0], Flush(q[1..]), q);
      hide Unique;
    }
  }

  lemma NewInFront(e: Entry, s: seq<Entry>, q: seq<Entry>)
    requires Unique(q) && q != [] && e == q[0] && Unique(s) && forall o :: o in s ==> o in q[1..]
    ensures Unique([e] + s)
  {
    forall j | 0 <= j < |s| ensures s[j].callback != e.callback {
      assert s[j] in s;
    }
  }

  lemma CallUnique(q: seq<Entry>, n: nat, now: real, react: React)
    requires Unique(q) && 0 < n <= |q|
    ensures Unique(Call(q, n, now, react))
  {
    hide AddAll, Unique;
    var reaction := react(q[|q| - n].callback, now - q[|q| - n].start);
    AddAllUnique(q, reaction.requests);
    AddAllGrows(q, reaction.requests);
    FlagUnique(AddAll(q, reaction.requests), |AddAll(q, reaction.requests)| - n, reaction.done);
  }

  lemma FlagUnique(q: seq<Entry>, i: nat, flag: bool)
    requires Unique(q) && i < |q|
    ensures Unique(q[i := q[i].(flush := flag)])
  {
  }

  lemma {:induction false} RunUnique(mode: Mode, q: seq<Entry>, n: nat, now: real, react: React)
    requires Unique(q) && n <= |q|
    ensures Unique(Run(mode, q, n, now, react))
    decreases n
  {
    if n == 0 {
    } else {
      hide Call;
      if DueAt(mode, q, n, now) {
        CallUnique(q, n, now, react);
        RunUnique(mode, Call(q, n, now, react), n - 1, now, react);
      } else {
        RunUnique(mode, q, n - 1, now, react);
      }
    }
  }

  /** Earliest is the least due time over the unflagged entries, and Infinity exactly when there is none. */
  lemma {:induction false} EarliestIsMinimum(q: seq<Entry>, so_far: Option<real>)
    ensures var m := Earliest(q, so_far);
      && (m == None <==> so_far == None && Flush(q) == [])
      && (m.Some? ==> so_far.Some? ==> m.value <= so_far.value)
      && (m.Some? ==> forall e :: e in Flush(q) ==> m.value <= e.start + e.delay)
      && (m.Some? ==> m == so_far || exists e :: e in Flush(q) && m.value == e.start + e.delay)
    decreases |q|
  {
    if q == [] {
    } else {
      var next := if q[0].flush then so_far else Earlier(so_far, q[0].start + q[0].delay);
      EarliestIsMinimum(q[1..], next);
      if !q[0].flush {
        assert q[0] in Flush(q);
      }
    }
  }

  // ---------------------------------------------------------------- one pass over the queue

  predicate SameCallback(q: seq<Entry>, r: seq<Entry>, k: nat)
    requires k < |q| <= |r|
  {
    r[|r| - |q| + k].callback == q[k].callback
  }

  /** The callbacks of q are still there, in the same order, behind new ones. */
  ghost predicate KeepsOrder(q: seq<Entry>, r: seq<Entry>) {
    |q| <= |r| && forall k :: 0 <= k < |q| ==> SameCallback(q, r, k)
  }

  ghost predicate FlagAt(q: seq<Entry>, c: Callback, k: nat)
    requires k < |q|
  {
    q[k].callback == c && q[k].flush
  }

  /** Callback c is in the queue and flagged. */
  ghost predicate Flagged(q: seq<Entry>, c: Callback) {
    exists k :: 0 <= k < |q| && FlagAt(q, c, k)
  }

  ghost predicate Has(q: seq<Entry>, c: Callback) {
    exists k :: 0 <= k < |q| && q[k].callback == c
  }

  /** Callback c was called and said that it was done. */
  ghost predicate Done(calls: seq<(Callback, real)>, react: React, c: Callback) {
    exists i :: 0 <= i < |calls| && DoneAt(calls, react, c, i)
  }

  ghost predicate DoneAt(calls: seq<(Callback, real)>, react: React, c: Callback, i: nat)
    requires i < |calls|
  {
    calls[i].0 == c && react(c, calls[i].1).done
  }

  /** The entries before the first n from the end are not changed by running, but for new ones in front of them. */
  lemma CallFacts(q: seq<Entry>, n: nat, now: real, react: React)
    requires 0 < n <= |q|
    ensures var r := Call(q, n, now, react);
      && KeepsOrder(q, r)
      && r[|r| - n].flush == react(q[|q| - n].callback, now - q[|q| - n].start).done
      && forall k :: 0 <= k < |r| && k != |r| - n ==>
           r[k].flush == (k >= |r| - |q| && q[k - (|r| - |q|)].flush)
  {
    var reaction := react(q[|q| - n].callback, now - q[|q| - n].start);
    AddAllGrows(q, reaction.requests);
    hide AddAll;
    var r, q1 := Call(q, n, now, react), AddAll(q, reaction.requests);
    forall k | 0 <= k < |q| ensures SameCallback(q, r, k) {
      assert SameTimer(q, q1, k);
    }
    forall k | 0 <= k < |r| && k != |r| - n ensures r[k].flush == (k >= |r| - |q| && q[k - (|r| - |q|)].flush) {
      if k >= |r| - |q| {
        assert SameTimer(q, q1, k - (|r| - |q|));
      }
    }
  }

  ghost predicate Unflagged(q: seq<Entry>, from: nat) {
    forall k :: from <= k < |q| ==> !q[k].flush
  }

  lemma CallFlags(q: seq<Entry>, n: nat, now: real, react: React, c: Callback)
    requires 0 < n <= |q| && Unflagged(q, |q| - n)
    ensures var r, e := Call(q, n, now, react), q[|q| - n];
      && Unflagged(r, |r| - (n - 1))
      && (Flagged(r, c) <==> Flagged(q, c) || (c == e.callback && react(c, now - e.start).done))
  {
    CallFacts(q, n, now, react);
    hide Call;
    var r, e := Call(q, n, now, react), q[|q| - n];
    assert SameCallback(q, r, |q| - n);
    if k :| 0 <= k < |r| && FlagAt(r, c, k) {
      if k != |r| - n {
        assert SameCallback(q, r, k - (|r| - |q|));
        assert FlagAt(q, c, k - (|r| - |q|));
      }
    }
    if k :| 0 <= k < |q| && FlagAt(q, c, k) {
      assert SameCallback(q, r, k);
      assert FlagAt(r, c, |r| - |q| + k);
    }
    if c == e.callback && react(c, now - e.start).done {
      assert FlagAt(r, c, |r| - n);
    }
  }

  /** After a run, the flagged callbacks are those that were flagged before and those that are done. */
  lemma {:induction false} RunFlags(mode: Mode, q: seq<Entry>, n: nat, now: real, react: React, c: Callback)
    requires n <= |q| && Unflagged(q, |q| - n)
    ensures Flagged(Run(mode, q, n, now, react), c) <==> Flagged(q, c) || Done(Calls(mode, q, n, now, react), react, c)
    decreases n
  {
    hide Call, Flagged;
    if n == 0 {
    } else {
      var calls := Calls(mode, q, n, now, react);
      if DueAt(mode, q, n, now) {
        var r, e := Call(q, n, now, react), q[|q| - n];
        var more := Calls(mode, r, n - 1, now, react);
        CallFlags(q, n, now, react, c);
        RunFlags(mode, r, n - 1, now, react, c);
        DoneFirst((e.callback, now - e.start), more, react, c);
      } else {
        RunFlags(mode, q, n - 1, now, react, c);
      }
    }
  }

  lemma DoneFirst(call: (Callback, real), more: seq<(Callback, real)>, react: React, c: Callback)
    ensures Done([call] + more, react, c) <==> (call.0 == c && react(c, call.1).done) || Done(more, react, c)
  {
    var calls := [call] + more;
    if i :| 0 <= i < |calls| && DoneAt(calls, react, c, i) {
      assert i > 0 ==> DoneAt(more, react, c, i - 1);
    }
    if i :| 0 <= i < |more| && DoneAt(more, react, c, i) {
      assert DoneAt(calls, react, c, i + 1);
    }
    if call.0 == c && react(c, call.1).done {
      assert DoneAt(calls, react, c, 0);
    }
  }

  lemma {:induction false} RunKeepsOrder(mode: Mode, q: seq<Entry>, n: nat, now: real, react: React)
    requires n <= |q|
    ensures KeepsOrder(q, Run(mode, q, n, now, react))
    decreases n
  {
    hide Call;
    if n == 0 {
    } else {
      if DueAt(mode, q, n, now) {
        CallFacts(q, n, now, react);
        RunKeepsOrder(mode, Call(q, n, now, react), n - 1, now, react);
        OrderTransitive(q, Call(q, n, now, react), Run(mode, q, n, now, react));
      } else {
        RunKeepsOrder(mode, q, n - 1, now, react);
      }
    }
  }

  lemma OrderTransitive(a: seq<Entry>, b: seq<Entry>, c: seq<Entry>)
    requires KeepsOrder(a, b) && KeepsOrder(b, c)
    ensures KeepsOrder(a, c)
  {
    forall k | 0 <= k < |a| ensures SameCallback(a, c, k) {
      assert SameCallback(a, b, k) && SameCallback(b, c, |b| - |a| + k);
    }
  }

  /** The callbacks of the last n entries. */
  function Tail(q: seq<Entry>, n: nat): (c: seq<Callback>)
    requires n <= |q|
    ensures |c| == n && forall k :: 0 <= k < n ==> c[k] == q[|q| - n + k].callback
  {
    seq(n, k requires 0 <= k < n => q[|q| - n + k].callback)
  }

  /** a is b with some elements left out. */
  predicate Subsequence(a: seq<Callback>, b: seq<Callback>) {
    a == [] || (b != [] && ((a[0] == b[0] && Subsequence(a[1..], b[1..])) || Subsequence(a, b[1..])))
  }

  function Called(calls: seq<(Callback, real)>): (c: seq<Callback>)
    ensures |c| == |calls| && forall i :: 0 <= i < |calls| ==> c[i] == calls[i].0
  {
    seq(|calls|, i requires 0 <= i < |calls| => calls[i].0)
  }

  lemma TailAfterCall(q: seq<Entry>, n: nat, now: real, react: React)
    requires 0 < n <= |q|
    ensures Tail(Call(q, n, now, react), n - 1) == Tail(q, n)[1..] == Tail(q, n - 1)
  {
    CallFacts(q, n, now, react);
    hide Call;
    var r := Call(q, n, now, react);
    forall k | 0 <= k < n - 1 ensures Tail(r, n - 1)[k] == Tail(q, n)[1..][k] {
      assert SameCallback(q, r, |q| - (n - 1) + k);
    }
  }

  /** A run calls callbacks of its entries in their order: each at most once, and none that is requested meanwhile. */
  lemma {:induction false} CallsInOrder(mode: Mode, q: seq<Entry>, n: nat, now: real, react: React)
    requires n <= |q|
    ensures Subsequence(Called(Calls(mode, q, n, now, react)), Tail(q, n))
    decreases n
  {
    hide Call;
    if n > 0 {
      TailAfterCall(q, n, now, react);
      var calls := Calls(mode, q, n, now, react);
      if DueAt(mode, q, n, now) {
        CallsInOrder(mode, Call(q, n, now, react), n - 1, now, react);
        assert Called(calls)[1..] == Called(Calls(mode, Call(q, n, now, react), n - 1, now, react));
      } else {
        CallsInOrder(mode, q, n - 1, now, react);
      }
    } else {
      assert Called([]) == [];
    }
  }

  /** Flushing keeps the order of what stays. */
  lemma {:induction false} FlushKeepsOrder(q: seq<Entry>)
    ensures Subsequence(Tail(Flush(q), |Flush(q)|), Tail(q, |q|))
    decreases |q|
  {
    if q == [] {
    } else {
      FlushKeepsOrder(q[1..]);
      assert Tail(q, |q|)[1..] == Tail(q[1..], |q| - 1);
      if q[0].flush {
        assert Flush(q) == Flush(q[1..]);
      } else {
        assert Tail(Flush(q), |Flush(q)|)[1..] == Tail(Flush(q[1..]), |Flush(q[1..])|);
      }
    }
  }

  /** d3_timer_step or d3.timer.flush without the clock: run every entry, then drop the flagged ones. */
  function Pass(mode: Mode, q: seq<Entry>, now: real, react: React): seq<Entry> {
    Flush(Run(mode, q, |q|, now, react))
  }

  /** Between passes every callback is in the queue at most once, and none is flagged. */
  ghost predicate Settled(q: seq<Entry>) {
    Unique(q) && Unflagged(q, 0)
  }

  // ---------------------------------------------------------------- who is in the queue after a pass

  ghost predicate Asks(rs: seq<Request>, c: Callback) {
    exists i :: 0 <= i < |rs| && rs[i].callback == c
  }

  ghost predicate AskedAt(calls: seq<(Callback, real)>, react: React, c: Callback, i: nat)
    requires i < |calls|
  {
    Asks(react(calls[i].0, calls[i].1).requests, c)
  }

  /** A callback that was called requested c. */
  ghost predicate Requested(calls: seq<(Callback, real)>, react: React, c: Callback) {
    exists i :: 0 <= i < |calls| && AskedAt(calls, react, c, i)
  }

  lemma AddHas(q: seq<Entry>, r: Request, c: Callback)
    ensures Has(Add(q, r), c) <==> Has(q, c) || r.callback == c
  {
    var s := Add(q, r);
    if k :| 0 <= k < |s| && s[k].callback == c {
      assert |s| == |q| ==> q[k].callback == c;
      assert |s| > |q| && k > 0 ==> q[k - 1].callback == c;
    }
    if k :| 0 <= k < |q| && q[k].callback == c {
      assert s[|s| - |q| + k].callback == c;
    }
    if r.callback == c {
      assert s[if |s| == |q| then Find(q, c) else 0].callback == c;
    }
  }

  lemma {:induction false} AddAllHas(q: seq<Entry>, rs: seq<Request>, c: Callback)
    ensures Has(AddAll(q, rs), c) <==> Has(q, c) || Asks(rs, c)
    decreases |rs|
  {
    hide Has, Add;
    if rs == [] {
    } else {
      AddHas(q, rs[0], c);
      AddAllHas(Add(q, rs[0]), rs[1..], c);
      AsksFirst(rs, c);
    }
  }

  lemma AsksFirst(rs: seq<Request>, c: Callback)
    requires rs != []
    ensures Asks(rs, c) <==> rs[0].callback == c || Asks(rs[1..], c)
  {
    if i :| 0 <= i < |rs| && rs[i].callback == c {
      assert i > 0 ==> rs[1..][i - 1].callback == c;
    }
    if i :| 0 <= i < |rs[1..]| && rs[1..][i].callback == c {
      assert rs[i + 1].callback == c;
    }
  }

  lemma FlagHas(q: seq<Entry>, i: nat, flag: bool, c: Callback)
    requires i < |q|
    ensures Has(q[i := q[i].(flush := flag)], c) <==> Has(q, c)
  {
    var r := q[i := q[i].(flush := flag)];
    assert forall k :: 0 <= k < |q| ==> r[k].callback == q[k].callback;
  }

  lemma RequestedFirst(call: (Callback, real), more: seq<(Callback, real)>, react: React, c: Callback)
    ensures Requested([call] + more, react, c) <==> Asks(react(call.0, call.1).requests, c) || Requested(more, react, c)
  {
    hide Asks;
    var calls := [call] + more;
    if i :| 0 <= i < |calls| && AskedAt(calls, react, c, i) {
      assert i > 0 ==> AskedAt(more, react, c, i - 1);
    }
    if i :| 0 <= i < |more| && AskedAt(more, react, c, i) {
      assert AskedAt(calls, react, c, i + 1);
    }
    if Asks(react(call.0, call.1).requests, c) {
      assert AskedAt(calls, react, c, 0);
    }
  }

  lemma CallHas(q: seq<Entry>, n: nat, now: real, react: React, c: Callback)
    requires 0 < n <= |q|
    ensures var e := q[|q| - n];
      Has(Call(q, n, now, react), c) <==> Has(q, c) || Asks(react(e.callback, now - e.start).requests, c)
  {
    hide Has, AddAll;
    var e := q[|q| - n];
    var reaction := react(e.callback, now - e.start);
    var q1 := AddAll(q, reaction.requests);
    AddAllLonger(q, reaction.requests);
    AddAllHas(q, reaction.requests, c);
    FlagHas(q1, |q1| - n, reaction.done, c);
  }

  /** A run adds exactly the callbacks that a called one requested. */
  lemma {:induction false} RunHas(mode: Mode, q: seq<Entry>, n: nat, now: real, react: React, c: Callback)
    requires n <= |q|
    ensures Has(Run(mode, q, n, now, react), c) <==> Has(q, c) || Requested(Calls(mode, q, n, now, react), react, c)
    decreases n
  {
    hide Call, Has, Requested, Asks;
    if n == 0 {
      NothingRequested(react, c);
    } else if DueAt(mode, q, n, now) {
      var r, e := Call(q, n, now, react), q[|q| - n];
      CallHas(q, n, now, react, c);
      RunHas(mode, r, n - 1, now, react, c);
      RequestedFirst((e.callback, now - e.start), Calls(mode, r, n - 1, now, react), react, c);
    } else {
      RunHas(mode, q, n - 1, now, react, c);
    }
  }

  lemma NothingRequested(react: React, c: Callback)
    ensures !Requested([], react, c)
  {}

  lemma FlushHas(r: seq<Entry>, c: Callback)
    requires Unique(r)
    ensures Has(Flush(r), c) <==> Has(r, c) && !Flagged(r, c)
  {
    FlushUnique(r);
    hide Flush, Unique;
    if k :| 0 <= k < |Flush(r)| && Flush(r)[k].callback == c {
      var i :| 0 <= i < |r| && r[i] == Flush(r)[k];
      OneUnflagged(r, c, i);
    }
    if k :| 0 <= k < |r| && r[k].callback == c {
      assert r[k].flush ==> FlagAt(r, c, k);
      assert !r[k].flush ==> r[k] in Flush(r);
    }
  }

  lemma OneUnflagged(r: seq<Entry>, c: Callback, i: nat)
    requires Unique(r) && i < |r| && r[i].callback == c && !r[i].flush
    ensures !Flagged(r, c)
  {}

  /**
   * After a pass, which leaves a settled queue, the queue has exactly the callbacks that were in it or that a called
   * callback requested, but for those that were called and said that they were done.
   */
  lemma PassDropsTheDone(mode: Mode, q: seq<Entry>, now: real, react: React, c: Callback)
    requires Settled(q)
    ensures Settled(Pass(mode, q, now, react))
    ensures var calls := Calls(mode, q, |q|, now, react);
      Has(Pass(mode, q, now, react), c) <==> (Has(q, c) || Requested(calls, react, c)) && !Done(calls, react, c)
  {
    var r := Run(mode, q, |q|, now, react);
    RunUnique(mode, q, |q|, now, react);
    RunFlags(mode, q, |q|, now, react, c);
    RunHas(mode, q, |q|, now, react, c);
    hide Run, Requested, Done;
    FlushUnique(r);
    FlushHas(r, c);
  }

  /** What is first requested during a pass is not called in it, and stays. */
  lemma NewcomersStay(mode: Mode, q: seq<Entry>, now: real, react: React, c: Callback)
    requires Settled(q) && !Has(q, c)
    ensures Has(Pass(mode, q, now, react), c) <==> Requested(Calls(mode, q, |q|, now, react), react, c)
  {
    var calls := Calls(mode, q, |q|, now, react);
    PassDropsTheDone(mode, q, now, react, c);
    CallsInOrder(mode, q, |q|, now, react);
    hide Pass, Calls, Requested, Has;
    if i :| 0 <= i < |calls| && DoneAt(calls, react, c, i) {
      assert Called(calls)[i] == c;
      InSubsequence(Called(calls), Tail(q, |q|), i);
      NotInTail(q, c);
    }
  }

  lemma NotInTail(q: seq<Entry>, c: Callback)
    requires !Has(q, c)
    ensures c !in Tail(q, |q|)
  {}

  lemma {:induction false} InSubsequence(a: seq<Callback>, b: seq<Callback>, i: nat)
    requires Subsequence(a, b) && i < |a|
    ensures a[i] in b
    decreases |b|
  {
    if a[0] == b[0] && Subsequence(a[1..], b[1..]) {
      if i == 0 {
      } else {
        InSubsequence(a[1..], b[1..], i - 1);
      }
    } else {
      InSubsequence(a, b[1..], i);
    }
  }
}
