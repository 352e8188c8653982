/** When the timer queue calls a callback, and with what: read off the entries and the requests made before its turn. */
module TimerTimes {
  import opened TimerQueue

  // ---------------------------------------------------------------- what is asked for

  /** A start time and a delay. */
  datatype Times = Times(start: real, delay: real)

  /** The times of the last request for c, or those that c had before. */
  function Latest(before: Times, rs: seq<Request>, c: Callback): Times {
    if rs == [] then before
    else if rs[|rs| - 1].callback == c then Times(rs[|rs| - 1].start, rs[|rs| - 1].delay)
    else Latest(before, rs[..|rs| - 1], c)
  }

  lemma {:induction false} LatestJoins(before: Times, a: seq<Request>, b: seq<Request>, c: Callback)
    ensures Latest(before, a + b, c) == Latest(Latest(before, a, c), b, c)
    decreases |b|
  {
    if b == [] {
      assert a + b == a;
    } else {
      assert (a + b)[..|a + b| - 1] == a + b[..|b| - 1];
      LatestJoins(before, a, b[..|b| - 1], c);
    }
  }

  /** The time has come: a pass runs what is due by now, and a flush what was not to be delayed. */
  predicate Ripe(mode: Mode, t: Times, now: real) {
    match mode
    case Step => now >= t.start + t.delay
    case FlushNow => t.delay == 0.0
  }

  /** What the callbacks of these calls request, in order. */
  function Asked(calls: seq<(Callback, real)>, react: React): seq<Request> {
    if calls == [] then []
    else Asked(calls[..|calls| - 1], react) + react(calls[|calls| - 1].0, calls[|calls| - 1].1).requests
  }

  /**
   * The calls of a pass over the entries es, after calls already made: each entry in its order, if the times that were
   * last requested for it are ripe, with the time since its start.
   */
  function Expected(mode: Mode, es: seq<Entry>, made: seq<(Callback, real)>, now: real, react: React): seq<(Callback, real)> {
    if es == [] then []
    else
      var t := Latest(Times(es[0].start, es[0].delay), Asked(made, react), es[0].callback);
      if Ripe(mode, t, now) then
        var call := (es[0].callback, now - t.start);
        [call] + Expected(mode, es[1..], made + [call], now, react)
      else Expected(mode, es[1..], made, now, react)
  }

  // ---------------------------------------------------------------- the times of an entry

  function TimesOf(e: Entry): Times {
    Times(e.start, e.delay)
  }

  /** The times of the callback c in the queue, or others if it is not in it. */
  function TimesIn(q: seq<Entry>, c: Callback, others: Times): Times {
    if Find(q, c) < |q| then TimesOf(q[Find(q, c)]) else others
  }

  lemma FindIs(q: seq<Entry>, c: Callback, i: nat)
    requires i <= |q| && (forall k :: 0 <= k < i ==> q[k].callback != c) && (i < |q| ==> q[i].callback == c)
    ensures Find(q, c) == i
  {}

  lemma AddTimes(q: seq<Entry>, r: Request, c: Callback, others: Times)
    ensures TimesIn(Add(q, r), c, others) == Latest(TimesIn(q, c, others), [r], c)
  {
    assert [r][..0] == [];
    var i, j, s := Find(q, r.callback), Find(q, c), Add(q, r);
    FindIs(s, c, if i < |q| then j else if c == r.callback then 0 else j + 1);
    hide Find;
  }

  /** The last request for a callback sets its times, whether it is in the queue or new. */
  lemma {:induction false} AddAllTimes(q: seq<Entry>, rs: seq<Request>, c: Callback, others: Times)
    ensures TimesIn(AddAll(q, rs), c, others) == Latest(TimesIn(q, c, others), rs, c)
    decreases |rs|
  {
    hide Add, TimesIn;
    if rs == [] {
    } else {
      AddTimes(q, rs[0], c, others);
      AddAllTimes(Add(q, rs[0]), rs[1..], c, others);
      LatestJoins(TimesIn(q, c, others), [rs[0]], rs[1..], c);
      assert [rs[0]] + rs[1..] == rs;
    }
  }

  lemma FlagTimes(q: seq<Entry>, i: nat, flag: bool, c: Callback, others: Times)
    requires i < |q|
    ensures TimesIn(q[i := q[i].(flush := flag)], c, others) == TimesIn(q, c, others)
  {
    FindIs(q[i := q[i].(flush := flag)], c, Find(q, c));
  }

  lemma CallTimes(q: seq<Entry>, n: nat, now: real, react: React, c: Callback, others: Times)
    requires 0 < n <= |q|
    ensures var e := q[|q| - n];
      TimesIn(Call(q, n, now, react), c, others) == Latest(TimesIn(q, c, others), react(e.callback, now - e.start).requests, c)
  {
    hide AddAll, TimesIn, Latest;
    var e := q[|q| - n];
    var reaction := react(e.callback, now - e.start);
    var q1 := AddAll(q, reaction.requests);
    AddAllLonger(q, reaction.requests);
    AddAllTimes(q, reaction.requests, c, others);
    FlagTimes(q1, |q1| - n, reaction.done, c, others);
  }

  /** After a run the times of each callback, old or new, are those last requested for it, or those that it had. */
  lemma {:induction false} RunTimes(mode: Mode, q: seq<Entry>, n: nat, now: real, react: React, c: Callback, others: Times)
    requires n <= |q|
    ensures TimesIn(Run(mode, q, n, now, react), c, others) ==
            Latest(TimesIn(q, c, others), Asked(Calls(mode, q, n, now, react), react), c)
    decreases n
  {
    hide Call, TimesIn, Latest, Asked;
    if n == 0 {
      NobodyAsked(react, TimesIn(q, c, others), c);
    } else if DueAt(mode, q, n, now) {
      var r, e := Call(q, n, now, react), q[|q| - n];
      var call, more := (e.callback, now - e.start), Calls(mode, r, n - 1, now, react);
      CallTimes(q, n, now, react, c, others);
      RunTimes(mode, r, n - 1, now, react, c, others);
      AskedFirst(call, more, react);
      LatestJoins(TimesIn(q, c, others), react(call.0, call.1).requests, Asked(more, react), c);
    } else {
      RunTimes(mode, q, n - 1, now, react, c, others);
    }
  }

  lemma NobodyAsked(react: React, t: Times, c: Callback)
    ensures Latest(t, Asked([], react), c) == t
  {}

  lemma {:induction false} AskedFirst(call: (Callback, real), more: seq<(Callback, real)>, react: React)
    ensures Asked([call] + more, react) == react(call.0, call.1).requests + Asked(more, react)
    decreases |more|
  {
    if more == [] {
      assert [call] + more == [] + [call];
      AskedMore([], call, react);
    } else {
      var rest, last := more[..|more| - 1], more[|more| - 1];
      assert [call] + more == ([call] + rest) + [last] && more == rest + [last];
      AskedMore([call] + rest, last, react);
      AskedMore(rest, last, react);
      AskedFirst(call, rest, react);
      hide Asked;
    }
  }

  // ---------------------------------------------------------------- a whole pass

  /** The last n entries of q are es, with the times that the calls made so far have requested for them. */
  ghost predicate Prepared(q: seq<Entry>, es: seq<Entry>, made: seq<(Callback, real)>, react: React) {
    |es| <= |q| && forall k :: 0 <= k < |es| ==> PreparedAt(q, es, made, react, k)
  }

  ghost predicate PreparedAt(q: seq<Entry>, es: seq<Entry>, made: seq<(Callback, real)>, react: React, k: nat)
    requires k < |es| <= |q|
  {
    var e := q[|q| - |es| + k];
    e.callback == es[k].callback && TimesOf(e) == Latest(TimesOf(es[k]), Asked(made, react), es[k].callback)
  }

  lemma OwnTimes(q: seq<Entry>, i: nat, others: Times)
    requires Unique(q) && i < |q|
    ensures TimesIn(q, q[i].callback, others) == TimesOf(q[i])
  {
    FindIs(q, q[i].callback, i);
  }

  lemma SkipPrepares(q: seq<Entry>, es: seq<Entry>, made: seq<(Callback, real)>, react: React)
    requires es != [] && Prepared(q, es, made, react)
    ensures Prepared(q, es[1..], made, react)
  {
    hide Latest, Asked;
    forall k | 0 <= k < |es[1..]| ensures PreparedAt(q, es[1..], made, react, k) {
      assert PreparedAt(q, es, made, react, k + 1);
    }
  }

  lemma CallPrepares(q: seq<Entry>, es: seq<Entry>, made: seq<(Callback, real)>, now: real, react: React)
    requires Unique(q) && es != [] && Prepared(q, es, made, react)
    ensures var e := q[|q| - |es|];
      Prepared(Call(q, |es|, now, react), es[1..], made + [(e.callback, now - e.start)], react)
  {
    hide Latest, Call, Unique, TimesOf, TimesIn;
    var e := q[|q| - |es|];
    var call := (e.callback, now - e.start);
    var r, rs := Call(q, |es|, now, react), react(e.callback, now - e.start).requests;
    AskedMore(made, call, react);
    CallFacts(q, |es|, now, react);
    CallUnique(q, |es|, now, react);
    forall k | 0 <= k < |es[1..]| ensures PreparedAt(r, es[1..], made + [call], react, k) {
      assert PreparedAt(q, es, made, react, k + 1);
      var i, j := |q| - |es| + k + 1, |r| - |es| + k + 1;
      assert SameCallback(q, r, i);
      CallTimes(q, |es|, now, react, q[i].callback, TimesOf(q[i]));
      OwnTimes(q, i, TimesOf(q[i]));
      OwnTimes(r, j, TimesOf(q[i]));
      LatestJoins(TimesOf(es[k + 1]), Asked(made, react), rs, es[k + 1].callback);
    }
  }

  lemma AskedMore(made: seq<(Callback, real)>, call: (Callback, real), react: React)
    ensures Asked(made + [call], react) == Asked(made, react) + react(call.0, call.1).requests
  {
    assert (made + [call])[..|made|] == made;
  }

  lemma {:induction false} CallsExpected(mode: Mode, q: seq<Entry>, es: seq<Entry>, made: seq<(Callback, real)>, now: real,
                                         react: React)
    requires Unique(q) && Prepared(q, es, made, react)
    ensures Calls(mode, q, |es|, now, react) == Expected(mode, es, made, now, react)
    decreases |es|
  {
    hide Call, Unique, Latest, Asked;
    if es == [] {
    } else {
      assert PreparedAt(q, es, made, react, 0);
      var e := q[|q| - |es|];
      if DueAt(mode, q, |es|, now) {
        CallUnique(q, |es|, now, react);
        CallPrepares(q, es, made, now, react);
        CallsExpected(mode, Call(q, |es|, now, react), es[1..], made + [(e.callback, now - e.start)], now, react);
      } else {
        SkipPrepares(q, es, made, react);
        CallsExpected(mode, q, es[1..], made, now, react);
      }
    }
  }

  /** A pass calls each entry that is ripe at its turn, and no other, with the time since its start. */
  lemma PassCallsTheRipe(mode: Mode, q: seq<Entry>, now: real, react: React)
    requires Unique(q)
    ensures Calls(mode, q, |q|, now, react) == Expected(mode, q, [], now, react)
  {
    forall k | 0 <= k < |q| ensures PreparedAt(q, q, [], react, k) {}
    hide Unique;
    CallsExpected(mode, q, q, [], now, react);
  }

  lemma {:induction false} ExpectedSplits(mode: Mode, a: seq<Entry>, b: seq<Entry>, made: seq<(Callback, real)>, now: real,
                                          react: React)
    ensures var first := Expected(mode, a, made, now, react);
      Expected(mode, a + b, made, now, react) == first + Expected(mode, b, made + first, now, react)
    decreases |a|
  {
    hide Latest, Asked, Ripe;
    if a == [] {
      assert a + b == b && made + [] == made;
    } else {
      assert (a + b)[1..] == a[1..] + b;
      var t := Latest(Times(a[0].start, a[0].delay), Asked(made, react), a[0].callback);
      if Ripe(mode, t, now) {
        var call := (a[0].callback, now - t.start);
        ExpectedSplits(mode, a[1..], b, made + [call], now, react);
        assert made + [call] + Expected(mode, a[1..], made + [call], now, react)
            == made + ([call] + Expected(mode, a[1..], made + [call], now, react));
      } else {
        ExpectedSplits(mode, a[1..], b, made, now, react);
      }
    }
  }

  lemma {:induction false} OnlyTheirs(mode: Mode, es: seq<Entry>, made: seq<(Callback, real)>, now: real, react: React,
                                      c: Callback)
    requires forall k :: 0 <= k < |es| ==> es[k].callback != c
    ensures forall call :: call in Expected(mode, es, made, now, react) ==> call.0 != c
    decreases |es|
  {
    hide Latest, Asked, Ripe;
    if es == [] {
    } else {
      var t := Latest(Times(es[0].start, es[0].delay), Asked(made, react), es[0].callback);
      OnlyTheirs(mode, es[1..], made + [(es[0].callback, now - t.start)], now, react, c);
      OnlyTheirs(mode, es[1..], made, now, react, c);
    }
  }

  /** The calls before the turn of an entry, its own call if it is ripe, and the calls after it. */
  lemma Turn(mode: Mode, q: seq<Entry>, now: real, react: React, i: nat) returns (later: seq<(Callback, real)>)
    requires Unique(q) && i < |q|
    ensures var before, c := Expected(mode, q[..i], [], now, react), q[i].callback;
      var t := Latest(TimesOf(q[i]), Asked(before, react), c);
      && Calls(mode, q, |q|, now, react) == before + (if Ripe(mode, t, now) then [(c, now - t.start)] else []) + later
      && (forall call :: call in before ==> call.0 != c) && (forall call :: call in later ==> call.0 != c)
  {
    hide Calls, Latest, Asked, Ripe;
    var c, before := q[i].callback, Expected(mode, q[..i], [], now, react);
    var t := Latest(TimesOf(q[i]), Asked(before, react), c);
    var made := before + if Ripe(mode, t, now) then [(c, now - t.start)] else [];
    later := Expected(mode, q[i + 1..], made, now, react);
    OnlyTheirs(mode, q[..i], [], now, react, c);
    OnlyTheirs(mode, q[i + 1..], made, now, react, c);
    PassCallsTheRipe(mode, q, now, react);
    assert q == q[..i] + q[i..] && [] + before == before;
    ExpectedSplits(mode, q[..i], q[i..], [], now, react);
    assert q[i..][1..] == q[i + 1..] && before + [] == before;
    hide Unique;
  }

  /** An entry is called, with the time since its start, if and only if it is ripe when the entries before it are through. */
  lemma CalledIffRipe(mode: Mode, q: seq<Entry>, now: real, react: React, i: nat, elapsed: real)
    requires Unique(q) && i < |q|
    ensures var before := Expected(mode, q[..i], [], now, react);
      var t := Latest(TimesOf(q[i]), Asked(before, react), q[i].callback);
      (q[i].callback, elapsed) in Calls(mode, q, |q|, now, react) <==> Ripe(mode, t, now) && elapsed == now - t.start
  {
    hide Unique, Calls, Latest, Asked, Ripe, Expected;
    var later := Turn(mode, q, now, react, i);
  }

  /** One entry with a delay of 100: nothing at time 50, and a call at time 150. */
  lemma NotBeforeItsTime(c: Callback, react: React)
    ensures Calls(Step, [Entry(c, 0.0, 100.0, false)], 1, 50.0, react) == []
    ensures Calls(Step, [Entry(c, 0.0, 100.0, false)], 1, 150.0, react) == [(c, 150.0)]
  {
    hide Calls;
    var q := [Entry(c, 0.0, 100.0, false)];
    PassCallsTheRipe(Step, q, 50.0, react);
    PassCallsTheRipe(Step, q, 150.0, react);
    assert q[1..] == [];
  }

  // ---------------------------------------------------------------- callbacks that request nothing

  /** The callbacks of these calls have requested nothing. */
  ghost predicate Quiet(react: React) {
    forall c, elapsed :: react(c, elapsed).requests == []
  }

  /** The ripe entries, in order, with the times since their starts. */
  function RipeOnes(mode: Mode, q: seq<Entry>, now: real): seq<(Callback, real)> {
    if q == [] then []
    else
      (if Ripe(mode, TimesOf(q[0]), now) then [(q[0].callback, now - q[0].start)] else []) + RipeOnes(mode, q[1..], now)
  }

  lemma {:induction false} NothingAsked(calls: seq<(Callback, real)>, react: React)
    requires Quiet(react)
    ensures Asked(calls, react) == []
  {
    if calls == [] {
    } else {
      NothingAsked(calls[..|calls| - 1], react);
      var c, elapsed := calls[|calls| - 1].0, calls[|calls| - 1].1;
      assert react(c, elapsed).requests == [];
    }
  }

  lemma {:induction false} QuietExpected(mode: Mode, es: seq<Entry>, made: seq<(Callback, real)>, now: real, react: React)
    requires Quiet(react)
    ensures Expected(mode, es, made, now, react) == RipeOnes(mode, es, now)
    decreases |es|
  {
    hide Quiet, Asked;
    if es == [] {
    } else {
      NothingAsked(made, react);
      assert Latest(TimesOf(es[0]), [], es[0].callback) == TimesOf(es[0]);
      hide Latest, Ripe;
      QuietExpected(mode, es[1..], made, now, react);
      QuietExpected(mode, es[1..], made + [(es[0].callback, now - es[0].start)], now, react);
    }
  }

  /** Callbacks that request nothing are called exactly when they are ripe, in the order of the queue. */
  lemma QuietPass(mode: Mode, q: seq<Entry>, now: real, react: React)
    requires Unique(q) && Quiet(react)
    ensures Calls(mode, q, |q|, now, react) == RipeOnes(mode, q, now)
  {
    hide Unique, Quiet;
    PassCallsTheRipe(mode, q, now, react);
    QuietExpected(mode, q, [], now, react);
  }
}
