/** The data join of a selection (bind inside d3_selectionPrototype.data): where nodes and data end up. */
module DataJoin {
  import opened Wrappers

  type Datum = int

  type Key = string

  // ---------------------------------------------------------------- the keyed join, on the keys alone

  // Below, ks are the keys of the nodes and ds the keys of the data, by index.

  function First(ks: seq<Key>, k: Key): (i: nat)
    requires k in ks
    ensures i < |ks| && ks[i] == k && k !in ks[..i]
  {
    if ks[0] == k then 0
    else
      assert ks == [ks[0]] + ks[1..];
      var i := 1 + First(ks[1..], k);
      assert ks[..i] == [ks[0]] + ks[1..][..i - 1];
      i
  }

  predicate Repeated(ks: seq<Key>, i: nat)
    requires i < |ks|
  {
    ks[i] in ks[..i]
  }

  /** The node that datum j updates: the first one with its key, unless an earlier datum has taken it. */
  function Update(ks: seq<Key>, ds: seq<Key>, j: nat): Option<nat>
    requires j < |ds|
  {
    if ds[j] in ks && !Repeated(ds, j) then Some(First(ks, ds[j])) else None
  }

  /** The nodes among the first n whose key an earlier node has, in order. */
  function Duplicates(ks: seq<Key>, n: nat): (d: seq<nat>)
    requires n <= |ks|
    ensures forall t :: 0 <= t < |d| ==> d[t] < n && Repeated(ks, d[t])
    ensures forall t, u :: 0 <= t < u < |d| ==> d[t] < d[u]
    ensures forall i :: 0 <= i < n && Repeated(ks, i) ==> i in d
  {
    if n == 0 then [] else Duplicates(ks, n - 1) + if Repeated(ks, n - 1) then [n - 1] else []
  }

  lemma DuplicatesStep(ks: seq<Key>, n: nat)
    requires n < |ks|
    ensures Duplicates(ks, n + 1) == Duplicates(ks, n) + (if ks[n] in ks[..n] then [n] else [])
  {}

  /** The node in exit slot s: one without a datum at its own index, or a duplicate behind the data. */
  function Exit(ks: seq<Key>, ds: seq<Key>, s: nat): Option<nat> {
    var dups := Duplicates(ks, |ks|);
    if s < |ks| && ks[s] !in ds then Some(s)
    else if |ds| <= s < |ds| + |dups| then Some(dups[s - |ds|])
    else None
  }

  // ---------------------------------------------------------------- conservation

  /** An array slot. */
  datatype Place = InUpdate(slot: nat) | InExit(slot: nat)

  predicate IsAt(ks: seq<Key>, ds: seq<Key>, i: nat, p: Place) {
    match p
    case InUpdate(j) => j < |ds| && Update(ks, ds, j) == Some(i)
    case InExit(s) => Exit(ks, ds, s) == Some(i)
  }

  ghost predicate ExactlyOnce(ks: seq<Key>, ds: seq<Key>, i: nat) {
    exists p :: IsAt(ks, ds, i, p) && forall q :: IsAt(ks, ds, i, q) ==> q == p
  }

  /** Duplicate t has a datum for its key exactly when its exit slot is not overwritten by the node at that index. */
  predicate DuplicateSafe(ks: seq<Key>, ds: seq<Key>, t: nat)
    requires t < |Duplicates(ks, |ks|)|
  {
    var slot := |ds| + t;
    ks[Duplicates(ks, |ks|)[t]] in ds <==> (slot >= |ks| || ks[slot] in ds)
  }

  /** A node whose key is new is in update when its key has a datum, and in exit at its own index otherwise. */
  lemma FirstNodeOnce(ks: seq<Key>, ds: seq<Key>, i: nat)
    requires i < |ks| && !Repeated(ks, i)
    ensures ExactlyOnce(ks, ds, i)
    ensures ks[i] in ds <==> exists j :: 0 <= j < |ds| && Update(ks, ds, j) == Some(i)
  {
    var dups := Duplicates(ks, |ks|);
    var p: Place;
    if ks[i] in ds {
      var j := First(ds, ks[i]);
      FirstIs(ks, i);
      p := InUpdate(j);
      assert Update(ks, ds, j) == Some(i);
    } else {
      p := InExit(i);
    }
    assert IsAt(ks, ds, i, p);
    forall q | IsAt(ks, ds, i, q) ensures q == p {
      match q {
        case InUpdate(j) =>
          assert ds[j] == ks[i];
          FirstIs(ds, j);
        case InExit(s) =>
      }
    }
  }

  lemma EarlierRepeats(ks: seq<Key>, i: nat, j: nat)
    requires i < |ks| && j < |ks|
    ensures i < j && ks[i] == ks[j] ==> Repeated(ks, j)
  {
    if i < j {
      assert ks[..j][i] == ks[i];
    }
  }

  lemma FirstIs(ks: seq<Key>, i: nat)
    requires i < |ks| && !Repeated(ks, i)
    ensures First(ks, ks[i]) == i
  {
    var f := First(ks, ks[i]);
    EarlierRepeats(ks, f, i);
    EarlierRepeats(ks, i, f);
  }

  /** A duplicate is in exactly one slot exactly when its slot behind the data is safe. */
  lemma DuplicateOnce(ks: seq<Key>, ds: seq<Key>, t: nat)
    requires t < |Duplicates(ks, |ks|)|
    ensures ExactlyOnce(ks, ds, Duplicates(ks, |ks|)[t]) <==> DuplicateSafe(ks, ds, t)
  {
    var dups := Duplicates(ks, |ks|);
    var i, slot := dups[t], |ds| + t;
    forall q | IsAt(ks, ds, i, q) ensures q == InExit(i) || q == InExit(slot) {
      match q {
        case InUpdate(j) =>
        case InExit(s) =>
      }
    }
    assert IsAt(ks, ds, i, InExit(i)) <== ks[i] !in ds;
    assert IsAt(ks, ds, i, InExit(slot)) <==> slot >= |ks| || ks[slot] in ds || slot == i;
  }

  /**
   * The keyed join conserves nodes - each is in exactly one slot of update and exit - exactly when every duplicate is
   * safe. With distinct node keys there is no duplicate.
   */
  lemma NodesConserved(ks: seq<Key>, ds: seq<Key>)
    ensures (forall i :: 0 <= i < |ks| ==> ExactlyOnce(ks, ds, i)) <==>
            (forall t :: 0 <= t < |Duplicates(ks, |ks|)| ==> DuplicateSafe(ks, ds, t))
  {
    var dups := Duplicates(ks, |ks|);
    forall t | 0 <= t < |dups| ensures ExactlyOnce(ks, ds, dups[t]) <==> DuplicateSafe(ks, ds, t) {
      DuplicateOnce(ks, ds, t);
    }
    forall i | 0 <= i < |ks| && !Repeated(ks, i) ensures ExactlyOnce(ks, ds, i) {
      FirstNodeOnce(ks, ds, i);
    }
    if forall t :: 0 <= t < |dups| ==> DuplicateSafe(ks, ds, t) {
      forall i | 0 <= i < |ks| ensures ExactlyOnce(ks, ds, i) {
        if Repeated(ks, i) {
          var t :| 0 <= t < |dups| && dups[t] == i;
          assert DuplicateSafe(ks, ds, t);
        }
      }
    }
    if forall i :: 0 <= i < |ks| ==> ExactlyOnce(ks, ds, i) {
      forall t | 0 <= t < |dups| ensures DuplicateSafe(ks, ds, t) {
        assert ExactlyOnce(ks, ds, dups[t]);
      }
    }
  }

  /** A duplicate of a matched key can be lost, when a leaving node takes its slot. */
  lemma DuplicateLost(a: Key, b: Key, x: Key)
    requires a != b && b != x && a != x
    ensures !ExactlyOnce([a, a, b], [a, x], 1)
  {
    var ks := [a, a, b];
    assert Duplicates(ks, |ks|) == [1] by {
      assert ks[..0] == [] && ks[..1] == [a] && ks[..2] == [a, a];
      DuplicatesStep(ks, 0);
      DuplicatesStep(ks, 1);
      DuplicatesStep(ks, 2);
      hide Duplicates;
    }
    hide Duplicates;
    DuplicateOnce(ks, [a, x], 0);
  }

  /** A duplicate whose key has no datum can stand in two exit slots: behind the data and at its own index. */
  lemma DuplicateTwice(a: Key, x: Key, y: Key, z: Key)
    requires a !in {x, y, z}
    ensures IsAt([a, a], [x, y, z], 1, InExit(1)) && IsAt([a, a], [x, y, z], 1, InExit(3))
    ensures !ExactlyOnce([a, a], [x, y, z], 1)
  {
    var ks, ds := [a, a], [x, y, z];
    RepeatedOnce(a);
    hide Duplicates, Update;
    assert Exit(ks, ds, 1) == Some(1) && Exit(ks, ds, 3) == Some(1);
    assert IsAt(ks, ds, 1, InExit(1)) && IsAt(ks, ds, 1, InExit(3));
  }

  lemma RepeatedOnce(a: Key)
    ensures Duplicates([a, a], 2) == [1]
  {
    var ks := [a, a];
    assert ks[..0] == [] && ks[..1] == [a];
    DuplicatesStep(ks, 0);
    DuplicatesStep(ks, 1);
    hide Duplicates;
  }

  lemma DistinctKeysConserveNodes(ks: seq<Key>, ds: seq<Key>, i: nat)
    requires (forall a, b :: 0 <= a < b < |ks| ==> ks[a] != ks[b]) && i < |ks|
    ensures ExactlyOnce(ks, ds, i)
  {
    FirstNodeOnce(ks, ds, i);
  }

  /** An update pairs a datum with a node of its own key, and no node is updated twice. */
  lemma UpdatesMatchKeys(ks: seq<Key>, ds: seq<Key>, j: nat, l: nat)
    requires j < |ds| && l < |ds| && Update(ks, ds, j).Some?
    ensures ks[Update(ks, ds, j).value] == ds[j]
    ensures Update(ks, ds, l) == Update(ks, ds, j) ==> l == j
  {
    EarlierRepeats(ds, l, j);
    EarlierRepeats(ds, j, l);
  }

  // ---------------------------------------------------------------- the join on nodes

  class JoinNode {
    var data: Datum

    constructor (data: Datum)
      ensures this.data == data
    {
      this.data := data;
    }
  }

  type KeyFunction = (Datum, nat) -> Key

  function NodeKeys(group: seq<JoinNode>, key: KeyFunction): (ks: seq<Key>)
    reads group
    ensures |ks| == |group| && forall i :: 0 <= i < |ks| ==> ks[i] == key(group[i].data, i)
  {
    seq(|group|, i requires 0 <= i < |group| reads group => key(group[i].data, i))
  }

  function DataKeys(data: seq<Datum>, key: KeyFunction): (ds: seq<Key>)
    ensures |ds| == |data| && forall j :: 0 <= j < |ds| ==> ds[j] == key(data[j], j)
  {
    seq(|data|, j requires 0 <= j < |data| => key(data[j], j))
  }

  /** Slot j of update and enter: the node with the datum's key, now carrying the datum, or else a place for the datum. */
  ghost predicate JoinedAt(group: seq<JoinNode>, data: seq<Datum>, ks: seq<Key>, ds: seq<Key>,
                           update: JoinNode?, enter: Option<Datum>, j: nat)
    requires j < |ds| == |data| && |ks| == |group|
    reads group
  {
    match Update(ks, ds, j)
    case Some(i) => i < |group| && update == group[i] && group[i].data == data[j] && enter == None
    case None => update == null && enter == Some(data[j])
  }

  /** None of the first n data updates node i. */
  predicate Spared(ks: seq<Key>, ds: seq<Key>, n: nat, i: nat)
    requires n <= |ds|
  {
    forall j :: 0 <= j < n ==> Update(ks, ds, j) != Some(i)
  }

  /** The map from a key to its first node, after the keys of the first n data have been taken out. */
  ghost predicate Indexed(nodeByKey: map<Key, JoinNode>, group: seq<JoinNode>, ks: seq<Key>, ds: seq<Key>, n: nat)
    requires n <= |ds| && |ks| <= |group|
  {
    && (forall k :: k in nodeByKey <==> k in ks && k !in ds[..n])
    && (forall k :: k in nodeByKey ==> nodeByKey[k] == group[First(ks, k)])
  }

  /** The duplicates among the first n nodes stand behind the m data, and nothing else does. */
  ghost predicate DuplicatesBehind(exit: map<nat, JoinNode?>, group: seq<JoinNode>, ks: seq<Key>, m: nat, n: nat)
    requires n <= |ks| && |ks| == |group|
  {
    var dups := Duplicates(ks, n);
    && (forall s: nat :: s >= m ==> (s in exit <==> s < m + |dups|))
    && (forall s: nat :: m <= s < m + |dups| ==> s in exit && exit[s] == group[dups[s - m]])
  }

  lemma InPrefix(ks: seq<Key>, n: nat, i: nat)
    requires n <= |ks|
    ensures i < n ==> ks[i] in ks[..n]
  {
    if i < n {
      assert ks[..n][i] == ks[i];
    }
  }

  /** Adding a key moves no first occurrence, and a new key is first where it stands. */
  lemma FirstStays(ks: seq<Key>, n: nat)
    requires n < |ks|
    ensures forall k :: k in ks[..n + 1] <==> k in ks[..n] || k == ks[n]
    ensures forall k :: k in ks[..n] ==> First(ks[..n + 1], k) == First(ks[..n], k)
    ensures ks[n] !in ks[..n] ==> First(ks[..n + 1], ks[n]) == n
  {
    var a, b := ks[..n], ks[..n + 1];
    assert b == a + [ks[n]];
    forall k | k in a ensures First(b, k) == First(a, k) {
      var f, g := First(b, k), First(a, k);
      InPrefix(b, f, g);
      InPrefix(a, g, f);
    }
    if ks[n] !in a {
      assert b[..n] == a;
      FirstIs(b, n);
    }
  }

  lemma BehindStep(exit: map<nat, JoinNode?>, group: seq<JoinNode>, ks: seq<Key>, m: nat, n: nat)
    requires n < |ks| && |ks| == |group| && DuplicatesBehind(exit, group, ks, m, n)
    ensures ks[n] !in ks[..n] ==>
              Duplicates(ks, n + 1) == Duplicates(ks, n) && DuplicatesBehind(exit, group, ks, m, n + 1)
    ensures ks[n] in ks[..n] ==>
              && |Duplicates(ks, n + 1)| == |Duplicates(ks, n)| + 1
              && DuplicatesBehind(exit[m + |Duplicates(ks, n)| := group[n]], group, ks, m, n + 1)
  {
    DuplicatesStep(ks, n);
  }

  /** A null before the duplicates leaves them alone. */
  lemma BehindStays(exit: map<nat, JoinNode?>, group: seq<JoinNode>, ks: seq<Key>, m: nat, j: nat)
    requires |ks| == |group| && DuplicatesBehind(exit, group, ks, m, |ks|) && j < m
    ensures DuplicatesBehind(exit[j := null], group, ks, m, |ks|)
  {
    hide Duplicates;
  }

  lemma IndexStep(nodeByKey: map<Key, JoinNode>, group: seq<JoinNode>, ks: seq<Key>, n: nat)
    requires n < |ks| == |group| && Indexed(nodeByKey, group, ks[..n], [], 0)
    ensures ks[n] in nodeByKey <==> ks[n] in ks[..n]
    ensures Indexed(if ks[n] in nodeByKey then nodeByKey else nodeByKey[ks[n] := group[n]], group, ks[..n + 1], [], 0)
  {
    FirstStays(ks, n);
    hide First;
  }

  lemma NothingIndexed(group: seq<JoinNode>, ks: seq<Key>, m: nat)
    requires |ks| == |group|
    ensures Indexed(map[], group, ks[..0], [], 0)
    ensures Duplicates(ks, 0) == [] && DuplicatesBehind(map[], group, ks, m, 0)
  {}

  /** The first loop: the keys of the nodes, the first node of each key, and the duplicates. */
  method IndexByKey(group: seq<JoinNode>, m: nat, key: KeyFunction)
    returns (nodeByKey: map<Key, JoinNode>, keys: seq<Key>, exit: map<nat, JoinNode?>)
    ensures keys == NodeKeys(group, key) && Indexed(nodeByKey, group, keys, [], 0)
    ensures DuplicatesBehind(exit, group, keys, m, |group|) && forall s :: s in exit ==> s >= m
  {
    hide Indexed, DuplicatesBehind, Duplicates;
    ghost var ks := NodeKeys(group, key);
    var j := m;
    nodeByKey, keys, exit := map[], [], map[];
    NothingIndexed(group, ks, m);
    for i := 0 to |group|
      invariant keys == ks[..i] && Indexed(nodeByKey, group, ks[..i], [], 0)
      invariant j == m + |Duplicates(ks, i)| && DuplicatesBehind(exit, group, ks, m, i)
      invariant forall s :: s in exit ==> s >= m
    {
      var keyValue := key(group[i].data, i);
      IndexStep(nodeByKey, group, ks, i);
      BehindStep(exit, group, ks, m, i);
      if keyValue in nodeByKey {
        exit := exit[j := group[i]];
        j := j + 1;
      } else {
        nodeByKey := nodeByKey[keyValue := group[i]];
      }
      keys := keys + [keyValue];
    }
    assert ks[..|group|] == ks;
  }

  /** Before any datum the index is complete, and which data are to come does not matter. */
  lemma IndexStarts(nodeByKey: map<Key, JoinNode>, group: seq<JoinNode>, ks: seq<Key>, ds: seq<Key>)
    requires |ks| <= |group| && Indexed(nodeByKey, group, ks, [], 0)
    ensures Indexed(nodeByKey, group, ks, ds, 0)
  {
    hide First;
  }

  lemma TakeOut(nodeByKey: map<Key, JoinNode>, group: seq<JoinNode>, ks: seq<Key>, ds: seq<Key>, n: nat)
    requires n < |ds| && |ks| <= |group| && Indexed(nodeByKey, group, ks, ds, n)
    ensures Indexed(nodeByKey - {ds[n]}, group, ks, ds, n + 1)
  {
    hide First;
    var rest := nodeByKey - {ds[n]};
    assert ds[..n + 1] == ds[..n] + [ds[n]];
    forall k ensures k in rest <==> k in ks && k !in ds[..n + 1] {}
  }

  lemma Takes(nodeByKey: map<Key, JoinNode>, group: seq<JoinNode>, ks: seq<Key>, ds: seq<Key>, n: nat)
    requires n < |ds| && |ks| <= |group| && Indexed(nodeByKey, group, ks, ds, n)
    ensures if ds[n] in nodeByKey then Update(ks, ds, n).Some? && Update(ks, ds, n).value < |ks|
                                       && nodeByKey[ds[n]] == group[Update(ks, ds, n).value]
            else Update(ks, ds, n) == None
  {
    var k := ds[n];
    assert k in nodeByKey <==> k in ks && !Repeated(ds, n);
  }

  /** The second loop: each datum updates the node of its key or enters, and its key is taken out. */
  method JoinData(group: seq<JoinNode>, data: seq<Datum>, key: KeyFunction, index: map<Key, JoinNode>,
                  ghost ks: seq<Key>, behind: map<nat, JoinNode?>)
    returns (nodeByKey: map<Key, JoinNode>, update: seq<JoinNode?>, enter: seq<Option<Datum>>,
             exit: map<nat, JoinNode?>)
    requires forall a, b :: 0 <= a < b < |group| ==> group[a] != group[b]
    requires |ks| == |group| && Indexed(index, group, ks, DataKeys(data, key), 0)
    requires DuplicatesBehind(behind, group, ks, |data|, |ks|)
    modifies group
    ensures Indexed(nodeByKey, group, ks, DataKeys(data, key), |data|)
    ensures |update| == |enter| == |data|
    ensures forall j :: 0 <= j < |data| ==>
                          JoinedAt(group, data, ks, DataKeys(data, key), update[j], enter[j], j)
    ensures forall i :: 0 <= i < |group| && Spared(ks, DataKeys(data, key), |data|, i) ==>
                          group[i].data == old(group[i].data)
    ensures DuplicatesBehind(exit, group, ks, |data|, |ks|) && forall s :: 0 <= s < |data| ==> s in exit && exit[s] == null
  {
    hide First, DuplicatesBehind, Indexed, Update;
    ghost var ds := DataKeys(data, key);
    nodeByKey, update, enter, exit := index, [], [], behind;
    for j := 0 to |data|
      invariant Indexed(nodeByKey, group, ks, ds, j) && |update| == |enter| == j
      invariant forall l :: 0 <= l < j ==> JoinedAt(group, data, ks, ds, update[l], enter[l], l)
      invariant forall i :: 0 <= i < |group| && Spared(ks, ds, j, i) ==> group[i].data == old(group[i].data)
      invariant DuplicatesBehind(exit, group, ks, |data|, |ks|)
      invariant forall s :: 0 <= s < j ==> s in exit && exit[s] == null
    {
      var nodeData := data[j];
      var keyValue := key(nodeData, j);
      assert keyValue == ds[j];
      TakeOut(nodeByKey, group, ks, ds, j);
      Takes(nodeByKey, group, ks, ds, j);
      BehindStays(exit, group, ks, |data|, j);
      OthersStay(ks, ds, j);
      if keyValue in nodeByKey {
        var node := nodeByKey[keyValue];
        node.data := nodeData;
        update, enter, exit := update + [node], enter + [None], exit[j := null];
      } else {
        update, enter, exit := update + [null], enter + [Some(nodeData)], exit[j := null];
      }
      nodeByKey := nodeByKey - {keyValue};
    }
  }

  /** The third loop: a node whose key is still there leaves, from its own slot. */
  method ExitUnmatched(group: seq<JoinNode>, keys: seq<Key>, nodeByKey: map<Key, JoinNode>, was: map<nat, JoinNode?>)
    returns (exit: map<nat, JoinNode?>)
    requires |keys| == |group|
    ensures forall s: nat :: if s < |keys| && keys[s] in nodeByKey then s in exit && exit[s] == group[s]
                             else (s in exit <==> s in was) && (s in exit ==> exit[s] == was[s])
  {
    exit := was;
    for i := 0 to |group|
      invariant forall s: nat :: if s < i && keys[s] in nodeByKey then s in exit && exit[s] == group[s]
                                 else (s in exit <==> s in was) && (s in exit ==> exit[s] == was[s])
    {
      if keys[i] in nodeByKey {
        exit := exit[i := group[i]];
      }
    }
  }

  lemma ExitsAre(group: seq<JoinNode>, ks: seq<Key>, ds: seq<Key>, nodeByKey: map<Key, JoinNode>,
                 was: map<nat, JoinNode?>, exit: map<nat, JoinNode?>, s: nat)
    requires |ks| == |group| && Indexed(nodeByKey, group, ks, ds, |ds|)
    requires DuplicatesBehind(was, group, ks, |ds|, |ks|) && forall s :: 0 <= s < |ds| ==> s in was && was[s] == null
    requires if s < |ks| && ks[s] in nodeByKey then s in exit && exit[s] == group[s]
             else (s in exit <==> s in was) && (s in exit ==> exit[s] == was[s])
    ensures ExitAt(exit, group, ks, ds, s)
  {
    hide First, Duplicates;
    assert ds[..|ds|] == ds;
  }

  /** No earlier datum updates the node that datum j updates. */
  lemma OthersStay(ks: seq<Key>, ds: seq<Key>, j: nat)
    requires j < |ds|
    ensures forall l :: 0 <= l < j && Update(ks, ds, j).Some? ==> Update(ks, ds, l) != Update(ks, ds, j)
  {
    forall l | 0 <= l < j && Update(ks, ds, j).Some? ensures Update(ks, ds, l) != Update(ks, ds, j) {
      UpdatesMatchKeys(ks, ds, j, l);
    }
  }

  /** bind(group, groupData) with a key. A slot of exit that is never assigned is missing from the map. */
  method BindKeyed(group: seq<JoinNode>, data: seq<Datum>, key: KeyFunction)
    returns (update: seq<JoinNode?>, enter: seq<Option<Datum>>, exit: map<nat, JoinNode?>)
    requires forall a, b :: 0 <= a < b < |group| ==> group[a] != group[b]
    modifies group
    ensures |update| == |enter| == |data|
    ensures forall j :: 0 <= j < |data| ==>
                          JoinedAt(group, data, old(NodeKeys(group, key)), DataKeys(data, key), update[j], enter[j], j)
    ensures forall i :: 0 <= i < |group| && Spared(old(NodeKeys(group, key)), DataKeys(data, key), |data|, i) ==>
                          group[i].data == old(group[i].data)
    ensures forall s: nat :: ExitAt(exit, group, old(NodeKeys(group, key)), DataKeys(data, key), s)
  {
    hide DuplicatesBehind, Indexed, Update, ExitAt, Spared, JoinedAt;
    var index, keys, behind := IndexByKey(group, |data|, key);
    ghost var ds := DataKeys(data, key);
    IndexStarts(index, group, keys, ds);
    var nodeByKey;
    nodeByKey, update, enter, exit := JoinData(group, data, key, index, keys, behind);
    ghost var was := exit;
    exit := ExitUnmatched(group, keys, nodeByKey, exit);
    forall s: nat ensures ExitAt(exit, group, keys, ds, s) {
      ExitsAre(group, keys, ds, nodeByKey, was, exit, s);
    }
  }

  /** Exit slot s holds the node that Exit names, or nothing. */
  ghost predicate ExitAt(exit: map<nat, JoinNode?>, group: seq<JoinNode>, ks: seq<Key>, ds: seq<Key>, s: nat)
    requires |ks| == |group|
  {
    match Exit(ks, ds, s)
    case Some(i) => i < |group| && s in exit && exit[s] == group[i]
    case None => s in exit ==> exit[s] == null
  }

  // ---------------------------------------------------------------- the join by index

  /**
   * bind without a key: the first of both meet by index, an empty place of the group lets its datum enter, data
   * beyond the group enter and nodes beyond the data leave.
   */
  method BindByIndex(group: seq<JoinNode?>, data: seq<Datum>)
    returns (update: seq<JoinNode?>, enter: seq<Option<Datum>>, exit: seq<JoinNode?>)
    requires forall a, b :: 0 <= a < b < |group| && group[a] != null ==> group[a] != group[b]
    modifies set i | 0 <= i < |group| && group[i] != null :: group[i]
    ensures |update| == |enter| == |exit| && |exit| >= |group| && |exit| >= |data|
    ensures forall i :: 0 <= i < |update| ==> IndexedAt(group, data, update[i], enter[i], exit[i], i)
    ensures forall i :: |data| <= i < |group| && group[i] != null ==> group[i].data == old(group[i].data)
  {
    var n, m := |group|, |data|;
    var n0, n1 := if n < m then n else m, if n < m then m else n;
    update, enter, exit := [], [], [];
    var i := 0;
    while i < n0
      invariant 0 <= i <= n0 && |update| == |enter| == |exit| == i
      invariant forall k :: 0 <= k < i ==> IndexedAt(group, data, update[k], enter[k], exit[k], k)
      invariant forall k :: i <= k < n && group[k] != null ==> group[k].data == old(group[k].data)
    {
      var node := group[i];
      if node != null {
        node.data := data[i];
        update, enter, exit := update + [node], enter + [None], exit + [null];
      } else {
        update, enter, exit := update + [null], enter + [Some(data[i])], exit + [null];
      }
      i := i + 1;
    }
    while i < m
      invariant n0 <= i && (i <= m || i == n0) && |update| == |enter| == |exit| == i
      invariant i > n0 ==> i <= n1
      invariant forall k :: 0 <= k < i ==> IndexedAt(group, data, update[k], enter[k], exit[k], k)
      invariant forall k :: m <= k < n && group[k] != null ==> group[k].data == old(group[k].data)
    {
      update, enter, exit := update + [null], enter + [Some(data[i])], exit + [null];
      i := i + 1;
    }
    while i < n1
      invariant m <= i <= n1 && |update| == |enter| == |exit| == i
      invariant forall k :: 0 <= k < i ==> IndexedAt(group, data, update[k], enter[k], exit[k], k)
      invariant forall k :: m <= k < n && group[k] != null ==> group[k].data == old(group[k].data)
    {
      update, enter, exit := update + [null], enter + [None], exit + [group[i]];
      i := i + 1;
    }
  }

  /**
   * Slot i of the three results: the node is in exactly one of update and exit, the datum in exactly one of update
   * and enter, and an updated node carries its datum.
   */
  ghost predicate IndexedAt(group: seq<JoinNode?>, data: seq<Datum>, update: JoinNode?, enter: Option<Datum>,
                            exit: JoinNode?, i: nat)
    reads set k | 0 <= k < |group| && group[k] != null :: group[k]
  {
    var node := if i < |group| then group[i] else null;
    var datum := if i < |data| then Some(data[i]) else None;
    && (node != null ==> (update == node && exit == null) || (update == null && exit == node))
    && (datum.Some? ==> (update != null && enter == None) || (update == null && enter == datum))
    && (update != null ==> update == node && datum.Some? && node.data == datum.value)
    && (exit != null ==> exit == node && datum.None?)
    && (enter.Some? ==> enter == datum)
  }
}
