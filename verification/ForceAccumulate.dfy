/** The charges of a force layout, gathered up a quadtree (d3_layout_forceAccumulate). */
module ForceAccumulate {
  import opened Wrappers
  import opened Reals
  import opened QuadTree

  datatype Axis = X | Y

  function Coordinate(p: Item, axis: Axis): real {
    if axis == X then p.x else p.y
  }

  /** The charge of a point, from the list of the charges of all points. */
  function ChargeOf(p: Item, charges: seq<real>): real {
    if p.index < |charges| then charges[p.index] else 0.0
  }

  // ---------------------------------------------------------------- what is to be gathered

  function ChargeOfItem(p: Option<Item>, charges: seq<real>): real {
    if p.Some? then ChargeOf(p.value, charges) else 0.0
  }

  function MomentOfItem(p: Option<Item>, charges: seq<real>, axis: Axis): real {
    if p.Some? then Times(ChargeOf(p.value, charges), Coordinate(p.value, axis)) else 0.0
  }

  /** The sum of the charges of all points of a tree. */
  function Total(t: Tree, charges: seq<real>): real {
    if t.Empty? then 0.0
    else ChargeOfItem(t.point, charges) + (Total(t.nw, charges) + Total(t.ne, charges) + Total(t.sw, charges) + Total(t.se, charges))
  }

  /** The sum of charge times coordinate over all points of a tree. */
  function Moment(t: Tree, charges: seq<real>, axis: Axis): real {
    if t.Empty? then 0.0
    else
      MomentOfItem(t.point, charges, axis) + (Moment(t.nw, charges, axis) + Moment(t.ne, charges, axis)
                                     + Moment(t.sw, charges, axis) + Moment(t.se, charges, axis))
  }

  /** No node of the tree has the charge zero. */
  predicate AllCharged(t: Tree, alpha: real, charges: seq<real>) {
    t.Node? ==>
      && Times(alpha, Total(t, charges)) != 0.0
      && AllCharged(t.nw, alpha, charges) && AllCharged(t.ne, alpha, charges)
      && AllCharged(t.sw, alpha, charges) && AllCharged(t.se, alpha, charges)
  }

  /** A quotient that the solver does not rewrite. */
  function Over(a: real, b: real): real {
    if b == 0.0 then 0.0 else a / b
  }

  /** The centre of charge, or None for what is not a finite number. */
  function Centre(t: Tree, alpha: real, charges: seq<real>, axis: Axis): Option<real> {
    if t.Node? && AllCharged(t, alpha, charges) then Some(Over(Moment(t, charges, axis), Total(t, charges))) else None
  }

  // ---------------------------------------------------------------- charges of one sign

  /** Every point of the tree has a charge of the sign. */
  predicate OneSign(t: Tree, charges: seq<real>, sign: real) {
    t.Node? ==>
      && (t.point.Some? ==> Times(sign, ChargeOf(t.point.value, charges)) > 0.0)
      && OneSign(t.nw, charges, sign) && OneSign(t.ne, charges, sign)
      && OneSign(t.sw, charges, sign) && OneSign(t.se, charges, sign)
  }

  /** Every node has a point or a child, as every node that an insertion made has. */
  predicate Peopled(t: Tree) {
    t.Node? ==>
      && (t.point.Some? || t.nw.Node? || t.ne.Node? || t.sw.Node? || t.se.Node?)
      && Peopled(t.nw) && Peopled(t.ne) && Peopled(t.sw) && Peopled(t.se)
  }

  lemma {:induction false} SignOfTotal(t: Tree, charges: seq<real>, sign: real)
    requires OneSign(t, charges, sign) && Peopled(t)
    ensures if t.Node? then Times(sign, Total(t, charges)) > 0.0 else Total(t, charges) == 0.0
  {
    if t.Empty? {
    } else {
      SignOfTotal(t.nw, charges, sign);
      SignOfTotal(t.ne, charges, sign);
      SignOfTotal(t.sw, charges, sign);
      SignOfTotal(t.se, charges, sign);
      SignOfSum(sign, ChargeOfItem(t.point, charges), Total(t.nw, charges), Total(t.ne, charges), Total(t.sw, charges),
                Total(t.se, charges));
    }
  }

  lemma SignOfSum(s: real, o: real, a: real, b: real, c: real, d: real)
    ensures Times(s, o + (a + b + c + d)) == Times(s, o) + Times(s, a) + Times(s, b) + Times(s, c) + Times(s, d)
    ensures Times(s, 0.0) == 0.0
  {}

  /** Charges of one strict sign give every node a finite centre. */
  lemma {:induction false} OneSignIsCharged(t: Tree, alpha: real, charges: seq<real>, sign: real)
    requires OneSign(t, charges, sign) && Peopled(t) && alpha != 0.0
    ensures AllCharged(t, alpha, charges)
  {
    if t.Empty? {
    } else {
      SignOfTotal(t, charges, sign);
      NonzeroProduct(alpha, Total(t, charges));
      OneSignIsCharged(t.nw, alpha, charges, sign);
      OneSignIsCharged(t.ne, alpha, charges, sign);
      OneSignIsCharged(t.sw, alpha, charges, sign);
      OneSignIsCharged(t.se, alpha, charges, sign);
    }
  }

  lemma NonzeroProduct(a: real, b: real)
    requires a != 0.0 && b != 0.0
    ensures Times(a, b) != 0.0
  {}

  // ---------------------------------------------------------------- the nodes

  class Body {
    var x: real
    var y: real
    const index: nat

    constructor (x: real, y: real, index: nat)
      ensures this.x == x && this.y == y && this.index == index
    {
      this.x, this.y, this.index := x, y, index;
    }

    function Model(): Item
      reads this
    {
      Item(x, y, index)
    }
  }

  /** A node of the finished quadtree; the walk changes its charges and centre and may move its point. */
  class ForceNode {
    const leaf: bool
    const point: Body?
    const nodes: seq<ForceNode?>
    ghost const Repr: set<object>
    var charge: real
    var pointCharge: real
    var cx: Option<real>
    var cy: Option<real>

    constructor (leaf: bool, point: Body?, nodes: seq<ForceNode?>)
      requires |nodes| == 4 && (leaf ==> nodes == [null, null, null, null])
      requires forall i :: 0 <= i < 4 ==> ValidOrNull(nodes[i]) && (point != null ==> point !in ReprOf(nodes[i]))
      requires forall i, j :: 0 <= i < j < 4 ==> ReprOf(nodes[i]) !! ReprOf(nodes[j])
      ensures Valid() && this.leaf == leaf && this.point == point && this.nodes == nodes
    {
      this.leaf, this.point, this.nodes := leaf, point, nodes;
      ghost var below := ReprOf(nodes[0]) + ReprOf(nodes[1]) + ReprOf(nodes[2]) + ReprOf(nodes[3]);
      Repr := {this} + PointRepr(point) + below;
    }

    /** Points and nodes occur once; a leaf has no children. */
    ghost predicate Valid()
      decreases Repr
    {
      && this in Repr && |nodes| == 4 && (point != null ==> point in Repr)
      && (leaf ==> forall i :: 0 <= i < 4 ==> nodes[i] == null)
      && (forall i :: 0 <= i < 4 && nodes[i] != null ==> OwnsChild(i) && nodes[i].Valid())
      && (forall i, j :: 0 <= i < j < 4 && nodes[i] != null && nodes[j] != null ==> nodes[i].Repr !! nodes[j].Repr)
    }

    ghost predicate OwnsChild(i: nat)
      requires i < |nodes| && nodes[i] != null
    {
      nodes[i].Repr < Repr && this !in nodes[i].Repr && (point != null ==> point !in nodes[i].Repr)
    }

    /** The points below this node are in the list of charges. */
    ghost predicate Listed(charges: seq<real>)
      requires Valid()
      decreases Repr
    {
      && (point != null ==> point.index < |charges|)
      && forall i :: 0 <= i < 4 && nodes[i] != null ==> nodes[i].Listed(charges)
    }

    /** What Valid says about the children, for proofs that need no more. */
    lemma Children()
      requires Valid()
      ensures this in Repr && |nodes| == 4
      ensures forall i :: 0 <= i < 4 ==> ValidOrNull(nodes[i]) && ReprOf(nodes[i]) < Repr && this !in ReprOf(nodes[i])
      ensures point != null ==> point in Repr && forall i :: 0 <= i < 4 ==> point !in ReprOf(nodes[i])
      ensures forall i, j :: 0 <= i < 4 && 0 <= j < 4 && i != j ==> ReprOf(nodes[i]) !! ReprOf(nodes[j])
      ensures leaf ==> nodes == [null, null, null, null]
    {}

    /** The loop over the children; ts are the trees that it leaves. */
    method AccumulateChildren(alpha: real, charges: seq<real>)
      returns (sx: Option<real>, sy: Option<real>, ghost ts: seq<Tree>)
      requires Valid() && Listed(charges) && charge == 0.0
      modifies Repr
      ensures |nodes| == |ts| == 4 && forall i :: 0 <= i < 4 ==> ValidOrNull(nodes[i])
      ensures charge == Times(alpha, TotalOf(ts, charges))
      ensures sx == Gathered(ts, alpha, charges, X) && sy == Gathered(ts, alpha, charges, Y)
      ensures forall i :: 0 <= i < 4 ==>
                            Settled(nodes[i], alpha, charges) && ts[i] == ModelOf(nodes[i])
                            && Moved(old(ModelOf(nodes[i])), ts[i])
      ensures point != null ==> point.x == old(point.x) && point.y == old(point.y)
      decreases Repr, 0
    {
      hide Valid, ModelOf, Settled, Moved, TotalOf, Gathered, Total, Centre;
      Children();
      sx, sy, ts := Some(0.0), Some(0.0), [];
      NothingGathered(alpha, charges);
      for i := 0 to 4
        invariant charge == Times(alpha, TotalOf(ts, charges)) && |ts| == i
        invariant sx == Gathered(ts, alpha, charges, X) && sy == Gathered(ts, alpha, charges, Y)
        invariant forall j :: 0 <= j < i ==>
                                Settled(nodes[j], alpha, charges) && ts[j] == ModelOf(nodes[j])
                                && Moved(old(ModelOf(nodes[j])), ts[j])
        invariant forall j :: i <= j < 4 ==> ModelOf(nodes[j]) == old(ModelOf(nodes[j]))
        invariant point != null ==> point.x == old(point.x) && point.y == old(point.y)
      {
        var c := nodes[i];
        if c == null {
          EmptyStep(ts, alpha, charges);
          NullNode(alpha, charges);
          ts := ts + [Empty];
          continue;
        }
        ListedChild(i, charges);
        c.Accumulate(alpha, charges);
        ChildStep(ts, c, alpha, charges);
        charge := charge + c.charge;
        sx := Plus(sx, Weighted(c.charge, c.cx));
        sy := Plus(sy, Weighted(c.charge, c.cy));
        ts := ts + [ModelOf(c)];
      }
    }

    lemma ListedChild(i: nat, charges: seq<real>)
      requires Valid() && Listed(charges) && i < 4 && |nodes| == 4 && nodes[i] != null
      ensures nodes[i].Valid() && nodes[i].Listed(charges)
    {}

    /** d3_layout_forceAccumulate. */
    method Accumulate(alpha: real, charges: seq<real>)
      requires Valid() && Listed(charges)
      modifies Repr
      ensures Settled(this, alpha, charges)
      ensures Moved(old(ModelOf(this)), ModelOf(this))
      decreases Repr, 1
    {
      hide Valid, Settled, Moved, TotalOf, Gathered, Total, Moment, Centre, ModelOf, Holds, Listed;
      Children();
      ListedPoint(charges);
      ghost var item := PointItem();
      ghost var was := [ModelOf(nodes[0]), ModelOf(nodes[1]), ModelOf(nodes[2]), ModelOf(nodes[3])];
      ghost var ts := was;
      ModelIs(this);
      var sx, sy := Some(0.0), Some(0.0);
      charge := 0.0;
      if !leaf {
        sx, sy, ts := AccumulateChildren(alpha, charges);
      } else {
        NullNode(alpha, charges);
        NothingBelow(alpha, charges);
      }
      AddPoint(alpha, charges, sx, sy);
      assert forall i :: 0 <= i < 4 ==> ts[i] == ModelOf(nodes[i]) && Moved(was[i], ts[i]);
      ModelIs(this);
      MovedNode(leaf, item, PointItem(), was, ts);
      NodeHolds(this, ts, alpha, charges);
      SettledNode(this, alpha, charges);
    }

    lemma ListedPoint(charges: seq<real>)
      requires Valid() && Listed(charges)
      ensures point != null ==> point.index < |charges|
    {}

    /** The point, as a value. */
    function PointItem(): Option<Item>
      reads point
    {
      if point == null then None else Some(point.Model())
    }

    /** The second half: the point of the node itself, and the division by the charge. */
    method AddPoint(alpha: real, charges: seq<real>, x: Option<real>, y: Option<real>)
      requires point != null ==> point.index < |charges|
      modifies this, point
      ensures PointItem().Some? <==> point != null
      ensures point != null ==> Jittered(old(point.Model()), point.Model(), if leaf then 0.0 else 0.5)
      ensures charge == old(charge) + Times(alpha, ChargeOfItem(PointItem(), charges))
      ensures point != null ==> pointCharge == Times(alpha, ChargeOfItem(PointItem(), charges))
      ensures cx == Divide(Plus(x, Some(Times(alpha, MomentOfItem(PointItem(), charges, X)))), charge)
      ensures cy == Divide(Plus(y, Some(Times(alpha, MomentOfItem(PointItem(), charges, Y)))), charge)
    {
      var sx, sy := x, y;
      if point != null {
        if !leaf {
          var dx := Random();
          var dy := Random();
          point.x := point.x + (dx - 0.5);
          point.y := point.y + (dy - 0.5);
        }
        var k := Times(alpha, charges[point.index]);
        pointCharge := k;
        charge := charge + k;
        sx := Plus(sx, Some(Times(k, point.x)));
        sy := Plus(sy, Some(Times(k, point.y)));
        Regroup(alpha, charges[point.index], point.x);
        Regroup(alpha, charges[point.index], point.y);
      } else {
        NoPoint(alpha);
      }
      Same(sx, Plus(x, Some(Times(alpha, MomentOfItem(PointItem(), charges, X)))));
      Same(sy, Plus(y, Some(Times(alpha, MomentOfItem(PointItem(), charges, Y)))));
      cx := Divide(sx, charge);
      cy := Divide(sy, charge);
    }
  }

  lemma Regroup(a: real, b: real, c: real)
    ensures Times(Times(a, b), c) == Times(a, Times(b, c))
  {}

  lemma NoPoint(alpha: real)
    ensures Times(alpha, 0.0) == 0.0
  {}

  lemma ModelIs(n: ForceNode)
    requires n.Valid()
    ensures |n.nodes| == 4 && forall i :: 0 <= i < 4 ==> ValidOrNull(n.nodes[i])
    ensures ModelOf(n) == Node(n.leaf, n.PointItem(), ModelOf(n.nodes[0]), ModelOf(n.nodes[1]), ModelOf(n.nodes[2]),
                               ModelOf(n.nodes[3]))
  {}

  lemma MovedNode(leaf: bool, p: Option<Item>, q: Option<Item>, s: seq<Tree>, t: seq<Tree>)
    requires |s| == |t| == 4 && forall i :: 0 <= i < 4 ==> Moved(s[i], t[i])
    requires (p.Some? <==> q.Some?) && (p.Some? ==> Jittered(p.value, q.value, if leaf then 0.0 else 0.5))
    ensures Moved(Node(leaf, p, s[0], s[1], s[2], s[3]), Node(leaf, q, t[0], t[1], t[2], t[3]))
  {}

  lemma SettledNode(n: ForceNode, alpha: real, charges: seq<real>)
    requires n.Valid() && Holds(n, alpha, charges)
    requires |n.nodes| == 4 && forall i :: 0 <= i < 4 ==> ValidOrNull(n.nodes[i]) && Settled(n.nodes[i], alpha, charges)
    ensures Settled(n, alpha, charges)
  {}

  /** The sums over the children and the point of the node make up its charge and its centre. */
  lemma NodeHolds(n: ForceNode, ts: seq<Tree>, alpha: real, charges: seq<real>)
    requires n.Valid() && |ts| == 4
    requires ModelOf(n) == Node(n.leaf, n.PointItem(), ts[0], ts[1], ts[2], ts[3])
    requires n.charge == Times(alpha, TotalOf(ts, charges)) + Times(alpha, ChargeOfItem(n.PointItem(), charges))
    requires n.point != null ==> n.pointCharge == Times(alpha, ChargeOfItem(n.PointItem(), charges))
    requires n.cx == Divide(Plus(Gathered(ts, alpha, charges, X), Some(Times(alpha, MomentOfItem(n.PointItem(), charges, X)))), n.charge)
    requires n.cy == Divide(Plus(Gathered(ts, alpha, charges, Y), Some(Times(alpha, MomentOfItem(n.PointItem(), charges, Y)))), n.charge)
    ensures Holds(n, alpha, charges)
  {
    hide ModelOf, ForceNode.Valid, Gathered, TotalOf, Centre, Total;
    var t := ModelOf(n);
    NodeTotal(t, ts, charges, X);
    Distributes(alpha, TotalOf(ts, charges), ChargeOfItem(n.PointItem(), charges));
    CentreIs(t, ts, alpha, charges, X);
    CentreIs(t, ts, alpha, charges, Y);
  }

  lemma NodeTotal(t: Tree, ts: seq<Tree>, charges: seq<real>, axis: Axis)
    requires |ts| == 4 && t.Node? && t == Node(t.leaf, t.point, ts[0], ts[1], ts[2], ts[3])
    ensures Total(t, charges) == TotalOf(ts, charges) + ChargeOfItem(t.point, charges)
    ensures Moment(t, charges, axis) == MomentOf(ts, charges, axis) + MomentOfItem(t.point, charges, axis)
  {
    FourSums(ts, charges, axis);
    hide TotalOf, MomentOf, ChargeOfItem, MomentOfItem;
  }

  lemma FourSums(ts: seq<Tree>, charges: seq<real>, axis: Axis)
    requires |ts| == 4
    ensures TotalOf(ts, charges) ==
            Total(ts[0], charges) + Total(ts[1], charges) + Total(ts[2], charges) + Total(ts[3], charges)
    ensures MomentOf(ts, charges, axis) == Moment(ts[0], charges, axis) + Moment(ts[1], charges, axis)
                                           + Moment(ts[2], charges, axis) + Moment(ts[3], charges, axis)
  {
    SumsStep([], ts[0], 1.0, charges, axis);
    SumsStep([ts[0]], ts[1], 1.0, charges, axis);
    SumsStep([ts[0], ts[1]], ts[2], 1.0, charges, axis);
    SumsStep([ts[0], ts[1], ts[2]], ts[3], 1.0, charges, axis);
    assert [] + [ts[0]] == [ts[0]] && [ts[0]] + [ts[1]] == [ts[0], ts[1]];
    assert [ts[0], ts[1]] + [ts[2]] == [ts[0], ts[1], ts[2]] && [ts[0], ts[1], ts[2]] + [ts[3]] == ts;
    assert TotalOf([], charges) == 0.0 == MomentOf([], charges, axis);
    hide TotalOf, MomentOf, Total, Moment;
  }

  lemma CentreIs(t: Tree, ts: seq<Tree>, alpha: real, charges: seq<real>, axis: Axis)
    requires |ts| == 4 && t.Node? && t == Node(t.leaf, t.point, ts[0], ts[1], ts[2], ts[3])
    ensures Divide(Plus(Gathered(ts, alpha, charges, axis), Some(Times(alpha, MomentOfItem(t.point, charges, axis)))),
                   Times(alpha, Total(t, charges)))
            == Centre(t, alpha, charges, axis)
  {
    NodeTotal(t, ts, charges, axis);
    hide TotalOf, MomentOf, Moment, Total, MomentOfItem;
    Distributes(alpha, MomentOf(ts, charges, axis), MomentOfItem(t.point, charges, axis));
    NodeCharged(t, ts, alpha, charges);
    if Times(alpha, Total(t, charges)) != 0.0 {
      CommonFactor(alpha, Total(t, charges), Moment(t, charges, axis));
    }
    hide AllCharged, AllOfCharged;
    var sum := Plus(Gathered(ts, alpha, charges, axis), Some(Times(alpha, MomentOfItem(t.point, charges, axis))));
    if sum.Some? {
      assert sum.value == Times(alpha, Moment(t, charges, axis));
    }
    Same(Divide(sum, Times(alpha, Total(t, charges))), Centre(t, alpha, charges, axis));
  }

  lemma NodeCharged(t: Tree, ts: seq<Tree>, alpha: real, charges: seq<real>)
    requires |ts| == 4 && t.Node? && t == Node(t.leaf, t.point, ts[0], ts[1], ts[2], ts[3])
    ensures AllCharged(t, alpha, charges) <==> Times(alpha, Total(t, charges)) != 0.0 && AllOfCharged(ts, alpha, charges)
  {
    hide Total;
    assert AllOfCharged(ts, alpha, charges) <==>
           AllCharged(ts[0], alpha, charges) && AllCharged(ts[1], alpha, charges) &&
           AllCharged(ts[2], alpha, charges) && AllCharged(ts[3], alpha, charges);
  }

  lemma ZeroTimes(a: real, b: real)
    ensures a == 0.0 || b == 0.0 ==> Times(a, b) == 0.0
  {}

  lemma CommonFactor(a: real, b: real, c: real)
    requires Times(a, b) != 0.0
    ensures a != 0.0 && b != 0.0 && Over(Times(a, c), Times(a, b)) == Over(c, b)
  {
    ZeroTimes(a, b);
    var q := c / b;
    assert q * b == c;
    assert q * (a * b) == a * c;
  }

  lemma Same(a: Option<real>, b: Option<real>)
    requires a.Some? == b.Some? && (a.Some? ==> a.value == b.value)
    ensures a == b
  {}

  // ---------------------------------------------------------------- sums over children

  function TotalOf(ts: seq<Tree>, charges: seq<real>): real {
    if ts == [] then 0.0 else TotalOf(ts[..|ts| - 1], charges) + Total(ts[|ts| - 1], charges)
  }

  function MomentOf(ts: seq<Tree>, charges: seq<real>, axis: Axis): real {
    if ts == [] then 0.0 else MomentOf(ts[..|ts| - 1], charges, axis) + Moment(ts[|ts| - 1], charges, axis)
  }

  predicate AllOfCharged(ts: seq<Tree>, alpha: real, charges: seq<real>) {
    forall i :: 0 <= i < |ts| ==> AllCharged(ts[i], alpha, charges)
  }

  /** What the loop over the children has added up to the weighted coordinate. */
  function Gathered(ts: seq<Tree>, alpha: real, charges: seq<real>, axis: Axis): Option<real> {
    if AllOfCharged(ts, alpha, charges) then Some(Times(alpha, MomentOf(ts, charges, axis))) else None
  }

  lemma NothingGathered(alpha: real, charges: seq<real>)
    ensures 0.0 == Times(alpha, TotalOf([], charges))
    ensures Some(0.0) == Gathered([], alpha, charges, X) == Gathered([], alpha, charges, Y)
  {}

  lemma SumsStep(ts: seq<Tree>, t: Tree, alpha: real, charges: seq<real>, axis: Axis)
    ensures TotalOf(ts + [t], charges) == TotalOf(ts, charges) + Total(t, charges)
    ensures MomentOf(ts + [t], charges, axis) == MomentOf(ts, charges, axis) + Moment(t, charges, axis)
    ensures AllOfCharged(ts + [t], alpha, charges) <==>
            AllOfCharged(ts, alpha, charges) && AllCharged(t, alpha, charges)
  {
    hide Total, Moment, AllCharged;
    assert (ts + [t])[..|ts|] == ts && (ts + [t])[|ts|] == t;
    assert forall i :: 0 <= i < |ts| ==> (ts + [t])[i] == ts[i];
  }

  lemma EmptyStep(ts: seq<Tree>, alpha: real, charges: seq<real>)
    ensures TotalOf(ts + [Empty], charges) == TotalOf(ts, charges)
    ensures Gathered(ts + [Empty], alpha, charges, X) == Gathered(ts, alpha, charges, X)
    ensures Gathered(ts + [Empty], alpha, charges, Y) == Gathered(ts, alpha, charges, Y)
  {
    SumsStep(ts, Empty, alpha, charges, X);
    SumsStep(ts, Empty, alpha, charges, Y);
    assert Moment(Empty, charges, X) == Moment(Empty, charges, Y) == Total(Empty, charges) == 0.0;
    assert AllCharged(Empty, alpha, charges);
    hide TotalOf, MomentOf, AllOfCharged, AllCharged, Moment, Total;
    Same(Gathered(ts + [Empty], alpha, charges, X), Gathered(ts, alpha, charges, X));
    Same(Gathered(ts + [Empty], alpha, charges, Y), Gathered(ts, alpha, charges, Y));
  }

  /** A child that is settled brings in exactly its part of the sums. */
  lemma ChildStep(ts: seq<Tree>, c: ForceNode, alpha: real, charges: seq<real>)
    requires c.Valid() && Settled(c, alpha, charges)
    ensures Times(alpha, TotalOf(ts, charges)) + c.charge == Times(alpha, TotalOf(ts + [ModelOf(c)], charges))
    ensures Plus(Gathered(ts, alpha, charges, X), Weighted(c.charge, c.cx)) ==
            Gathered(ts + [ModelOf(c)], alpha, charges, X)
    ensures Plus(Gathered(ts, alpha, charges, Y), Weighted(c.charge, c.cy)) ==
            Gathered(ts + [ModelOf(c)], alpha, charges, Y)
  {
    var t := ModelOf(c);
    hide TotalOf, MomentOf, Settled, ForceNode.Valid, ModelOf, AllOfCharged, Total, Moment, Gathered, Centre;
    HoldsHere(c, alpha, charges);
    SumsStep(ts, t, alpha, charges, X);
    Distributes(alpha, TotalOf(ts, charges), Total(t, charges));
    ChildMoment(ts, t, alpha, charges, X);
    ChildMoment(ts, t, alpha, charges, Y);
  }

  lemma HoldsHere(c: ForceNode, alpha: real, charges: seq<real>)
    requires c.Valid() && Settled(c, alpha, charges)
    ensures Holds(c, alpha, charges) && ModelOf(c).Node?
  {}

  lemma ChildMoment(ts: seq<Tree>, t: Tree, alpha: real, charges: seq<real>, axis: Axis)
    requires t.Node?
    ensures Plus(Gathered(ts, alpha, charges, axis), Weighted(Times(alpha, Total(t, charges)), Centre(t, alpha, charges, axis)))
            == Gathered(ts + [t], alpha, charges, axis)
  {
    SumsStep(ts, t, alpha, charges, axis);
    ChargedTotal(t, alpha, charges);
    hide TotalOf, MomentOf, AllOfCharged, AllCharged, Total, Moment;
    if AllCharged(t, alpha, charges) {
      WeightedCentre(alpha, Total(t, charges), Moment(t, charges, axis));
      Distributes(alpha, MomentOf(ts, charges, axis), Moment(t, charges, axis));
    }
    Same(Plus(Gathered(ts, alpha, charges, axis), Weighted(Times(alpha, Total(t, charges)), Centre(t, alpha, charges, axis))),
         Gathered(ts + [t], alpha, charges, axis));
  }

  lemma ChargedTotal(t: Tree, alpha: real, charges: seq<real>)
    requires t.Node?
    ensures AllCharged(t, alpha, charges) ==> Times(alpha, Total(t, charges)) != 0.0 && Total(t, charges) != 0.0
  {
    if Total(t, charges) == 0.0 {
      ZeroTimes(alpha, 0.0);
    }
  }

  lemma WeightedCentre(alpha: real, total: real, moment: real)
    requires total != 0.0
    ensures Times(Times(alpha, total), Over(moment, total)) == Times(alpha, moment)
  {
    var q := moment / total;
    assert q * total == moment;
    assert alpha * total * q == alpha * (q * total);
  }

  lemma Distributes(a: real, b: real, c: real)
    ensures Times(a, b) + Times(a, c) == Times(a, b + c)
  {}

  lemma NothingBelow(alpha: real, charges: seq<real>)
    ensures 0.0 == Times(alpha, TotalOf([Empty, Empty, Empty, Empty], charges))
    ensures Some(0.0) == Gathered([Empty, Empty, Empty, Empty], alpha, charges, X)
    ensures Some(0.0) == Gathered([Empty, Empty, Empty, Empty], alpha, charges, Y)
  {
    NothingGathered(alpha, charges);
    EmptyStep([], alpha, charges);
    EmptyStep([Empty], alpha, charges);
    EmptyStep([Empty, Empty], alpha, charges);
    EmptyStep([Empty, Empty, Empty], alpha, charges);
    assert [] + [Empty] == [Empty] && [Empty] + [Empty] == [Empty, Empty];
    assert [Empty, Empty] + [Empty] == [Empty, Empty, Empty];
    assert [Empty, Empty, Empty] + [Empty] == [Empty, Empty, Empty, Empty];
    hide TotalOf, Gathered;
  }

  lemma NullNode(alpha: real, charges: seq<real>)
    ensures ModelOf(null) == Empty && Settled(null, alpha, charges) && Moved(Empty, Empty)
  {}

  /** Math.random. */
  method Random() returns (r: real)
    ensures 0.0 <= r < 1.0
  {
    r :| 0.0 <= r < 1.0;
  }

  // ---------------------------------------------------------------- arithmetic with a number that is not finite

  function Plus(a: Option<real>, b: Option<real>): Option<real> {
    if a.Some? && b.Some? then Some(a.value + b.value) else None
  }

  /** The centre of a node is not finite only if its charge is zero or a part is not a number, so this is not a number. */
  function Weighted(charge: real, centre: Option<real>): Option<real> {
    if centre.Some? then Some(Times(charge, centre.value)) else None
  }

  function Divide(a: Option<real>, b: real): Option<real> {
    if a.Some? && b != 0.0 then Some(Over(a.value, b)) else None
  }

  // ---------------------------------------------------------------- the tree that the nodes are

  ghost function PointRepr(p: Body?): set<object> {
    if p == null then {} else {p}
  }

  ghost function ReprOf(n: ForceNode?): set<object> {
    if n == null then {} else n.Repr
  }

  ghost predicate ValidOrNull(n: ForceNode?) {
    n != null ==> n.Valid()
  }

  ghost function ModelOf(n: ForceNode?): (t: Tree)
    requires ValidOrNull(n)
    reads ReprOf(n)
    ensures t.Node? <==> n != null
    decreases ReprOf(n)
  {
    if n == null then Empty
    else
      Node(n.leaf, if n.point == null then None else Some(n.point.Model()),
           ModelOf(n.nodes[0]), ModelOf(n.nodes[1]), ModelOf(n.nodes[2]), ModelOf(n.nodes[3]))
  }

  /** The node and all below it hold the charge and the centre of the points below them. */
  ghost predicate Settled(n: ForceNode?, alpha: real, charges: seq<real>)
    requires ValidOrNull(n)
    reads ReprOf(n)
    decreases ReprOf(n)
  {
    n != null ==>
      && Holds(n, alpha, charges)
      && Settled(n.nodes[0], alpha, charges) && Settled(n.nodes[1], alpha, charges)
      && Settled(n.nodes[2], alpha, charges) && Settled(n.nodes[3], alpha, charges)
  }

  ghost predicate Holds(n: ForceNode, alpha: real, charges: seq<real>)
    requires n.Valid()
    reads n.Repr, n.point
  {
    && n.charge == Times(alpha, Total(ModelOf(n), charges))
    && n.cx == Centre(ModelOf(n), alpha, charges, X)
    && n.cy == Centre(ModelOf(n), alpha, charges, Y)
    && (n.point != null ==> n.pointCharge == Times(alpha, ChargeOfItem(n.PointItem(), charges)))
  }

  /** The same tree, but that points of inner nodes may have moved by up to one half. */
  predicate Moved(s: Tree, t: Tree) {
    if s.Empty? then t.Empty?
    else
      && t.Node? && t.leaf == s.leaf && (t.point.Some? <==> s.point.Some?)
      && (s.point.Some? ==> Jittered(s.point.value, t.point.value, if s.leaf then 0.0 else 0.5))
      && Moved(s.nw, t.nw) && Moved(s.ne, t.ne) && Moved(s.sw, t.sw) && Moved(s.se, t.se)
  }

  predicate Jittered(p: Item, q: Item, most: real) {
    q.index == p.index && p.x - most <= q.x <= p.x + most && p.y - most <= q.y <= p.y + most
  }

  // ---------------------------------------------------------------- trees that insertion made

  function SumOfCharges(points: seq<Item>, charges: seq<real>, n: nat): real
    requires n <= |points|
  {
    if n == 0 then 0.0 else SumOfCharges(points, charges, n - 1) + ChargeOf(points[n - 1], charges)
  }

  predicate PeopledBelow(t: Tree) {
    t.Node? ==> Peopled(t.nw) && Peopled(t.ne) && Peopled(t.sw) && Peopled(t.se)
  }

  /** What an insertion does to the total: it adds the charge of the point, and leaves no node without points. */
  ghost predicate Gains(t: Tree, r: Tree, p: Item, charges: seq<real>, sign: real) {
    && Peopled(r) && Total(r, charges) == Total(t, charges) + ChargeOf(p, charges)
    && (OneSign(t, charges, sign) && Times(sign, ChargeOf(p, charges)) > 0.0 ==> OneSign(r, charges, sign))
  }

  lemma InsertGains(t: Tree, p: Item, cell: Cell, charges: seq<real>, sign: real)
    requires t.Node? && Ok(t, cell) && QuadTree.Contains(cell, p) && PeopledBelow(t)
    ensures Gains(t, Insert(t, p, cell), p, charges, sign)
    decreases Height(t), Splits(t, cell), 1
  {
    hide Gains, Insert, InsertChild, Ok, QuadTree.Contains, WithChild, Close;
    InsertIs(t, p, cell);
    TargetOk(t, p, cell);
    if t.leaf && t.point == None {
      LeafGains(t, p, cell, charges, sign);
    } else if t.leaf && !Close(t.point.value, p) {
      var v := t.point.value;
      SplitShrinks(t, v, p, cell);
      Emptied(t, v, p, cell);
      var t0 := t.(point := None);
      InsertChildGains(t0, v, cell, charges, sign);
      var t1 := InsertChild(t0, v, cell);
      GainsPeopled(t0, t1, v, charges, sign);
      InsertChildGains(t1, p, cell, charges, sign);
      SplitGains(t, t0, t1, Insert(t, p, cell), v, p, charges, sign);
    } else {
      InsertChildGains(t, p, cell, charges, sign);
    }
  }

  lemma InsertChildGains(t: Tree, p: Item, cell: Cell, charges: seq<real>, sign: real)
    requires t.Node? && Ok(t, cell) && QuadTree.Contains(cell, p) && PeopledBelow(t)
    ensures Gains(t, InsertChild(t, p, cell), p, charges, sign)
    decreases Height(Target(t, p, cell)), Splits(Target(t, p, cell), SubCell(cell, Quadrant(cell, p))), 2
  {
    hide Gains, Insert, InsertChild, Ok, QuadTree.Contains, WithChild, SubCell, Quadrant;
    var i, c := Quadrant(cell, p), Target(t, p, cell);
    InsertChildIs(t, p, cell);
    TargetPeopled(t, p, cell);
    InsertGains(c, p, SubCell(cell, i), charges, sign);
    ChildGains(t, i, c, Insert(c, p, SubCell(cell, i)), p, charges, sign);
  }

  lemma TargetPeopled(t: Tree, p: Item, cell: Cell)
    requires t.Node? && PeopledBelow(t)
    ensures PeopledBelow(Target(t, p, cell))
    ensures var c, d := Target(t, p, cell), Child(t, Quadrant(cell, p)); c == d || (c == NEW_NODE && d == Empty)
  {}

  lemma LeafGains(t: Tree, p: Item, cell: Cell, charges: seq<real>, sign: real)
    requires t.Node? && Ok(t, cell) && t.leaf && t.point == None
    ensures Gains(t, t.(point := Some(p)), p, charges, sign)
  {}

  lemma GainsPeopled(t: Tree, r: Tree, p: Item, charges: seq<real>, sign: real)
    requires Gains(t, r, p, charges, sign)
    ensures PeopledBelow(r)
  {}

  lemma SplitGains(t: Tree, t0: Tree, t1: Tree, r: Tree, v: Item, p: Item, charges: seq<real>, sign: real)
    requires t.Node? && t.point == Some(v) && t0 == t.(point := None)
    requires Gains(t0, t1, v, charges, sign) && Gains(t1, r, p, charges, sign)
    ensures Gains(t, r, p, charges, sign)
  {}

  /** Only the child that the point goes to changes. */
  lemma ChildGains(t: Tree, i: nat, c: Tree, d: Tree, p: Item, charges: seq<real>, sign: real)
    requires t.Node? && i < 4 && PeopledBelow(t) && d.Node? && Gains(c, d, p, charges, sign)
    requires c == Child(t, i) || (c == NEW_NODE && Child(t, i) == Empty)
    ensures Gains(t, WithChild(WithChild(t.(leaf := false), i, c), i, d), p, charges, sign)
  {
    EmptyNodes(charges, sign);
    hide Times, ChargeOf;
  }

  lemma EmptyNodes(charges: seq<real>, sign: real)
    ensures Total(NEW_NODE, charges) == Total(Empty, charges) == 0.0
    ensures OneSign(NEW_NODE, charges, sign) && OneSign(Empty, charges, sign)
  {}

  /** The tree of a list of points holds all their charges. */
  lemma {:induction false} AllGained(points: seq<Item>, cell: Cell, n: nat, charges: seq<real>, sign: real)
    requires n <= |points| && forall k :: 0 <= k < n ==> QuadTree.Contains(cell, points[k])
    ensures var t := InsertAll(NEW_NODE, points, cell, n);
      Total(t, charges) == SumOfCharges(points, charges, n) && PeopledBelow(t) && (n > 0 ==> Peopled(t)) &&
      ((forall k :: 0 <= k < n ==> Times(sign, ChargeOf(points[k], charges)) > 0.0) ==> OneSign(t, charges, sign))
  {
    FreshIsOk(cell);
    hide QuadTree.Contains, Ok, Insert, InsertAll, SumOfCharges, Gains, Total, OneSign, Peopled, PeopledBelow;
    if n == 0 {
      NonePut(points, cell, charges, sign);
    } else {
      AllGained(points, cell, n - 1, charges, sign);
      OnePut(points, cell, n, charges);
      var t := InsertAll(NEW_NODE, points, cell, n - 1);
      InsertGains(t, points[n - 1], cell, charges, sign);
      Gained(t, Insert(t, points[n - 1], cell), points[n - 1], charges, sign);
    }
  }

  lemma NonePut(points: seq<Item>, cell: Cell, charges: seq<real>, sign: real)
    ensures Ok(NEW_NODE, cell) && InsertAll(NEW_NODE, points, cell, 0) == NEW_NODE
    ensures Total(NEW_NODE, charges) == 0.0 == SumOfCharges(points, charges, 0) && PeopledBelow(NEW_NODE)
    ensures OneSign(NEW_NODE, charges, sign)
  {}

  lemma OnePut(points: seq<Item>, cell: Cell, n: nat, charges: seq<real>)
    requires 0 < n <= |points| && Ok(NEW_NODE, cell) && forall k :: 0 <= k < n ==> QuadTree.Contains(cell, points[k])
    ensures InsertAll(NEW_NODE, points, cell, n) == Insert(InsertAll(NEW_NODE, points, cell, n - 1), points[n - 1], cell)
    ensures SumOfCharges(points, charges, n) == SumOfCharges(points, charges, n - 1) + ChargeOf(points[n - 1], charges)
  {
    hide Insert, Ok, QuadTree.Contains;
  }

  lemma Gained(t: Tree, r: Tree, p: Item, charges: seq<real>, sign: real)
    requires Gains(t, r, p, charges, sign)
    ensures Peopled(r) && PeopledBelow(r) && Total(r, charges) == Total(t, charges) + ChargeOf(p, charges)
    ensures OneSign(t, charges, sign) && Times(sign, ChargeOf(p, charges)) > 0.0 ==> OneSign(r, charges, sign)
  {}

  lemma FreshIsOk(cell: Cell)
    ensures Ok(NEW_NODE, cell)
  {}

  /** A jitter moves points but no charges. */
  lemma {:induction false} MovedKeepsCharges(s: Tree, t: Tree, charges: seq<real>, sign: real)
    requires Moved(s, t)
    ensures Total(t, charges) == Total(s, charges) && (Peopled(t) <==> Peopled(s))
    ensures OneSign(t, charges, sign) <==> OneSign(s, charges, sign)
  {
    if s.Empty? {
    } else {
      MovedKeepsCharges(s.nw, t.nw, charges, sign);
      MovedKeepsCharges(s.ne, t.ne, charges, sign);
      MovedKeepsCharges(s.sw, t.sw, charges, sign);
      MovedKeepsCharges(s.se, t.se, charges, sign);
    }
  }

  /**
   * The gathered charge of a quadtree is the sum of all charges; when all have one strict sign, every node of the tree has
   * a finite centre, the charge-weighted mean of its points where the jitter left them.
   */
  lemma CentreOfAll(points: seq<Item>, cell: Cell, charges: seq<real>, alpha: real, sign: real, t: Tree)
    requires points != [] && alpha != 0.0 && forall k :: 0 <= k < |points| ==> QuadTree.Contains(cell, points[k])
    requires Moved(InsertAll(NEW_NODE, points, cell, |points|), t)
    ensures Total(t, charges) == SumOfCharges(points, charges, |points|)
    ensures (forall k :: 0 <= k < |points| ==> Times(sign, ChargeOf(points[k], charges)) > 0.0) ==>
              && AllCharged(t, alpha, charges)
              && Centre(t, alpha, charges, X) == Some(Over(Moment(t, charges, X), Total(t, charges)))
              && Centre(t, alpha, charges, Y) == Some(Over(Moment(t, charges, Y), Total(t, charges)))
  {
    hide QuadTree.Contains, InsertAll, Total, Moment, SumOfCharges, Times, Over, OneSign, Peopled, AllCharged, ChargeOf;
    hide Moved, Centre;
    AllGained(points, cell, |points|, charges, sign);
    MovedKeepsCharges(InsertAll(NEW_NODE, points, cell, |points|), t, charges, sign);
    NodeStays(InsertAll(NEW_NODE, points, cell, |points|), t);
    if forall k :: 0 <= k < |points| ==> Times(sign, ChargeOf(points[k], charges)) > 0.0 {
      OneSignIsCharged(t, alpha, charges, sign);
      CentreOfCharged(t, alpha, charges, X);
      CentreOfCharged(t, alpha, charges, Y);
    }
  }

  lemma NodeStays(s: Tree, t: Tree)
    requires s.Node? && Moved(s, t)
    ensures t.Node?
  {}

  lemma CentreOfCharged(t: Tree, alpha: real, charges: seq<real>, axis: Axis)
    requires t.Node? && AllCharged(t, alpha, charges)
    ensures Centre(t, alpha, charges, axis) == Some(Over(Moment(t, charges, axis), Total(t, charges)))
  {
    hide AllCharged, Moment, Total, Over;
  }

  /** A node of charge zero - a point without charge, or charges that cancel - has no finite centre, nor has its parent. */
  lemma ZeroSpreads(t: Tree, i: nat, alpha: real, charges: seq<real>, axis: Axis)
    requires t.Node? && i < 4 && Child(t, i).Node? && Times(alpha, Total(Child(t, i), charges)) == 0.0
    ensures Centre(Child(t, i), alpha, charges, axis) == None && Centre(t, alpha, charges, axis) == None
  {}

  /** Charges 1 and -1: wherever the two points lie, the root has no charge and so no finite centre. */
  lemma OppositeCharges(p: Item, q: Item, cell: Cell, alpha: real, t: Tree)
    requires p.index == 0 && q.index == 1 && QuadTree.Contains(cell, p) && QuadTree.Contains(cell, q)
    requires alpha != 0.0 && Moved(InsertAll(NEW_NODE, [p, q], cell, 2), t)
    ensures Total(t, [1.0, -1.0]) == 0.0
    ensures Centre(t, alpha, [1.0, -1.0], X) == None && Centre(t, alpha, [1.0, -1.0], Y) == None
  {
    var points, charges := [p, q], [1.0, -1.0];
    hide QuadTree.Contains, InsertAll, Moment, Times, Over, OneSign, Peopled, Total;
    CentreOfAll(points, cell, charges, alpha, 1.0, t);
    SumOfTwo(points, charges);
    ZeroTimes(alpha, Total(t, charges));
    hide AllCharged;
    NoCharge(t, alpha, charges);
  }

  lemma SumOfTwo(points: seq<Item>, charges: seq<real>)
    requires |points| == 2
    ensures SumOfCharges(points, charges, 2) == ChargeOf(points[0], charges) + ChargeOf(points[1], charges)
  {
    hide ChargeOf;
    assert SumOfCharges(points, charges, 1) == SumOfCharges(points, charges, 0) + ChargeOf(points[0], charges);
  }

  lemma NoCharge(t: Tree, alpha: real, charges: seq<real>)
    requires Times(alpha, Total(t, charges)) == 0.0
    ensures t.Node? ==> !AllCharged(t, alpha, charges)
  {}
}
