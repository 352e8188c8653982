/** The mutable nodes of d3.geom.quadtree, proved against the insertion on values, for any points and any cell. */
module QuadTreeNodes {
  import opened Wrappers
  import opened QuadTree
  import opened QuadTreeEnds
  import opened QuadTreePairs

  class QuadNode {
    var leaf: bool
    var point: Option<Item>
    var nodes: seq<QuadNode?>  // indexed by quadrant; null where the array has no entry
    ghost var Repr: set<QuadNode>

    ghost predicate Valid()
      reads this, Repr
      ensures Valid() ==> this in Repr
      decreases Repr
    {
      && this in Repr && |nodes| == 4
      && (forall i :: 0 <= i < 4 && nodes[i] != null ==>
            nodes[i] in Repr && nodes[i].Repr <= Repr && this !in nodes[i].Repr && nodes[i].Valid())
      && (forall i, j :: 0 <= i < j < 4 && nodes[i] != null && nodes[j] != null ==> nodes[i].Repr !! nodes[j].Repr)
    }

    /** The value of the tree below this node. */
    ghost function Model(): (t: Tree)
      requires Valid()
      reads this, Repr
      ensures t.Node? && t.leaf == leaf && t.point == point
      decreases Repr, 1
    {
      Node(leaf, point, ModelAt(0), ModelAt(1), ModelAt(2), ModelAt(3))
    }

    ghost function ModelAt(i: nat): (t: Tree)
      requires Valid() && i < 4
      reads this, Repr
      ensures t.Empty? <==> nodes[i] == null
      decreases Repr, 0
    {
      if nodes[i] == null then Empty else nodes[i].Model()
    }

    lemma ModelTarget(p: Item, cell: Cell)
      requires Valid()
      ensures var i := Quadrant(cell, p);
        Target(Model(), p, cell) == (if nodes[i] == null then NEW_NODE else ModelAt(i))
    {
    }

    constructor ()
      ensures Valid() && fresh(Repr) && Model() == NEW_NODE
    {
      leaf, point, nodes, Repr := true, None, [null, null, null, null], {this};
    }

    /** insert, whenever it ends; depth is how deep it goes at most. */
    method Insert(p: Item, cell: Cell, ghost depth: nat)
      requires Valid() && Attempt(Model(), p, cell, depth).Some?
      modifies Repr
      ensures Valid() && fresh(Repr - old(Repr)) && old(Repr) <= Repr
      ensures Model() == Attempt(old(Model()), p, cell, depth).value
      decreases depth, 1
    {
      hide Close, SubCell, Quadrant, AttemptChild, Points, WithChild, Target;
      ghost var t := Model();
      if leaf {
        match point {
          case Some(v) =>
            if Close(v, p) {
              InsertChild(p, cell, depth - 1);
            } else {
              point := None;
              assert Model() == t.(point := None);
              InsertChild(v, cell, depth - 1);
              InsertChild(p, cell, depth - 1);
            }
          case None =>
            point := Some(p);
            assert Model() == t.(point := Some(p));
        }
      } else {
        InsertChild(p, cell, depth - 1);
      }
    }

    method InsertChild(p: Item, cell: Cell, ghost depth: nat)
      requires Valid() && AttemptChild(Model(), p, cell, depth).Some?
      modifies Repr
      ensures Valid() && fresh(Repr - old(Repr)) && old(Repr) <= Repr
      ensures Model() == AttemptChild(old(Model()), p, cell, depth).value
      decreases depth, 3
    {
      hide Points, SubCell, Quadrant, WithChild, Attempt, AttemptChild, Target, Valid;
      var i := Quadrant(cell, p);
      AttemptChildIs(Model(), p, cell, depth);
      ModelTarget(p, cell);
      MakeChild(i);
      InsertBelow(i, p, SubCell(cell, i), depth);
    }

    method MakeChild(i: nat)
      requires Valid() && i < 4
      modifies this
      ensures Valid() && fresh(Repr - old(Repr)) && old(Repr) <= Repr
      ensures nodes[i] != null && ModelAt(i) == (if old(nodes[i]) == null then NEW_NODE else old(ModelAt(i)))
      ensures old(Model()).Node? && Model() == WithChild(old(Model()).(leaf := false), i, ModelAt(i))
    {
      leaf := false;
      if nodes[i] == null {
        var n := new QuadNode();
        nodes := nodes[i := n];
        Repr := Repr + n.Repr;
      }
    }

    method InsertBelow(i: nat, p: Item, cell: Cell, ghost depth: nat)
      requires Valid() && i < 4 && nodes[i] != null && Attempt(ModelAt(i), p, cell, depth).Some?
      modifies Repr
      ensures Valid() && fresh(Repr - old(Repr)) && old(Repr) <= Repr
      ensures Model() == WithChild(old(Model()), i, Attempt(old(ModelAt(i)), p, cell, depth).value)
      decreases depth, 2
    {
      hide Attempt, Points;
      nodes[i].Insert(p, cell, depth);
      Repr := Repr + nodes[i].Repr;
      assert nodes == old(nodes) && this !in nodes[i].Repr;
      forall j | 0 <= j < 4 && j != i && nodes[j] != null
        ensures nodes[j].Valid() && nodes[j].Repr <= Repr && this !in nodes[j].Repr && nodes[j].Repr !! nodes[i].Repr
        ensures nodes[j].Repr == old(nodes[j].Repr) && nodes[j].Model() == old(nodes[j].Model())
      {
        assert old(nodes[j].Repr) !! old(nodes[i].Repr);
      }
      assert Valid();
    }
  }

  lemma AttemptChildIs(t: Tree, p: Item, cell: Cell, depth: nat)
    requires t.Node? && AttemptChild(t, p, cell, depth).Some?
    ensures var i, c := Quadrant(cell, p), Target(t, p, cell);
      var d := Attempt(c, p, SubCell(cell, i), depth);
      d.Some? && AttemptChild(t, p, cell, depth).value == WithChild(WithChild(t.(leaf := false), i, c), i, d.value)
  {
    hide Points, SubCell, Quadrant, Attempt, Target;
  }

  /** The root of the points, added one by one, whenever each of these insertions ends. */
  method Build(points: seq<Item>, cell: Cell, ghost depth: nat) returns (root: QuadNode)
    requires AttemptAll(NEW_NODE, points, cell, |points|, depth).Some?
    ensures root.Valid() && Points(root.Model()) == multiset(points)
    ensures Some(root.Model()) == AttemptAll(NEW_NODE, points, cell, |points|, depth)
    ensures Paired(root.Model())
  {
    hide Paired, Attempt, Points, AttemptAll, QuadNode.Valid, QuadNode.Model;
    root := new QuadNode();
    OneMore(points, cell, 0, depth);
    for i := 0 to |points|
      invariant root.Valid() && fresh(root.Repr)
      invariant Some(root.Model()) == AttemptAll(NEW_NODE, points, cell, i, depth)
    {
      AllBefore(points, cell, i + 1, |points|, depth);
      OneMore(points, cell, i + 1, depth);
      root.Insert(points[i], cell, depth);
    }
    assert points[..|points|] == points;
    AllPaired(points, cell, |points|, depth);
    NewNode();
  }

  lemma OneMore(points: seq<Item>, cell: Cell, n: nat, depth: nat)
    requires n <= |points|
    ensures n == 0 ==> AttemptAll(NEW_NODE, points, cell, n, depth) == Some(NEW_NODE)
    ensures n > 0 ==>
      var before := AttemptAll(NEW_NODE, points, cell, n - 1, depth);
      AttemptAll(NEW_NODE, points, cell, n, depth)
      == if before.None? then None else Attempt(before.value, points[n - 1], cell, depth)
  {
    hide Attempt, Points;
  }

  lemma {:induction false} AllBefore(points: seq<Item>, cell: Cell, n: nat, m: nat, depth: nat)
    requires n <= m <= |points| && AttemptAll(NEW_NODE, points, cell, m, depth).Some?
    ensures AttemptAll(NEW_NODE, points, cell, n, depth).Some?
    decreases m
  {
    hide Attempt, Points;
    if n == m {
    } else {
      AllBefore(points, cell, n, m - 1, depth);
    }
  }

  lemma NewNode()
    ensures Points(NEW_NODE) == multiset{} && Paired(NEW_NODE)
  {}

  /** d3.geom.quadtree(points) without a given extent: the points span the root cell, so every insertion ends. */
  method Quadtree(points: seq<Item>) returns (root: QuadNode, cell: Option<Cell>)
    ensures cell == None <==> points == []
    ensures root.Valid() && Points(root.Model()) == multiset(points)
    ensures Paired(root.Model()) && (cell.Some? ==> Ok(root.Model(), cell.value))
  {
    hide Ok, Insert, Attempt, AttemptAll, Points, Paired, QuadTree.Contains, InsertAll, QuadNode.Valid, QuadNode.Model;
    cell := BoundingSquare(points);
    if cell == None {
      root := new QuadNode();
      NewNode();
    } else {
      NewNodeOk(cell.value);
      ghost var depth := InsertAllIsAttempt(NEW_NODE, points, cell.value, |points|);
      root := Build(points, cell.value, depth);
    }
  }

  lemma NewNodeOk(cell: Cell)
    ensures Ok(NEW_NODE, cell)
  {}
}
