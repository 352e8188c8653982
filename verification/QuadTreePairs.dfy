/** Which nodes of a quadtree keep a point above others: those whose point is within 0.01 of one below it, and no others. */
module QuadTreePairs {
  import opened Wrappers
  import opened QuadTree
  import opened QuadTreeEnds

  /** The differences of the two coordinates add up to less than 0.01. */
  predicate Near(v: Item, p: Item) {
    (if v.x < p.x then p.x - v.x else v.x - p.x) + (if v.y < p.y then p.y - v.y else v.y - p.y) < 0.01
  }

  /** A child holds the point q. */
  predicate Below(t: Tree, q: Item)
    requires t.Node?
  {
    q in Points(t.nw) || q in Points(t.ne) || q in Points(t.sw) || q in Points(t.se)
  }

  ghost predicate HasNear(t: Tree, v: Item)
    requires t.Node?
  {
    exists q :: Below(t, q) && Near(v, q)
  }

  /** Every inner node that has a point has one near it below. */
  ghost predicate Paired(t: Tree) {
    t.Node? ==>
      && (!t.leaf && t.point.Some? ==> HasNear(t, t.point.value))
      && Paired(t.nw) && Paired(t.ne) && Paired(t.sw) && Paired(t.se)
  }

  ghost predicate ChildrenPaired(t: Tree)
    requires t.Node?
  {
    Paired(t.nw) && Paired(t.ne) && Paired(t.sw) && Paired(t.se)
  }

  lemma StaysBelow(t: Tree, i: nat, c: Tree, p: Item)
    requires t.Node? && i < 4 && Points(c) == Points(Child(t, i)) + multiset{p}
    ensures var r := WithChild(t.(leaf := false), i, c); Below(r, p) && forall q :: Below(t, q) ==> Below(r, q)
  {
    hide Points;
    var r := WithChild(t.(leaf := false), i, c);
    assert p in Points(Child(r, i)) && forall q :: q in Points(Child(t, i)) ==> q in Points(Child(r, i));
  }

  lemma {:induction false} AttemptPairs(t: Tree, p: Item, cell: Cell, depth: nat)
    requires t.Node? && Paired(t) && Attempt(t, p, cell, depth).Some?
    ensures Paired(Attempt(t, p, cell, depth).value)
    decreases depth, 0
  {
    hide Points, Below, Quadrant, SubCell, WithChild, Target, AttemptChild;
    if t.leaf && t.point.None? {
    } else if t.leaf && !Close(t.point.value, p) {
      var v, t0 := t.point.value, t.(point := None);
      ChildPairs(t0, v, cell, depth - 1);
      ChildPairs(AttemptChild(t0, v, cell, depth - 1).value, p, cell, depth - 1);
    } else {
      ChildPairs(t, p, cell, depth - 1);
    }
  }

  lemma {:induction false} ChildPairs(t: Tree, p: Item, cell: Cell, depth: nat)
    requires t.Node? && ChildrenPaired(t) && AttemptChild(t, p, cell, depth).Some?
    requires t.point.Some? ==> Near(t.point.value, p) || HasNear(t, t.point.value)
    ensures var r := AttemptChild(t, p, cell, depth).value; Paired(r) && !r.leaf && r.point == t.point
    decreases depth, 1
  {
    hide Points, Quadrant, SubCell, Near;
    var i, c0 := Quadrant(cell, p), Target(t, p, cell);
    AttemptPairs(c0, p, SubCell(cell, i), depth);
    var c := Attempt(c0, p, SubCell(cell, i), depth).value;
    TargetPoints(t, p, cell);
    StaysBelow(t, i, c, p);
    hide Below, Attempt;
  }

  /** A leaf with the point v to which p comes becomes an inner node, which keeps v if and only if the two are near. */
  lemma LeafKeepsIffNear(t: Tree, v: Item, p: Item, cell: Cell, depth: nat)
    requires t.Node? && t.leaf && t.point == Some(v) && Attempt(t, p, cell, depth).Some?
    ensures var r := Attempt(t, p, cell, depth).value;
      !r.leaf && r.point == if Near(v, p) then Some(v) else None
  {
    hide Points, Quadrant, SubCell;
  }

  /** In every tree that insertions make, wherever the points lie, the inner nodes that have a point have one near it below. */
  lemma {:induction false} AllPaired(points: seq<Item>, cell: Cell, n: nat, depth: nat)
    requires n <= |points| && AttemptAll(NEW_NODE, points, cell, n, depth).Some?
    ensures Paired(AttemptAll(NEW_NODE, points, cell, n, depth).value)
  {
    hide Points, Attempt;
    if n == 0 {
    } else {
      AllPaired(points, cell, n - 1, depth);
      AttemptPairs(AttemptAll(NEW_NODE, points, cell, n - 1, depth).value, points[n - 1], cell, depth);
    }
  }

  /** The same for the insertion that needs no limit. */
  lemma InsertKeepsIffNear(t: Tree, v: Item, p: Item, cell: Cell)
    requires t.Node? && t.leaf && t.point == Some(v) && Ok(t, cell) && QuadTree.Contains(cell, p)
    ensures var r := Insert(t, p, cell); !r.leaf && r.point == if Near(v, p) then Some(v) else None
  {
    hide Points, Ok, Insert, Attempt, Near, QuadTree.Contains;
    var depth := InsertIsAttempt(t, p, cell);
    LeafKeepsIffNear(t, v, p, cell, depth);
  }

  lemma FreshIsOk(cell: Cell)
    ensures NEW_NODE.Node? && Ok(NEW_NODE, cell)
  {}

  lemma InsertedArePaired(points: seq<Item>, cell: Cell)
    requires forall k :: 0 <= k < |points| ==> QuadTree.Contains(cell, points[k])
    ensures NEW_NODE.Node? && Ok(NEW_NODE, cell) && Paired(InsertAll(NEW_NODE, points, cell, |points|))
  {
    FreshIsOk(cell);
    hide Points, Ok, InsertAll, AttemptAll, Paired, QuadTree.Contains;
    var depth := InsertAllIsAttempt(NEW_NODE, points, cell, |points|);
    AllPaired(points, cell, |points|, depth);
  }

  /** Two points of one column, far apart: the node gives both away. */
  lemma ColumnIsSplit()
    ensures var cell, v, p := Cell(0.0, 0.0, 100.0, 100.0), Item(0.0, 0.0, 0), Item(0.0, 100.0, 1);
      Ok(Leaf(v), cell) && QuadTree.Contains(cell, p) && Insert(Leaf(v), p, cell).point == None
  {
    var cell, v, p := Cell(0.0, 0.0, 100.0, 100.0), Item(0.0, 0.0, 0), Item(0.0, 100.0, 1);
    assert Ok(Leaf(v), cell);
    assert !Near(v, p);
    hide Insert, Ok;
    InsertKeepsIffNear(Leaf(v), v, p, cell);
  }
}
