/** The point quadtree (d3.geom.quadtree) as a value: insertion, what it stores where, and the traversal. */
module QuadTree {
  import opened Wrappers

  datatype Item = Item(x: real, y: real, index: nat)

  datatype Cell = Cell(x1: real, y1: real, x2: real, y2: real)

  datatype Tree =
    | Empty
    | Node(leaf: bool, point: Option<Item>, nw: Tree, ne: Tree, sw: Tree, se: Tree)

  const NEW_NODE := Node(true, None, Empty, Empty, Empty, Empty)

  function Leaf(p: Item): Tree {
    NEW_NODE.(point := Some(p))
  }

  function Child(t: Tree, i: nat): Tree
    requires t.Node? && i < 4
  {
    if i == 0 then t.nw else if i == 1 then t.ne else if i == 2 then t.sw else t.se
  }

  function WithChild(t: Tree, i: nat, c: Tree): (r: Tree)
    requires t.Node? && i < 4
    ensures r.Node? && r.leaf == t.leaf && r.point == t.point
    ensures forall j :: 0 <= j < 4 ==> Child(r, j) == if j == i then c else Child(t, j)
  {
    if i == 0 then t.(nw := c) else if i == 1 then t.(ne := c) else if i == 2 then t.(sw := c) else t.(se := c)
  }

  // ---------------------------------------------------------------- cells

  predicate Contains(cell: Cell, p: Item) {
    cell.x1 <= p.x <= cell.x2 && cell.y1 <= p.y <= cell.y2
  }

  function Quadrant(cell: Cell, p: Item): (i: nat)
    ensures i < 4
  {
    (if p.y >= (cell.y1 + cell.y2) * 0.5 then 2 else 0) + (if p.x >= (cell.x1 + cell.x2) * 0.5 then 1 else 0)
  }

  function SubCell(cell: Cell, i: nat): Cell
    requires i < 4
  {
    var sx, sy := (cell.x1 + cell.x2) * 0.5, (cell.y1 + cell.y2) * 0.5;
    Cell(if i % 2 == 1 then sx else cell.x1, if i >= 2 then sy else cell.y1,
         if i % 2 == 1 then cell.x2 else sx, if i >= 2 then cell.y2 else sy)
  }

  lemma SubCellContains(cell: Cell, p: Item)
    requires Contains(cell, p)
    ensures Contains(SubCell(cell, Quadrant(cell, p)), p)
  {
  }

  function Abs(x: real): real { if x < 0.0 then -x else x }

  /** Two points that are taken for one. */
  predicate Close(v: Item, p: Item) {
    Abs(v.x - p.x) + Abs(v.y - p.y) < 0.01
  }

  /** How often a cell can be halved before two points in it must be close. */
  function Halvings(cell: Cell): nat {
    var size := (cell.x2 - cell.x1) + (cell.y2 - cell.y1);
    if size <= 0.0 then 0 else (size * 100.0).Floor
  }

  lemma HalvingsShrink(cell: Cell, i: nat, v: Item, p: Item)
    requires i < 4 && Contains(cell, v) && Contains(cell, p) && !Close(v, p)
    ensures Halvings(SubCell(cell, i)) < Halvings(cell)
  {
    var size := (cell.x2 - cell.x1) + (cell.y2 - cell.y1);
    var sub := SubCell(cell, i);
    assert (sub.x2 - sub.x1) + (sub.y2 - sub.y1) == size * 0.5;
    assert size >= 0.01;
    var t := size * 100.0;
    assert t >= 1.0 && size * 0.5 * 100.0 == t * 0.5;
    assert (t * 0.5).Floor < t.Floor;
  }

  // ---------------------------------------------------------------- well-formed trees

  function Points(t: Tree): multiset<Item> {
    if t.Empty? then multiset{}
    else Own(t) + Points(t.nw) + Points(t.ne) + Points(t.sw) + Points(t.se)
  }

  function Max(a: nat, b: nat): nat { if a < b then b else a }

  function Height(t: Tree): nat {
    if t.Empty? || t.leaf then 0 else 1 + Max(Max(Height(t.nw), Height(t.ne)), Max(Height(t.sw), Height(t.se)))
  }

  ghost predicate Routed(t: Tree, cell: Cell, i: nat) {
    forall p :: p in Points(t) ==> Quadrant(cell, p) == i
  }

  /** A leaf has no children, and every point of a child lies in the quadrant of that child. */
  ghost predicate Ok(t: Tree, cell: Cell) {
    t.Node? ==>
      && (t.leaf ==> t == NEW_NODE.(point := t.point))
      && (t.point.Some? ==> Contains(cell, t.point.value))
      && Ok(t.nw, SubCell(cell, 0)) && Routed(t.nw, cell, 0)
      && Ok(t.ne, SubCell(cell, 1)) && Routed(t.ne, cell, 1)
      && Ok(t.sw, SubCell(cell, 2)) && Routed(t.sw, cell, 2)
      && Ok(t.se, SubCell(cell, 3)) && Routed(t.se, cell, 3)
  }

  lemma OkChild(t: Tree, cell: Cell, i: nat)
    requires t.Node? && Ok(t, cell) && i < 4
    ensures Ok(Child(t, i), SubCell(cell, i)) && Routed(Child(t, i), cell, i)
    ensures !t.leaf ==> Height(Child(t, i)) < Height(t)
  {
  }

  lemma OkWithChild(t: Tree, cell: Cell, i: nat, c: Tree)
    requires t.Node? && Ok(t, cell) && i < 4 && Ok(c, SubCell(cell, i)) && Routed(c, cell, i)
    ensures Ok(WithChild(t.(leaf := false), i, c), cell)
  {
    hide Routed, SubCell, Contains;
  }

  function Own(t: Tree): multiset<Item>
    requires t.Node?
  {
    if t.point.Some? then multiset{t.point.value} else multiset{}
  }

  lemma Exchange(o: multiset<Item>, a: multiset<Item>, b: multiset<Item>, c: multiset<Item>, d: multiset<Item>, x: multiset<Item>)
    ensures o + x + b + c + d + a == o + a + b + c + d + x
    ensures o + b + x + c + d + a == o + b + a + c + d + x
    ensures o + b + c + x + d + a == o + b + c + a + d + x
    ensures o + b + c + d + x + a == o + b + c + d + a + x
  {
  }

  lemma PointsWithChild(t: Tree, i: nat, c: Tree)
    requires t.Node? && i < 4
    ensures Points(WithChild(t.(leaf := false), i, c)) + Points(Child(t, i)) == Points(t) + Points(c)
  {
    var o, x := Own(t), Points(c);
    if i == 0 {
      Exchange(o, Points(t.nw), Points(t.ne), Points(t.sw), Points(t.se), x);
    } else if i == 1 {
      Exchange(o, Points(t.ne), Points(t.nw), Points(t.sw), Points(t.se), x);
    } else if i == 2 {
      Exchange(o, Points(t.sw), Points(t.nw), Points(t.ne), Points(t.se), x);
    } else {
      Exchange(o, Points(t.se), Points(t.nw), Points(t.ne), Points(t.sw), x);
    }
  }

  // ---------------------------------------------------------------- insertion

  /** The child that takes p, or the new node that is made for it. */
  function Target(t: Tree, p: Item, cell: Cell): (c: Tree)
    requires t.Node?
    ensures c.Node?
  {
    var c := Child(t, Quadrant(cell, p));
    if c.Empty? then NEW_NODE else c
  }

  /** A bound on the splits that an insertion into a leaf may still take. */
  function Splits(t: Tree, cell: Cell): nat
    requires t.Node?
  {
    if t.leaf && t.point.Some? then 1 + Halvings(cell) else 0
  }

  lemma TargetOk(t: Tree, p: Item, cell: Cell)
    requires t.Node? && Ok(t, cell)
    ensures Ok(Target(t, p, cell), SubCell(cell, Quadrant(cell, p)))
    ensures !t.leaf ==> Height(Target(t, p, cell)) < Height(t)
    ensures t.leaf ==> Target(t, p, cell) == NEW_NODE
  {
    OkChild(t, cell, Quadrant(cell, p));
  }

  lemma SplitShrinks(t: Tree, v: Item, p: Item, cell: Cell)
    requires t.Node? && t.leaf && t.point == Some(v) && Ok(t, cell) && Contains(cell, p) && !Close(v, p)
    ensures var t1 := WithChild(NEW_NODE.(leaf := false), Quadrant(cell, v), Leaf(v));
      var c, sub := Target(t1, p, cell), SubCell(cell, Quadrant(cell, p));
      Ok(t1, cell) && Height(c) == 0 && Splits(c, sub) < Splits(t, cell)
  {
    SubCellContains(cell, v);
    HalvingsShrink(cell, Quadrant(cell, p), v, p);
    OkWithChild(NEW_NODE, cell, Quadrant(cell, v), Leaf(v));
  }

  lemma Emptied(t: Tree, v: Item, p: Item, cell: Cell)
    requires t.Node? && t.leaf && t.point == Some(v) && Ok(t, cell)
    ensures Contains(cell, v) && Ok(t.(point := None), cell) && t.(point := None) == NEW_NODE
    ensures Target(t.(point := None), p, cell) == NEW_NODE && Height(NEW_NODE) == Height(t) == 0
    ensures forall sub :: Splits(NEW_NODE, sub) == 0 < Splits(t, cell)
  {
  }

  lemma PutBelow(t: Tree, p: Item, cell: Cell, c: Tree)
    requires t.Node? && Ok(t, cell)
    requires Ok(c, SubCell(cell, Quadrant(cell, p)))
    requires Points(c) == Points(Target(t, p, cell)) + multiset{p}
    ensures Ok(WithChild(t.(leaf := false), Quadrant(cell, p), c), cell)
    ensures Points(WithChild(t.(leaf := false), Quadrant(cell, p), c)) == Points(t) + multiset{p}
  {
    hide Ok, SubCell, Quadrant, WithChild, Target, Child, Points;
    var i := Quadrant(cell, p);
    OkChild(t, cell, i);
    TargetPoints(t, p, cell);
    assert Routed(c, cell, i);
    OkWithChild(t, cell, i, c);
    PointsWithChild(t, i, c);
    assert Points(t) + Points(c) == (Points(t) + multiset{p}) + Points(Child(t, i));
    Cancel(Points(WithChild(t.(leaf := false), i, c)), Points(t) + multiset{p}, Points(Child(t, i)));
  }

  lemma TargetPoints(t: Tree, p: Item, cell: Cell)
    requires t.Node?
    ensures Points(Target(t, p, cell)) == Points(Child(t, Quadrant(cell, p)))
  {
  }

  lemma Cancel(a: multiset<Item>, b: multiset<Item>, c: multiset<Item>)
    requires a + c == b + c
    ensures a == b
  {
    assert (a + c) - c == a && (b + c) - c == b;
  }

  /** insert(n, p, cell): the node after the point has been put below it. */
  function Insert(t: Tree, p: Item, cell: Cell): (r: Tree)
    requires t.Node? && Ok(t, cell) && Contains(cell, p)
    ensures r.Node? && Ok(r, cell) && Points(r) == Points(t) + multiset{p}
    ensures t.leaf && t.point == None ==> r == Leaf(p)
    decreases Height(t), Splits(t, cell), 1
  {
    TargetOk(t, p, cell);
    if t.leaf then
      match t.point
      case Some(v) =>
        if Close(v, p) then InsertChild(t, p, cell)
        else
          SplitShrinks(t, v, p, cell);
          InsertChild(InsertChild(t.(point := None), v, cell), p, cell)
      case None => t.(point := Some(p))
    else
      InsertChild(t, p, cell)
  }

  function InsertChild(t: Tree, p: Item, cell: Cell): (r: Tree)
    requires t.Node? && Ok(t, cell) && Contains(cell, p)
    ensures r.Node? && Ok(r, cell) && Points(r) == Points(t) + multiset{p}
    ensures t.leaf ==> r == WithChild(t.(leaf := false), Quadrant(cell, p), Leaf(p))
    decreases Height(Target(t, p, cell)), Splits(Target(t, p, cell), SubCell(cell, Quadrant(cell, p))), 2
  {
    var i := Quadrant(cell, p);
    TargetOk(t, p, cell);
    SubCellContains(cell, p);
    var c := Insert(Target(t, p, cell), p, SubCell(cell, i));
    PutBelow(t, p, cell, c);
    WithChild(t.(leaf := false), i, c)
  }

  lemma InsertIs(t: Tree, p: Item, cell: Cell)
    requires t.Node? && Ok(t, cell) && Contains(cell, p)
    ensures !t.leaf || (t.point.Some? && Close(t.point.value, p)) ==> Insert(t, p, cell) == InsertChild(t, p, cell)
    ensures t.leaf && t.point == None ==> Insert(t, p, cell) == t.(point := Some(p))
    ensures t.leaf && t.point.Some? && !Close(t.point.value, p) ==>
      var v, t0 := t.point.value, t.(point := None);
      && Ok(t0, cell) && Contains(cell, v)
      && Insert(t, p, cell) == InsertChild(InsertChild(t0, v, cell), p, cell)
  {
    if t.leaf && t.point.Some? {
      Emptied(t, t.point.value, p, cell);
    }
  }

  lemma InsertChildIs(t: Tree, p: Item, cell: Cell)
    requires t.Node? && Ok(t, cell) && Contains(cell, p)
    ensures var i, c := Quadrant(cell, p), Target(t, p, cell);
      && Ok(c, SubCell(cell, i)) && Contains(SubCell(cell, i), p)
      && InsertChild(t, p, cell) ==
         WithChild(WithChild(t.(leaf := false), i, c), i, Insert(c, p, SubCell(cell, i)))
  {
    TargetOk(t, p, cell);
    SubCellContains(cell, p);
  }

  lemma MorePoints(stored: multiset<Item>, points: seq<Item>, n: nat)
    requires 0 < n <= |points|
    ensures stored + multiset(points[..n - 1]) + multiset{points[n - 1]} == stored + multiset(points[..n])
  {
    assert points[..n] == points[..n - 1] + [points[n - 1]];
  }

  /** The tree after points[..n] have been added to the root t. */
  function InsertAll(t: Tree, points: seq<Item>, cell: Cell, n: nat): (r: Tree)
    requires n <= |points| && t.Node? && Ok(t, cell) && forall k :: 0 <= k < n ==> Contains(cell, points[k])
    ensures r.Node? && Ok(r, cell) && Points(r) == Points(t) + multiset(points[..n])
  {
    if n == 0 then t
    else
      MorePoints(Points(t), points, n);
      Insert(InsertAll(t, points, cell, n - 1), points[n - 1], cell)
  }

  // ---------------------------------------------------------------- the root square

  /** The least and greatest coordinates, widened to a square; there are none without points. */
  method BoundingSquare(points: seq<Item>) returns (cell: Option<Cell>)
    ensures cell == None <==> points == []
    ensures cell.Some? ==>
      && (forall k :: 0 <= k < |points| ==> Contains(cell.value, points[k]))
      && cell.value.x2 - cell.value.x1 == cell.value.y2 - cell.value.y1
      && (exists k :: 0 <= k < |points| && cell.value.x1 == points[k].x)
      && (exists k :: 0 <= k < |points| && cell.value.y1 == points[k].y)
      && ((exists k :: 0 <= k < |points| && cell.value.x2 == points[k].x)
          || (exists k :: 0 <= k < |points| && cell.value.y2 == points[k].y))
  {
    if points == [] {
      return None;
    }
    var x1, y1, x2, y2 := points[0].x, points[0].y, points[0].x, points[0].y;
    for i := 1 to |points|
      invariant forall k :: 0 <= k < i ==> Contains(Cell(x1, y1, x2, y2), points[k])
      invariant exists k :: 0 <= k < i && x1 == points[k].x
      invariant exists k :: 0 <= k < i && y1 == points[k].y
      invariant exists k :: 0 <= k < i && x2 == points[k].x
      invariant exists k :: 0 <= k < i && y2 == points[k].y
    {
      var p := points[i];
      if p.x < x1 { x1 := p.x; }
      if p.y < y1 { y1 := p.y; }
      if p.x > x2 { x2 := p.x; }
      if p.y > y2 { y2 := p.y; }
    }
    var dx, dy := x2 - x1, y2 - y1;
    if dx > dy { y2 := y1 + dx; } else { x2 := x1 + dy; }
    return Some(Cell(x1, y1, x2, y2));
  }

  // ---------------------------------------------------------------- traversal

  /** The nodes that visit hands to the callback, in order, each with its cell; f tells where the callback prunes. */
  function Visit(f: (Tree, Cell) -> bool, t: Tree, cell: Cell): seq<(Tree, Cell)> {
    if t.Empty? then []
    else
      [(t, cell)] +
      if f(t, cell) then []
      else Visit(f, t.nw, SubCell(cell, 0)) + Visit(f, t.ne, SubCell(cell, 1))
           + Visit(f, t.sw, SubCell(cell, 2)) + Visit(f, t.se, SubCell(cell, 3))
  }

  function Size(t: Tree): nat {
    if t.Empty? then 0 else 1 + Size(t.nw) + Size(t.ne) + Size(t.sw) + Size(t.se)
  }

  function OwnPoints(visited: seq<(Tree, Cell)>): multiset<Item> {
    if visited == [] then multiset{}
    else (if visited[0].0.Node? then Own(visited[0].0) else multiset{}) + OwnPoints(visited[1..])
  }

  lemma {:induction false} OwnPointsConcat(a: seq<(Tree, Cell)>, b: seq<(Tree, Cell)>)
    ensures OwnPoints(a + b) == OwnPoints(a) + OwnPoints(b)
  {
    if a == [] {
      assert a + b == b;
    } else {
      assert (a + b)[1..] == a[1..] + b;
      OwnPointsConcat(a[1..], b);
    }
  }

  lemma OwnPointsOfNode(v: (Tree, Cell), a: seq<(Tree, Cell)>, b: seq<(Tree, Cell)>, c: seq<(Tree, Cell)>, d: seq<(Tree, Cell)>)
    requires v.0.Node?
    ensures OwnPoints([v] + (a + b + c + d)) == Own(v.0) + OwnPoints(a) + OwnPoints(b) + OwnPoints(c) + OwnPoints(d)
  {
    OwnPointsConcat(a, b);
    OwnPointsConcat(a + b, c);
    OwnPointsConcat(a + b + c, d);
    Associate(Own(v.0), OwnPoints(a), OwnPoints(b), OwnPoints(c), OwnPoints(d));
    assert ([v] + (a + b + c + d))[1..] == a + b + c + d;
  }

  lemma Associate(o: multiset<Item>, a: multiset<Item>, b: multiset<Item>, c: multiset<Item>, d: multiset<Item>)
    ensures o + (a + b + c + d) == o + a + b + c + d
  {
  }

  /** A callback that never prunes is called once per node, and sees every stored point once. */
  lemma {:induction false} VisitReachesAll(f: (Tree, Cell) -> bool, t: Tree, cell: Cell)
    requires forall n, c :: !f(n, c)
    ensures |Visit(f, t, cell)| == Size(t) && OwnPoints(Visit(f, t, cell)) == Points(t)
  {
    hide SubCell, OwnPoints, Own;
    if t.Node? {
      VisitReachesAll(f, t.nw, SubCell(cell, 0));
      VisitReachesAll(f, t.ne, SubCell(cell, 1));
      VisitReachesAll(f, t.sw, SubCell(cell, 2));
      VisitReachesAll(f, t.se, SubCell(cell, 3));
      OwnPointsOfNode((t, cell), Visit(f, t.nw, SubCell(cell, 0)), Visit(f, t.ne, SubCell(cell, 1)),
                      Visit(f, t.sw, SubCell(cell, 2)), Visit(f, t.se, SubCell(cell, 3)));
    } else {
      NoOwnPoints();
    }
  }

  lemma NoOwnPoints()
    ensures OwnPoints([]) == multiset{}
  {
  }

  /** Whatever is pruned, the point of a visited node lies in the cell it is visited with. */
  lemma {:induction false} VisitedInCell(f: (Tree, Cell) -> bool, t: Tree, cell: Cell)
    requires Ok(t, cell)
    ensures forall v :: v in Visit(f, t, cell) ==> v.0.Node? && Ok(v.0, v.1) && (v.0.point.Some? ==> Contains(v.1, v.0.point.value))
  {
    if t.Empty? {
    } else {
      VisitedInCell(f, t.nw, SubCell(cell, 0));
      VisitedInCell(f, t.ne, SubCell(cell, 1));
      VisitedInCell(f, t.sw, SubCell(cell, 2));
      VisitedInCell(f, t.se, SubCell(cell, 3));
    }
  }

  /** A callback that prunes no cell around q finds the node that stores q. */
  lemma {:induction false} VisitFinds(f: (Tree, Cell) -> bool, t: Tree, cell: Cell, q: Item)
    requires Ok(t, cell) && q in Points(t) && Contains(cell, q)
    requires forall n, c :: Contains(c, q) ==> !f(n, c)
    ensures exists v :: v in Visit(f, t, cell) && v.0.Node? && v.0.point == Some(q) && Contains(v.1, q)
  {
    var visited := Visit(f, t, cell);
    if t.point == Some(q) {
      assert (t, cell) in visited;
    } else {
      var i := Quadrant(cell, q);
      SubCellContains(cell, q);
      HoldingChild(t, cell, q);
      VisitFinds(f, Child(t, i), SubCell(cell, i), q);
      var v :| v in Visit(f, Child(t, i), SubCell(cell, i)) && v.0.Node? && v.0.point == Some(q) && Contains(v.1, q);
      assert v in visited;
    }
  }

  lemma HoldingChild(t: Tree, cell: Cell, q: Item)
    requires t.Node? && Ok(t, cell) && q in Points(t) && t.point != Some(q)
    ensures q in Points(Child(t, Quadrant(cell, q))) && Ok(Child(t, Quadrant(cell, q)), SubCell(cell, Quadrant(cell, q)))
    ensures Child(t, Quadrant(cell, q)) < t
  {
    hide SubCell, Quadrant, Contains;
    var i :| 0 <= i < 4 && q in Points(Child(t, i));
    OkChild(t, cell, i);
  }
}
