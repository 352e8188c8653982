/** Insertion for any point and any root cell, as deep as it goes, and exactly when it ends. */
module QuadTreeEnds {
  import opened Wrappers
  import opened QuadTree

  // ---------------------------------------------------------------- insertion to a limited depth

  /** insert(n, p, cell), given up when it goes deeper than depth levels. */
  function Attempt(t: Tree, p: Item, cell: Cell, depth: nat): (r: Option<Tree>)
    requires t.Node?
    ensures r.Some? ==> r.value.Node? && Points(r.value) == Points(t) + multiset{p}
    decreases depth, 0
  {
    if depth == 0 then None
    else if t.leaf then
      match t.point
      case Some(v) =>
        if Close(v, p) then AttemptChild(t, p, cell, depth - 1)
        else
          assert Points(t) == Points(t.(point := None)) + multiset{v} by { TakenOut(t, v); }
          var t1 := AttemptChild(t.(point := None), v, cell, depth - 1);
          if t1.None? then None else AttemptChild(t1.value, p, cell, depth - 1)
      case None =>
        PutIn(t, p);
        Some(t.(point := Some(p)))
    else
      AttemptChild(t, p, cell, depth - 1)
  }

  function AttemptChild(t: Tree, p: Item, cell: Cell, depth: nat): (r: Option<Tree>)
    requires t.Node?
    ensures r.Some? ==> r.value.Node? && Points(r.value) == Points(t) + multiset{p}
    decreases depth, 1
  {
    var i := Quadrant(cell, p);
    var c := Attempt(Target(t, p, cell), p, SubCell(cell, i), depth);
    if c.None? then None
    else
      StoredBelow(t, p, cell, c.value);
      Some(WithChild(t.(leaf := false), i, c.value))
  }

  lemma TakenOut(t: Tree, v: Item)
    requires t.Node? && t.point == Some(v)
    ensures Points(t) == Points(t.(point := None)) + multiset{v}
  {
    Rotate(multiset{v}, Points(t.nw), Points(t.ne), Points(t.sw), Points(t.se));
  }

  lemma PutIn(t: Tree, p: Item)
    requires t.Node? && t.point == None
    ensures Points(t.(point := Some(p))) == Points(t) + multiset{p}
  {
    Rotate(multiset{p}, Points(t.nw), Points(t.ne), Points(t.sw), Points(t.se));
  }

  lemma Rotate(o: multiset<Item>, a: multiset<Item>, b: multiset<Item>, c: multiset<Item>, d: multiset<Item>)
    ensures o + a + b + c + d == multiset{} + a + b + c + d + o
  {}

  lemma StoredBelow(t: Tree, p: Item, cell: Cell, c: Tree)
    requires t.Node? && Points(c) == Points(Target(t, p, cell)) + multiset{p}
    ensures Points(WithChild(t.(leaf := false), Quadrant(cell, p), c)) == Points(t) + multiset{p}
  {
    hide Quadrant, WithChild, Target, Child, Points;
    var i := Quadrant(cell, p);
    TargetPoints(t, p, cell);
    PointsWithChild(t, i, c);
    assert Points(t) + Points(c) == (Points(t) + multiset{p}) + Points(Child(t, i));
    Cancel(Points(WithChild(t.(leaf := false), i, c)), Points(t) + multiset{p}, Points(Child(t, i)));
  }

  /** The insertion ends, whatever depth it needs. */
  ghost predicate Ends(t: Tree, p: Item, cell: Cell)
    requires t.Node?
  {
    exists depth: nat :: Attempt(t, p, cell, depth).Some?
  }

  /** A greater depth changes nothing once the insertion ends. */
  lemma {:induction false} DeeperIsSame(t: Tree, p: Item, cell: Cell, depth: nat, more: nat)
    requires t.Node? && depth <= more && Attempt(t, p, cell, depth).Some?
    ensures Attempt(t, p, cell, more) == Attempt(t, p, cell, depth)
    decreases depth, 0
  {
    hide Points, Quadrant, SubCell, WithChild, Target, Close;
    if t.leaf && t.point.None? {
    } else if t.leaf && !Close(t.point.value, p) {
      var t0 := t.(point := None);
      DeeperChildIsSame(t0, t.point.value, cell, depth - 1, more - 1);
      DeeperChildIsSame(AttemptChild(t0, t.point.value, cell, depth - 1).value, p, cell, depth - 1, more - 1);
    } else {
      DeeperChildIsSame(t, p, cell, depth - 1, more - 1);
    }
  }

  lemma {:induction false} DeeperChildIsSame(t: Tree, p: Item, cell: Cell, depth: nat, more: nat)
    requires t.Node? && depth <= more && AttemptChild(t, p, cell, depth).Some?
    ensures AttemptChild(t, p, cell, more) == AttemptChild(t, p, cell, depth)
    decreases depth, 1
  {
    hide Points, Quadrant, SubCell, WithChild, Target, Close;
    DeeperIsSame(Target(t, p, cell), p, SubCell(cell, Quadrant(cell, p)), depth, more);
  }

  /** A leaf has no children. */
  predicate Shaped(t: Tree) {
    t.Node? ==>
      && (t.leaf ==> t == NEW_NODE.(point := t.point))
      && Shaped(t.nw) && Shaped(t.ne) && Shaped(t.sw) && Shaped(t.se)
  }

  lemma {:induction false} StaysShaped(t: Tree, p: Item, cell: Cell, depth: nat)
    requires t.Node? && Shaped(t) && Attempt(t, p, cell, depth).Some?
    ensures Shaped(Attempt(t, p, cell, depth).value)
    decreases depth, 0
  {
    hide Points, Quadrant, SubCell, WithChild, Target, Close;
    if t.leaf && t.point.None? {
    } else if t.leaf && !Close(t.point.value, p) {
      var t0 := t.(point := None);
      ChildStaysShaped(t0, t.point.value, cell, depth - 1);
      ChildStaysShaped(AttemptChild(t0, t.point.value, cell, depth - 1).value, p, cell, depth - 1);
    } else {
      ChildStaysShaped(t, p, cell, depth - 1);
    }
  }

  lemma {:induction false} ChildStaysShaped(t: Tree, p: Item, cell: Cell, depth: nat)
    requires t.Node? && Shaped(t) && AttemptChild(t, p, cell, depth).Some?
    ensures Shaped(AttemptChild(t, p, cell, depth).value)
    decreases depth, 1
  {
    hide Points, Quadrant, SubCell, Close;
    StaysShaped(Target(t, p, cell), p, SubCell(cell, Quadrant(cell, p)), depth);
  }

  // ---------------------------------------------------------------- where halving tells two coordinates apart

  function Middle(a: real, b: real): real { (a + b) * 0.5 }

  /**
   * What halving an interval again and again can tell of x: its place between the ends if they are in order, and otherwise
   * only the side of the first middle.
   */
  function Rank(x: real, a: real, b: real): real {
    if a < b then (if x < a then a else if x > b then b else x)
    else if x >= Middle(a, b) then 1.0 else 0.0
  }

  /** One halving tells x and y apart, or leaves them to the half where both are. */
  lemma RankOfHalf(x: real, y: real, a: real, b: real)
    ensures var m := Middle(a, b);
      && ((x >= m) != (y >= m) ==> Rank(x, a, b) != Rank(y, a, b))
      && (x >= m && y >= m ==> (Rank(x, m, b) == Rank(y, m, b) <==> Rank(x, a, b) == Rank(y, a, b)))
      && (x < m && y < m ==> (Rank(x, a, m) == Rank(y, a, m) <==> Rank(x, a, b) == Rank(y, a, b)))
  {}

  /** Halving the cell tells v and p apart at some depth. */
  predicate Separable(cell: Cell, v: Item, p: Item) {
    Rank(v.x, cell.x1, cell.x2) != Rank(p.x, cell.x1, cell.x2) || Rank(v.y, cell.y1, cell.y2) != Rank(p.y, cell.y1, cell.y2)
  }

  lemma SeparableBelow(cell: Cell, v: Item, p: Item)
    ensures Quadrant(cell, v) != Quadrant(cell, p) ==> Separable(cell, v, p)
    ensures Quadrant(cell, v) == Quadrant(cell, p) ==>
              (Separable(cell, v, p) <==> Separable(SubCell(cell, Quadrant(cell, p)), v, p))
  {
    RankOfHalf(v.x, p.x, cell.x1, cell.x2);
    RankOfHalf(v.y, p.y, cell.y1, cell.y2);
    QuadrantIs(cell, v);
    QuadrantIs(cell, p);
    hide Rank, Quadrant;
  }

  lemma QuadrantIs(cell: Cell, p: Item)
    ensures Quadrant(cell, p) % 2 == 1 <==> p.x >= Middle(cell.x1, cell.x2)
    ensures Quadrant(cell, p) >= 2 <==> p.y >= Middle(cell.y1, cell.y2)
  {}

  /** How many halvings of the interval tell x and y apart at the latest. */
  function Effort(x: real, y: real, a: real, b: real): nat {
    var d := Abs(Rank(x, a, b) - Rank(y, a, b));
    if a < b && d > 0.0 then ((b - a) / d).Floor else 0
  }

  /** While x and y are in one half, what is left of the effort for different ranks falls. */
  lemma EffortFalls(x: real, y: real, a: real, b: real)
    requires Rank(x, a, b) != Rank(y, a, b)
    ensures var m := Middle(a, b);
      && (x >= m && y >= m ==> Effort(x, y, m, b) < Effort(x, y, a, b))
      && (x < m && y < m ==> Effort(x, y, a, m) < Effort(x, y, a, b))
  {
    var m, d := Middle(a, b), Abs(Rank(x, a, b) - Rank(y, a, b));
    if a < b && (x >= m) == (y >= m) {
      Quotient(b - a, d);
    }
  }

  lemma Quotient(w: real, d: real)
    requires 0.0 < d <= w
    ensures (w * 0.5 / d).Floor < (w / d).Floor
  {
    var q := w / d;
    assert q * d == w;
    assert q >= 1.0;
    assert w * 0.5 / d == q * 0.5;
  }

  // ---------------------------------------------------------------- a leaf that has a point

  /** Splitting the leaf of v for p: done if the quadrants differ, else the same one level down. */
  lemma SplitLeaf(v: Item, p: Item, cell: Cell, depth: nat)
    requires depth > 1
    ensures Attempt(Leaf(v), p, cell, depth).Some? <==>
      Close(v, p) || Quadrant(cell, v) != Quadrant(cell, p)
      || Attempt(Leaf(v), p, SubCell(cell, Quadrant(cell, p)), depth - 1).Some?
  {
    hide Points, SubCell, Close, Quadrant;
    FirstLeaf(v, cell, depth - 1);
    FirstLeaf(p, cell, depth - 1);
    TargetOfLeaf(v, p, cell);
    if Close(v, p) {
      ClosePoint(v, p, cell, depth);
    } else {
      var t1 := WithChild(NEW_NODE.(leaf := false), Quadrant(cell, v), Leaf(v));
      assert Leaf(v).(point := None) == NEW_NODE;
      assert AttemptChild(NEW_NODE, v, cell, depth - 1) == Some(t1);
      assert Attempt(Leaf(v), p, cell, depth) == AttemptChild(t1, p, cell, depth - 1);
    }
  }

  lemma ClosePoint(v: Item, p: Item, cell: Cell, depth: nat)
    requires depth > 1 && Close(v, p)
    ensures Attempt(Leaf(v), p, cell, depth).Some?
  {
    hide Points, SubCell, Close, Quadrant;
    assert Target(Leaf(v), p, cell) == NEW_NODE;
    assert AttemptChild(Leaf(v), p, cell, depth - 1).Some?;
  }

  lemma TargetOfLeaf(v: Item, p: Item, cell: Cell)
    ensures Target(WithChild(NEW_NODE.(leaf := false), Quadrant(cell, v), Leaf(v)), p, cell)
         == if Quadrant(cell, v) == Quadrant(cell, p) then Leaf(v) else NEW_NODE
  {
    hide Quadrant;
  }

  /** A point that comes into a new node stays there. */
  lemma FirstLeaf(p: Item, cell: Cell, depth: nat)
    requires depth > 0
    ensures forall c: Cell :: Attempt(NEW_NODE, p, c, depth) == Some(Leaf(p))
    ensures AttemptChild(NEW_NODE, p, cell, depth) == Some(WithChild(NEW_NODE.(leaf := false), Quadrant(cell, p), Leaf(p)))
  {
    hide Points, SubCell, Quadrant;
    assert Target(NEW_NODE, p, cell) == NEW_NODE;
  }

  lemma {:induction false} InseparableNeverEnds(v: Item, p: Item, cell: Cell, depth: nat)
    requires !Close(v, p) && !Separable(cell, v, p)
    ensures Attempt(Leaf(v), p, cell, depth) == None
    decreases depth
  {
    hide Close, Separable, Points, Quadrant, SubCell;
    if depth <= 1 {
      ShallowFails(v, p, cell, depth);
    } else {
      SplitLeaf(v, p, cell, depth);
      SeparableBelow(cell, v, p);
      InseparableNeverEnds(v, p, SubCell(cell, Quadrant(cell, p)), depth - 1);
    }
  }

  lemma ShallowFails(v: Item, p: Item, cell: Cell, depth: nat)
    requires depth <= 1
    ensures Attempt(Leaf(v), p, cell, depth) == None
  {
    hide Close, Points, Quadrant, SubCell;
  }

  /** The effort on an axis on which the ranks differ. */
  function EffortOf(cell: Cell, v: Item, p: Item): nat {
    if Rank(v.x, cell.x1, cell.x2) != Rank(p.x, cell.x1, cell.x2) then Effort(v.x, p.x, cell.x1, cell.x2)
    else Effort(v.y, p.y, cell.y1, cell.y2)
  }

  lemma EffortOfFalls(cell: Cell, v: Item, p: Item)
    requires Separable(cell, v, p) && Quadrant(cell, v) == Quadrant(cell, p)
    ensures EffortOf(SubCell(cell, Quadrant(cell, p)), v, p) < EffortOf(cell, v, p)
  {
    RankOfHalf(v.x, p.x, cell.x1, cell.x2);
    RankOfHalf(v.y, p.y, cell.y1, cell.y2);
    QuadrantIs(cell, v);
    QuadrantIs(cell, p);
    if Rank(v.x, cell.x1, cell.x2) != Rank(p.x, cell.x1, cell.x2) {
      EffortFalls(v.x, p.x, cell.x1, cell.x2);
    } else {
      EffortFalls(v.y, p.y, cell.y1, cell.y2);
    }
    hide Rank, Quadrant, Effort;
  }

  lemma {:induction false} SeparableEnds(v: Item, p: Item, cell: Cell) returns (depth: nat)
    requires Separable(cell, v, p)
    ensures depth > 1 && Attempt(Leaf(v), p, cell, depth).Some?
    decreases EffortOf(cell, v, p)
  {
    hide Close, Separable, Points, Quadrant, SubCell, EffortOf;
    if Close(v, p) || Quadrant(cell, v) != Quadrant(cell, p) {
      depth := 2;
    } else {
      SeparableBelow(cell, v, p);
      EffortOfFalls(cell, v, p);
      depth := SeparableEnds(v, p, SubCell(cell, Quadrant(cell, p)));
      depth := depth + 1;
    }
    SplitLeaf(v, p, cell, depth);
  }

  // ---------------------------------------------------------------- exactly when an insertion ends

  /** The leaf that p comes to, new or old, with its cell. */
  function Destination(t: Tree, p: Item, cell: Cell): (r: (Tree, Cell))
    requires t.Node?
    ensures r.0.Node? && r.0.leaf
  {
    if t.leaf then (t, cell)
    else
      var i := Quadrant(cell, p);
      if Child(t, i).Empty? then (NEW_NODE, SubCell(cell, i)) else Destination(Child(t, i), p, SubCell(cell, i))
  }

  /** The leaf is free, or its point is close to p, or halving its cell tells the two apart. */
  predicate Settles(l: Tree, p: Item, cell: Cell)
    requires l.Node?
  {
    l.point.None? || Close(l.point.value, p) || Separable(cell, l.point.value, p)
  }

  /** Without bounds on points or cell, an insertion ends if and only if it does at the leaf that the point comes to. */
  lemma {:induction false} InsertEndsIff(t: Tree, p: Item, cell: Cell)
    requires t.Node? && Shaped(t)
    ensures var d := Destination(t, p, cell); Ends(t, p, cell) <==> Settles(d.0, p, d.1)
    decreases t
  {
    hide Separable, Close, Points, Quadrant, SubCell, Attempt;
    if t.leaf {
      LeafEndsIff(t, p, cell);
    } else if Child(t, Quadrant(cell, p)).Empty? {
      EndsBelow(t, p, cell);
      LeafEndsIff(NEW_NODE, p, SubCell(cell, Quadrant(cell, p)));
    } else {
      EndsBelow(t, p, cell);
      InsertEndsIff(Child(t, Quadrant(cell, p)), p, SubCell(cell, Quadrant(cell, p)));
    }
  }

  lemma LeafEndsIff(t: Tree, p: Item, cell: Cell)
    requires t.Node? && t.leaf && Shaped(t)
    ensures Ends(t, p, cell) <==> Settles(t, p, cell)
  {
    hide Separable, Close, Points, Quadrant, SubCell, Attempt;
    match t.point
    case None =>
      FirstLeaf(p, cell, 1);
      assert Attempt(t, p, cell, 1).Some?;
    case Some(v) =>
      assert t == Leaf(v);
      if Close(v, p) {
        ClosePoint(v, p, cell, 2);
      } else if Separable(cell, v, p) {
        var depth := SeparableEnds(v, p, cell);
      } else {
        forall depth: nat ensures Attempt(t, p, cell, depth).None? {
          InseparableNeverEnds(v, p, cell, depth);
        }
      }
  }

  lemma EndsBelow(t: Tree, p: Item, cell: Cell)
    requires t.Node? && !t.leaf
    ensures Ends(t, p, cell) <==> Ends(Target(t, p, cell), p, SubCell(cell, Quadrant(cell, p)))
  {
    hide Points, Quadrant, SubCell, Target;
    var c, sub := Target(t, p, cell), SubCell(cell, Quadrant(cell, p));
    if depth: nat :| Attempt(t, p, cell, depth).Some? {
      assert Attempt(t, p, cell, depth) == AttemptChild(t, p, cell, depth - 1);
      assert Attempt(c, p, sub, depth - 1).Some?;
    }
    if depth: nat :| Attempt(c, p, sub, depth).Some? {
      assert Attempt(t, p, cell, depth + 1).Some?;
    }
  }

  // ---------------------------------------------------------------- points in the root cell

  /** For a point in the cell the insertion ends, and is the one that needs no limit. */
  lemma {:induction false} InsertIsAttempt(t: Tree, p: Item, cell: Cell) returns (depth: nat)
    requires t.Node? && Ok(t, cell) && QuadTree.Contains(cell, p)
    ensures Attempt(t, p, cell, depth) == Some(Insert(t, p, cell))
    decreases Height(t), Splits(t, cell), 1
  {
    hide Ok, Points, Quadrant, SubCell, Close, Insert, InsertChild, Target, Splits, Height, WithChild, QuadTree.Contains;
    InsertIs(t, p, cell);
    if t.leaf && t.point.None? {
      depth := 1;
    } else if t.leaf && !Close(t.point.value, p) {
      depth := SplitIsAttempt(t, p, cell);
    } else {
      TargetOk(t, p, cell);
      if t.leaf {
        Emptied(t, t.point.value, p, cell);
      }
      depth := InsertChildIsAttempt(t, p, cell);
      depth := depth + 1;
    }
  }

  lemma {:induction false} SplitIsAttempt(t: Tree, p: Item, cell: Cell) returns (depth: nat)
    requires t.Node? && t.leaf && t.point.Some? && Ok(t, cell) && QuadTree.Contains(cell, p) && !Close(t.point.value, p)
    ensures Attempt(t, p, cell, depth) == Some(Insert(t, p, cell))
    decreases Height(t), Splits(t, cell), 0
  {
    hide Ok, Points, Quadrant, SubCell, Close, Insert, InsertChild, Target, Splits, Height, WithChild, QuadTree.Contains;
    var v, t0 := t.point.value, t.(point := None);
    InsertIs(t, p, cell);
    Emptied(t, v, p, cell);
    Emptied(t, v, v, cell);
    var first := InsertChildIsAttempt(t0, v, cell);
    SplitShrinks(t, v, p, cell);
    var second := InsertChildIsAttempt(InsertChild(t0, v, cell), p, cell);
    depth := Max(first, second);
    DeeperChildIsSame(t0, v, cell, first, depth);
    DeeperChildIsSame(InsertChild(t0, v, cell), p, cell, second, depth);
    depth := depth + 1;
  }

  lemma {:induction false} InsertChildIsAttempt(t: Tree, p: Item, cell: Cell) returns (depth: nat)
    requires t.Node? && Ok(t, cell) && QuadTree.Contains(cell, p)
    ensures AttemptChild(t, p, cell, depth) == Some(InsertChild(t, p, cell))
    decreases Height(Target(t, p, cell)), Splits(Target(t, p, cell), SubCell(cell, Quadrant(cell, p))), 2
  {
    hide Points, Quadrant, SubCell, Close, Insert, InsertChild, Target, Ok, Splits, Height, QuadTree.Contains;
    InsertChildIs(t, p, cell);
    depth := InsertIsAttempt(Target(t, p, cell), p, SubCell(cell, Quadrant(cell, p)));
  }

  // ---------------------------------------------------------------- points outside the root cell

  /** Two points beyond the first corner of a leaf's cell, one in the leaf: unless they are close, the other never ends. */
  lemma OutsideNeverEnds(cell: Cell, v: Item, p: Item)
    requires cell.x1 <= cell.x2 && cell.y1 <= cell.y2 && !Close(v, p)
    requires v.x < cell.x1 && v.y < cell.y1 && p.x < cell.x1 && p.y < cell.y1
    ensures !Ends(Leaf(v), p, cell)
  {
    assert !Separable(cell, v, p);
    hide Separable, Close;
    forall depth: nat ensures Attempt(Leaf(v), p, cell, depth).None? {
      InseparableNeverEnds(v, p, cell, depth);
    }
  }

  // ---------------------------------------------------------------- lists of points

  /** The tree after points[..n] have been added to the root t, none of them deeper than depth. */
  function AttemptAll(t: Tree, points: seq<Item>, cell: Cell, n: nat, depth: nat): (r: Option<Tree>)
    requires n <= |points| && t.Node?
    ensures r.Some? ==> r.value.Node? && Points(r.value) == Points(t) + multiset(points[..n])
  {
    if n == 0 then Some(t)
    else
      var before := AttemptAll(t, points, cell, n - 1, depth);
      MorePoints(Points(t), points, n);
      if before.None? then None else Attempt(before.value, points[n - 1], cell, depth)
  }

  lemma {:induction false} DeeperAllIsSame(t: Tree, points: seq<Item>, cell: Cell, n: nat, depth: nat, more: nat)
    requires n <= |points| && t.Node? && depth <= more && AttemptAll(t, points, cell, n, depth).Some?
    ensures AttemptAll(t, points, cell, n, more) == AttemptAll(t, points, cell, n, depth)
  {
    hide Points, Attempt;
    if n == 0 {
    } else {
      DeeperAllIsSame(t, points, cell, n - 1, depth, more);
      DeeperIsSame(AttemptAll(t, points, cell, n - 1, depth).value, points[n - 1], cell, depth, more);
    }
  }

  /** Points in the cell can all be added. */
  lemma {:induction false} InsertAllIsAttempt(t: Tree, points: seq<Item>, cell: Cell, n: nat) returns (depth: nat)
    requires n <= |points| && t.Node? && Ok(t, cell) && forall k :: 0 <= k < n ==> QuadTree.Contains(cell, points[k])
    ensures AttemptAll(t, points, cell, n, depth) == Some(InsertAll(t, points, cell, n))
  {
    hide Points, Attempt, Ok, QuadTree.Contains, Insert;
    if n == 0 {
      depth := 0;
    } else {
      var first := InsertAllIsAttempt(t, points, cell, n - 1);
      var before := InsertAll(t, points, cell, n - 1);
      var second := InsertIsAttempt(before, points[n - 1], cell);
      depth := Max(first, second);
      DeeperAllIsSame(t, points, cell, n - 1, first, depth);
      DeeperIsSame(before, points[n - 1], cell, second, depth);
    }
  }
}
