/** The geometry behind a Graham scan: chains of left turns around an anchor, and what they enclose. */
module ConvexChain {
  import opened Plane
  import opened Reals

  /** Seen from c[0], the other points of c come in strictly increasing angle. */
  ghost predicate Fan(c: seq<Point>) {
    |c| >= 2 && forall i, j :: 1 <= i < j < |c| ==> Cross(c[0], c[i], c[j]) > 0.0
  }

  /** Every three consecutive points make a strict left turn. */
  ghost predicate LeftTurns(c: seq<Point>) {
    forall i :: 0 <= i < |c| - 2 ==> LeftTurnAt(c, i)
  }

  ghost predicate LeftTurnAt(c: seq<Point>, i: nat)
    requires i < |c| - 2
  {
    Cross(c[i], c[i + 1], c[i + 2]) > 0.0
  }

  /** w lies in the closed triangle (o, a, b). */
  ghost predicate Wedge(o: Point, a: Point, b: Point, w: Point) {
    Cross(o, a, w) >= 0.0 && Cross(o, w, b) >= 0.0 && Cross(a, b, w) >= 0.0
  }

  /** w is a point of the chain or lies in one of the triangles that the chain spans with c[0]. */
  ghost predicate Inside(c: seq<Point>, w: Point) {
    w in c || exists i :: 1 <= i < |c| - 1 && InWedge(c, i, w)
  }

  ghost predicate InWedge(c: seq<Point>, i: nat, w: Point)
    requires i < |c| - 1
  {
    Wedge(c[0], c[i], c[i + 1], w)
  }

  /** Any three points in order, the wrap-around ones included, make a strict left turn. */
  ghost predicate StrictlyConvex(c: seq<Point>) {
    forall i, j, k :: 0 <= i < j < k < |c| ==> Cross(c[i], c[j], c[k]) > 0.0
  }

  function Next(c: seq<Point>, i: nat): Point
    requires i < |c|
  {
    if i + 1 < |c| then c[i + 1] else c[0]
  }

  /** w is on or left of every edge of the closed polygon c. */
  ghost predicate LeftOfEdges(c: seq<Point>, w: Point) {
    forall i :: 0 <= i < |c| ==> Cross(c[i], Next(c, i), w) >= 0.0
  }

  /** Instances of the Grassmann-Pluecker relation, the pivot being one of the last four points. */
  lemma FivePoints(o: Point, a: Point, b: Point, c: Point, d: Point)
    ensures Cross(o, b, c) * Cross(a, b, d) == Cross(o, a, b) * Cross(b, c, d) + Cross(o, b, d) * Cross(a, b, c)
    ensures Cross(o, b, c) * Cross(a, c, d) == Cross(o, a, c) * Cross(b, c, d) + Cross(o, c, d) * Cross(a, b, c)
  {
    Pluecker(b, o, a, c, d);
    Pluecker(c, o, a, b, d);
  }

  // Four points a, b, c, d in increasing angle around o: two left turns that share an edge carry over.
  lemma LeftTurnsCompose(o: Point, a: Point, b: Point, c: Point, d: Point)
    requires Cross(o, a, b) > 0.0 && Cross(o, b, c) > 0.0 && Cross(o, c, d) > 0.0
    requires Cross(o, a, c) > 0.0 && Cross(o, b, d) > 0.0
    requires Cross(a, b, c) > 0.0 && Cross(b, c, d) > 0.0
    ensures Cross(a, b, d) > 0.0 && Cross(a, c, d) > 0.0
  {
    hide Cross;
    FivePoints(o, a, b, c, d);
    PositiveMultiple(Cross(o, b, c), Cross(a, b, d), Cross(o, a, b), Cross(b, c, d), Cross(o, b, d), Cross(a, b, c), 0.0, 0.0);
    PositiveMultiple(Cross(o, b, c), Cross(a, c, d), Cross(o, a, c), Cross(b, c, d), Cross(o, c, d), Cross(a, b, c), 0.0, 0.0);
  }

  // Local left turns are global ones.
  lemma {:induction false} LeftTurnAcross(c: seq<Point>, i: nat, j: nat, k: nat)
    requires Fan(c) && LeftTurns(c)
    requires i < j < k < |c|
    ensures Cross(c[i], c[j], c[k]) > 0.0
    decreases k - i
  {
    if i == 0 {
    } else if k == i + 2 {
      assert LeftTurnAt(c, i);
    } else if j < k - 1 {
      LeftTurnAcross(c, i, j, k - 1);
      LeftTurnAcross(c, j, k - 1, k);
      LeftTurnsCompose(c[0], c[i], c[j], c[k - 1], c[k]);
    } else {
      LeftTurnAcross(c, i, i + 1, j);
      LeftTurnAcross(c, i + 1, j, k);
      LeftTurnsCompose(c[0], c[i], c[i + 1], c[j], c[k]);
    }
  }

  lemma ChainIsStrictlyConvex(c: seq<Point>)
    requires Fan(c) && LeftTurns(c)
    ensures StrictlyConvex(c)
  {
    forall i, j, k | 0 <= i < j < k < |c| ensures Cross(c[i], c[j], c[k]) > 0.0 {
      LeftTurnAcross(c, i, j, k);
    }
  }

  lemma VertexLeftOfEdges(c: seq<Point>, k: nat)
    requires StrictlyConvex(c) && k < |c|
    ensures LeftOfEdges(c, c[k])
  {
    forall i | 0 <= i < |c| ensures Cross(c[i], Next(c, i), c[k]) >= 0.0 {
      CrossTurns(c[i], Next(c, i), c[k]);
      CrossTurns(c[i], c[k], Next(c, i));
    }
  }

  lemma InsideIsLeftOfEdges(c: seq<Point>, w: Point)
    requires Fan(c) && StrictlyConvex(c) && Inside(c, w)
    ensures LeftOfEdges(c, w)
  {
    forall j | 0 <= j < |c| ensures Cross(c[j], Next(c, j), w) >= 0.0 {
      InsideIsLeftOfEdge(c, j, w);
    }
  }

  lemma InsideIsLeftOfEdge(c: seq<Point>, j: nat, w: Point)
    requires Fan(c) && StrictlyConvex(c) && Inside(c, w) && j < |c|
    ensures Cross(c[j], Next(c, j), w) >= 0.0
  {
    if w in c {
      var k :| 0 <= k < |c| && c[k] == w;
      VertexLeftOfEdges(c, k);
    } else {
      var i :| 1 <= i < |c| - 1 && InWedge(c, i, w);
      WedgeIsLeftOfEdge(c, i, j, w);
    }
  }

  lemma WedgeIsLeftOfEdge(c: seq<Point>, i: nat, j: nat, w: Point)
    requires Fan(c) && StrictlyConvex(c)
    requires 1 <= i < |c| - 1 && j < |c| && InWedge(c, i, w)
    ensures Cross(c[j], Next(c, j), w) >= 0.0
  {
    hide Cross, StrictlyConvex;
    VertexLeftOfEdges(c, 0);
    VertexLeftOfEdges(c, i);
    VertexLeftOfEdges(c, i + 1);
    TriangleLeftOfEdge(c[0], c[i], c[i + 1], c[j], Next(c, j), w);
  }

  lemma TriangleLeftOfEdge(o: Point, a: Point, b: Point, e: Point, f: Point, w: Point)
    requires Cross(o, a, b) > 0.0 && Wedge(o, a, b, w)
    requires Cross(e, f, o) >= 0.0 && Cross(e, f, a) >= 0.0 && Cross(e, f, b) >= 0.0
    ensures Cross(e, f, w) >= 0.0
  {
    hide Cross;
    Barycentric(o, a, b, e, f, w);
    PositiveMultiple(Cross(o, a, b), Cross(e, f, w),
                     Cross(a, b, w), Cross(e, f, o), Cross(o, w, b), Cross(e, f, a), Cross(o, a, w), Cross(e, f, b));
  }

  lemma PoppedPoint(o: Point, a: Point, t: Point, q: Point, w: Point)
    ensures Cross(o, a, t) * Cross(a, q, w) == Cross(o, a, q) * Cross(a, t, w) + Cross(o, a, w) * -Cross(a, t, q)
    ensures Cross(o, a, t) * Cross(o, w, q) == Cross(o, a, w) * Cross(o, t, q) + Cross(o, a, q) * Cross(o, w, t)
    ensures Cross(o, t, q) * Cross(a, q, w) == Cross(o, a, q) * Cross(t, q, w) + Cross(o, w, q) * -Cross(a, t, q)
    ensures Cross(o, t, q) * Cross(o, a, w) == Cross(o, a, t) * Cross(o, w, q) + Cross(o, a, q) * Cross(o, t, w)
  {
    Pluecker(a, o, t, q, w);
    Pluecker(o, a, w, t, q);
    Pluecker(q, o, a, t, w);
    Pluecker(o, a, t, w, q);
  }

  // Popping t between a and q enlarges the enclosed region when t is not left of the turn (a, t, q).
  lemma WedgesGrow(o: Point, a: Point, t: Point, q: Point, w: Point)
    requires Cross(o, a, t) > 0.0 && Cross(o, t, q) > 0.0 && Cross(o, a, q) > 0.0
    requires Cross(a, t, q) <= 0.0 && (Wedge(o, a, t, w) || Wedge(o, t, q, w))
    ensures Wedge(o, a, q, w)
  {
    hide Cross;
    PoppedPoint(o, a, t, q, w);
    if Wedge(o, a, t, w) {
      PositiveMultiple(Cross(o, a, t), Cross(a, q, w), Cross(o, a, q), Cross(a, t, w), Cross(o, a, w), -Cross(a, t, q), 0.0, 0.0);
      PositiveMultiple(Cross(o, a, t), Cross(o, w, q), Cross(o, a, w), Cross(o, t, q), Cross(o, a, q), Cross(o, w, t), 0.0, 0.0);
    } else {
      PositiveMultiple(Cross(o, t, q), Cross(a, q, w), Cross(o, a, q), Cross(t, q, w), Cross(o, w, q), -Cross(a, t, q), 0.0, 0.0);
      PositiveMultiple(Cross(o, t, q), Cross(o, a, w), Cross(o, a, t), Cross(o, w, q), Cross(o, a, q), Cross(o, t, w), 0.0, 0.0);
    }
  }

  lemma PopKeepsInside(c: seq<Point>, q: Point, w: Point)
    requires |c| >= 3 && Fan(c + [q]) && Inside(c + [q], w)
    requires Cross(c[|c| - 2], c[|c| - 1], q) <= 0.0
    ensures Inside(c[..|c| - 1] + [q], w)
  {
    var n := |c|;
    var d, e := c + [q], c[..n - 1] + [q];
    var o, a, t := c[0], c[n - 2], c[n - 1];
    assert d[n - 2] == a && d[n - 1] == t && d[n] == q && e[n - 2] == a && e[n - 1] == q && e[0] == d[0] == o;
    assert Cross(o, d[n - 2], d[n - 1]) > 0.0 && Cross(o, d[n - 1], d[n]) > 0.0 && Cross(o, d[n - 2], d[n]) > 0.0;
    if w in e {
    } else if w in d {
      assert w == t;
      CrossTurns(a, t, q); CrossTurns(a, q, t);
      assert InWedge(e, n - 2, w);
    } else {
      var i :| 1 <= i < |d| - 1 && InWedge(d, i, w);
      if i < n - 2 {
        assert d[i] == e[i] && d[i + 1] == e[i + 1];
        assert InWedge(e, i, w);
      } else {
        WedgesGrow(o, a, t, q, w);
        assert InWedge(e, n - 2, w);
      }
    }
  }
}
