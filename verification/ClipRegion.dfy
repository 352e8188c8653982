/** The region that a clipped convex polygon covers: the part of the subject's region inside every clip edge. */
module ClipRegion {
  import opened Plane
  import opened Reals
  import opened Clip

  // ---------------------------------------------------------------- regions

  /** The affine function a * x + b * y + c; its half-plane is where it is not positive. */
  datatype HalfPlane = HalfPlane(a: real, b: real, c: real) {
    function At(p: Point): real {
      Times(a, p.x) + Times(b, p.y) + c
    }
  }

  ghost predicate Bounds(h: HalfPlane, s: seq<Point>) {
    forall i :: 0 <= i < |s| ==> h.At(s[i]) <= 0.0
  }

  /** p lies in every half-plane that holds all points of s: in their convex hull, which is empty without points. */
  ghost predicate InHull(s: seq<Point>, p: Point) {
    forall h: HalfPlane :: Bounds(h, s) ==> h.At(p) <= 0.0
  }

  /** p is in the closed half-plane of each of the first n clip edges. */
  ghost predicate InClip(clip: seq<Point>, n: nat, p: Point)
    requires n <= |clip|
  {
    forall i :: 0 <= i < n ==> Cross(Prev(clip, i), clip[i], p) <= 0.0
  }

  /** p is strictly inside each of the first n clip edges. */
  ghost predicate StrictlyInClip(clip: seq<Point>, n: nat, p: Point)
    requires n <= |clip|
  {
    forall i :: 0 <= i < n ==> Inside(p, Prev(clip, i), clip[i])
  }

  lemma VertexInHull(s: seq<Point>, i: nat)
    requires i < |s|
    ensures InHull(s, s[i])
  {}

  lemma HullNeedsPoints(p: Point)
    ensures !InHull([], p)
  {
    var h := HalfPlane(0.0, 0.0, 1.0);
    hide Times;
    TimesSign(0.0, p.x);
    TimesSign(0.0, p.y);
    assert Bounds(h, []) && h.At(p) == 1.0;
  }

  /** The half-plane on one side of a line. */
  function SideOf(u: Point, v: Point, side: real): HalfPlane {
    HalfPlane(-(side * (v.y - u.y)), side * (v.x - u.x), side * ((v.y - u.y) * u.x - (v.x - u.x) * u.y))
  }

  lemma SideOfIs(u: Point, v: Point, side: real, p: Point)
    ensures SideOf(u, v, side).At(p) == side * Cross(u, v, p)
  {
    var m, n := v.y - u.y, v.x - u.x;
    assert Cross(u, v, p) == n * p.y - m * p.x + (m * u.x - n * u.y);
    assert side * (n * p.y) == side * n * p.y && side * (m * p.x) == side * m * p.x;
  }

  /** A half-plane at a point between c and d. */
  lemma AtBetween(h: HalfPlane, c: Point, x: Point, d: Point, t: real)
    requires x.x - c.x == t * (d.x - c.x) && x.y - c.y == t * (d.y - c.y)
    ensures h.At(x) == Mean(h.At(c), h.At(d), t)
  {
    assert h.a * (x.x - c.x) == t * (h.a * d.x - h.a * c.x);
    assert h.b * (x.y - c.y) == t * (h.b * d.y - h.b * c.y);
  }

  /** The side of a point between c and d. */
  lemma CrossBetween(a: Point, b: Point, c: Point, x: Point, d: Point, t: real)
    requires x.x - c.x == t * (d.x - c.x) && x.y - c.y == t * (d.y - c.y)
    ensures Cross(a, b, x) == Mean(Cross(a, b, c), Cross(a, b, d), t)
  {
    var m, n := b.x - a.x, b.y - a.y;
    assert m * (x.y - c.y) == t * (m * d.y - m * c.y);
    assert n * (x.x - c.x) == t * (n * d.x - n * c.x);
  }

  // ---------------------------------------------------------------- along the clip line

  /** The point a + t * (b - a). */
  function Along(a: Point, b: Point, t: real): Point {
    Point(a.x + t * (b.x - a.x), a.y + t * (b.y - a.y))
  }

  lemma OnLine(a: Point, b: Point, p: Point) returns (t: real)
    requires Cross(a, b, p) == 0.0 && a != b
    ensures p == Along(a, b, t)
  {
    if a.x != b.x {
      t := (p.x - a.x) / (b.x - a.x);
      assert (p.y - a.y) * (b.x - a.x) == (t * (b.y - a.y)) * (b.x - a.x);
    } else {
      t := (p.y - a.y) / (b.y - a.y);
    }
  }

  /** The side of an edge (c, d) changes along the clip line as much as the sides of c and d of that line differ. */
  lemma EdgeAlong(a: Point, b: Point, c: Point, d: Point, t: real, u: real)
    ensures Cross(c, d, Along(a, b, t)) - Cross(c, d, Along(a, b, u)) == (t - u) * (Cross(a, b, c) - Cross(a, b, d))
  {
    var p, q := Along(a, b, t), Along(a, b, u);
    assert p.x - q.x == (t - u) * (b.x - a.x) && p.y - q.y == (t - u) * (b.y - a.y);
    assert Cross(c, d, p) - Cross(c, d, q) == (d.x - c.x) * (p.y - q.y) - (d.y - c.y) * (p.x - q.x);
    assert Cross(a, b, c) - Cross(a, b, d) == (d.x - c.x) * (b.y - a.y) - (d.y - c.y) * (b.x - a.x);
  }

  lemma SignOfParts(side: real, dt: real, k: real)
    requires side * (dt * k) <= 0.0
    ensures k < 0.0 ==> side * dt >= 0.0
    ensures k > 0.0 ==> side * dt <= 0.0
  {
    assert side * (dt * k) == (side * dt) * k;
  }

  /** On the clip line, a point on the inner side of an edge that crosses it is on the inner side of the crossing. */
  lemma CrossingBounds(a: Point, b: Point, c: Point, d: Point, side: real, t: real, u: real)
    requires Cross(c, d, Along(a, b, u)) == 0.0 && OnSide(c, d, side, Along(a, b, t))
    requires Inside(c, a, b) != Inside(d, a, b)
    ensures Inside(c, a, b) ==> side * (t - u) >= 0.0
    ensures Inside(d, a, b) ==> side * (t - u) <= 0.0
  {
    EdgeAlong(a, b, c, d, t, u);
    Denominator(c, d, a, b);
    hide Cross, Along, Inside;
    SignOfParts(side, t - u, Cross(a, b, c) - Cross(a, b, d));
  }

  lemma AtAlong(h: HalfPlane, a: Point, b: Point, t: real, u: real)
    ensures h.At(Along(a, b, t)) - h.At(Along(a, b, u)) == (t - u) * (h.At(b) - h.At(a))
  {
    var p, q := Along(a, b, t), Along(a, b, u);
    assert p.x - q.x == (t - u) * (b.x - a.x) && p.y - q.y == (t - u) * (b.y - a.y);
    assert h.a * (p.x - q.x) == (t - u) * (h.a * b.x - h.a * a.x);
    assert h.b * (p.y - q.y) == (t - u) * (h.b * b.y - h.b * a.y);
  }

  /** Between two points of a line a half-plane that holds both holds all. */
  lemma BetweenOnLine(h: HalfPlane, a: Point, b: Point, side: real, x: real, z: real, y: real)
    requires side != 0.0 && side * (z - x) >= 0.0 && side * (z - y) <= 0.0
    requires h.At(Along(a, b, x)) <= 0.0 && h.At(Along(a, b, y)) <= 0.0
    ensures h.At(Along(a, b, z)) <= 0.0
  {
    AtAlong(h, a, b, z, x);
    AtAlong(h, a, b, z, y);
    Ordered(side, x, z, y);
    hide Along;
    var k := h.At(b) - h.At(a);
    hide HalfPlane.At;
    OneRises(z - x, z - y, k);
  }

  lemma Ordered(side: real, x: real, z: real, y: real)
    requires side != 0.0 && side * (z - x) >= 0.0 && side * (z - y) <= 0.0
    ensures (z >= x && z <= y) || (z <= x && z >= y)
  {
    SameSign(side, z - x);
    SameSign(side, y - z);
    assert side * (y - z) == -(side * (z - y));
  }

  lemma SameSign(a: real, b: real)
    requires a * b >= 0.0 && a != 0.0
    ensures a > 0.0 ==> b >= 0.0
    ensures a < 0.0 ==> b <= 0.0
  {
    if a > 0.0 && b < 0.0 {
      PositiveProduct(a, -b);
    } else if a < 0.0 && b > 0.0 {
      PositiveProduct(-a, b);
    }
  }

  lemma OneRises(d: real, e: real, k: real)
    requires (d >= 0.0 && e <= 0.0) || (d <= 0.0 && e >= 0.0)
    ensures d * k <= 0.0 || e * k <= 0.0
  {
    if d >= 0.0 && k <= 0.0 {
      NonNegativeProduct(d, -k);
    } else if e >= 0.0 && k <= 0.0 {
      NonNegativeProduct(e, -k);
    } else if d <= 0.0 {
      NonNegativeProduct(-d, k);
    } else {
      NonNegativeProduct(-e, k);
    }
  }

  // ---------------------------------------------------------------- what a clip edge leaves of the boundary

  /** Where the boundary of s leaves the inner side of (a, b), or comes back to it, between two vertices in order. */
  lemma {:induction false} ChangeAfter(s: seq<Point>, a: Point, b: Point, leaving: bool, lo: nat, hi: nat) returns (k: nat)
    requires lo < hi < |s| && Inside(s[lo], a, b) == leaving && Inside(s[hi], a, b) != leaving
    ensures lo < k <= hi && Inside(s[k - 1], a, b) == leaving && Inside(s[k], a, b) != leaving
    decreases hi - lo
  {
    hide Inside;
    if Inside(s[lo + 1], a, b) != leaving {
      k := lo + 1;
    } else {
      k := ChangeAfter(s, a, b, leaving, lo + 1, hi);
    }
  }

  /** The boundary of a polygon with vertices on both sides leaves the inner side and comes back to it. */
  lemma Change(s: seq<Point>, a: Point, b: Point, leaving: bool, i: nat, j: nat) returns (k: nat)
    requires i < |s| && j < |s| && Inside(s[i], a, b) == leaving && Inside(s[j], a, b) != leaving
    ensures k < |s| && Inside(Prev(s, k), a, b) == leaving && Inside(s[k], a, b) != leaving
  {
    hide Inside;
    var last := |s| - 1;
    if i < j {
      k := ChangeAfter(s, a, b, leaving, i, j);
    } else if Inside(s[last], a, b) != leaving {
      k := ChangeAfter(s, a, b, leaving, i, last);
    } else if Inside(s[0], a, b) != leaving {
      k := 0;
    } else {
      k := ChangeAfter(s, a, b, leaving, 0, j);
    }
  }

  /** A vertex inside and a crossing are put out. */
  lemma {:induction false} PutOut(s: seq<Point>, a: Point, b: Point, n: nat, k: nat)
    requires k < n <= |s|
    ensures Inside(s[k], a, b) ==> s[k] in ClipEdges(s, a, b, n)
    ensures Inside(Prev(s, k), a, b) != Inside(s[k], a, b) ==>
              Intersect(Prev(s, k), s[k], a, b) in ClipEdges(s, a, b, n)
    decreases n
  {
    hide Inside, Intersect, ClipEdges;
    ClipStep(s, a, b, n);
    if k == n - 1 {
    } else {
      PutOut(s, a, b, n - 1, k);
    }
  }

  /** Nothing is put out exactly when no vertex is inside. */
  lemma {:induction false} NothingPutOut(s: seq<Point>, a: Point, b: Point, n: nat)
    requires n <= |s| && forall k :: 0 <= k < |s| ==> !Inside(s[k], a, b)
    ensures ClipEdges(s, a, b, n) == []
  {
    hide Inside, Intersect;
    if n == 0 {
    } else {
      NothingPutOut(s, a, b, n - 1);
    }
  }

  /** Where the chord between two vertices crosses the clip line, what is put out reaches on both sides. */
  lemma ChordIsBounded(s: seq<Point>, a: Point, b: Point, side: real, h: HalfPlane, i: nat, j: nat)
    requires Convex(s, side) && side != 0.0 && Bounds(h, ClipEdge(s, a, b))
    requires i < |s| && j < |s| && Inside(s[i], a, b) && !Inside(s[j], a, b)
    ensures h.At(Intersect(s[i], s[j], a, b)) <= 0.0
  {
    hide Inside, Intersect, ClipEdges, HalfPlane.At, Along, OnSide, Cross, Convex;
    var z := Intersect(s[i], s[j], a, b);
    var k := Change(s, a, b, true, i, j);
    var l := Change(s, a, b, false, j, i);
    PutOut(s, a, b, |s|, k);
    PutOut(s, a, b, |s|, l);
    var x, y := Intersect(Prev(s, k), s[k], a, b), Intersect(Prev(s, l), s[l], a, b);
    InsideNeedsLine(s[i], a, b);
    var tx := OnClipLine(Prev(s, k), s[k], a, b);
    var ty := OnClipLine(Prev(s, l), s[l], a, b);
    var tz := OnClipLine(s[i], s[j], a, b);
    ChordInside(s, side, i, j, a, b, k);
    ChordInside(s, side, i, j, a, b, l);
    CrossingBounds(a, b, Prev(s, k), s[k], side, tz, tx);
    CrossingBounds(a, b, Prev(s, l), s[l], side, tz, ty);
    BetweenOnLine(h, a, b, side, tx, tz, ty);
  }

  lemma InsideNeedsLine(c: Point, a: Point, b: Point)
    requires Inside(c, a, b)
    ensures a != b
  {}

  lemma OnClipLine(c: Point, d: Point, a: Point, b: Point) returns (t: real)
    requires Inside(c, a, b) != Inside(d, a, b) && a != b
    ensures Intersect(c, d, a, b) == Along(a, b, t) && Cross(c, d, Along(a, b, t)) == 0.0
  {
    hide Inside, Intersect, Along;
    var r := Crossing(c, d, a, b);
    var x := Intersect(c, d, a, b);
    t := OnLine(a, b, x);
    OnEdge(c, d, x, r);
  }

  lemma OnEdge(c: Point, d: Point, x: Point, r: real)
    requires x.x - c.x == r * (d.x - c.x) && x.y - c.y == r * (d.y - c.y)
    ensures Cross(c, d, x) == 0.0
  {}

  lemma ChordInside(s: seq<Point>, side: real, i: nat, j: nat, a: Point, b: Point, k: nat)
    requires Convex(s, side) && i < |s| && j < |s| && k < |s| && Inside(s[i], a, b) != Inside(s[j], a, b)
    ensures OnSide(Prev(s, k), s[k], side, Intersect(s[i], s[j], a, b))
  {
    hide Inside, Intersect, OnSide;
    assert InRegion(s, side, s[i]) && InRegion(s, side, s[j]);
    assert EdgeOnSide(s, k, side, s[i]) && EdgeOnSide(s, k, side, s[j]);
    CrossingOnSide(s[i], s[j], a, b, Prev(s, k), s[k], side);
  }

  // ---------------------------------------------------------------- a combination that bounds the whole subject

  /** The heights hs are at most m times the sides gs: at all inner places, and at the first n outer ones. */
  ghost predicate Dominates(hs: seq<real>, gs: seq<real>, m: real, n: nat)
    requires |hs| == |gs|
  {
    m >= 0.0 && forall i :: 0 <= i < |hs| && (gs[i] < 0.0 || i < n) ==> hs[i] <= Times(m, gs[i])
  }

  /** Every chord from an inner to an outer place meets the line where the height is not positive. */
  ghost predicate ChordsLow(hs: seq<real>, gs: seq<real>)
    requires |hs| == |gs|
  {
    forall i, j :: 0 <= i < |hs| && 0 <= j < |hs| && gs[i] < 0.0 <= gs[j] ==> Times(hs[i], gs[j]) <= Times(hs[j], gs[i])
  }

  lemma {:induction false} Multiplier(hs: seq<real>, gs: seq<real>, n: nat) returns (m: real)
    requires |hs| == |gs| && n <= |hs| && ChordsLow(hs, gs)
    requires exists i :: 0 <= i < |gs| && gs[i] < 0.0
    requires forall i :: 0 <= i < |gs| && gs[i] < 0.0 ==> hs[i] <= 0.0
    ensures Dominates(hs, gs, m, n)
  {
    if n == 0 {
      m := 0.0;
      forall i | 0 <= i < |hs| && gs[i] < 0.0 ensures hs[i] <= Times(m, gs[i]) {
        TimesSign(0.0, gs[i]);
      }
    } else {
      m := Multiplier(hs, gs, n - 1);
      var j := n - 1;
      if hs[j] > Times(m, gs[j]) && gs[j] >= 0.0 {
        m := Steeper(hs, gs, m, j);
      }
    }
  }

  /** The multiplier that the outer place j needs is right for the others as well. */
  lemma Steeper(hs: seq<real>, gs: seq<real>, m: real, j: nat) returns (k: real)
    requires |hs| == |gs| && j < |hs| && ChordsLow(hs, gs) && Dominates(hs, gs, m, j)
    requires gs[j] >= 0.0 && hs[j] > Times(m, gs[j])
    requires exists i :: 0 <= i < |gs| && gs[i] < 0.0
    requires forall i :: 0 <= i < |gs| && gs[i] < 0.0 ==> hs[i] <= 0.0
    ensures Dominates(hs, gs, k, j + 1)
  {
    hide Times;
    var i0 :| 0 <= i0 < |gs| && gs[i0] < 0.0;
    OuterIsPositive(hs[i0], gs[i0], hs[j], gs[j], m);
    k := SteeperThan(m, hs[j], gs[j]);
    forall i | 0 <= i < |hs| && (gs[i] < 0.0 || i < j + 1) ensures hs[i] <= Times(k, gs[i]) {
      if gs[i] < 0.0 {
        InnerKeeps(k, hs[i], gs[i], hs[j], gs[j]);
      } else {
        OuterKeeps(m, k, gs[i]);
      }
    }
  }

  lemma OuterIsPositive(hi: real, gi: real, hj: real, gj: real, m: real)
    requires gi < 0.0 <= gj && Times(hi, gj) <= Times(hj, gi) && hj > Times(m, gj)
    ensures gj > 0.0
  {
    TimesMixed(m, gj);
    TimesMixed(hi, gj);
    TimesMixed(hj, gi);
    hide Times;
  }

  lemma TimesMixed(a: real, b: real)
    ensures b == 0.0 ==> Times(a, b) == 0.0
    ensures a > 0.0 && b < 0.0 ==> Times(a, b) < 0.0
  {
    if a > 0.0 && b < 0.0 {
      PositiveProduct(a, -b);
    }
  }

  lemma SteeperThan(m: real, h: real, g: real) returns (k: real)
    requires g > 0.0 && h > Times(m, g) && m >= 0.0
    ensures k >= m && h == Times(k, g)
  {
    k := h / g;
    if k < m {
      PositiveProduct(m - k, g);
    }
  }

  lemma InnerKeeps(k: real, hi: real, gi: real, hj: real, gj: real)
    requires gi < 0.0 < gj && hj == Times(k, gj) && Times(hi, gj) <= Times(hj, gi)
    ensures hi <= Times(k, gi)
  {
    assert hj * gi == (k * gi) * gj;
    if hi > k * gi {
      PositiveProduct(hi - k * gi, gj);
    }
  }

  lemma OuterKeeps(m: real, k: real, g: real)
    requires k >= m && g >= 0.0
    ensures Times(k, g) >= Times(m, g)
  {
    NonNegativeProduct(k - m, g);
  }

  // ---------------------------------------------------------------- one clip edge

  /** Intersect divides the heights of its ends as it divides their sides. */
  lemma ChordHeight(h: HalfPlane, c: Point, d: Point, a: Point, b: Point)
    requires Inside(c, a, b) && !Inside(d, a, b) && h.At(Intersect(c, d, a, b)) <= 0.0
    ensures Times(h.At(c), Cross(a, b, d)) <= Times(h.At(d), Cross(a, b, c))
  {
    var t := Crossing(c, d, a, b);
    Denominator(c, d, a, b);
    hide Inside, Intersect;
    AtBetween(h, c, Intersect(c, d, a, b), d, t);
    CrossBetween(a, b, c, Intersect(c, d, a, b), d, t);
    hide Cross, HalfPlane.At, Mean, Times;
    WeightedHeights(h.At(c), h.At(d), Cross(a, b, c), Cross(a, b, d), t);
  }

  lemma WeightedHeights(hc: real, hd: real, gc: real, gd: real, t: real)
    requires gc < 0.0 <= gd && Mean(gc, gd, t) == 0.0 && Mean(hc, hd, t) <= 0.0
    ensures Times(hc, gd) <= Times(hd, gc)
  {
    var k := gd - gc;
    assert t * k == -gc;
    NonNegativeProduct(k, -(hc + t * (hd - hc)));
    assert k * (hc + t * (hd - hc)) == k * hc + (t * k) * (hd - hc);
    assert k * hc + -gc * (hd - hc) == gd * hc - gc * hd;
  }

  /** h less m times g. */
  function Less(h: HalfPlane, g: HalfPlane, m: real): HalfPlane {
    HalfPlane(h.a - m * g.a, h.b - m * g.b, h.c - m * g.c)
  }

  lemma AtLess(h: HalfPlane, g: HalfPlane, m: real, p: Point)
    ensures Less(h, g, m).At(p) == h.At(p) - Times(m, g.At(p))
  {
    assert (h.a - m * g.a) * p.x == h.a * p.x - m * (g.a * p.x);
    assert (h.b - m * g.b) * p.y == h.b * p.y - m * (g.b * p.y);
  }

  /** A point of a convex subject in the half-plane of a clip edge stays, when some vertex is strictly inside it. */
  lemma HalfPlaneKept(s: seq<Point>, a: Point, b: Point, side: real, p: Point, i: nat)
    requires Convex(s, side) && side != 0.0 && InHull(s, p) && Cross(a, b, p) <= 0.0
    requires i < |s| && Inside(s[i], a, b)
    ensures InHull(ClipEdge(s, a, b), p)
  {
    hide Convex, Inside, ClipEdges, Cross, HalfPlane.At;
    forall h: HalfPlane | Bounds(h, ClipEdge(s, a, b)) ensures h.At(p) <= 0.0 {
      HeightIsLow(s, a, b, side, p, i, h);
    }
  }

  lemma HeightIsLow(s: seq<Point>, a: Point, b: Point, side: real, p: Point, i: nat, h: HalfPlane)
    requires Convex(s, side) && side != 0.0 && InHull(s, p) && Cross(a, b, p) <= 0.0
    requires i < |s| && Inside(s[i], a, b) && Bounds(h, ClipEdge(s, a, b))
    ensures h.At(p) <= 0.0
  {
    hide Convex, Inside, ClipEdges, Cross, HalfPlane.At, Times, InHull;
    var n := |s|;
    var hs := seq(n, k requires 0 <= k < n => h.At(s[k]));
    var gs := seq(n, k requires 0 <= k < n => Cross(a, b, s[k]));
    SidesAre(s, a, b);
    forall k, l | 0 <= k < n && 0 <= l < n && gs[k] < 0.0 <= gs[l] ensures Times(hs[k], gs[l]) <= Times(hs[l], gs[k]) {
      ChordIsBounded(s, a, b, side, h, k, l);
      ChordHeight(h, s[k], s[l], a, b);
    }
    forall k | 0 <= k < n && gs[k] < 0.0 ensures hs[k] <= 0.0 {
      PutOut(s, a, b, n, k);
    }
    assert gs[i] < 0.0;
    var m := Multiplier(hs, gs, n);
    forall k | 0 <= k < n ensures h.At(s[k]) <= Times(m, Cross(a, b, s[k])) {
      assert hs[k] <= Times(m, gs[k]);
    }
    BoundsCombine(s, a, b, h, m, p);
  }

  lemma SidesAre(s: seq<Point>, a: Point, b: Point)
    ensures forall k :: 0 <= k < |s| ==> (Inside(s[k], a, b) <==> Cross(a, b, s[k]) < 0.0)
  {
    forall k | 0 <= k < |s| ensures Inside(s[k], a, b) <==> Cross(a, b, s[k]) < 0.0 {
      Denominator(s[k], s[k], a, b);
    }
  }

  lemma BoundsCombine(s: seq<Point>, a: Point, b: Point, h: HalfPlane, m: real, p: Point)
    requires forall k :: 0 <= k < |s| ==> h.At(s[k]) <= Times(m, Cross(a, b, s[k]))
    requires InHull(s, p) && m >= 0.0 && Cross(a, b, p) <= 0.0
    ensures h.At(p) <= 0.0
  {
    hide Cross, HalfPlane.At;
    var g := SideOf(a, b, 1.0);
    var f := Less(h, g, m);
    forall k | 0 <= k < |s| ensures f.At(s[k]) <= 0.0 {
      SideOfIs(a, b, 1.0, s[k]);
      AtLess(h, g, m, s[k]);
    }
    SideOfIs(a, b, 1.0, p);
    AtLess(h, g, m, p);
    hide SideOf, Less;
    assert Bounds(f, s);
    NonNegativeProduct(m, -Cross(a, b, p));
  }

  // ---------------------------------------------------------------- the whole clip

  lemma CrossingBounded(h: HalfPlane, c: Point, d: Point, a: Point, b: Point)
    requires Inside(c, a, b) != Inside(d, a, b) && h.At(c) <= 0.0 && h.At(d) <= 0.0
    ensures h.At(Intersect(c, d, a, b)) <= 0.0
  {
    hide Cross, Intersect, Inside;
    var t := Crossing(c, d, a, b);
    AtBetween(h, c, Intersect(c, d, a, b), d, t);
    hide HalfPlane.At;
    MeanSign(h.At(c), h.At(d), t);
  }

  lemma {:induction false} ClipEdgesBounded(s: seq<Point>, a: Point, b: Point, n: nat, h: HalfPlane)
    requires n <= |s| && Bounds(h, s)
    ensures Bounds(h, ClipEdges(s, a, b, n))
  {
    hide HalfPlane.At, Inside, Intersect;
    if n == 0 {
    } else {
      ClipEdgesBounded(s, a, b, n - 1, h);
      var c, d := Prev(s, n - 1), s[n - 1];
      if Inside(c, a, b) != Inside(d, a, b) {
        CrossingBounded(h, c, d, a, b);
      }
    }
  }

  /** A clip edge leaves nothing but points of the subject in its half-plane. */
  lemma EdgeHullShrinks(s: seq<Point>, a: Point, b: Point, p: Point)
    requires InHull(ClipEdge(s, a, b), p)
    ensures InHull(s, p) && Cross(a, b, p) <= 0.0
  {
    hide HalfPlane.At, ClipEdges, SideOf, Cross;
    var out := ClipEdge(s, a, b);
    forall h: HalfPlane | Bounds(h, s) ensures h.At(p) <= 0.0 {
      ClipEdgesBounded(s, a, b, |s|, h);
    }
    var g := SideOf(a, b, 1.0);
    ClipEdgesInside(s, a, b, |s|);
    forall k | 0 <= k < |out| ensures g.At(out[k]) <= 0.0 {
      SideOfIs(a, b, 1.0, out[k]);
      assert OnSide(a, b, 1.0, out[k]);
    }
    assert Bounds(g, out);
    SideOfIs(a, b, 1.0, p);
  }

  /** The result covers nothing but points of the subject that are inside every clip edge, convex or not. */
  lemma {:induction false} HullShrinks(s: seq<Point>, clip: seq<Point>, n: nat, p: Point)
    requires n <= |clip| && InHull(ClipAll(s, clip, n), p)
    ensures InHull(s, p) && InClip(clip, n, p)
  {
    hide InHull, ClipEdge, Cross;
    if n == 0 {
    } else {
      EdgeHullShrinks(ClipAll(s, clip, n - 1), Prev(clip, n - 1), clip[n - 1], p);
      HullShrinks(s, clip, n - 1, p);
    }
  }

  /** A clip edge that has a point of the hull strictly inside has a vertex strictly inside. */
  lemma SomeVertexInside(s: seq<Point>, a: Point, b: Point, q: Point) returns (k: nat)
    requires InHull(s, q) && Inside(q, a, b)
    ensures k < |s| && Inside(s[k], a, b)
  {
    hide HalfPlane.At, SideOf;
    if j :| 0 <= j < |s| && Inside(s[j], a, b) {
      k := j;
    } else {
      var g := SideOf(a, b, -1.0);
      NoneInside(s, a, b, g, q);
      assert false;
    }
  }

  lemma NoneInside(s: seq<Point>, a: Point, b: Point, g: HalfPlane, q: Point)
    requires InHull(s, q) && g == SideOf(a, b, -1.0)
    requires forall k :: 0 <= k < |s| ==> !Inside(s[k], a, b)
    ensures !Inside(q, a, b)
  {
    hide HalfPlane.At, SideOf, Cross, Inside;
    forall k | 0 <= k < |s| ensures g.At(s[k]) <= 0.0 {
      SideOfIs(a, b, -1.0, s[k]);
      Denominator(s[k], s[k], a, b);
    }
    assert Bounds(g, s);
    SideOfIs(a, b, -1.0, q);
    Denominator(q, q, a, b);
  }

  /** When some point of a convex subject is strictly inside every clip edge, all of the intersection stays. */
  lemma {:induction false} ClipKeeps(s: seq<Point>, clip: seq<Point>, n: nat, side: real, p: Point, q: Point)
    requires n <= |clip| && Convex(s, side) && side != 0.0
    requires InHull(s, p) && InClip(clip, n, p)
    requires InHull(s, q) && StrictlyInClip(clip, n, q)
    ensures InHull(ClipAll(s, clip, n), p)
  {
    hide InHull, ClipEdge, Convex, Inside, Cross;
    if n == 0 {
    } else {
      var t, a, b := ClipAll(s, clip, n - 1), Prev(clip, n - 1), clip[n - 1];
      StrictIsClosed(clip, n, q);
      ClipKeeps(s, clip, n - 1, side, p, q);
      ClipKeeps(s, clip, n - 1, side, q, q);
      ClipStaysConvex(s, clip, n - 1, side);
      var k := SomeVertexInside(t, a, b, q);
      HalfPlaneKept(t, a, b, side, p, k);
    }
  }

  lemma StrictIsClosed(clip: seq<Point>, n: nat, q: Point)
    requires n <= |clip| && StrictlyInClip(clip, n, q)
    ensures InClip(clip, n, q)
  {
    hide Cross, Inside;
    forall i | 0 <= i < n ensures Cross(Prev(clip, i), clip[i], q) <= 0.0 {
      Denominator(q, q, Prev(clip, i), clip[i]);
    }
  }

  /** A point of a convex subject strictly inside every clip edge is not lost, and the result is convex. */
  lemma ClipLosesNothing(s: seq<Point>, clip: seq<Point>, n: nat, side: real, p: Point)
    requires n <= |clip| && Convex(s, side) && side != 0.0
    requires InHull(s, p) && StrictlyInClip(clip, n, p)
    ensures Convex(ClipAll(s, clip, n), side) && InHull(ClipAll(s, clip, n), p) && ClipAll(s, clip, n) != []
  {
    hide InHull, ClipAll, Convex, Inside, Cross;
    StrictIsClosed(clip, n, p);
    ClipKeeps(s, clip, n, side, p, p);
    ClipStaysConvex(s, clip, n, side);
    HullNeedsPoints(p);
  }

  /** Between two points of the hull there are only points of the hull. */
  lemma HullIsConvex(s: seq<Point>, w: Point, q: Point, t: real)
    requires InHull(s, w) && InHull(s, q) && 0.0 <= t <= 1.0
    ensures InHull(s, Along(w, q, t))
  {
    hide HalfPlane.At, Along, Mean;
    forall h: HalfPlane | Bounds(h, s) ensures h.At(Along(w, q, t)) <= 0.0 {
      AtMean(h, w, q, t);
      MeanSign(h.At(w), h.At(q), t);
    }
  }

  lemma AtMean(h: HalfPlane, w: Point, q: Point, t: real)
    ensures h.At(Along(w, q, t)) == Mean(h.At(w), h.At(q), t)
  {
    AtBetween(h, w, Along(w, q, t), q, t);
  }

  lemma CrossMean(a: Point, b: Point, w: Point, q: Point, t: real)
    ensures Cross(a, b, Along(w, q, t)) == Mean(Cross(a, b, w), Cross(a, b, q), t)
  {
    CrossBetween(a, b, w, Along(w, q, t), q, t);
  }

  /** A step from a negative height, short enough for the height to stay negative. */
  lemma ShortStep(k: real, l: real) returns (t: real)
    requires k < 0.0
    ensures 0.0 < t <= 1.0 && Mean(k, l, t) < 0.0
  {
    if l < 0.0 {
      t := 1.0;
    } else {
      t := PartOf(-k / 2.0, l - k);
    }
  }

  /** What is left of a convex subject, if anything is, has a point strictly inside every clip edge. */
  lemma {:induction false} Interior(s: seq<Point>, clip: seq<Point>, n: nat, side: real) returns (q: Point)
    requires n <= |clip| && Convex(s, side) && side != 0.0 && ClipAll(s, clip, n) != []
    ensures InHull(ClipAll(s, clip, n), q) && StrictlyInClip(clip, n, q)
  {
    hide InHull, Convex, Inside, Cross, ClipEdges, Mean;
    if n == 0 {
      VertexInHull(s, 0);
      q := s[0];
    } else {
      var t, a, b := ClipAll(s, clip, n - 1), Prev(clip, n - 1), clip[n - 1];
      var k := LeavesInner(t, a, b);
      var q0 := Interior(s, clip, n - 1, side);
      var w := t[k];
      VertexInHull(t, k);
      HullShrinks(s, clip, n - 1, w);
      ClipStaysConvex(s, clip, n - 1, side);
      Denominator(w, w, a, b);
      var u := ShortStep(Cross(a, b, w), Cross(a, b, q0));
      q := Along(w, q0, u);
      hide Along;
      CrossMean(a, b, w, q0, u);
      Denominator(q, q, a, b);
      StrictMean(clip, n - 1, w, q0, u);
      assert Inside(q, Prev(clip, n - 1), clip[n - 1]);
      HullIsConvex(t, w, q0, u);
      HalfPlaneKept(t, a, b, side, q, k);
    }
  }

  lemma LeavesInner(s: seq<Point>, a: Point, b: Point) returns (k: nat)
    requires ClipEdge(s, a, b) != []
    ensures k < |s| && Inside(s[k], a, b)
  {
    hide Inside, ClipEdges;
    if j :| 0 <= j < |s| && Inside(s[j], a, b) {
      k := j;
    } else {
      NothingPutOut(s, a, b, |s|);
      assert false;
    }
  }

  lemma StrictMean(clip: seq<Point>, n: nat, w: Point, q: Point, t: real)
    requires n <= |clip| && InClip(clip, n, w) && StrictlyInClip(clip, n, q) && 0.0 < t <= 1.0
    ensures StrictlyInClip(clip, n, Along(w, q, t))
  {
    hide Along, Cross, Inside, Mean;
    forall i | 0 <= i < n ensures Inside(Along(w, q, t), Prev(clip, i), clip[i]) {
      var a, b := Prev(clip, i), clip[i];
      CrossMean(a, b, w, q, t);
      Denominator(q, Along(w, q, t), a, b);
      MeanSign(Cross(a, b, w), Cross(a, b, q), t);
    }
  }

  /** Some point of s is strictly inside every clip edge. */
  ghost predicate Overlaps(s: seq<Point>, clip: seq<Point>, n: nat)
    requires n <= |clip|
  {
    exists q :: InHull(s, q) && StrictlyInClip(clip, n, q)
  }

  /** Something is left of a convex subject exactly when it reaches strictly inside every clip edge. */
  lemma ClipIsEmptyIff(s: seq<Point>, clip: seq<Point>, n: nat, side: real)
    requires n <= |clip| && Convex(s, side) && side != 0.0
    ensures ClipAll(s, clip, n) != [] <==> Overlaps(s, clip, n)
  {
    hide InHull, ClipAll, Convex, StrictlyInClip;
    if ClipAll(s, clip, n) != [] {
      var q := Interior(s, clip, n, side);
      HullShrinks(s, clip, n, q);
    }
    if Overlaps(s, clip, n) {
      var q :| InHull(s, q) && StrictlyInClip(clip, n, q);
      ClipLosesNothing(s, clip, n, side, q);
    }
  }

  /** Clipping a convex subject gives its intersection with the clip, or nothing if they only touch. */
  lemma ClipIsIntersection(s: seq<Point>, clip: seq<Point>, n: nat, side: real, p: Point)
    requires n <= |clip| && Convex(s, side) && side != 0.0
    ensures InHull(ClipAll(s, clip, n), p) <==> InHull(s, p) && InClip(clip, n, p) && Overlaps(s, clip, n)
  {
    hide InHull, ClipAll, Convex, StrictlyInClip, InClip;
    ClipIsEmptyIff(s, clip, n, side);
    if InHull(ClipAll(s, clip, n), p) {
      HullShrinks(s, clip, n, p);
      HullNeedsPoints(p);
    }
    if InHull(s, p) && InClip(clip, n, p) && Overlaps(s, clip, n) {
      var q :| InHull(s, q) && StrictlyInClip(clip, n, q);
      ClipKeeps(s, clip, n, side, p, q);
    }
  }

  const TRIANGLE := [Point(0.0, 0.0), Point(1.0, 0.0), Point(0.0, 1.0)]

  const BELOW := [Point(-1.0, -2.0), Point(-1.0, 0.0), Point(2.0, 0.0), Point(2.0, -2.0)]

  /** A triangle that stands on an edge of the clip polygon: that side is in the closed clip, and nothing is left. */
  lemma TouchingIsLost()
    ensures Convex(TRIANGLE, -1.0) && ClipAll(TRIANGLE, BELOW, 4) == []
    ensures InHull(TRIANGLE, Point(0.5, 0.0)) && InClip(BELOW, 4, Point(0.5, 0.0))
  {
    TriangleIsConvex();
    MidpointInHull();
    hide InHull, Convex, InClip, ClipEdges, ClipAll;
    assert InClip(BELOW, 4, Point(0.5, 0.0)) by {
      MidpointInClip();
    }
    TriangleVanishes();
    ClipFour(TRIANGLE, BELOW);
  }

  lemma MidpointInHull()
    ensures InHull(TRIANGLE, Point(0.5, 0.0))
  {
    VertexInHull(TRIANGLE, 0);
    VertexInHull(TRIANGLE, 1);
    hide InHull;
    HullIsConvex(TRIANGLE, TRIANGLE[0], TRIANGLE[1], 0.5);
  }

  lemma MidpointInClip()
    ensures InClip(BELOW, 4, Point(0.5, 0.0))
  {
  }

  lemma TriangleIsConvex()
    ensures Convex(TRIANGLE, -1.0)
  {
    hide EdgeOnSide;
    forall i, j | 0 <= i < 3 && 0 <= j < 3 ensures EdgeOnSide(TRIANGLE, j, -1.0, TRIANGLE[i]) {
      TriangleEdge(j, i);
    }
  }

  lemma TriangleEdge(j: nat, i: nat)
    requires i < 3 && j < 3
    ensures EdgeOnSide(TRIANGLE, j, -1.0, TRIANGLE[i])
  {}

  lemma TriangleVanishes()
    ensures ClipEdge(TRIANGLE, BELOW[3], BELOW[0]) == TRIANGLE == ClipEdge(TRIANGLE, BELOW[0], BELOW[1])
    ensures ClipEdge(TRIANGLE, BELOW[1], BELOW[2]) == []
  {
    hide ClipEdges, Intersect;
    InnerEdges(TRIANGLE, BELOW[3], BELOW[0], 3);
    InnerEdges(TRIANGLE, BELOW[0], BELOW[1], 3);
    NothingPutOut(TRIANGLE, BELOW[1], BELOW[2], 3);
  }

  lemma ClipFour(s: seq<Point>, clip: seq<Point>)
    requires |clip| == 4
    ensures ClipAll(s, clip, 4)
         == ClipEdge(ClipEdge(ClipEdge(ClipEdge(s, clip[3], clip[0]), clip[0], clip[1]), clip[1], clip[2]), clip[2], clip[3])
    ensures ClipEdge([], clip[2], clip[3]) == []
  {
    hide Emit;
    assert ClipAll(s, clip, 1) == ClipEdge(s, clip[3], clip[0]);
    assert ClipAll(s, clip, 2) == ClipEdge(ClipAll(s, clip, 1), clip[0], clip[1]);
  }
}
