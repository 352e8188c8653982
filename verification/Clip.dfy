/** Clipping a polygon, in place, by the half-planes of another one (d3.geom.polygon(...).clip), over real coordinates. */
module Clip {
  import opened Plane
  import opened Reals

  /** The element before position i, cyclically. */
  function Prev(s: seq<Point>, i: nat): Point
    requires i < |s|
  {
    if i == 0 then s[|s| - 1] else s[i - 1]
  }

  /** p lies strictly on the inner side of the line from a to b. */
  predicate Inside(p: Point, a: Point, b: Point) {
    (b.x - a.x) * (p.y - a.y) < (b.y - a.y) * (p.x - a.x)
  }

  /** Where the line through c and d crosses the line through a and b. */
  function Intersect(c: Point, d: Point, a: Point, b: Point): Point
    requires Inside(c, a, b) != Inside(d, a, b)
  {
    var x13, x21, x43 := c.x - a.x, d.x - c.x, b.x - a.x;
    var y13, y21, y43 := c.y - a.y, d.y - c.y, b.y - a.y;
    Denominator(c, d, a, b);
    var ua := (x43 * y13 - y43 * x13) / (y43 * x21 - x43 * y21);
    Point(c.x + ua * x21, c.y + ua * y21)
  }

  lemma Denominator(c: Point, d: Point, a: Point, b: Point)
    ensures (b.y - a.y) * (d.x - c.x) - (b.x - a.x) * (d.y - c.y) == Cross(a, b, c) - Cross(a, b, d)
    ensures (b.x - a.x) * (c.y - a.y) - (b.y - a.y) * (c.x - a.x) == Cross(a, b, c)
    ensures Inside(c, a, b) <==> Cross(a, b, c) < 0.0
    ensures Inside(d, a, b) <==> Cross(a, b, d) < 0.0
  {
  }

  /** What the edge from c to d contributes: the crossing, if it crosses, then d, if d is inside. */
  function Emit(c: Point, d: Point, a: Point, b: Point): seq<Point> {
    if Inside(d, a, b) then
      if !Inside(c, a, b) then [Intersect(c, d, a, b), d] else [d]
    else if Inside(c, a, b) then [Intersect(c, d, a, b)] else []
  }

  /** The contributions of the first n edges of s. */
  function ClipEdges(s: seq<Point>, a: Point, b: Point, n: nat): seq<Point>
    requires n <= |s|
  {
    if n == 0 then [] else ClipEdges(s, a, b, n - 1) + Emit(Prev(s, n - 1), s[n - 1], a, b)
  }

  lemma ClipStep(s: seq<Point>, a: Point, b: Point, n: nat)
    requires 0 < n <= |s|
    ensures ClipEdges(s, a, b, n) == ClipEdges(s, a, b, n - 1) + Emit(Prev(s, n - 1), s[n - 1], a, b)
    ensures n == 1 ==> ClipEdges(s, a, b, n) == Emit(Prev(s, 0), s[0], a, b)
  {
  }

  lemma NoEdges(s: seq<Point>, a: Point, b: Point)
    ensures ClipEdges(s, a, b, 0) == []
  {
  }

  function ClipEdge(s: seq<Point>, a: Point, b: Point): seq<Point> {
    ClipEdges(s, a, b, |s|)
  }

  /** s clipped by the first n edges of the clip polygon. */
  function ClipAll(s: seq<Point>, clip: seq<Point>, n: nat): seq<Point>
    requires n <= |clip|
  {
    if n == 0 then s else ClipEdge(ClipAll(s, clip, n - 1), Prev(clip, n - 1), clip[n - 1])
  }

  /** The subject array, which the clipper empties and refills for every edge. */
  class Subject {
    var points: seq<Point>

    constructor (points: seq<Point>)
      ensures this.points == points
    {
      this.points := points;
    }

    method Clip(coordinates: seq<Point>)
      modifies this
      ensures points == ClipAll(old(points), coordinates, |coordinates|)
    {
      hide Inside, Intersect, ClipEdges;
      var n := |coordinates|;
      if n == 0 { return; }
      var a := coordinates[n - 1];
      for i := 0 to n
        invariant a == Prev(coordinates, if i == n then 0 else i)
        invariant points == ClipAll(old(points), coordinates, i)
      {
        var input := points;
        points := [];
        var b := coordinates[i];
        var m := |input|;
        NoEdges(input, a, b);
        if m > 0 {
          var c := input[m - 1];
          for j := 0 to m
            invariant c == Prev(input, if j == m then 0 else j)
            invariant points == ClipEdges(input, a, b, j)
          {
            ClipStep(input, a, b, j + 1);
            var d := input[j];
            if Inside(d, a, b) {
              if !Inside(c, a, b) {
                points := points + [Intersect(c, d, a, b)];
              }
              points := points + [d];
            } else if Inside(c, a, b) {
              points := points + [Intersect(c, d, a, b)];
            }
            c := d;
          }
        }
        a := b;
      }
    }
  }

  // ---------------------------------------------------------------- crossings

  /** The crossing lies between c and d and on the clip line. */
  lemma Crossing(c: Point, d: Point, a: Point, b: Point) returns (t: real)
    requires Inside(c, a, b) != Inside(d, a, b)
    ensures var x := Intersect(c, d, a, b);
      && 0.0 <= t <= 1.0 && x.x - c.x == t * (d.x - c.x) && x.y - c.y == t * (d.y - c.y)
      && Cross(a, b, x) == 0.0
  {
    Denominator(c, d, a, b);
    var sc, sd := Cross(a, b, c), Cross(a, b, d);
    t := sc / (sc - sd);
    Ratio(sc, sd);
    hide Cross;
    CrossIsAffine(c, Intersect(c, d, a, b), d, a, b, t);
    hide Intersect, Inside;
    MeanIsZero(sc, sd, t);
  }

  lemma MeanIsZero(sc: real, sd: real, t: real)
    requires t * (sc - sd) == sc
    ensures (1.0 - t) * sc + t * sd == 0.0
  {
    assert (1.0 - t) * sc + t * sd == sc - t * (sc - sd);
  }

  lemma Ratio(sc: real, sd: real)
    requires (sc < 0.0) != (sd < 0.0)
    ensures 0.0 <= sc / (sc - sd) <= 1.0
    ensures (sc / (sc - sd)) * (sc - sd) == sc
  {
  }

  /** A half-plane is given by a line (u, v) and a side, which is 1 or -1. */
  predicate OnSide(u: Point, v: Point, side: real, p: Point) {
    side * Cross(u, v, p) <= 0.0
  }

  lemma CrossingOnSide(c: Point, d: Point, a: Point, b: Point, u: Point, v: Point, side: real)
    requires Inside(c, a, b) != Inside(d, a, b)
    requires OnSide(u, v, side, c) && OnSide(u, v, side, d)
    ensures OnSide(u, v, side, Intersect(c, d, a, b))
  {
    hide Cross, Intersect, Inside;
    var t := Crossing(c, d, a, b);
    CrossIsAffine(c, Intersect(c, d, a, b), d, u, v, t);
    MeanSide(t, Cross(u, v, c), Cross(u, v, d), side);
  }

  lemma MeanSide(t: real, k: real, l: real, side: real)
    requires 0.0 <= t <= 1.0 && side * k <= 0.0 && side * l <= 0.0
    ensures side * ((1.0 - t) * k + t * l) <= 0.0
  {
    assert side * ((1.0 - t) * k + t * l) == (1.0 - t) * (side * k) + t * (side * l);
    assert (1.0 - t) * (side * k) <= 0.0 && t * (side * l) <= 0.0;
  }

  // ---------------------------------------------------------------- nothing outside is kept

  /** Every point of s is on one side of the line (u, v). */
  ghost predicate AllOnSide(s: seq<Point>, u: Point, v: Point, side: real) {
    forall i :: 0 <= i < |s| ==> OnSide(u, v, side, s[i])
  }

  lemma {:induction false} ClipEdgesOnSide(s: seq<Point>, a: Point, b: Point, n: nat, u: Point, v: Point, side: real)
    requires n <= |s| && AllOnSide(s, u, v, side)
    ensures AllOnSide(ClipEdges(s, a, b, n), u, v, side)
  {
    hide OnSide, Inside, Intersect;
    if n == 0 {
    } else {
      ClipEdgesOnSide(s, a, b, n - 1, u, v, side);
      var c, d := Prev(s, n - 1), s[n - 1];
      if Inside(c, a, b) != Inside(d, a, b) {
        CrossingOnSide(c, d, a, b, u, v, side);
      }
    }
  }

  lemma {:induction false} ClipEdgesInside(s: seq<Point>, a: Point, b: Point, n: nat)
    requires n <= |s|
    ensures AllOnSide(ClipEdges(s, a, b, n), a, b, 1.0)
  {
    if n == 0 {
    } else {
      ClipEdgesInside(s, a, b, n - 1);
      var c, d := Prev(s, n - 1), s[n - 1];
      Denominator(c, d, a, b);
      hide Cross, Inside, Intersect;
      if Inside(c, a, b) != Inside(d, a, b) {
        var _ := Crossing(c, d, a, b);
      }
    }
  }

  /** Every half-plane that holds the whole subject holds the whole result. */
  lemma {:induction false} ClipKeepsHalfPlanes(s: seq<Point>, clip: seq<Point>, n: nat, u: Point, v: Point, side: real)
    requires n <= |clip| && AllOnSide(s, u, v, side)
    ensures AllOnSide(ClipAll(s, clip, n), u, v, side)
  {
    hide OnSide;
    if n == 0 {
    } else {
      ClipKeepsHalfPlanes(s, clip, n - 1, u, v, side);
      var t := ClipAll(s, clip, n - 1);
      ClipEdgesOnSide(t, Prev(clip, n - 1), clip[n - 1], |t|, u, v, side);
    }
  }

  /** Every vertex of the result lies in the closed half-plane of every edge of the clip polygon. */
  lemma {:induction false} ClipIsInside(s: seq<Point>, clip: seq<Point>, n: nat, i: nat)
    requires i < n <= |clip|
    ensures AllOnSide(ClipAll(s, clip, n), Prev(clip, i), clip[i], 1.0)
    decreases n
  {
    hide OnSide;
    var t := ClipAll(s, clip, n - 1);
    if i == n - 1 {
      ClipEdgesInside(t, Prev(clip, i), clip[i], |t|);
    } else {
      ClipIsInside(s, clip, n - 1, i);
      ClipEdgesOnSide(t, Prev(clip, n - 1), clip[n - 1], |t|, Prev(clip, i), clip[i], 1.0);
    }
  }

  // ---------------------------------------------------------------- a convex subject stays convex

  /** p is on the inner side of every edge of s. */
  ghost predicate InRegion(s: seq<Point>, side: real, p: Point) {
    forall i :: 0 <= i < |s| ==> EdgeOnSide(s, i, side, p)
  }

  predicate EdgeOnSide(s: seq<Point>, i: nat, side: real, p: Point)
    requires i < |s|
  {
    OnSide(Prev(s, i), s[i], side, p)
  }

  /** A convex polygon, clockwise for side 1 and counterclockwise for side -1. */
  ghost predicate Convex(s: seq<Point>, side: real) {
    forall i :: 0 <= i < |s| ==> InRegion(s, side, s[i])
  }

  /** x is where the boundary of s leaves the inner side of (a, b). */
  ghost predicate IsExit(s: seq<Point>, a: Point, b: Point, x: Point) {
    exists i :: 0 <= i < |s| && ExitAt(s, a, b, x, i)
  }

  predicate ExitAt(s: seq<Point>, a: Point, b: Point, x: Point, i: nat)
    requires i < |s|
  {
    Inside(Prev(s, i), a, b) && !Inside(s[i], a, b) && x == Intersect(Prev(s, i), s[i], a, b)
  }

  ghost predicate IsEntry(s: seq<Point>, a: Point, b: Point, x: Point) {
    exists i :: 0 <= i < |s| && EntryAt(s, a, b, x, i)
  }

  predicate EntryAt(s: seq<Point>, a: Point, b: Point, x: Point, i: nat)
    requires i < |s|
  {
    !Inside(Prev(s, i), a, b) && Inside(s[i], a, b) && x == Intersect(Prev(s, i), s[i], a, b)
  }

  /** e is the last point put out when the boundary has been followed up to c. */
  ghost predicate Reached(s: seq<Point>, a: Point, b: Point, c: Point, e: Point) {
    if Inside(c, a, b) then e == c else IsExit(s, a, b, e)
  }

  lemma ScaledEdge(c: Point, d: Point, x: Point, t: real, p: Point)
    requires x == Point(c.x + t * (d.x - c.x), c.y + t * (d.y - c.y))
    ensures Cross(c, x, p) == t * Cross(c, d, p) && Cross(x, d, p) == (1.0 - t) * Cross(c, d, p) && Cross(c, d, x) == 0.0
  {
  }

  lemma ScaledSide(t: real, k: real, side: real)
    requires t >= 0.0 && side * k <= 0.0
    ensures side * (t * k) <= 0.0
  {
    assert side * (t * k) == t * (side * k);
  }

  // Pieces of one edge of s have p on the side on which the edge has it.
  lemma PieceOnSide(c: Point, d: Point, a: Point, b: Point, side: real, p: Point)
    requires Inside(c, a, b) != Inside(d, a, b) && OnSide(c, d, side, p)
    ensures OnSide(c, Intersect(c, d, a, b), side, p) && OnSide(Intersect(c, d, a, b), d, side, p)
  {
    hide Cross, Inside, Intersect;
    var t := Crossing(c, d, a, b);
    ScaledEdge(c, d, Intersect(c, d, a, b), t, p);
    ScaledSide(t, Cross(c, d, p), side);
    ScaledSide(1.0 - t, Cross(c, d, p), side);
  }

  // The chord from an exit x to a later entry y runs along the clip line, in its direction.
  lemma ChordOnSide(c: Point, d: Point, x: Point, y: Point, a: Point, b: Point, side: real, p: Point)
    requires Inside(c, a, b) && !Inside(d, a, b) && x == Intersect(c, d, a, b)
    requires Cross(a, b, y) == 0.0 && OnSide(c, d, side, y) && OnSide(a, b, 1.0, p)
    ensures OnSide(x, y, side, p)
  {
    hide Cross, Inside, Intersect;
    var t := Crossing(c, d, a, b);
    ScaledEdge(c, d, x, t, p);
    ParallelChord(a, b, c, d, x, y, p);
    Denominator(c, d, a, b);
    ChordSide(Cross(a, b, d) - Cross(a, b, c), Cross(x, y, p), Cross(a, b, p), Cross(c, d, y), side);
  }

  lemma ChordSide(w: real, k: real, l: real, m: real, side: real)
    requires w > 0.0 && k * w == -(l * m) && l <= 0.0 && side * m <= 0.0
    ensures side * k <= 0.0
  {
    assert w * -(side * k) == (-l) * -(side * m);
    PositiveMultiple(w, -(side * k), -l, -(side * m), 0.0, 0.0, 0.0, 0.0);
  }

  lemma ParallelChord(a: Point, b: Point, c: Point, d: Point, x: Point, y: Point, p: Point)
    requires Cross(a, b, x) == 0.0 && Cross(a, b, y) == 0.0 && Cross(c, d, x) == 0.0
    ensures Cross(x, y, p) * (Cross(a, b, d) - Cross(a, b, c)) == -(Cross(a, b, p) * Cross(c, d, y))
  {
  }

  /** p belongs to the convex polygon s and to the half-plane of (a, b). */
  ghost predicate Kept(s: seq<Point>, a: Point, b: Point, side: real, p: Point) {
    Convex(s, side) && InRegion(s, side, p) && OnSide(a, b, 1.0, p)
  }

  lemma ExitToEntry(s: seq<Point>, a: Point, b: Point, side: real, p: Point, x: Point, y: Point)
    requires Kept(s, a, b, side, p) && IsExit(s, a, b, x) && IsEntry(s, a, b, y)
    ensures OnSide(x, y, side, p)
  {
    hide OnSide, Inside, Intersect;
    var i :| 0 <= i < |s| && ExitAt(s, a, b, x, i);
    var j :| 0 <= j < |s| && EntryAt(s, a, b, y, j);
    var k := if j == 0 then |s| - 1 else j - 1;
    assert InRegion(s, side, s[j]) && InRegion(s, side, s[k]) && s[k] == Prev(s, j);
    assert EdgeOnSide(s, i, side, s[j]) && EdgeOnSide(s, i, side, s[k]) && EdgeOnSide(s, i, side, p);
    CrossingOnSide(Prev(s, j), s[j], a, b, Prev(s, i), s[i], side);
    var t := Crossing(Prev(s, j), s[j], a, b);
    ChordOnSide(Prev(s, i), s[i], x, y, a, b, side, p);
  }

  // Whatever comes next continues along the boundary of s or along the clip line.
  lemma Junction(s: seq<Point>, a: Point, b: Point, side: real, p: Point, j: nat, e: Point)
    requires Kept(s, a, b, side, p) && j < |s| && Reached(s, a, b, Prev(s, j), e)
    requires Emit(Prev(s, j), s[j], a, b) != []
    ensures OnSide(e, Emit(Prev(s, j), s[j], a, b)[0], side, p)
  {
    hide OnSide, Inside, Intersect;
    var c, d := Prev(s, j), s[j];
    assert EdgeOnSide(s, j, side, p);
    if Inside(c, a, b) {
      if !Inside(d, a, b) {
        PieceOnSide(c, d, a, b, side, p);
      }
    } else {
      assert EntryAt(s, a, b, Intersect(c, d, a, b), j);
      ExitToEntry(s, a, b, side, p, e, Intersect(c, d, a, b));
    }
  }

  lemma {:induction false} ReachedAfter(s: seq<Point>, a: Point, b: Point, n: nat)
    requires 0 < n <= |s|
    ensures var out := ClipEdges(s, a, b, n);
      if out == [] then !Inside(s[n - 1], a, b) else Reached(s, a, b, s[n - 1], out[|out| - 1])
  {
    hide Inside, Intersect, ClipEdges;
    ClipStep(s, a, b, n);
    if n == 1 {
    } else {
      ReachedAfter(s, a, b, n - 1);
    }
    var c, d := Prev(s, n - 1), s[n - 1];
    if Inside(c, a, b) && !Inside(d, a, b) {
      assert ExitAt(s, a, b, Intersect(c, d, a, b), n - 1);
    }
  }

  /** The first point put out continues from the last vertex of s, or enters the half-plane. */
  ghost predicate Starts(s: seq<Point>, a: Point, b: Point, first: Point)
    requires s != []
  {
    if Inside(Prev(s, 0), a, b) then
      Emit(Prev(s, 0), s[0], a, b) != [] && first == Emit(Prev(s, 0), s[0], a, b)[0]
    else
      IsEntry(s, a, b, first)
  }

  lemma {:induction false} FirstPoint(s: seq<Point>, a: Point, b: Point, n: nat)
    requires 0 < n <= |s| && ClipEdges(s, a, b, n) != []
    ensures Starts(s, a, b, ClipEdges(s, a, b, n)[0])
  {
    hide Inside, Intersect, ClipEdges, Starts;
    ClipStep(s, a, b, n);
    if n == 1 {
      FirstPointAt(s, a, b, 0);
    } else if ClipEdges(s, a, b, n - 1) != [] {
      FirstPoint(s, a, b, n - 1);
    } else {
      ReachedAfter(s, a, b, n - 1);
      FirstEdge(s, a, b, n - 1);
      FirstPointAt(s, a, b, n - 1);
    }
  }

  lemma FirstPointAt(s: seq<Point>, a: Point, b: Point, j: nat)
    requires j < |s| && Emit(Prev(s, j), s[j], a, b) != []
    requires j == 0 || (!Inside(Prev(s, j), a, b) && !Inside(Prev(s, 0), a, b))
    ensures Starts(s, a, b, Emit(Prev(s, j), s[j], a, b)[0])
  {
    hide Inside, Intersect;
    if !Inside(Prev(s, j), a, b) {
      assert EntryAt(s, a, b, Intersect(Prev(s, j), s[j], a, b), j);
    }
  }

  lemma {:induction false} FirstEdge(s: seq<Point>, a: Point, b: Point, n: nat)
    requires 0 < n <= |s| && ClipEdges(s, a, b, n) == []
    ensures Emit(Prev(s, 0), s[0], a, b) == [] && !Inside(Prev(s, 0), a, b)
  {
    hide Inside, Intersect;
    if n == 1 {
    } else {
      FirstEdge(s, a, b, n - 1);
    }
  }

  ghost predicate LinkedOnSide(out: seq<Point>, side: real, p: Point) {
    forall k :: 0 < k < |out| ==> EdgeOnSide(out, k, side, p)
  }

  lemma {:induction false} LinksOnSide(s: seq<Point>, a: Point, b: Point, n: nat, side: real, p: Point)
    requires n <= |s| && Kept(s, a, b, side, p)
    ensures LinkedOnSide(ClipEdges(s, a, b, n), side, p)
  {
    hide OnSide, Inside, Intersect, Convex, InRegion, ClipEdges, LinkedOnSide;
    if n == 0 {
      NoLinks(s, a, b, side, p);
    } else {
      ClipStep(s, a, b, n);
      LinksOnSide(s, a, b, n - 1, side, p);
      var before, c, d := ClipEdges(s, a, b, n - 1), Prev(s, n - 1), s[n - 1];
      var now := Emit(c, d, a, b);
      if now != [] && before != [] {
        ReachedAfter(s, a, b, n - 1);
        Junction(s, a, b, side, p, n - 1, before[|before| - 1]);
      }
      if |now| == 2 {
        RegionEdge(s, side, p, n - 1);
        PieceOnSide(c, d, a, b, side, p);
      }
      hide Emit;
      AppendLinks(before, now, side, p);
    }
  }

  lemma NoLinks(s: seq<Point>, a: Point, b: Point, side: real, p: Point)
    ensures LinkedOnSide(ClipEdges(s, a, b, 0), side, p)
  {
  }

  lemma RegionEdge(s: seq<Point>, side: real, p: Point, i: nat)
    requires InRegion(s, side, p) && i < |s|
    ensures OnSide(Prev(s, i), s[i], side, p)
  {
    assert EdgeOnSide(s, i, side, p);
  }

  lemma AppendLinks(before: seq<Point>, now: seq<Point>, side: real, p: Point)
    requires LinkedOnSide(before, side, p) && |now| <= 2
    requires now != [] && before != [] ==> OnSide(before[|before| - 1], now[0], side, p)
    requires |now| == 2 ==> OnSide(now[0], now[1], side, p)
    ensures LinkedOnSide(before + now, side, p)
  {
    hide OnSide;
    var out := before + now;
    forall k | 0 < k < |out| ensures EdgeOnSide(out, k, side, p) {
      assert k < |before| ==> EdgeOnSide(before, k, side, p);
    }
  }

  lemma KeptStaysInRegion(s: seq<Point>, a: Point, b: Point, side: real, p: Point)
    requires Kept(s, a, b, side, p)
    ensures InRegion(ClipEdge(s, a, b), side, p)
  {
    hide OnSide, Inside, Convex, Emit;
    var out := ClipEdge(s, a, b);
    if out != [] {
      LinksOnSide(s, a, b, |s|, side, p);
      ReachedAfter(s, a, b, |s|);
      FirstPoint(s, a, b, |s|);
      if Inside(Prev(s, 0), a, b) {
        Junction(s, a, b, side, p, 0, out[|out| - 1]);
      } else {
        ExitToEntry(s, a, b, side, p, out[|out| - 1], out[0]);
      }
      assert EdgeOnSide(out, 0, side, p);
    }
  }

  lemma ClipEdgeConvex(s: seq<Point>, a: Point, b: Point, side: real)
    requires Convex(s, side)
    ensures Convex(ClipEdge(s, a, b), side)
  {
    hide OnSide, Inside, ClipEdges;
    var out := ClipEdge(s, a, b);
    ClipEdgesInside(s, a, b, |s|);
    forall k | 0 <= k < |out| ensures InRegion(out, side, out[k]) {
      forall i | 0 <= i < |s| ensures EdgeOnSide(s, i, side, out[k]) {
        forall j | 0 <= j < |s| ensures OnSide(Prev(s, i), s[i], side, s[j]) {
          assert InRegion(s, side, s[j]) && EdgeOnSide(s, i, side, s[j]);
        }
        ClipEdgesOnSide(s, a, b, |s|, Prev(s, i), s[i], side);
      }
      KeptStaysInRegion(s, a, b, side, out[k]);
    }
  }

  /** A convex subject, whichever way round, stays convex. */
  lemma {:induction false} ClipStaysConvex(s: seq<Point>, clip: seq<Point>, n: nat, side: real)
    requires n <= |clip| && Convex(s, side)
    ensures Convex(ClipAll(s, clip, n), side)
  {
    hide Convex, ClipEdge;
    if n == 0 {
    } else {
      ClipStaysConvex(s, clip, n - 1, side);
      ClipEdgeConvex(ClipAll(s, clip, n - 1), Prev(clip, n - 1), clip[n - 1], side);
    }
  }

  predicate AllInside(s: seq<Point>, a: Point, b: Point) {
    forall j :: 0 <= j < |s| ==> Inside(s[j], a, b)
  }

  /** A subject strictly inside the clip polygon is not changed. */
  lemma {:induction false} ClipKeepsInnerSubject(s: seq<Point>, clip: seq<Point>, n: nat)
    requires n <= |clip|
    requires forall i :: 0 <= i < n ==> AllInside(s, Prev(clip, i), clip[i])
    ensures ClipAll(s, clip, n) == s
  {
    hide Inside, AllInside;
    if n == 0 {
    } else {
      ClipKeepsInnerSubject(s, clip, n - 1);
      InnerEdges(s, Prev(clip, n - 1), clip[n - 1], |s|);
    }
  }

  lemma {:induction false} InnerEdges(s: seq<Point>, a: Point, b: Point, n: nat)
    requires n <= |s| && AllInside(s, a, b)
    ensures ClipEdges(s, a, b, n) == s[..n]
  {
    hide Inside, Intersect;
    if n == 0 {
    } else {
      InnerEdges(s, a, b, n - 1);
    }
  }
}
