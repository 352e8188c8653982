/** Points of the plane over the reals, and the orientation test that the hull and the clipper share. */
module Plane {

  datatype Point = Point(x: real, y: real)

  /** Twice the signed area of the triangle (o, a, b): positive when b lies left of the ray from o to a. */
  function Cross(o: Point, a: Point, b: Point): real {
    (a.x - o.x) * (b.y - o.y) - (a.y - o.y) * (b.x - o.x)
  }

  /** The orientation of a triangle does not depend on where it starts, and flips with its direction. */
  lemma CrossTurns(a: Point, b: Point, c: Point)
    ensures Cross(a, b, c) == Cross(b, c, a) == Cross(c, a, b)
    ensures Cross(b, a, c) == -Cross(a, b, c)
    ensures Cross(a, a, b) == Cross(a, b, a) == Cross(b, a, a) == 0.0
  {
  }

  /** The Grassmann-Pluecker relation among four points seen from a fifth one. */
  lemma Pluecker(p: Point, a: Point, b: Point, c: Point, d: Point)
    ensures Cross(p, a, b) * Cross(p, c, d) - Cross(p, a, c) * Cross(p, b, d)
            + Cross(p, a, d) * Cross(p, b, c) == 0.0
  {
  }

  /** The side of w relative to the line (e, f) is the barycentric mean of the sides of o, a and b. */
  lemma Barycentric(o: Point, a: Point, b: Point, e: Point, f: Point, w: Point)
    ensures Cross(o, a, b) * Cross(e, f, w)
         == Cross(a, b, w) * Cross(e, f, o) + Cross(o, w, b) * Cross(e, f, a) + Cross(o, a, w) * Cross(e, f, b)
  {
  }

  /** Orientation is affine along the line from o to q. */
  lemma CrossIsAffine(o: Point, p: Point, q: Point, e: Point, f: Point, t: real)
    requires p.x - o.x == t * (q.x - o.x) && p.y - o.y == t * (q.y - o.y)
    ensures Cross(e, f, p) == (1.0 - t) * Cross(e, f, o) + t * Cross(e, f, q)
  {
    assert p == Point(o.x + t * (q.x - o.x), o.y + t * (q.y - o.y));
  }
}
