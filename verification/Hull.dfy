/** The convex hull of a point set by a Graham scan (d3.geom.hull), over real coordinates. */
module Hull {
  import opened Plane
  import opened Reals
  import opened ConvexChain

  /** The scan's answer, or the TypeError it raises when it reads past its array of candidates. */
  datatype Outcome = Polygon(points: seq<Point>) | TypeError

  /** A candidate hull vertex. The angle atan2(y, x) around the anchor is represented by its direction (x, y). */
  datatype Polar = Polar(angle: Point, index: int)

  // ---------------------------------------------------------------- angles

  const ORIGIN := Point(0.0, 0.0)

  /** Angles in [0, pi), the ones that atan2 gives for points above, or level with and right of, the anchor. */
  predicate UpperHalf(d: Point) {
    d.y > 0.0 || (d.y == 0.0 && d.x > 0.0)
  }

  /** The direction of atan2(p - o); atan2(0, 0) is the angle 0. */
  function Direction(o: Point, p: Point): (d: Point) {
    if p == o then Point(1.0, 0.0) else Point(p.x - o.x, p.y - o.y)
  }

  predicate AngleBefore(d: Point, e: Point) {
    Cross(ORIGIN, d, e) > 0.0
  }

  predicate SameAngle(d: Point, e: Point) {
    Cross(ORIGIN, d, e) == 0.0
  }

  predicate AngleAtMost(d: Point, e: Point) {
    !AngleBefore(e, d)
  }

  lemma AngleTransitive(d: Point, e: Point, f: Point)
    requires UpperHalf(d) && UpperHalf(e) && UpperHalf(f)
    requires AngleAtMost(d, e) && AngleAtMost(e, f)
    ensures AngleAtMost(d, f)
    ensures AngleBefore(d, e) || AngleBefore(e, f) ==> AngleBefore(d, f)
  {
    assert e.y * Cross(ORIGIN, d, f) == d.y * Cross(ORIGIN, e, f) + f.y * Cross(ORIGIN, d, e);
    assert e.x * Cross(ORIGIN, d, f) == d.x * Cross(ORIGIN, e, f) + f.x * Cross(ORIGIN, d, e);
  }

  // ---------------------------------------------------------------- what is claimed

  /** Position h holds the lowest point, and the leftmost among the lowest. */
  ghost predicate IsAnchor(v: seq<Point>, h: nat) {
    h < |v| && forall i :: 0 <= i < |v| ==> NotBelow(v[h], v[i])
  }

  predicate NotBelow(o: Point, p: Point) {
    o.y < p.y || (o.y == p.y && o.x <= p.x)
  }

  /** All the other points are seen from the anchor at one angle. */
  ghost predicate OneAngle(v: seq<Point>, h: nat)
    requires h < |v|
  {
    forall i, j :: 0 <= i < |v| && 0 <= j < |v| && i != h && j != h
      ==> SameAngle(Direction(v[h], v[i]), Direction(v[h], v[j]))
  }

  /** The anchor occurs twice and no other point lies level with it. */
  ghost predicate TwinAnchor(v: seq<Point>, h: nat)
    requires h < |v|
  {
    && (exists i :: 0 <= i < |v| && i != h && v[i] == v[h])
    && (forall i :: 0 <= i < |v| && v[i].y == v[h].y ==> v[i] == v[h])
  }

  // ---------------------------------------------------------------- steps of the algorithm

  method FindAnchor(v: seq<Point>) returns (h: nat)
    requires |v| > 0
    ensures IsAnchor(v, h)
    ensures forall i :: 0 <= i < h ==> v[i] != v[h]
  {
    h := 0;
    for i := 1 to |v|
      invariant h < i
      invariant forall k :: 0 <= k < i ==> NotBelow(v[h], v[k])
      invariant forall k :: 0 <= k < h ==> v[k] != v[h]
    {
      if v[i].y < v[h].y {
        h := i;
      } else if v[i].y == v[h].y {
        h := if v[i].x < v[h].x then i else h;
      }
    }
  }

  /** Each point but the anchor is a candidate once, under its own angle. */
  ghost predicate Candidates(v: seq<Point>, h: nat, ps: seq<Polar>)
    requires h < |v|
  {
    && AllCandidates(v, h, ps)
    && (forall i :: 0 <= i < |v| && i != h ==> Polar(Direction(v[h], v[i]), i) in ps)
  }

  ghost predicate AllCandidates(v: seq<Point>, h: nat, ps: seq<Polar>)
    requires h < |v|
  {
    forall k {:trigger ps[k]} :: 0 <= k < |ps| ==> IsCandidate(v, h, ps[k])
  }

  predicate IsCandidate(v: seq<Point>, h: nat, p: Polar)
    requires h < |v|
  {
    0 <= p.index < |v| && p.index != h && p.angle == Direction(v[h], v[p.index])
  }

  method PolarPoints(v: seq<Point>, h: nat) returns (ps: seq<Polar>)
    requires h < |v|
    ensures |ps| == |v| - 1 && Candidates(v, h, ps)
  {
    ps := [];
    for i := 0 to |v|
      invariant |ps| == if i <= h then i else i - 1
      invariant AllCandidates(v, h, ps)
      invariant forall j :: 0 <= j < i && j != h ==> Polar(Direction(v[h], v[j]), j) in ps
    {
      if i == h { continue; }
      ps := ps + [Polar(Direction(v[h], v[i]), i)];
    }
  }

  ghost predicate SortedByAngle(ps: seq<Polar>) {
    forall i, j :: 0 <= i < j < |ps| ==> AngleAtMost(ps[i].angle, ps[j].angle)
  }

  /** p put in front of the first element of r that is not before it. */
  function Insert(p: Polar, r: seq<Polar>): (q: seq<Polar>) {
    if r == [] || AngleAtMost(p.angle, r[0].angle) then [p] + r else [r[0]] + Insert(p, r[1..])
  }

  lemma OneAtMost(d: Point, e: Point)
    ensures AngleAtMost(d, e) || AngleAtMost(e, d)
  {
  }

  lemma {:induction false} InsertSorted(p: Polar, r: seq<Polar>)
    requires UpperHalf(p.angle) && forall k :: 0 <= k < |r| ==> UpperHalf(r[k].angle)
    requires SortedByAngle(r)
    ensures multiset(Insert(p, r)) == multiset(r) + multiset{p}
    ensures SortedByAngle(Insert(p, r))
  {
    hide Cross, UpperHalf, AngleAtMost;
    if r == [] {
    } else if AngleAtMost(p.angle, r[0].angle) {
      forall k | 0 <= k < |r| ensures AngleAtMost(p.angle, r[k].angle) {
        if k > 0 { AngleTransitive(p.angle, r[0].angle, r[k].angle); }
      }
    } else {
      InsertSorted(p, r[1..]);
      assert r == [r[0]] + r[1..];
      var q := Insert(p, r[1..]);
      forall k | 0 <= k < |q| ensures AngleAtMost(r[0].angle, q[k].angle) {
        assert q[k] in multiset(q);
        OneAtMost(p.angle, r[0].angle);
      }
    }
  }

  /** Array.prototype.sort: only its contract is used, so nothing below depends on its stability. */
  method SortByAngle(ps: seq<Polar>) returns (r: seq<Polar>)
    requires forall k :: 0 <= k < |ps| ==> UpperHalf(ps[k].angle)
    ensures SortedByAngle(r) && multiset(r) == multiset(ps)
  {
    r := [];
    for i := 0 to |ps|
      invariant SortedByAngle(r) && multiset(r) == multiset(ps[..i])
      invariant forall k :: 0 <= k < |r| ==> UpperHalf(r[k].angle)
    {
      InsertSorted(ps[i], r);
      r := Insert(ps[i], r);
      assert ps[..i + 1] == ps[..i] + [ps[i]];
      forall k | 0 <= k < |r| ensures UpperHalf(r[k].angle) {
        assert r[k] in multiset(ps[..i + 1]);
      }
    }
    assert ps[..|ps|] == ps;
  }

  function Norm(o: Point, p: Point): real {
    (p.x - o.x) * (p.x - o.x) + (p.y - o.y) * (p.y - o.y)
  }

  /** p lies between o and q. */
  predicate Nearer(o: Point, p: Point, q: Point) {
    SameAngle(Direction(o, p), Direction(o, q)) && Norm(o, p) <= Norm(o, q)
  }

  ghost predicate Represented(v: seq<Point>, h: nat, ps: seq<Polar>, n: nat, p: Point)
    requires h < |v| && n <= |ps|
  {
    exists s :: 0 <= s < n && 0 <= ps[s].index < |v| && Nearer(v[h], p, v[ps[s].index])
  }

  ghost predicate Survivors(ps: seq<Polar>, n: nat)
    requires n <= |ps|
  {
    forall i, j :: 0 <= i < j < n && ps[i].index != -1 && ps[j].index != -1 ==> AngleBefore(ps[i].angle, ps[j].angle)
  }

  ghost predicate RepresentedAt(v: seq<Point>, h: nat, sorted: seq<Polar>, ps: seq<Polar>, n: nat, k: nat)
    requires h < |v| && n <= |ps| && AllCandidates(v, h, sorted) && k < |sorted|
  {
    Represented(v, h, ps, n, v[sorted[k].index])
  }

  /** The first n candidates are thinned out to one survivor per angle, u being the last one. */
  ghost predicate Thinned(v: seq<Point>, h: nat, sorted: seq<Polar>, ps: seq<Polar>, n: nat, u: nat)
    requires IsAnchor(v, h)
  {
    && |ps| == |sorted| && u < n <= |ps| && AllCandidates(v, h, sorted) && SortedByAngle(sorted)
    && (forall k {:trigger ps[k]} :: 0 <= k < |ps| ==> ps[k] == sorted[k] || (k < n && ps[k] == sorted[k].(index := -1)))
    && ps[u] == sorted[u]
    && (forall k :: u < k < n ==> ps[k].index == -1)
    && (forall k :: 0 <= k < n ==> RepresentedAt(v, h, sorted, ps, n, k))
    && Survivors(ps, n)
  }

  lemma ThinnedAtStart(v: seq<Point>, h: nat, sorted: seq<Polar>)
    requires IsAnchor(v, h) && |sorted| > 0 && SortedByAngle(sorted) && AllCandidates(v, h, sorted)
    ensures Thinned(v, h, sorted, sorted, 1, 0)
  {
    assert Nearer(v[h], v[sorted[0].index], v[sorted[0].index]);
  }

  lemma NewAngle(v: seq<Point>, h: nat, sorted: seq<Polar>, ps: seq<Polar>, n: nat, u: nat)
    requires IsAnchor(v, h) && n < |sorted| && Thinned(v, h, sorted, ps, n, u)
    requires !SameAngle(ps[u].angle, ps[n].angle)
    ensures Thinned(v, h, sorted, ps, n + 1, n)
  {
    hide Norm;
    var m := n + 1;
    assert Nearer(v[h], v[sorted[n].index], v[ps[n].index]);
    assert RepresentedAt(v, h, sorted, ps, m, n);
    forall k | 0 <= k < n ensures RepresentedAt(v, h, sorted, ps, m, k) {
      assert RepresentedAt(v, h, sorted, ps, n, k);
    }
    forall k | 0 <= k < n && ps[k].index != -1 ensures AngleBefore(ps[k].angle, ps[n].angle) {
      DirectionsUpperHalf(v, h, v[sorted[k].index]);
      DirectionsUpperHalf(v, h, v[sorted[u].index]);
      DirectionsUpperHalf(v, h, v[sorted[n].index]);
      AngleTotal(ps[u].angle, ps[n].angle);
      if k != u {
        AngleTransitive(ps[k].angle, ps[u].angle, ps[n].angle);
      }
    }
  }

  lemma AngleTotal(d: Point, e: Point)
    ensures AngleBefore(d, e) || SameAngle(d, e) || AngleBefore(e, d)
    ensures SameAngle(d, e) <==> SameAngle(e, d)
    ensures AngleBefore(d, e) ==> AngleAtMost(d, e)
  {
  }

  lemma DropCurrent(v: seq<Point>, h: nat, sorted: seq<Polar>, ps: seq<Polar>, n: nat, u: nat)
    requires IsAnchor(v, h) && n < |sorted| && Thinned(v, h, sorted, ps, n, u)
    requires Nearer(v[h], v[sorted[n].index], v[sorted[u].index])
    ensures Thinned(v, h, sorted, ps[n := ps[n].(index := -1)], n + 1, u)
  {
    hide Cross, Norm, SameAngle, AngleBefore, Nearer;
    var qs, m := ps[n := ps[n].(index := -1)], n + 1;
    forall k | 0 <= k < m ensures RepresentedAt(v, h, sorted, qs, m, k) {
      if k == n {
        assert qs[u] == sorted[u];
      } else {
        assert RepresentedAt(v, h, sorted, ps, n, k);
        var s :| 0 <= s < n && 0 <= ps[s].index < |v| && Nearer(v[h], v[sorted[k].index], v[ps[s].index]);
        assert qs[s] == ps[s];
      }
    }
  }

  lemma DropPrevious(v: seq<Point>, h: nat, sorted: seq<Polar>, ps: seq<Polar>, n: nat, u: nat)
    requires IsAnchor(v, h) && n < |sorted| && Thinned(v, h, sorted, ps, n, u)
    requires Nearer(v[h], v[sorted[u].index], v[sorted[n].index])
    ensures Thinned(v, h, sorted, ps[u := ps[u].(index := -1)], n + 1, n)
  {
    hide Cross, Norm;
    var qs, m := ps[u := ps[u].(index := -1)], n + 1;
    NearerReflexive(v[h], v[sorted[n].index]);
    assert RepresentedAt(v, h, sorted, qs, m, n) by {
      assert qs[n] == sorted[n];
    }
    forall k | 0 <= k < n ensures RepresentedAt(v, h, sorted, qs, m, k) {
      assert RepresentedAt(v, h, sorted, ps, n, k);
      var s :| 0 <= s < n && 0 <= ps[s].index < |v| && Nearer(v[h], v[sorted[k].index], v[ps[s].index]);
      if s == u {
        NearerTransitive(v, h, v[sorted[k].index], v[sorted[u].index], v[sorted[n].index]);
        assert qs[n] == sorted[n];
      } else {
        assert qs[s] == ps[s];
      }
    }
    forall k | 0 <= k < n && qs[k].index != -1 ensures AngleBefore(qs[k].angle, qs[n].angle) {
      assert AngleBefore(ps[k].angle, ps[u].angle);
      DirectionsUpperHalf(v, h, v[sorted[k].index]);
      DirectionsUpperHalf(v, h, v[sorted[u].index]);
      DirectionsUpperHalf(v, h, v[sorted[n].index]);
      AngleTotal(ps[k].angle, ps[u].angle);
      AngleTotal(ps[u].angle, ps[n].angle);
      AngleTransitive(ps[k].angle, ps[u].angle, ps[n].angle);
    }
  }

  lemma NearerReflexive(o: Point, p: Point)
    ensures Nearer(o, p, p)
  {
  }

  lemma NearerTransitive(v: seq<Point>, h: nat, p: Point, q: Point, r: Point)
    requires IsAnchor(v, h) && p in v && q in v && r in v
    requires Nearer(v[h], p, q) && Nearer(v[h], q, r)
    ensures Nearer(v[h], p, r)
  {
    DirectionsUpperHalf(v, h, p);
    DirectionsUpperHalf(v, h, q);
    DirectionsUpperHalf(v, h, r);
    SameAngleTransitive(Direction(v[h], p), Direction(v[h], q), Direction(v[h], r));
  }

  lemma SameAngleTransitive(d: Point, e: Point, f: Point)
    requires UpperHalf(d) && UpperHalf(e) && UpperHalf(f)
    requires SameAngle(d, e) && SameAngle(e, f)
    ensures SameAngle(d, f)
  {
    assert e.y * Cross(ORIGIN, d, f) == d.y * Cross(ORIGIN, e, f) + f.y * Cross(ORIGIN, d, e);
    assert e.x * Cross(ORIGIN, d, f) == d.x * Cross(ORIGIN, e, f) + f.x * Cross(ORIGIN, d, e);
  }

  lemma DirectionsUpperHalf(v: seq<Point>, h: nat, p: Point)
    requires IsAnchor(v, h) && p in v
    ensures UpperHalf(Direction(v[h], p))
  {
    var i :| 0 <= i < |v| && v[i] == p;
    assert NotBelow(v[h], v[i]);
  }

  /** Keeps the farthest candidate of each angle, and overwrites the index of the others by -1. */
  method DropNearer(v: seq<Point>, h: nat, sorted: seq<Polar>) returns (ps: seq<Polar>)
    requires IsAnchor(v, h) && |sorted| > 0 && SortedByAngle(sorted) && AllCandidates(v, h, sorted)
    ensures exists u: nat :: Thinned(v, h, sorted, ps, |ps|, u)
  {
    ps := sorted;
    var a, vi, u := ps[0].angle, ps[0].index, 0;
    ThinnedAtStart(v, h, sorted);
    for i := 1 to |sorted|
      invariant Thinned(v, h, sorted, ps, i, u) && a == sorted[u].angle && vi == sorted[u].index
    {
      hide Cross, Norm, SameAngle, AngleBefore, Survivors, RepresentedAt, SortedByAngle;
      var j := ps[i].index;
      if SameAngle(a, ps[i].angle) {
        AngleTotal(a, ps[i].angle);
        if Norm(v[h], v[vi]) >= Norm(v[h], v[j]) {
          DropCurrent(v, h, sorted, ps, i, u);
          ps := ps[i := ps[i].(index := -1)];
        } else {
          DropPrevious(v, h, sorted, ps, i, u);
          ps := ps[u := ps[u].(index := -1)];
          a := ps[i].angle;
          u := i;
          vi := j;
        }
      } else {
        NewAngle(v, h, sorted, ps, i, u);
        a := ps[i].angle;
        u := i;
        vi := j;
      }
    }
    assert Thinned(v, h, sorted, ps, |ps|, u);
  }

  // ---------------------------------------------------------------- the scan

  /** The places of the bottom n entries of the stack. */
  function Places(v: seq<Point>, stack: seq<nat>, n: nat): (c: seq<Point>)
    requires n <= |stack| && forall k :: 0 <= k < n ==> stack[k] < |v|
    ensures |c| == n && forall k :: 0 <= k < n ==> c[k] == v[stack[k]]
  {
    seq(n, k requires 0 <= k < n => v[stack[k]])
  }

  /** w is the place of a survivor among the first n candidates. */
  ghost predicate SurvivorAt(v: seq<Point>, ps: seq<Polar>, n: nat, w: Point)
    requires n <= |ps|
  {
    exists k :: 0 <= k < n && 0 <= ps[k].index < |v| && v[ps[k].index] == w
  }

  /** c winds around o, turns left, ends in the last survivor, and encloses all survivors so far. */
  ghost predicate Scanned(v: seq<Point>, o: Point, ps: seq<Polar>, n: nat, c: seq<Point>)
    requires n <= |ps|
  {
    && Fan(c) && LeftTurns(c) && c[0] == o
    && (forall i :: 1 <= i < |c| ==> c[i] != o && SurvivorAt(v, ps, n, c[i]))
    && (forall w :: SurvivorAt(v, ps, n, w) ==> Inside(c, w))
  }

  lemma FanGrows(v: seq<Point>, h: nat, sorted: seq<Polar>, ps: seq<Polar>, n: nat, c: seq<Point>, u: nat)
    requires IsAnchor(v, h) && Thinned(v, h, sorted, ps, |ps|, u) && n < |ps| && ps[n].index != -1
    requires Scanned(v, v[h], ps, n, c)
    ensures Fan(c + [v[ps[n].index]]) && v[ps[n].index] != v[h]
  {
    hide Cross, LeftTurns, Inside;
    var q := v[ps[n].index];
    assert ps[n] == sorted[n];
    forall i | 1 <= i < |c| ensures Cross(c[0], c[i], q) > 0.0 && q != v[h] {
      assert SurvivorAt(v, ps, n, c[i]);
      var k :| 0 <= k < n && 0 <= ps[k].index < |v| && v[ps[k].index] == c[i];
      assert ps[k] == sorted[k];
      assert AngleBefore(ps[k].angle, ps[n].angle);
      DirectionsUpperHalf(v, h, c[i]);
      CrossOfDirections(v[h], c[i], q);
    }
    assert c[1] != v[h];
  }

  lemma CrossOfDirections(o: Point, p: Point, q: Point)
    requires p != o && AngleBefore(Direction(o, p), Direction(o, q)) && UpperHalf(Direction(o, p))
    ensures Cross(o, p, q) > 0.0 && q != o
  {
  }

  /** The state of the inner loop: c followed by the pending point q still encloses all survivors so far. */
  ghost predicate Popping(v: seq<Point>, o: Point, ps: seq<Polar>, n: nat, c: seq<Point>, q: Point)
    requires n <= |ps|
  {
    && |c| >= 2 && Fan(c + [q]) && LeftTurns(c) && c[0] == o && q != o
    && (forall i :: 1 <= i < |c| ==> c[i] != o && SurvivorAt(v, ps, n, c[i]))
    && (forall w :: SurvivorAt(v, ps, n, w) ==> Inside(c + [q], w))
  }

  lemma StartPopping(v: seq<Point>, h: nat, sorted: seq<Polar>, ps: seq<Polar>, n: nat, c: seq<Point>, u: nat)
    requires IsAnchor(v, h) && Thinned(v, h, sorted, ps, |ps|, u) && n < |ps| && ps[n].index != -1
    requires Scanned(v, v[h], ps, n, c)
    ensures 0 <= ps[n].index < |v| && Popping(v, v[h], ps, n, c, v[ps[n].index])
  {
    FanGrows(v, h, sorted, ps, n, c, u);
    assert ps[n] == sorted[n];
    hide Cross, Thinned, Fan, LeftTurns;
    var q := v[ps[n].index];
    forall w | SurvivorAt(v, ps, n, w) ensures Inside(c + [q], w) {
      InsideGrows(c, q, w);
    }
  }

  lemma InsideGrows(c: seq<Point>, q: Point, w: Point)
    requires |c| >= 2 && Inside(c, w)
    ensures Inside(c + [q], w)
  {
    if w in c {
      assert w in c + [q];
    } else {
      var i :| 1 <= i < |c| - 1 && InWedge(c, i, w);
      assert InWedge(c + [q], i, w);
    }
  }

  lemma Pop(v: seq<Point>, o: Point, ps: seq<Polar>, n: nat, c: seq<Point>, q: Point)
    requires n <= |ps| && Popping(v, o, ps, n, c, q)
    requires Cross(c[|c| - 2], c[|c| - 1], q) <= 0.0
    ensures |c| >= 3 && Popping(v, o, ps, n, c[..|c| - 1], q)
  {
    var d, b := c + [q], c[..|c| - 1];
    assert Cross(d[0], d[|c| - 1], d[|c|]) > 0.0;
    hide Cross;
    forall i, j | 1 <= i < j < |b + [q]| ensures Cross((b + [q])[0], (b + [q])[i], (b + [q])[j]) > 0.0 {
      assert (b + [q])[i] == d[i] && (b + [q])[j] == if j == |b| then d[|c|] else d[j];
    }
    forall i | 0 <= i < |b| - 2 ensures LeftTurnAt(b, i) {
      assert LeftTurnAt(c, i);
    }
    forall w | SurvivorAt(v, ps, n, w) ensures Inside(b + [q], w) {
      PopKeepsInside(c, q, w);
    }
  }

  lemma Push(v: seq<Point>, o: Point, ps: seq<Polar>, n: nat, c: seq<Point>)
    requires n < |ps| && 0 <= ps[n].index < |v| && Popping(v, o, ps, n, c, v[ps[n].index])
    requires Cross(c[|c| - 2], c[|c| - 1], v[ps[n].index]) > 0.0
    ensures Scanned(v, o, ps, n + 1, c + [v[ps[n].index]])
  {
    hide Cross, Fan, InWedge;
    var q, m := v[ps[n].index], n + 1;
    var d := c + [q];
    forall i | 0 <= i < |d| - 2 ensures LeftTurnAt(d, i) {
      if i < |c| - 2 {
        assert LeftTurnAt(c, i);
      }
    }
    forall w | SurvivorAt(v, ps, m, w) ensures Inside(d, w) {
      if w != q {
        assert SurvivorAt(v, ps, n, w);
      }
    }
    assert SurvivorAt(v, ps, m, q);
    forall i | 1 <= i < |d| ensures d[i] != o && SurvivorAt(v, ps, m, d[i]) {
      assert i < |c| ==> SurvivorAt(v, ps, n, c[i]);
    }
  }

  lemma Skip(v: seq<Point>, o: Point, ps: seq<Polar>, n: nat, c: seq<Point>)
    requires n < |ps| && ps[n].index == -1 && Scanned(v, o, ps, n, c)
    ensures Scanned(v, o, ps, n + 1, c)
  {
    var m := n + 1;
    forall w ensures SurvivorAt(v, ps, m, w) <==> SurvivorAt(v, ps, n, w) {
      if SurvivorAt(v, ps, n, w) {
        var k :| 0 <= k < n && 0 <= ps[k].index < |v| && v[ps[k].index] == w;
      }
    }
  }

  predicate Ccw(i1: nat, i2: nat, i3: nat, v: seq<Point>)
    requires i1 < |v| && i2 < |v| && i3 < |v|
  {
    Cross(v[i1], v[i2], v[i3]) > 0.0
  }

  /** stack[sp] = x on a growable array. */
  function Store(stack: seq<nat>, sp: nat, x: nat): (r: seq<nat>)
    requires sp <= |stack|
    ensures sp < |r| && r[sp] == x && r[..sp] == stack[..sp]
  {
    if sp < |stack| then stack[sp := x] else stack + [x]
  }

  lemma FirstTwo(v: seq<Point>, h: nat, sorted: seq<Polar>, ps: seq<Polar>, n: nat, u: nat, a: nat, b: nat)
    requires IsAnchor(v, h) && Thinned(v, h, sorted, ps, |ps|, u)
    requires a < b < n <= |ps| && ps[a].index != -1 && ps[b].index != -1
    requires forall k :: 0 <= k < n && k != a && k != b ==> ps[k].index == -1
    ensures 0 <= ps[a].index < |v| && 0 <= ps[b].index < |v|
    ensures v[ps[a].index] == v[h] ==> Scanned(v, v[h], ps, n, [v[h], v[ps[b].index]])
    ensures v[ps[a].index] != v[h] ==> Scanned(v, v[h], ps, n, [v[h], v[ps[a].index], v[ps[b].index]])
  {
    assert ps[a] == sorted[a] && ps[b] == sorted[b];
    var o, p, q := v[h], v[ps[a].index], v[ps[b].index];
    assert AngleBefore(ps[a].angle, ps[b].angle);
    assert SurvivorAt(v, ps, n, p) && SurvivorAt(v, ps, n, q);
    DirectionsUpperHalf(v, h, p);
    DirectionsUpperHalf(v, h, q);
    if p != o {
      CrossOfDirections(o, p, q);
    }
  }

  lemma MarkedIndices(v: seq<Point>, h: nat, sorted: seq<Polar>, ps: seq<Polar>, u: nat)
    requires IsAnchor(v, h) && Thinned(v, h, sorted, ps, |ps|, u)
    ensures h < |v| && forall k :: 0 <= k < |ps| ==> -1 <= ps[k].index < |v|
  {
  }

  /** Pushes the anchor and the first two survivors; fails when it reads past ps for want of a second one. */
  method PushFirstTwo(h: nat, ps: seq<Polar>) returns (ok: bool, stack: seq<nat>, j: nat, ghost a: nat, ghost b: nat)
    requires forall k :: 0 <= k < |ps| ==> ps[k].index >= -1
    ensures !ok <==> forall k, l :: 0 <= k < l < |ps| ==> ps[k].index == -1 || ps[l].index == -1
    ensures ok ==> a < b < j <= |ps| && ps[a].index != -1 && ps[b].index != -1
    ensures ok ==> stack == [h, ps[a].index, ps[b].index]
    ensures ok ==> forall k :: 0 <= k < j && k != a && k != b ==> ps[k].index == -1
  {
    stack, j, a, b := [h], 0, 0, 0;
    var i := 0;
    while i < 2
      invariant 0 <= i <= 2 && 0 <= j <= |ps| && |stack| == i + 1 && stack[0] == h
      invariant i == 0 ==> forall k :: 0 <= k < j ==> ps[k].index == -1
      invariant i >= 1 ==> a < j && ps[a].index != -1 && stack[1] == ps[a].index
      invariant i == 1 ==> forall k :: 0 <= k < j && k != a ==> ps[k].index == -1
      invariant i == 2 ==> a < b < j && ps[b].index != -1 && stack[2] == ps[b].index
      invariant i == 2 ==> forall k :: 0 <= k < j && k != a && k != b ==> ps[k].index == -1
      decreases |ps| - j
    {
      if j >= |ps| {
        return false, stack, j, a, b;
      }
      if ps[j].index != -1 {
        stack := stack + [ps[j].index];
        if i == 0 { a := j; } else { b := j; }
        i := i + 1;
      }
      j := j + 1;
    }
    ok := true;
  }

  /** One candidate of the scan: what is not a left turn is popped, then the candidate is pushed. */
  method ScanPoint(v: seq<Point>, h: nat, ghost sorted: seq<Polar>, ps: seq<Polar>, ghost u: nat, j: nat,
                   stack0: seq<nat>, sp0: nat, ghost t: nat) returns (stack: seq<nat>, sp: nat)
    requires IsAnchor(v, h) && Thinned(v, h, sorted, ps, |ps|, u) && j < |ps| && ps[j].index != -1 && t <= 1
    requires 3 <= sp0 <= |stack0| && stack0[0] == h && forall k :: 0 <= k < |stack0| ==> stack0[k] < |v|
    requires Scanned(v, v[h], ps, j, Places(v, stack0, sp0)[t..])
    ensures 3 <= sp <= |stack| && stack[0] == h && forall k :: 0 <= k < |stack| ==> stack[k] < |v|
    ensures Scanned(v, v[h], ps, j + 1, Places(v, stack, sp)[t..])
  {
    hide Scanned, Popping, Cross, Thinned, IsAnchor, Norm;
    stack, sp := stack0, sp0;
    ghost var c: seq<Point> := Places(v, stack, sp)[t..];
    StartPopping(v, h, sorted, ps, j, c, u);
    var q := v[ps[j].index];
    while !Ccw(stack[sp - 2], stack[sp - 1], ps[j].index, v)
      invariant t + 2 <= sp <= |stack|
      invariant c == Places(v, stack, sp)[t..] && Popping(v, v[h], ps, j, c, q)
      decreases sp
    {
      Pop(v, v[h], ps, j, c, q);
      sp := sp - 1;
      c := c[..|c| - 1];
    }
    Push(v, v[h], ps, j, c);
    stack := Store(stack, sp, ps[j].index);
    sp := sp + 1;
    assert Places(v, stack, sp)[t..] == c + [q];
  }

  /** The scan proper. Its answer starts with the anchor, which comes twice when the first survivor is its twin. */
  method Scan(v: seq<Point>, h: nat, ghost sorted: seq<Polar>, ps: seq<Polar>, ghost u: nat)
    returns (r: Outcome, ghost a: nat)
    requires IsAnchor(v, h) && Thinned(v, h, sorted, ps, |ps|, u)
    ensures r.TypeError? <==> forall k, l :: 0 <= k < l < |ps| ==> ps[k].index == -1 || ps[l].index == -1
    ensures r.Polygon? ==>
      && |r.points| >= 3 && r.points[0] == v[h] && (forall p :: p in r.points ==> p in v)
      && a < |ps| && (forall k :: 0 <= k < a ==> ps[k].index == -1) && 0 <= ps[a].index < |v|
      && Scanned(v, v[h], ps, |ps|, if v[ps[a].index] == v[h] then r.points[1..] else r.points)
  {
    hide Scanned, Popping, Cross, Thinned, IsAnchor, Norm;
    var ok: bool, stack: seq<nat>, j: nat;
    ghost var b: nat;
    MarkedIndices(v, h, sorted, ps, u);
    ok, stack, j, a, b := PushFirstTwo(h, ps);
    if !ok {
      return TypeError, a;
    }
    FirstTwo(v, h, sorted, ps, j, u, a, b);
    ghost var t := if v[ps[a].index] == v[h] then 1 else 0;
    var sp := |stack|;
    assert Places(v, stack, sp)[t..] == if t == 1 then [v[h], v[ps[b].index]] else [v[h], v[ps[a].index], v[ps[b].index]];
    while j < |ps|
      invariant 3 <= sp <= |stack| && j <= |ps| && (forall k :: 0 <= k < |stack| ==> stack[k] < |v|)
      invariant stack[0] == h
      invariant Scanned(v, v[h], ps, j, Places(v, stack, sp)[t..])
    {
      ghost var c: seq<Point> := Places(v, stack, sp)[t..];
      if ps[j].index == -1 {
        Skip(v, v[h], ps, j, c);
      } else {
        stack, sp := ScanPoint(v, h, sorted, ps, u, j, stack, sp, t);
      }
      j := j + 1;
    }
    r := Polygon(Places(v, stack, sp));
  }

  // ---------------------------------------------------------------- from the scan to the claims

  /** A single survivor means a single angle, and two survivors mean two angles. */
  lemma OneSurvivorIffOneAngle(v: seq<Point>, h: nat, sorted: seq<Polar>, ps: seq<Polar>, u: nat)
    requires IsAnchor(v, h) && Thinned(v, h, sorted, ps, |ps|, u) && Candidates(v, h, sorted)
    ensures (forall k, l :: 0 <= k < l < |ps| ==> ps[k].index == -1 || ps[l].index == -1) <==> OneAngle(v, h)
  {
    hide Cross, Norm;
    if k, l :| 0 <= k < l < |ps| && ps[k].index != -1 && ps[l].index != -1 {
      assert ps[k] == sorted[k] && ps[l] == sorted[l];
      var i, j := ps[k].index, ps[l].index;
      assert AngleBefore(ps[k].angle, ps[l].angle);
      AngleBeforeIsNotSame(ps[k].angle, ps[l].angle);
      assert !SameAngle(Direction(v[h], v[i]), Direction(v[h], v[j]));
    } else {
      forall i, j | 0 <= i < |v| && 0 <= j < |v| && i != h && j != h
        ensures SameAngle(Direction(v[h], v[i]), Direction(v[h], v[j]))
      {
        var s := Survivor(v, h, sorted, ps, u, i);
        var t := Survivor(v, h, sorted, ps, u, j);
        assert s == t;
        AngleTotal(Direction(v[h], v[j]), Direction(v[h], v[ps[s].index]));
        DirectionsUpperHalf(v, h, v[i]);
        DirectionsUpperHalf(v, h, v[j]);
        DirectionsUpperHalf(v, h, v[ps[s].index]);
        SameAngleTransitive(Direction(v[h], v[i]), Direction(v[h], v[ps[s].index]), Direction(v[h], v[j]));
      }
    }
  }

  lemma AngleBeforeIsNotSame(d: Point, e: Point)
    requires AngleBefore(d, e)
    ensures !SameAngle(d, e)
  {
  }

  /** The survivor that stands for point i. */
  lemma Survivor(v: seq<Point>, h: nat, sorted: seq<Polar>, ps: seq<Polar>, u: nat, i: nat) returns (s: nat)
    requires IsAnchor(v, h) && Thinned(v, h, sorted, ps, |ps|, u) && Candidates(v, h, sorted)
    requires i < |v| && i != h
    ensures s < |ps| && 0 <= ps[s].index < |v| && ps[s].index != h && ps[s] == sorted[s]
    ensures ps[s].angle == Direction(v[h], v[ps[s].index])
    ensures Nearer(v[h], v[i], v[ps[s].index])
  {
    hide Cross, Norm, Nearer, Survivors, SortedByAngle;
    var p := Polar(Direction(v[h], v[i]), i);
    assert p in sorted;
    var k :| 0 <= k < |sorted| && sorted[k] == p;
    assert RepresentedAt(v, h, sorted, ps, |ps|, k);
    s :| 0 <= s < |ps| && 0 <= ps[s].index < |v| && Nearer(v[h], v[i], v[ps[s].index]);
    assert ps[s] == sorted[s];
  }

  /** The first survivor lies on the anchor exactly when the anchor has a twin and nothing else is level with it. */
  lemma FirstSurvivorIsTwin(v: seq<Point>, h: nat, sorted: seq<Polar>, ps: seq<Polar>, u: nat, a: nat)
    requires IsAnchor(v, h) && Thinned(v, h, sorted, ps, |ps|, u) && Candidates(v, h, sorted)
    requires a < |ps| && 0 <= ps[a].index < |v| && forall k :: 0 <= k < a ==> ps[k].index == -1
    ensures v[ps[a].index] == v[h] <==> TwinAnchor(v, h)
  {
    hide Cross, Norm;
    assert ps[a] == sorted[a];
    var o, p := v[h], v[ps[a].index];
    DirectionsUpperHalf(v, h, p);
    if p == o {
      forall i | 0 <= i < |v| && v[i].y == o.y ensures v[i] == o {
        if i != h {
          var s := Survivor(v, h, sorted, ps, u, i);
          DirectionsUpperHalf(v, h, v[i]);
          DirectionsUpperHalf(v, h, v[ps[s].index]);
          LevelNearer(o, v[i], v[ps[s].index]);
          if s != a {
            assert AngleBefore(ps[a].angle, ps[s].angle);
            LevelNotAfter(o, v[ps[s].index]);
            assert false;
          }
          NearerTwin(o, v[i]);
        }
      }
    } else if TwinAnchor(v, h) {
      var i :| 0 <= i < |v| && i != h && v[i] == o;
      var s := Survivor(v, h, sorted, ps, u, i);
      DirectionsUpperHalf(v, h, v[ps[s].index]);
      LevelNearer(o, v[i], v[ps[s].index]);
      assert v[ps[s].index] == o;
      assert s != a && AngleBefore(ps[a].angle, ps[s].angle);
      NothingBeforeZero(ps[a].angle);
      assert false;
    }
  }

  lemma NothingBeforeZero(d: Point)
    requires UpperHalf(d)
    ensures !AngleBefore(d, Point(1.0, 0.0))
  {
  }

  lemma LevelNearer(o: Point, p: Point, q: Point)
    requires p.y == o.y && Nearer(o, p, q) && UpperHalf(Direction(o, p)) && UpperHalf(Direction(o, q))
    ensures q.y == o.y
  {
  }

  lemma LevelNotAfter(o: Point, q: Point)
    requires q.y == o.y
    ensures !AngleBefore(Point(1.0, 0.0), Direction(o, q))
  {
  }

  lemma NearerTwin(o: Point, p: Point)
    requires Nearer(o, p, o)
    ensures p == o
  {
    hide SameAngle;
    var a, b := p.x - o.x, p.y - o.y;
    assert Norm(o, p) == a * a + b * b && Norm(o, o) == 0.0;
    SquaresVanish(a, b);
  }

  lemma ScalingUp(t: real, n: real)
    requires t > 1.0 && n > 0.0
    ensures t * (t * n) > n
  {
    assert t * n > n;
    assert t * (t * n) > t * n;
  }

  /** A point between o and q is on the left of every line that has o and q on its left. */
  lemma NearerIsLeft(o: Point, p: Point, q: Point, e: Point, f: Point)
    requires Nearer(o, p, q) && UpperHalf(Direction(o, p)) && UpperHalf(Direction(o, q))
    requires Cross(e, f, o) >= 0.0 && Cross(e, f, q) >= 0.0
    ensures Cross(e, f, p) >= 0.0
  {
    hide Cross, Norm;
    if p != o && q != o {
      var t := Proportion(o, p, q);
      CrossIsAffine(o, p, q, e, f, t);
      PositiveMultiple(1.0, Cross(e, f, p), 1.0 - t, Cross(e, f, o), t, Cross(e, f, q), 0.0, 0.0);
    } else if q == o && p != o {
      NearerTwin(o, p);
    }
  }

  lemma Proportion(o: Point, p: Point, q: Point) returns (t: real)
    requires p != o && q != o && Nearer(o, p, q) && UpperHalf(Direction(o, p)) && UpperHalf(Direction(o, q))
    ensures 0.0 <= t <= 1.0 && p.x - o.x == t * (q.x - o.x) && p.y - o.y == t * (q.y - o.y)
  {
    t := SameDirection(p.x - o.x, p.y - o.y, q.x - o.x, q.y - o.y);
    ShorterMultiple(t, q.x - o.x, q.y - o.y);
  }

  lemma SameDirection(px: real, py: real, qx: real, qy: real) returns (t: real)
    requires px * qy == py * qx && UpperHalf(Point(px, py)) && UpperHalf(Point(qx, qy))
    ensures t >= 0.0 && px == t * qx && py == t * qy
  {
    if qy > 0.0 {
      t := py / qy;
      assert py == t * qy;
      assert px * qy == (t * qx) * qy;
    } else {
      t := px / qx;
    }
  }

  lemma ShorterMultiple(t: real, a: real, b: real)
    requires t >= 0.0 && (t * a) * (t * a) + (t * b) * (t * b) <= a * a + b * b && (a != 0.0 || b != 0.0)
    ensures t <= 1.0
  {
    var n := a * a + b * b;
    assert (t * a) * (t * a) + (t * b) * (t * b) == t * (t * n);
    if n <= 0.0 {
      SquaresVanish(a, b);
    } else if t > 1.0 {
      ScalingUp(t, n);
    }
  }

  lemma DoubledStart(c: seq<Point>, w: Point)
    requires |c| >= 2 && LeftOfEdges(c[1..], w) && c[0] == c[1]
    ensures LeftOfEdges(c, w)
  {
    forall i | 0 <= i < |c| ensures Cross(c[i], Next(c, i), w) >= 0.0 {
      CrossTurns(c[0], c[0], w);
      if i > 0 {
        assert Cross(c[1..][i - 1], Next(c[1..], i - 1), w) >= 0.0;
      }
    }
  }

  /** Every input point is on or left of every edge of the chain that the scan leaves. */
  lemma ChainContains(v: seq<Point>, h: nat, sorted: seq<Polar>, ps: seq<Polar>, u: nat, c: seq<Point>, i: nat)
    requires IsAnchor(v, h) && Thinned(v, h, sorted, ps, |ps|, u) && Candidates(v, h, sorted)
    requires Scanned(v, v[h], ps, |ps|, c) && StrictlyConvex(c) && i < |v|
    ensures LeftOfEdges(c, v[i])
  {
    hide Cross, StrictlyConvex, LeftTurns, Thinned;
    VertexLeftOfEdges(c, 0);
    if i != h {
      var s := Survivor(v, h, sorted, ps, u, i);
      var q := v[ps[s].index];
      assert SurvivorAt(v, ps, |ps|, q);
      InsideIsLeftOfEdges(c, q);
      DirectionsUpperHalf(v, h, v[i]);
      DirectionsUpperHalf(v, h, q);
      forall j | 0 <= j < |c| ensures Cross(c[j], Next(c, j), v[i]) >= 0.0 {
        NearerIsLeft(v[h], v[i], q, c[j], Next(c, j));
      }
    }
  }

  lemma SortedCandidates(v: seq<Point>, h: nat, points: seq<Polar>, sorted: seq<Polar>)
    requires h < |v| && Candidates(v, h, points) && multiset(sorted) == multiset(points)
    ensures Candidates(v, h, sorted) && |sorted| == |points|
  {
    assert |multiset(sorted)| == |sorted| && |multiset(points)| == |points|;
    assert forall p :: p in sorted <==> p in multiset(sorted);
    assert forall p :: p in points <==> p in multiset(points);
    forall k | 0 <= k < |sorted| ensures IsCandidate(v, h, sorted[k]) {
      assert sorted[k] in points;
    }
  }

  lemma Conclude(v: seq<Point>, h: nat, sorted: seq<Polar>, ps: seq<Polar>, u: nat, c: seq<Point>, twin: bool)
    requires IsAnchor(v, h) && Thinned(v, h, sorted, ps, |ps|, u) && Candidates(v, h, sorted)
    requires |c| >= 3 && c[0] == v[h] && Scanned(v, v[h], ps, |ps|, if twin then c[1..] else c)
    ensures forall i :: 0 <= i < |v| ==> LeftOfEdges(c, v[i])
    ensures StrictlyConvex(c) <==> !twin
    ensures twin ==> c[1] == c[0] && StrictlyConvex(c[1..])
  {
    hide Cross, Thinned, LeftTurns, StrictlyConvex, LeftOfEdges;
    var d := if twin then c[1..] else c;
    ChainIsStrictlyConvex(d);
    forall i | 0 <= i < |v| ensures LeftOfEdges(c, v[i]) {
      ChainContains(v, h, sorted, ps, u, d, i);
      if twin {
        DoubledStart(c, v[i]);
      }
    }
    if twin {
      assert c[1] == c[0];
      DoubledIsNotConvex(c);
    }
  }

  lemma DoubledIsNotConvex(c: seq<Point>)
    requires |c| >= 3 && c[0] == c[1]
    ensures !StrictlyConvex(c)
  {
    CrossTurns(c[0], c[1], c[2]);
    assert Cross(c[0], c[1], c[2]) == 0.0;
  }

  /**
   * What d3.geom.hull owes for three points or more: a TypeError exactly when a single angle is seen from the anchor,
   * and otherwise a polygon of input points that starts at the anchor and has every input point on or left of every edge.
   * It is strictly convex exactly when the anchor has no twin that is left alone at angle 0. With such a twin it has the
   * anchor twice in front, and is strictly convex without one of the two.
   */
  ghost predicate IsHull(v: seq<Point>, h: nat, r: Outcome)
    requires h < |v|
  {
    && (r.TypeError? <==> OneAngle(v, h))
    && (r.Polygon? ==>
      && |r.points| >= 3 && r.points[0] == v[h] && (forall p :: p in r.points ==> p in v)
      && (forall i :: 0 <= i < |v| ==> LeftOfEdges(r.points, v[i]))
      && (StrictlyConvex(r.points) <==> !TwinAnchor(v, h))
      && (TwinAnchor(v, h) ==> r.points[1] == r.points[0] && StrictlyConvex(r.points[1..])))
  }

  /** The anchor at its first position: the lowest point, leftmost among the lowest. */
  ghost predicate IsFirstAnchor(v: seq<Point>, h: nat) {
    IsAnchor(v, h) && forall i :: 0 <= i < h ==> v[i] != v[h]
  }

  /** What the method answers for three points or more. */
  ghost predicate Answers(v: seq<Point>, r: Outcome) {
    exists h: nat :: IsFirstAnchor(v, h) && IsHull(v, h, r)
  }

  method Hull(v: seq<Point>) returns (r: Outcome)
    ensures |v| < 3 ==> r == Polygon([])
    ensures |v| >= 3 ==> Answers(v, r)
  {
    hide Cross, Norm, Thinned, Scanned, TwinAnchor, OneAngle;
    if |v| < 3 {
      return Polygon([]);
    }
    var h := FindAnchor(v);
    var points := PolarPoints(v, h);
    forall k | 0 <= k < |points| ensures UpperHalf(points[k].angle) {
      DirectionsUpperHalf(v, h, v[points[k].index]);
    }
    var sorted := SortByAngle(points);
    SortedCandidates(v, h, points, sorted);
    var ps := DropNearer(v, h, sorted);
    ghost var u: nat :| Thinned(v, h, sorted, ps, |ps|, u);
    ghost var a: nat;
    r, a := Scan(v, h, sorted, ps, u);
    OneSurvivorIffOneAngle(v, h, sorted, ps, u);
    if r.Polygon? {
      FirstSurvivorIsTwin(v, h, sorted, ps, u, a);
      Conclude(v, h, sorted, ps, u, r.points, v[ps[a].index] == v[h]);
    }
    assert IsFirstAnchor(v, h) && IsHull(v, h, r);
  }

  ghost predicate Collinear(v: seq<Point>) {
    forall i, j, k :: 0 <= i < |v| && 0 <= j < |v| && 0 <= k < |v| ==> Cross(v[i], v[j], v[k]) == 0.0
  }

  /** Points seen at one angle from an anchor without a twin are the collinear ones. */
  lemma {:induction false} OneAngleIffCollinear(v: seq<Point>, h: nat)
    requires IsAnchor(v, h) && forall i :: 0 <= i < |v| && i != h ==> v[i] != v[h]
    ensures OneAngle(v, h) <==> Collinear(v)
  {
    if Collinear(v) {
      forall i, j | 0 <= i < |v| && 0 <= j < |v| && i != h && j != h
        ensures SameAngle(Direction(v[h], v[i]), Direction(v[h], v[j]))
      {
        assert Cross(v[h], v[i], v[j]) == 0.0;
      }
    }
    if OneAngle(v, h) {
      forall i, j | 0 <= i < |v| && 0 <= j < |v| ensures Cross(v[h], v[i], v[j]) == 0.0 {
        if i != h && j != h {
          assert SameAngle(Direction(v[h], v[i]), Direction(v[h], v[j]));
        }
      }
      forall i, j, k | 0 <= i < |v| && 0 <= j < |v| && 0 <= k < |v| ensures Cross(v[i], v[j], v[k]) == 0.0 {
        assert Cross(v[i], v[j], v[k]) == Cross(v[h], v[i], v[j]) + Cross(v[h], v[j], v[k]) - Cross(v[h], v[i], v[k]);
      }
    }
  }

  /** Distinct points that are not all collinear get a strictly convex polygon around them. */
  lemma HullOfDistinctPoints(v: seq<Point>, r: Outcome)
    requires |v| >= 3 && Answers(v, r)
    requires (forall i, j :: 0 <= i < j < |v| ==> v[i] != v[j]) && !Collinear(v)
    ensures r.Polygon? && StrictlyConvex(r.points) && forall i :: 0 <= i < |v| ==> LeftOfEdges(r.points, v[i])
  {
    hide StrictlyConvex, LeftOfEdges, OneAngle, Cross;
    var h: nat :| IsFirstAnchor(v, h) && IsHull(v, h, r);
    forall i | 0 <= i < |v| && i != h ensures v[i] != v[h] {
    }
    OneAngleIffCollinear(v, h);
  }

  const LINE := [Point(0.0, 0.0), Point(1.0, 0.0), Point(2.0, 0.0)]

  /** Three points on a line make the source read past its candidates. */
  lemma LineFails(r: Outcome)
    requires Answers(LINE, r)
    ensures r.TypeError?
  {
    hide StrictlyConvex, LeftOfEdges, TwinAnchor, OneAngle, NotBelow;
    var h: nat :| IsFirstAnchor(LINE, h) && IsHull(LINE, h, r);
    LineAnchor(h);
    LineAngles();
  }

  lemma LineAnchor(h: nat)
    requires IsFirstAnchor(LINE, h)
    ensures h == 0
  {
    assert NotBelow(LINE[h], LINE[0]);
  }

  lemma LineAngles()
    ensures OneAngle(LINE, 0)
  {
    hide SameAngle, Direction;
    forall i, j | 0 <= i < 3 && 0 <= j < 3 && i != 0 && j != 0
      ensures SameAngle(Direction(LINE[0], LINE[i]), Direction(LINE[0], LINE[j]))
    {
      LevelDirections(LINE[i].x, LINE[j].x);
    }
  }

  lemma LevelDirections(a: real, b: real)
    requires a > 0.0 && b > 0.0
    ensures SameAngle(Direction(Point(0.0, 0.0), Point(a, 0.0)), Direction(Point(0.0, 0.0), Point(b, 0.0)))
  {}

  const TWINS := [Point(0.0, 0.0), Point(0.0, 0.0), Point(1.0, 1.0), Point(-1.0, 1.0)]

  /** A doubled lowest point with two points above it is doubled in the answer. */
  lemma TwinIsDoubled(r: Outcome)
    requires Answers(TWINS, r)
    ensures r.Polygon? && r.points[0] == r.points[1] == Point(0.0, 0.0)
    ensures !StrictlyConvex(r.points) && StrictlyConvex(r.points[1..])
  {
    hide StrictlyConvex, LeftOfEdges, TwinAnchor, OneAngle, NotBelow;
    var h: nat :| IsFirstAnchor(TWINS, h) && IsHull(TWINS, h, r);
    TwinsAnchor(h);
    TwinsAngles();
  }

  lemma TwinsAnchor(h: nat)
    requires IsFirstAnchor(TWINS, h)
    ensures h == 0 && TwinAnchor(TWINS, h)
  {
    assert NotBelow(TWINS[h], TWINS[0]);
    assert TWINS[h] == TWINS[0];
    assert TWINS[1] == TWINS[0];
  }

  lemma TwinsAngles()
    ensures !OneAngle(TWINS, 0)
  {
    hide SameAngle, Direction;
    DiagonalDirections();
    assert !SameAngle(Direction(TWINS[0], TWINS[2]), Direction(TWINS[0], TWINS[3]));
  }

  lemma DiagonalDirections()
    ensures !SameAngle(Direction(Point(0.0, 0.0), Point(1.0, 1.0)), Direction(Point(0.0, 0.0), Point(-1.0, 1.0)))
  {
    var o, p, q := Point(0.0, 0.0), Point(1.0, 1.0), Point(-1.0, 1.0);
    assert Direction(o, p) == p && Direction(o, q) == q;
    hide Direction;
    assert Cross(ORIGIN, p, q) == 2.0;
    hide Cross;
  }
}
