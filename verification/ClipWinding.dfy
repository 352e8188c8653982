/** How often a clipped polygon, of whatever shape, winds around a point: as often as the subject, or not at all. */
module ClipWinding {
  import opened Plane
  import opened Reals
  import opened Clip
  import opened ClipRegion

  // ---------------------------------------------------------------- winding numbers

  /** Whether v is above the ray that goes from p to the right. */
  function Up(v: Point, p: Point): int {
    if v.y > p.y then 1 else 0
  }

  /** How the edge from c to d crosses that ray: 1 upwards, -1 downwards, 0 not at all. */
  function Turn(c: Point, d: Point, p: Point): int {
    if c.y <= p.y < d.y && Cross(c, d, p) > 0.0 then 1
    else if d.y <= p.y < c.y && Cross(c, d, p) < 0.0 then -1
    else 0
  }

  /** The crossings of the first n edges of the closed polygon s. */
  function Turns(s: seq<Point>, p: Point, n: nat): int
    requires n <= |s|
  {
    if n == 0 then 0 else Turns(s, p, n - 1) + Turn(Prev(s, n - 1), s[n - 1], p)
  }

  /** The winding number of s around p: how often its edges cross the ray upwards, less how often downwards. */
  function Winding(s: seq<Point>, p: Point): int {
    Turns(s, p, |s|)
  }

  // ---------------------------------------------------------------- parts of an edge

  /** A point of an edge divides its crossings. */
  lemma TurnSplits(c: Point, x: Point, d: Point, p: Point, t: real)
    requires 0.0 <= t <= 1.0 && x == Along(c, d, t)
    ensures Turn(c, d, p) == Turn(c, x, p) + Turn(x, d, p)
  {
    hide Cross, Along;
    PieceSigns(c, x, d, p, t);
    EndsOf(c, d, t);
    HeightBetween(c, x, d, t);
  }

  /** Both parts of an edge have p on the side where the edge has it. */
  lemma PieceSigns(c: Point, x: Point, d: Point, p: Point, t: real)
    requires 0.0 <= t <= 1.0 && x == Along(c, d, t)
    ensures t > 0.0 ==> (Cross(c, x, p) > 0.0 <==> Cross(c, d, p) > 0.0) && (Cross(c, x, p) < 0.0 <==> Cross(c, d, p) < 0.0)
    ensures t < 1.0 ==> (Cross(x, d, p) > 0.0 <==> Cross(c, d, p) > 0.0) && (Cross(x, d, p) < 0.0 <==> Cross(c, d, p) < 0.0)
  {
    ScaledEdge(c, d, x, t, p);
    ScaleIsTimes(t, Cross(c, d, p));
    ScaleIsTimes(1.0 - t, Cross(c, d, p));
    hide Cross, Times;
    SignOfTimes(t, Cross(c, d, p));
    SignOfTimes(1.0 - t, Cross(c, d, p));
  }

  lemma ScaleIsTimes(t: real, k: real)
    ensures t * k == Times(t, k)
  {}

  lemma SignOfTimes(t: real, k: real)
    ensures t > 0.0 ==> (Times(t, k) > 0.0 <==> k > 0.0) && (Times(t, k) < 0.0 <==> k < 0.0)
  {
    TimesSign(t, k);
    if t > 0.0 {
      TimesOrder(t, k);
    }
    hide Times;
  }

  lemma HeightBetween(c: Point, x: Point, d: Point, t: real)
    requires 0.0 <= t <= 1.0 && x == Along(c, d, t)
    ensures c.y <= x.y <= d.y || d.y <= x.y <= c.y
  {
    MeanBetween(c.y, d.y, t);
    assert x.y == Mean(c.y, d.y, t);
    hide Mean;
  }

  lemma MeanBetween(k: real, l: real, t: real)
    requires 0.0 <= t <= 1.0
    ensures k <= Mean(k, l, t) <= l || l <= Mean(k, l, t) <= k
  {
    MeanSign(0.0, l - k, t);
    MeanSign(k - l, 0.0, t);
    MeanShifts(k, l, t);
    hide Mean;
  }

  lemma MeanShifts(k: real, l: real, t: real)
    ensures Mean(0.0, l - k, t) == Mean(k, l, t) - k && Mean(k - l, 0.0, t) == Mean(k, l, t) - l
  {}

  lemma EndsOf(c: Point, d: Point, t: real)
    ensures t == 0.0 ==> Along(c, d, t) == c
    ensures t == 1.0 ==> Along(c, d, t) == d
  {}

  // ---------------------------------------------------------------- on the other side of a line

  /**
   * What a way from v to w on the far side of the line (a, b) crosses of the ray from a point p on its inner side: the ray
   * meets the far side or does not, and so only the ends of the way count.
   */
  function FarTurn(a: Point, b: Point, v: Point, w: Point, p: Point): int {
    if b.y < a.y then Up(w, p) - Up(v, p) else 0
  }

  lemma FarChain(a: Point, b: Point, u: Point, v: Point, w: Point, p: Point)
    ensures FarTurn(a, b, u, v, p) + FarTurn(a, b, v, w, p) == FarTurn(a, b, u, w, p)
    ensures FarTurn(a, b, u, u, p) == 0
  {}

  /** On the far side of a line from p, an edge crosses the ray as its ends lie: nothing turns around p there. */
  lemma TurnFar(a: Point, b: Point, c: Point, d: Point, p: Point)
    requires Cross(a, b, p) < 0.0 && Cross(a, b, c) >= 0.0 && Cross(a, b, d) >= 0.0
    ensures Turn(c, d, p) == FarTurn(a, b, c, d, p)
  {
    if c.y <= p.y < d.y {
      var t := Level(c, d, p);
      FarCrossing(a, b, c, d, p, t);
    } else if d.y <= p.y < c.y {
      var t := Level(d, c, p);
      FarCrossing(a, b, d, c, p, t);
      CrossTurns(c, d, p);
    }
    hide Cross;
  }

  /** Where an edge comes to the height of p. */
  lemma Level(c: Point, d: Point, p: Point) returns (t: real)
    requires c.y <= p.y < d.y
    ensures 0.0 <= t <= 1.0 && c.y + t * (d.y - c.y) == p.y
  {
    if c.y == p.y {
      t := 0.0;
    } else {
      t := PartOf(p.y - c.y, d.y - c.y);
    }
  }

  lemma FarCrossing(a: Point, b: Point, c: Point, d: Point, p: Point, t: real)
    requires Cross(a, b, p) < 0.0 && Cross(a, b, c) >= 0.0 && Cross(a, b, d) >= 0.0
    requires 0.0 <= t <= 1.0 && c.y < d.y && c.y + t * (d.y - c.y) == p.y
    ensures if b.y < a.y then Cross(c, d, p) > 0.0 else Cross(c, d, p) < 0.0
  {
    var x := Along(c, d, t);
    CrossMean(a, b, c, d, t);
    MeanSign(Cross(a, b, c), Cross(a, b, d), t);
    LevelShift(a, b, p, x);
    SideOfLevel(c, d, p, t);
    hide Cross, Mean, Times, Along;
    SignsAgree(a.y - b.y, x.x - p.x, d.y - c.y);
  }

  lemma LevelShift(a: Point, b: Point, p: Point, x: Point)
    requires x.y == p.y
    ensures Cross(a, b, x) - Cross(a, b, p) == Times(a.y - b.y, x.x - p.x)
  {}

  lemma SideOfLevel(c: Point, d: Point, p: Point, t: real)
    requires c.y + t * (d.y - c.y) == p.y
    ensures Cross(c, d, p) == Times(d.y - c.y, Along(c, d, t).x - p.x)
  {
    assert (d.x - c.x) * (p.y - c.y) == (t * (d.x - c.x)) * (d.y - c.y);
  }

  lemma SignsAgree(w: real, x: real, h: real)
    requires Times(w, x) > 0.0 && h > 0.0
    ensures if w > 0.0 then Times(h, x) > 0.0 else Times(h, x) < 0.0
  {
    hide Times;
    TimesSign(w, x);
    TimesNegative(w, x);
    SignOfTimes(h, x);
  }

  lemma TimesNegative(w: real, x: real)
    ensures (w > 0.0 && x < 0.0) || (w < 0.0 && x > 0.0) ==> Times(w, x) < 0.0
    ensures x == 0.0 ==> Times(w, x) == 0.0
  {
    if w > 0.0 {
      TimesOrder(w, x);
    } else if w < 0.0 && x > 0.0 {
      PositiveProduct(-w, x);
    }
  }

  // ---------------------------------------------------------------- one clip edge

  /** The crossings between neighbours of an open chain. */
  function Path(s: seq<Point>, p: Point): int {
    if |s| <= 1 then 0 else Path(s[..|s| - 1], p) + Turn(s[|s| - 2], s[|s| - 1], p)
  }

  /** From c to g, the next point that is put out: along the edge if c is inside, else on the far side. */
  function Lead(c: Point, g: Point, a: Point, b: Point, p: Point): int {
    if Inside(c, a, b) then Turn(c, g, p) else FarTurn(a, b, c, g, p)
  }

  lemma FarSide(c: Point, a: Point, b: Point)
    ensures Inside(c, a, b) <==> Cross(a, b, c) < 0.0
  {
    Denominator(c, c, a, b);
  }

  lemma CrossingOnEdge(c: Point, d: Point, a: Point, b: Point) returns (t: real)
    requires Inside(c, a, b) != Inside(d, a, b)
    ensures 0.0 <= t <= 1.0 && Intersect(c, d, a, b) == Along(c, d, t) && Cross(a, b, Intersect(c, d, a, b)) == 0.0
  {
    hide Cross, Inside, Intersect;
    t := Crossing(c, d, a, b);
  }

  /** The crossings of an edge, by what it puts out. */
  lemma EdgeTurns(c: Point, d: Point, a: Point, b: Point, p: Point)
    requires Inside(p, a, b)
    ensures var now := Emit(c, d, a, b);
      if now == [] then Turn(c, d, p) == FarTurn(a, b, c, d, p) && !Inside(c, a, b) && !Inside(d, a, b)
      else Turn(c, d, p) ==
           Lead(c, now[0], a, b, p) + Path(now, p) + FarTurn(a, b, now[|now| - 1], d, p)
  {
    hide Inside, Intersect, Cross, Turn, FarTurn, Along;
    FarSide(p, a, b);
    FarSide(c, a, b);
    FarSide(d, a, b);
    if Inside(c, a, b) != Inside(d, a, b) {
      var x := Intersect(c, d, a, b);
      var t := CrossingOnEdge(c, d, a, b);
      TurnSplits(c, x, d, p, t);
      if Inside(c, a, b) {
        TurnFar(a, b, x, d, p);
      } else {
        TurnFar(a, b, c, x, p);
        PathOfTwo(x, d, p);
        FarChain(a, b, d, d, d, p);
      }
    } else if Inside(c, a, b) {
      FarChain(a, b, d, d, d, p);
    } else {
      TurnFar(a, b, c, d, p);
    }
  }

  lemma PathOfTwo(x: Point, d: Point, p: Point)
    ensures Path([x, d], p) == Turn(x, d, p)
  {
    hide Turn;
    assert [x, d][..1] == [x];
  }

  lemma {:induction false} PathJoins(s: seq<Point>, r: seq<Point>, p: Point)
    requires s != [] && r != []
    ensures Path(s + r, p) == Path(s, p) + Turn(s[|s| - 1], r[0], p) + Path(r, p)
    decreases |r|
  {
    hide Turn;
    var q := s + r;
    if |r| == 1 {
      assert q[..|q| - 1] == s;
    } else {
      assert q[..|q| - 1] == s + r[..|r| - 1];
      PathJoins(s, r[..|r| - 1], p);
    }
  }

  /** From the last point put out to the next one, whether along the boundary or along the clip line. */
  lemma JunctionTurn(s: seq<Point>, a: Point, b: Point, p: Point, c: Point, e: Point, g: Point)
    requires Inside(p, a, b) && Reached(s, a, b, c, e) && (!Inside(c, a, b) ==> IsEntry(s, a, b, g))
    ensures Turn(e, g, p) == Lead(c, g, a, b, p) + FarTurn(a, b, e, c, p)
  {
    hide Inside, Intersect, Cross, Turn, FarTurn;
    FarSide(p, a, b);
    if Inside(c, a, b) {
      FarChain(a, b, c, c, c, p);
    } else {
      FarChain(a, b, e, c, g, p);
      var i :| 0 <= i < |s| && ExitAt(s, a, b, e, i);
      var j :| 0 <= j < |s| && EntryAt(s, a, b, g, j);
      var t := CrossingOnEdge(Prev(s, i), s[i], a, b);
      var u := CrossingOnEdge(Prev(s, j), s[j], a, b);
      TurnFar(a, b, e, g, p);
    }
  }

  lemma EmitStarts(s: seq<Point>, a: Point, b: Point, j: nat)
    requires j < |s| && Emit(Prev(s, j), s[j], a, b) != [] && !Inside(Prev(s, j), a, b)
    ensures IsEntry(s, a, b, Emit(Prev(s, j), s[j], a, b)[0])
  {
    hide Inside, Intersect;
    assert EntryAt(s, a, b, Emit(Prev(s, j), s[j], a, b)[0], j);
  }

  /** After n edges: the crossings so far are those of what was put out, and of the far sides that it leaves open. */
  ghost predicate Balanced(s: seq<Point>, a: Point, b: Point, p: Point, n: nat)
    requires 0 < n <= |s|
  {
    var out, last := ClipEdges(s, a, b, n), s[|s| - 1];
    Turns(s, p, n) ==
      if out == [] then FarTurn(a, b, last, s[n - 1], p)
      else Lead(last, out[0], a, b, p) + Path(out, p) + FarTurn(a, b, out[|out| - 1], s[n - 1], p)
  }

  lemma {:induction false} EdgesBalance(s: seq<Point>, a: Point, b: Point, p: Point, n: nat)
    requires 0 < n <= |s| && Inside(p, a, b)
    ensures Balanced(s, a, b, p, n)
  {
    hide Inside, Intersect, Turn, FarTurn, Path, ClipEdges, Emit, Lead, Balanced;
    var c, d := Prev(s, n - 1), s[n - 1];
    ClipStep(s, a, b, n);
    EdgeTurns(c, d, a, b, p);
    if n == 1 {
      FirstBalances(s, a, b, p);
    } else {
      EdgesBalance(s, a, b, p, n - 1);
      ReachedAfter(s, a, b, n - 1);
      if Emit(c, d, a, b) == [] {
        FarBalances(s, a, b, p, n);
      } else if ClipEdges(s, a, b, n - 1) == [] {
        FirstEdge(s, a, b, n - 1);
        NewBalances(s, a, b, p, n);
      } else {
        NextBalances(s, a, b, p, n);
      }
    }
  }

  lemma FirstBalances(s: seq<Point>, a: Point, b: Point, p: Point)
    requires s != [] && Inside(p, a, b)
    ensures Balanced(s, a, b, p, 1)
  {
    hide Inside, Intersect, Turn, FarTurn, Path, ClipEdges, Emit, Lead;
    ClipStep(s, a, b, 1);
    EdgeTurns(Prev(s, 0), s[0], a, b, p);
    assert Turns(s, p, 1) == Turns(s, p, 0) + Turn(Prev(s, 0), s[0], p);
  }

  /** An edge on the far side puts nothing out. */
  lemma FarBalances(s: seq<Point>, a: Point, b: Point, p: Point, n: nat)
    requires 1 < n <= |s| && Inside(p, a, b) && Balanced(s, a, b, p, n - 1)
    requires Emit(s[n - 2], s[n - 1], a, b) == []
    ensures Balanced(s, a, b, p, n)
  {
    hide Inside, Intersect, Turn, FarTurn, Path, ClipEdges, Emit, Lead;
    ClipStep(s, a, b, n);
    EdgeTurns(s[n - 2], s[n - 1], a, b, p);
    var out, last := ClipEdges(s, a, b, n), s[|s| - 1];
    assert out == ClipEdges(s, a, b, n - 1);
    FarChain(a, b, if out == [] then last else out[|out| - 1], s[n - 2], s[n - 1], p);
  }

  /** The first points that are put out, after edges on the far side. */
  lemma NewBalances(s: seq<Point>, a: Point, b: Point, p: Point, n: nat)
    requires 1 < n <= |s| && Inside(p, a, b) && Balanced(s, a, b, p, n - 1)
    requires Emit(s[n - 2], s[n - 1], a, b) != [] && ClipEdges(s, a, b, n - 1) == []
    requires !Inside(s[n - 2], a, b) && !Inside(Prev(s, 0), a, b)
    ensures Balanced(s, a, b, p, n)
  {
    hide Inside, Intersect, Turn, FarTurn, Path, ClipEdges, Emit;
    ClipStep(s, a, b, n);
    EdgeTurns(s[n - 2], s[n - 1], a, b, p);
    assert ClipEdges(s, a, b, n) == Emit(s[n - 2], s[n - 1], a, b);
    FarChain(a, b, s[|s| - 1], s[n - 2], Emit(s[n - 2], s[n - 1], a, b)[0], p);
  }

  /** More points are put out. */
  lemma NextBalances(s: seq<Point>, a: Point, b: Point, p: Point, n: nat)
    requires 1 < n <= |s| && Inside(p, a, b) && Balanced(s, a, b, p, n - 1)
    requires Emit(s[n - 2], s[n - 1], a, b) != [] && ClipEdges(s, a, b, n - 1) != []
    requires Reached(s, a, b, s[n - 2], ClipEdges(s, a, b, n - 1)[|ClipEdges(s, a, b, n - 1)| - 1])
    ensures Balanced(s, a, b, p, n)
  {
    hide Inside, Intersect, Turn, FarTurn, Path, ClipEdges, Emit, Reached, Lead;
    var out, now := ClipEdges(s, a, b, n - 1), Emit(s[n - 2], s[n - 1], a, b);
    ClipStep(s, a, b, n);
    EdgeTurns(s[n - 2], s[n - 1], a, b, p);
    if !Inside(s[n - 2], a, b) {
      EmitStarts(s, a, b, n - 1);
    }
    JunctionTurn(s, a, b, p, s[n - 2], out[|out| - 1], now[0]);
    PathJoins(out, now, p);
  }

  lemma {:induction false} TurnsArePath(s: seq<Point>, p: Point, n: nat)
    requires 0 < n <= |s|
    ensures Turns(s, p, n) == Turn(Prev(s, 0), s[0], p) + Path(s[..n], p)
  {
    hide Turn;
    if n == 1 {
      assert Turns(s, p, 1) == Turns(s, p, 0) + Turn(Prev(s, 0), s[0], p);
    } else {
      TurnsArePath(s, p, n - 1);
      assert s[..n][..n - 1] == s[..n - 1];
    }
  }

  /** Clipping by one edge leaves the winding number around every point strictly inside it. */
  lemma EdgeKeepsWinding(s: seq<Point>, a: Point, b: Point, p: Point)
    requires Inside(p, a, b)
    ensures Winding(ClipEdge(s, a, b), p) == Winding(s, p)
  {
    hide Inside, Intersect, Turn, FarTurn, Path, ClipEdges, Turns, Emit, Reached, Lead;
    var out, n := ClipEdge(s, a, b), |s|;
    if n == 0 {
      NoEdges(s, a, b);
    } else {
      EdgesBalance(s, a, b, p, n);
      ReachedAfter(s, a, b, n);
      if out == [] {
        NoTurns(p);
        FarChain(a, b, s[n - 1], s[n - 1], s[n - 1], p);
      } else {
        FirstPoint(s, a, b, n);
        FirstIsEntry(s, a, b, out[0]);
        JunctionTurn(s, a, b, p, s[n - 1], out[|out| - 1], out[0]);
        TurnsArePath(out, p, |out|);
        assert out[..|out|] == out;
      }
    }
  }

  lemma FirstIsEntry(s: seq<Point>, a: Point, b: Point, f: Point)
    requires s != [] && Starts(s, a, b, f)
    ensures !Inside(s[|s| - 1], a, b) ==> IsEntry(s, a, b, f)
  {}

  lemma NoTurns(p: Point)
    ensures Turns([], p, 0) == 0
  {}

  // ---------------------------------------------------------------- the whole clip

  /** Around a point strictly inside every clip edge, the result winds as often as the subject. */
  lemma {:induction false} ClipKeepsWinding(s: seq<Point>, clip: seq<Point>, n: nat, p: Point)
    requires n <= |clip| && StrictlyInClip(clip, n, p)
    ensures Winding(ClipAll(s, clip, n), p) == Winding(s, p)
  {
    hide Winding, ClipEdge, Inside;
    if n == 0 {
    } else {
      ClipKeepsWinding(s, clip, n - 1, p);
      EdgeKeepsWinding(ClipAll(s, clip, n - 1), Prev(clip, n - 1), clip[n - 1], p);
    }
  }

  /** A polygon on one side of a line does not wind around a point beyond that line. */
  lemma {:induction false} NoWindingBeyond(s: seq<Point>, a: Point, b: Point, p: Point, n: nat)
    requires 0 < n <= |s| && AllOnSide(s, a, b, 1.0) && Cross(a, b, p) > 0.0
    ensures Turns(s, p, n) == FarTurn(b, a, s[|s| - 1], s[n - 1], p)
  {
    hide Cross, Turn, FarTurn;
    var last := s[|s| - 1];
    assert OnSide(a, b, 1.0, s[n - 1]) && OnSide(a, b, 1.0, Prev(s, n - 1));
    CrossTurnsBack(a, b, p);
    CrossTurnsBack(a, b, s[n - 1]);
    CrossTurnsBack(a, b, Prev(s, n - 1));
    TurnFar(b, a, Prev(s, n - 1), s[n - 1], p);
    if n == 1 {
      assert Turns(s, p, 1) == Turns(s, p, 0) + Turn(Prev(s, 0), s[0], p);
    } else {
      FarChain(b, a, last, s[n - 2], s[n - 1], p);
      NoWindingBeyond(s, a, b, p, n - 1);
    }
  }

  lemma CrossTurnsBack(a: Point, b: Point, p: Point)
    ensures Cross(b, a, p) == -Cross(a, b, p)
  {}

  /** Around a point strictly outside a clip edge, the result does not wind. */
  lemma ClipDropsWinding(s: seq<Point>, clip: seq<Point>, n: nat, i: nat, p: Point)
    requires i < n <= |clip| && Cross(Prev(clip, i), clip[i], p) > 0.0
    ensures Winding(ClipAll(s, clip, n), p) == 0
  {
    hide Cross, ClipAll, AllOnSide, FarTurn;
    ClipIsInside(s, clip, n, i);
    var out := ClipAll(s, clip, n);
    if out == [] {
      NoTurns(p);
    } else {
      var last := out[|out| - 1];
      NoWindingBeyond(out, Prev(clip, i), clip[i], p, |out|);
      FarChain(clip[i], Prev(clip, i), last, last, last, p);
    }
  }

  /** p is on the line of none of the first n clip edges. */
  ghost predicate OffLines(clip: seq<Point>, n: nat, p: Point)
    requires n <= |clip|
  {
    forall i :: 0 <= i < n ==> Cross(Prev(clip, i), clip[i], p) != 0.0
  }

  /**
   * Of any subject, clipping leaves exactly the part inside every clip edge: off the lines of the clip edges, the result
   * winds around a point as often as the subject if the point is inside all of them, and otherwise not at all.
   */
  lemma ClippedWinding(s: seq<Point>, clip: seq<Point>, n: nat, p: Point)
    requires n <= |clip| && OffLines(clip, n, p)
    ensures Winding(ClipAll(s, clip, n), p) == if StrictlyInClip(clip, n, p) then Winding(s, p) else 0
  {
    hide Cross, Inside, Winding, ClipAll;
    if StrictlyInClip(clip, n, p) {
      ClipKeepsWinding(s, clip, n, p);
    } else {
      var i :| 0 <= i < n && !Inside(p, Prev(clip, i), clip[i]);
      FarSide(p, Prev(clip, i), clip[i]);
      ClipDropsWinding(s, clip, n, i, p);
    }
  }
}
