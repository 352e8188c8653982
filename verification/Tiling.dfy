/** Half-open rectangles, and what it means for a list of them to tile another one exactly. */
module Tiling {
  import opened Sequences

  datatype Rect = Rect(x: real, y: real, dx: real, dy: real)

  predicate NonNegative(r: Rect) {
    r.dx >= 0.0 && r.dy >= 0.0
  }

  /** The point (px, py) belongs to the half-open rectangle r. */
  predicate In(r: Rect, px: real, py: real) {
    r.x <= px < r.x + r.dx && r.y <= py < r.y + r.dy
  }

  predicate NoPoints(r: Rect) {
    r.dx == 0.0 || r.dy == 0.0
  }

  predicate Within(b: Rect, r: Rect) {
    r.x <= b.x && b.x + b.dx <= r.x + r.dx && r.y <= b.y && b.y + b.dy <= r.y + r.dy
  }

  ghost predicate Covered(boxes: seq<Rect>, px: real, py: real) {
    exists i :: 0 <= i < |boxes| && In(boxes[i], px, py)
  }

  ghost predicate Disjoint(a: Rect, b: Rect) {
    forall px, py :: !(In(a, px, py) && In(b, px, py))
  }

  /** The boxes lie within r, no two of them share a point, and every point of r is in one. */
  ghost predicate Tiles(boxes: seq<Rect>, r: Rect) {
    && (forall i :: 0 <= i < |boxes| ==> NonNegative(boxes[i]) && Within(boxes[i], r))
    && (forall i, j :: 0 <= i < j < |boxes| ==> Disjoint(boxes[i], boxes[j]))
    && (forall px, py :: In(r, px, py) ==> Covered(boxes, px, py))
  }

  /** Tiling a tile: one of the boxes may be replaced by a tiling of its own. */
  lemma Refine(a: seq<Rect>, r: Rect, c: seq<Rect>, b: seq<Rect>, whole: Rect)
    requires Tiles(a + [r] + c, whole) && Tiles(b, r)
    ensures Tiles(a + b + c, whole)
  {
    var was, now, n, m := a + [r] + c, a + b + c, |a|, |b|;
    assert was[n] == r;
    forall i | 0 <= i < |now| ensures NonNegative(now[i]) && Within(now[i], whole) {
      assert i < n ==> now[i] == was[i];
      assert i >= n + m ==> now[i] == was[i - m + 1];
    }
    forall i, j | 0 <= i < j < |now| ensures Disjoint(now[i], now[j]) {
      var k := if i < n then i else if i < n + m then n else i - m + 1;
      var l := if j < n then j else if j < n + m then n else j - m + 1;
      if k == l {
        assert Disjoint(b[i - n], b[j - n]);
      } else {
        assert Disjoint(was[k], was[l]);
        assert Within(now[i], was[k]) && Within(now[j], was[l]);
        WithinIn(now[i], was[k]);
        WithinIn(now[j], was[l]);
      }
    }
    forall px, py | In(whole, px, py) ensures Covered(now, px, py) {
      var i :| 0 <= i < |was| && In(was[i], px, py);
      if i == n {
        var j :| 0 <= j < m && In(b[j], px, py);
        assert In(now[n + j], px, py);
      } else {
        assert In(now[if i < n then i else i + m - 1], px, py);
      }
    }
  }

  lemma WithinIn(b: Rect, r: Rect)
    requires Within(b, r)
    ensures forall px, py :: In(b, px, py) ==> In(r, px, py)
  {
  }

  /** A last box without points may be dropped. */
  lemma DropEmpty(a: seq<Rect>, r: Rect, whole: Rect)
    requires Tiles(a + [r], whole) && NoPoints(r)
    ensures Tiles(a, whole)
  {
    var c := a + [r];
    forall i | 0 <= i < |a| ensures NonNegative(a[i]) && Within(a[i], whole) {
      assert a[i] == c[i];
    }
    forall i, j | 0 <= i < j < |a| ensures Disjoint(a[i], a[j]) {
      assert Disjoint(c[i], c[j]);
    }
    forall px, py | In(whole, px, py) ensures Covered(a, px, py) {
      var i :| 0 <= i < |c| && In(c[i], px, py);
      assert i < |a|;
      assert In(a[i], px, py);
    }
  }

  lemma TilesReversed(boxes: seq<Rect>, r: Rect)
    requires Tiles(Reversed(boxes), r)
    ensures Tiles(boxes, r)
  {
    var v, n := Reversed(boxes), |boxes|;
    forall i | 0 <= i < n ensures NonNegative(boxes[i]) && Within(boxes[i], r) {
      assert boxes[i] == v[n - 1 - i];
    }
    forall i, j | 0 <= i < j < n ensures Disjoint(boxes[i], boxes[j]) {
      assert Disjoint(v[n - 1 - j], v[n - 1 - i]);
    }
    forall px, py | In(r, px, py) ensures Covered(boxes, px, py) {
      var i :| 0 <= i < n && In(v[i], px, py);
      assert In(boxes[n - 1 - i], px, py);
    }
  }

  // ---------------------------------------------------------------- strips

  /** Consecutive intervals, of lengths len, that fill [from, to). */
  ghost predicate Fills(at: seq<real>, len: seq<real>, from: real, to: real) {
    && |at| == |len| > 0 && at[0] == from && at[|at| - 1] + len[|at| - 1] == to
    && (forall i :: 0 <= i < |len| ==> len[i] >= 0.0)
    && (forall i, j :: 0 <= i < j < |at| ==> Before(at, len, i, j))
    && (forall i :: 0 <= i < |at| - 1 ==> Adjacent(at, len, i))
  }

  ghost predicate Before(at: seq<real>, len: seq<real>, i: nat, j: nat)
    requires i < |at| == |len| && j < |at|
  {
    at[i] + len[i] <= at[j]
  }

  ghost predicate Adjacent(at: seq<real>, len: seq<real>, i: nat)
    requires i < |at| - 1 && |at| == |len|
  {
    at[i] + len[i] == at[i + 1]
  }

  /** Every p in [from, to) falls into one of the intervals. */
  lemma {:induction false} FillsCover(at: seq<real>, len: seq<real>, from: real, to: real, p: real, n: nat) returns (k: nat)
    requires Fills(at, len, from, to) && from <= p && n < |at| && p < at[n] + len[n]
    ensures k <= n && at[k] <= p < at[k] + len[k]
  {
    if at[n] <= p {
      k := n;
    } else {
      assert Adjacent(at, len, n - 1);
      k := FillsCover(at, len, from, to, p, n - 1);
    }
  }

  /** The boxes of a strip of height v along the top of r, or of width v along its left side, and what it leaves. */
  function StripBox(r: Rect, across: bool, v: real, at: real, len: real): Rect {
    if across then Rect(at, r.y, len, v) else Rect(r.x, at, v, len)
  }

  function Rest(r: Rect, across: bool, v: real): Rect {
    if across then Rect(r.x, r.y + v, r.dx, r.dy - v) else Rect(r.x + v, r.y, r.dx - v, r.dy)
  }

  lemma StripTiles(r: Rect, across: bool, v: real, at: seq<real>, len: seq<real>, boxes: seq<Rect>)
    requires NonNegative(r) && 0.0 <= v <= (if across then r.dy else r.dx)
    requires Fills(at, len, if across then r.x else r.y, if across then r.x + r.dx else r.y + r.dy)
    requires |boxes| == |at| && forall i :: 0 <= i < |at| ==> boxes[i] == StripBox(r, across, v, at[i], len[i])
    ensures Tiles(boxes + [Rest(r, across, v)], r)
  {
    var n, all := |at|, boxes + [Rest(r, across, v)];
    forall i | 0 <= i < |all| ensures NonNegative(all[i]) && Within(all[i], r) {
      if i < n {
        assert 0 < i ==> Before(at, len, 0, i);
        assert i < n - 1 ==> Before(at, len, i, n - 1);
      }
    }
    forall i, j | 0 <= i < j < |all| ensures Disjoint(all[i], all[j]) {
      assert j < n ==> Before(at, len, i, j);
    }
    forall px, py | In(r, px, py) ensures Covered(all, px, py) {
      if In(Rest(r, across, v), px, py) {
        assert In(all[n], px, py);
      } else {
        var k := FillsCover(at, len, if across then r.x else r.y, if across then r.x + r.dx else r.y + r.dy,
                            if across then px else py, n - 1);
        assert In(all[k], px, py);
      }
    }
  }
}
