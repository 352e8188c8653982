/** How squarify splits children into rows, and where their boxes lie: stated on areas and boxes alone. */
module TreemapRows {
  import opened Wrappers
  import opened Reals
  import opened Strips
  import opened Tiling

  // ---------------------------------------------------------------- how far a row is from the wanted ratio

  /**
   * How far a cell of area a in a strip of depth d is from the wanted ratio of its sides: how many times it is too long for
   * its depth, or too deep for its length, whichever is worse.
   */
  function CellDeviation(a: real, d: real, ratio: real): real
    requires a > 0.0 && d > 0.0 && ratio > 0.0
  {
    var length := a / d;
    Denominators(a, d, ratio);
    Greater(ratio * length / d, d / (ratio * length))
  }

  function Greater(a: real, b: real): real { if a < b then b else a }

  lemma Denominators(a: real, d: real, ratio: real)
    requires a > 0.0 && d > 0.0 && ratio > 0.0
    ensures a / d > 0.0 && ratio * (a / d) > 0.0
  {
    var q := PartOf(a, d);
    PositiveProduct(ratio, q);
  }

  /** The worst cell of a row in a strip of depth d; cells without an area do not count. */
  function WorstCell(areas: seq<real>, d: real, ratio: real): real
    requires d > 0.0 && ratio > 0.0
  {
    if areas == [] then 0.0
    else
      var a, w := areas[|areas| - 1], WorstCell(areas[..|areas| - 1], d, ratio);
      if a > 0.0 then Greater(w, CellDeviation(a, d, ratio)) else w
  }

  /** The deviation of a row along a side of length u; None stands for Infinity. */
  function Deviation(areas: seq<real>, u: real, ratio: real): Option<real>
    requires ratio > 0.0
  {
    var s := Sum(areas);
    if s <= 0.0 || u <= 0.0 then None
    else
      Quotient(s, u);
      Some(WorstCell(areas, s / u, ratio))
  }

  lemma Quotient(s: real, u: real)
    requires s > 0.0 && u > 0.0
    ensures s / u > 0.0
  {
    var q := PartOf(s, u);
  }

  /** One deviation is greater than another. */
  predicate Exceeds(b: Option<real>, a: Option<real>) {
    a.Some? && (b.None? || b.value > a.value)
  }

  // ---------------------------------------------------------------- the score that worst computes

  /**
   * The two directions in which a cell of area a may miss the wanted ratio, in a row whose total area has the square s2
   * along a side whose length has the square u2.
   */
  function TooWide(a: real, s2: real, u2: real, ratio: real): real
    requires s2 > 0.0
  {
    u2 * a * ratio / s2
  }

  function TooTall(a: real, s2: real, u2: real, ratio: real): real
    requires a > 0.0 && u2 > 0.0 && ratio > 0.0
  {
    Denominator(a, u2, ratio);
    s2 / (u2 * a * ratio)
  }

  lemma Denominator(a: real, u2: real, ratio: real)
    requires a > 0.0 && u2 > 0.0 && ratio > 0.0
    ensures u2 * a * ratio > 0.0
  {
    PositiveProduct(u2, a);
    PositiveProduct(u2 * a, ratio);
  }

  lemma Monotone(a: real, b: real, s2: real, u2: real, ratio: real)
    requires 0.0 < a <= b && s2 > 0.0 && u2 > 0.0 && ratio > 0.0
    ensures TooWide(a, s2, u2, ratio) <= TooWide(b, s2, u2, ratio)
    ensures TooTall(b, s2, u2, ratio) <= TooTall(a, s2, u2, ratio)
  {
    Denominator(a, u2, ratio);
    PositiveProduct(u2, ratio);
    NonNegativeProduct(u2 * ratio, b - a);
    assert u2 * b * ratio - u2 * a * ratio == u2 * ratio * (b - a);
    DivideUp(u2 * a * ratio, u2 * b * ratio, s2);
    DivideDown(u2 * a * ratio, u2 * b * ratio, s2);
  }

  /** No cell of the row deviates by more than w, and one of them does deviate by w. */
  ghost predicate IsWorst(areas: seq<real>, s2: real, u2: real, ratio: real, w: real) {
    && s2 > 0.0 && u2 > 0.0 && ratio > 0.0
    && (forall k :: 0 <= k < |areas| && areas[k] > 0.0 ==>
          TooWide(areas[k], s2, u2, ratio) <= w && TooTall(areas[k], s2, u2, ratio) <= w)
    && (exists k :: 0 <= k < |areas| && areas[k] > 0.0 &&
          (w == TooWide(areas[k], s2, u2, ratio) || w == TooTall(areas[k], s2, u2, ratio)))
  }

  /** A quotient is known by what it is a part of. */
  lemma QuotientIs(x: real, n: real, q: real)
    requires n != 0.0 && q * n == x
    ensures x / n == q
  {}

  /** What worst computes for a cell are the ratios of its length and its depth. */
  lemma ScoreIsAspect(a: real, s: real, u: real, ratio: real)
    requires a > 0.0 && s > 0.0 && u > 0.0 && ratio > 0.0
    ensures Times(s, s) > 0.0 && Times(u, u) > 0.0 && s / u > 0.0
    ensures CellDeviation(a, s / u, ratio) ==
            Greater(TooWide(a, Times(s, s), Times(u, u), ratio), TooTall(a, Times(s, s), Times(u, u), ratio))
  {
    var d := PartOf(s, u);
    var l := PartOf(a, d);
    PositiveProduct(ratio, l);
    var x := PartOf(ratio * l, d);
    var y := PartOf(d, ratio * l);
    QuotientIs(s, u, d);
    TimesSign(s, s);
    TimesSign(u, u);
    CellIs(a, d, ratio, l, x, y);
    WideIs(a, s, u, ratio, d, l, x);
    TallIs(a, s, u, ratio, d, l, y);
    hide Times, TooWide, TooTall, CellDeviation, Greater;
  }

  lemma CellIs(a: real, d: real, ratio: real, l: real, x: real, y: real)
    requires a > 0.0 && d > 0.0 && ratio > 0.0 && l > 0.0 && ratio * l > 0.0
    requires l * d == a && x * d == ratio * l && y * (ratio * l) == d
    ensures CellDeviation(a, d, ratio) == Greater(x, y)
  {
    QuotientIs(a, d, l);
    QuotientIs(ratio * l, d, x);
    QuotientIs(d, ratio * l, y);
    hide Greater;
  }

  lemma WideIs(a: real, s: real, u: real, ratio: real, d: real, l: real, x: real)
    requires d * u == s && l * d == a && x * d == ratio * l && Times(s, s) > 0.0
    ensures TooWide(a, Times(s, s), Times(u, u), ratio) == x
  {
    WideProducts(a, s, u, ratio, d, l, x);
    hide Times;
    QuotientIs(Times(u, u) * a * ratio, Times(s, s), x);
  }

  lemma TallIs(a: real, s: real, u: real, ratio: real, d: real, l: real, y: real)
    requires a > 0.0 && ratio > 0.0 && Times(u, u) > 0.0
    requires d * u == s && l * d == a && y * (ratio * l) == d
    ensures TooTall(a, Times(s, s), Times(u, u), ratio) == y
  {
    TallProducts(a, s, u, ratio, d, l, y);
    hide Times;
    Denominator(a, Times(u, u), ratio);
    QuotientIs(Times(s, s), Times(u, u) * a * ratio, y);
  }

  lemma WideProducts(a: real, s: real, u: real, ratio: real, d: real, l: real, x: real)
    requires d * u == s && l * d == a && x * d == ratio * l
    ensures x * Times(s, s) == Times(u, u) * a * ratio
  {
    calc {
      x * (s * s);
      x * ((d * u) * (d * u));
      (x * d) * (d * (u * u));
      (ratio * l) * (d * (u * u));
      (l * d) * (u * u) * ratio;
    }
  }

  lemma TallProducts(a: real, s: real, u: real, ratio: real, d: real, l: real, y: real)
    requires d * u == s && l * d == a && y * (ratio * l) == d
    ensures y * (Times(u, u) * a * ratio) == Times(s, s)
  {
    calc {
      y * (u * u * a * ratio);
      y * (u * u * (l * d) * ratio);
      (y * (ratio * l)) * (d * (u * u));
      d * (d * (u * u));
      (d * u) * (d * u);
    }
  }

  lemma {:induction false} WorstCellIs(areas: seq<real>, d: real, ratio: real)
    requires d > 0.0 && ratio > 0.0
    ensures WorstCell(areas, d, ratio) >= 0.0
    ensures forall k :: 0 <= k < |areas| && areas[k] > 0.0 ==> CellDeviation(areas[k], d, ratio) <= WorstCell(areas, d, ratio)
    ensures WorstCell(areas, d, ratio) > 0.0 ==>
              exists k :: 0 <= k < |areas| && areas[k] > 0.0 && CellDeviation(areas[k], d, ratio) == WorstCell(areas, d, ratio)
  {
    hide CellDeviation;
    if areas == [] {
    } else {
      var n := |areas| - 1;
      WorstCellIs(areas[..n], d, ratio);
      forall k | 0 <= k < |areas| && areas[k] > 0.0 ensures CellDeviation(areas[k], d, ratio) <= WorstCell(areas, d, ratio) {
        assert k < n ==> areas[..n][k] == areas[k];
      }
    }
  }

  lemma CellIsPositive(a: real, d: real, ratio: real)
    requires a > 0.0 && d > 0.0 && ratio > 0.0
    ensures CellDeviation(a, d, ratio) > 0.0
  {
    var l := PartOf(a, d);
    PositiveProduct(ratio, l);
    var x := PartOf(ratio * l, d);
  }

  /** The score is the deviation of the row. */
  lemma WorstIsDeviation(areas: seq<real>, s: real, u: real, ratio: real, w: real)
    requires s == Sum(areas) && s > 0.0 && u > 0.0 && ratio > 0.0 && IsWorst(areas, Times(s, s), Times(u, u), ratio, w)
    ensures Deviation(areas, u, ratio) == Some(w)
  {
    hide CellDeviation, TooWide, TooTall, Times, WorstCell, Sum;
    Quotient(s, u);
    var d := s / u;
    WorstCellIs(areas, d, ratio);
    forall k | 0 <= k < |areas| && areas[k] > 0.0
      ensures CellDeviation(areas[k], d, ratio) > 0.0
      ensures CellDeviation(areas[k], d, ratio) ==
              Greater(TooWide(areas[k], Times(s, s), Times(u, u), ratio), TooTall(areas[k], Times(s, s), Times(u, u), ratio))
    {
      CellIsPositive(areas[k], d, ratio);
      ScoreIsAspect(areas[k], s, u, ratio);
    }
  }

  // ---------------------------------------------------------------- rows

  /** A row as it was laid out. */
  datatype Band = Band(areas: seq<real>, boxes: seq<Rect>)

  function AllAreas(rows: seq<Band>): seq<real> {
    if rows == [] then [] else AllAreas(rows[..|rows| - 1]) + rows[|rows| - 1].areas
  }

  function AllBoxes(rows: seq<Band>): seq<Rect> {
    if rows == [] then [] else AllBoxes(rows[..|rows| - 1]) + rows[|rows| - 1].boxes
  }

  /** The deviation of the row has never risen when a cell was added to it. */
  ghost predicate NeverRose(areas: seq<real>, u: real, ratio: real)
    requires ratio > 0.0
  {
    forall k :: 1 <= k < |areas| ==> !RoseAt(areas, k, u, ratio)
  }

  predicate RoseAt(areas: seq<real>, k: nat, u: real, ratio: real)
    requires k < |areas| && ratio > 0.0
  {
    Exceeds(Deviation(areas[..k + 1], u, ratio), Deviation(areas[..k], u, ratio))
  }

  /** With the next area the deviation of the row would rise. */
  predicate WouldRise(areas: seq<real>, next: real, u: real, ratio: real)
    requires ratio > 0.0
  {
    Exceeds(Deviation(areas + [next], u, ratio), Deviation(areas, u, ratio))
  }

  /**
   * The boxes of the row stand side by side in a strip along the shorter side of r, the upper one of a square, and rest is
   * what the strip leaves. The strip is as deep as the area of the row needs, rounded, but no deeper than r, and takes all
   * that is left for the last row. Each box is as long as its area needs, rounded, while there is room; the last one goes to
   * the end.
   */
  ghost predicate InStrip(row: Band, r: Rect, rest: Rect, last: bool, round: real -> real) {
    var s := Sum(row.areas);
    if r.dx <= r.dy then
      var wanted := if r.dx == 0.0 then 0.0 else round(s / r.dx);
      var d := if last || wanted > r.dy then r.dy else wanted;
      rest == Rect(r.x, r.y + d, r.dx, r.dy - d) && InRow(row, r, d, round)
    else
      var wanted := if r.dy == 0.0 then 0.0 else round(s / r.dy);
      var d := if last || wanted > r.dx then r.dx else wanted;
      rest == Rect(r.x + d, r.y, r.dx - d, r.dy) && InColumn(row, r, d, round)
  }

  ghost predicate InRow(row: Band, r: Rect, d: real, round: real -> real) {
    |row.areas| == |row.boxes| && forall k :: 0 <= k < |row.areas| ==> BoxInRow(row, k, r, d, round)
  }

  ghost predicate InColumn(row: Band, r: Rect, d: real, round: real -> real) {
    |row.areas| == |row.boxes| && forall k :: 0 <= k < |row.areas| ==> BoxInColumn(row, k, r, d, round)
  }

  predicate BoxInRow(row: Band, k: nat, r: Rect, d: real, round: real -> real)
    requires k < |row.areas| == |row.boxes|
  {
    var b := row.boxes[k];
    var wanted := if d == 0.0 then 0.0 else round(row.areas[k] / d);
    var room := r.x + r.dx - b.x;
    && b.y == r.y && b.dy == d
    && b.x == (if k == 0 then r.x else row.boxes[k - 1].x + row.boxes[k - 1].dx)
    && b.dx == if k == |row.areas| - 1 || wanted > room then room else wanted
  }

  predicate BoxInColumn(row: Band, k: nat, r: Rect, d: real, round: real -> real)
    requires k < |row.areas| == |row.boxes|
  {
    var b := row.boxes[k];
    var wanted := if d == 0.0 then 0.0 else round(row.areas[k] / d);
    var room := r.y + r.dy - b.y;
    && b.x == r.x && b.dx == d
    && b.y == (if k == 0 then r.y else row.boxes[k - 1].y + row.boxes[k - 1].dy)
    && b.dy == if k == |row.areas| - 1 || wanted > room then room else wanted
  }

  /** Row i of these, in rects[i], is not empty, was never made worse by a cell, and ends where the next one would do so. */
  ghost predicate RowFits(rows: seq<Band>, rects: seq<Rect>, i: nat, next: Option<real>, ratio: real, round: real -> real)
    requires i < |rows| && |rects| == |rows| + 1 && ratio > 0.0
  {
    var row, u, last := rows[i], Min(rects[i].dx, rects[i].dy), i == |rows| - 1 && next.None?;
    && row.areas != [] && NeverRose(row.areas, u, ratio)
    && (i < |rows| - 1 ==> rows[i + 1].areas != [] && WouldRise(row.areas, rows[i + 1].areas[0], u, ratio))
    && (i == |rows| - 1 && next.Some? ==> WouldRise(row.areas, next.value, u, ratio))
    && InStrip(row, rects[i], rects[i + 1], last, round)
  }

  /** The rows fill r one after the other; next is the area with which the row after them begins, if there is one. */
  ghost predicate Squarified(rows: seq<Band>, rects: seq<Rect>, r: Rect, next: Option<real>, ratio: real, round: real -> real)
    requires ratio > 0.0
  {
    && |rects| == |rows| + 1 && rects[0] == r
    && forall i :: 0 <= i < |rows| ==> RowFits(rows, rects, i, next, ratio, round)
  }

  /** One more row. */
  lemma RowAdded(rows: seq<Band>, rects: seq<Rect>, r: Rect, row: Band, rest: Rect, next: Option<real>, ratio: real,
                 round: real -> real)
    requires ratio > 0.0 && row.areas != [] && Squarified(rows, rects, r, Some(row.areas[0]), ratio, round)
    requires var rect := rects[|rows|]; var u := Min(rect.dx, rect.dy);
      && NeverRose(row.areas, u, ratio) && (next.Some? ==> WouldRise(row.areas, next.value, u, ratio))
      && InStrip(row, rect, rest, next.None?, round)
    ensures Squarified(rows + [row], rects + [rest], r, next, ratio, round)
  {
    hide NeverRose, WouldRise, InStrip;
    forall i | 0 <= i < |rows| + 1 ensures RowFits(rows + [row], rects + [rest], i, next, ratio, round) {
      assert i < |rows| ==> RowFits(rows, rects, i, Some(row.areas[0]), ratio, round);
    }
  }

  lemma NoRows(r: Rect, next: Option<real>, ratio: real, round: real -> real)
    requires ratio > 0.0
    ensures Squarified([], [r], r, next, ratio, round) && AllAreas([]) == [] && AllBoxes([]) == []
  {}

  lemma Appended(rows: seq<Band>, row: Band)
    ensures AllAreas(rows + [row]) == AllAreas(rows) + row.areas && AllBoxes(rows + [row]) == AllBoxes(rows) + row.boxes
  {
    assert (rows + [row])[..|rows|] == rows;
  }

  /** A row of one cell has never risen, and another cell keeps it so unless the deviation rises. */
  lemma OneCell(a: real, u: real, ratio: real)
    requires ratio > 0.0
    ensures NeverRose([a], u, ratio)
  {}

  lemma CellAdded(areas: seq<real>, a: real, u: real, ratio: real)
    requires ratio > 0.0 && areas != [] && NeverRose(areas, u, ratio) && !WouldRise(areas, a, u, ratio)
    ensures NeverRose(areas + [a], u, ratio)
  {
    hide Deviation, Exceeds;
    var more := areas + [a];
    forall k | 1 <= k < |more| ensures !RoseAt(more, k, u, ratio) {
      if k < |areas| {
        assert !RoseAt(areas, k, u, ratio);
        assert more[..k + 1] == areas[..k + 1] && more[..k] == areas[..k];
      } else {
        assert more[..k + 1] == more && more[..k] == areas;
      }
    }
  }

  // ---------------------------------------------------------------- whole numbers

  function Whole(n: int): real { n as real }

  ghost predicate IsWhole(x: real) {
    exists n: int :: x == Whole(n)
  }

  ghost predicate WholeRect(r: Rect) {
    IsWhole(r.x) && IsWhole(r.y) && IsWhole(r.dx) && IsWhole(r.dy)
  }

  ghost predicate RoundsToWhole(round: real -> real) {
    forall a :: IsWhole(round(a))
  }

  /** Math.round */
  function RoundHalfUp(a: real): real {
    (a + 0.5).Floor as real
  }

  lemma MathRound()
    ensures Rounding(RoundHalfUp) && RoundsToWhole(RoundHalfUp)
  {
    forall a: real ensures IsWhole(RoundHalfUp(a)) {
      assert RoundHalfUp(a) == Whole((a + 0.5).Floor);
    }
  }

  lemma WholeSum(a: real, b: real)
    requires IsWhole(a) && IsWhole(b)
    ensures IsWhole(a + b) && IsWhole(a - b)
  {
    var m: int :| a == Whole(m);
    var n: int :| b == Whole(n);
    assert a + b == Whole(m + n) && a - b == Whole(m - n);
  }

  lemma {:induction false} WholeBoxesOfRow(row: Band, r: Rect, d: real, across: bool, round: real -> real, n: nat)
    requires n <= |row.areas| && WholeRect(r) && IsWhole(d) && RoundsToWhole(round)
    requires if across then InRow(row, r, d, round) else InColumn(row, r, d, round)
    ensures forall k :: 0 <= k < n ==> WholeRect(row.boxes[k])
  {
    if n == 0 {
    } else {
      WholeBoxesOfRow(row, r, d, across, round, n - 1);
      var b := row.boxes[n - 1];
      WholeSum(r.x, r.dx);
      WholeSum(r.y, r.dy);
      if n > 1 {
        WholeSum(row.boxes[n - 2].x, row.boxes[n - 2].dx);
        WholeSum(row.boxes[n - 2].y, row.boxes[n - 2].dy);
      }
      WholeRoom(row, r, d, round, n - 1);
    }
  }

  lemma WholeRoom(row: Band, r: Rect, d: real, round: real -> real, k: nat)
    requires k < |row.areas| == |row.boxes| && IsWhole(d) && WholeRect(r) && RoundsToWhole(round)
    requires IsWhole(r.x + r.dx) && IsWhole(r.y + r.dy)
    requires k > 0 ==> IsWhole(row.boxes[k - 1].x + row.boxes[k - 1].dx) && IsWhole(row.boxes[k - 1].y + row.boxes[k - 1].dy)
    requires BoxInRow(row, k, r, d, round) || BoxInColumn(row, k, r, d, round)
    ensures WholeRect(row.boxes[k])
  {
    var b := row.boxes[k];
    if BoxInRow(row, k, r, d, round) {
      WholeSum(r.x + r.dx, b.x);
    } else {
      WholeSum(r.y + r.dy, b.y);
    }
    hide IsWhole;
  }

  lemma WholeStrip(row: Band, r: Rect, rest: Rect, last: bool, round: real -> real)
    requires InStrip(row, r, rest, last, round) && WholeRect(r) && RoundsToWhole(round)
    ensures WholeRect(rest) && forall k :: 0 <= k < |row.boxes| ==> WholeRect(row.boxes[k])
  {
    hide InRow, InColumn, Sum, IsWhole;
    var across := r.dx <= r.dy;
    var side, limit := if across then r.dx else r.dy, if across then r.dy else r.dx;
    var wanted := if side == 0.0 then 0.0 else round(Sum(row.areas) / side);
    WholeZero();
    var d := if last || wanted > limit then limit else wanted;
    WholeSum(if across then r.y else r.x, d);
    WholeSum(limit, d);
    SameLengths(row, r, d, across, round);
    WholeBoxesOfRow(row, r, d, across, round, |row.areas|);
  }

  lemma WholeZero()
    ensures IsWhole(0.0)
  {
    assert Whole(0) == 0.0;
  }

  lemma SameLengths(row: Band, r: Rect, d: real, across: bool, round: real -> real)
    requires if across then InRow(row, r, d, round) else InColumn(row, r, d, round)
    ensures |row.areas| == |row.boxes|
  {}

  lemma {:induction false} WholeRects(rows: seq<Band>, rects: seq<Rect>, r: Rect, next: Option<real>, ratio: real,
                                      round: real -> real, i: nat)
    requires ratio > 0.0 && Squarified(rows, rects, r, next, ratio, round) && WholeRect(r) && RoundsToWhole(round)
    requires i <= |rows|
    ensures WholeRect(rects[i])
  {
    hide NeverRose, WouldRise, InStrip, WholeRect, RoundsToWhole;
    if i == 0 {
    } else {
      WholeRects(rows, rects, r, next, ratio, round, i - 1);
      assert RowFits(rows, rects, i - 1, next, ratio, round);
      WholeStrip(rows[i - 1], rects[i - 1], rects[i], i == |rows| && next.None?, round);
    }
  }

  lemma {:induction false} WholeBoxes(rows: seq<Band>, n: nat)
    requires n <= |rows| && forall i :: 0 <= i < n ==> forall b :: b in rows[i].boxes ==> WholeRect(b)
    ensures forall b :: b in AllBoxes(rows[..n]) ==> WholeRect(b)
  {
    hide WholeRect;
    if n == 0 {
    } else {
      WholeBoxes(rows, n - 1);
      assert rows[..n][..n - 1] == rows[..n - 1];
    }
  }

  /** A rounding to whole numbers gives a rectangle of whole numbers boxes of whole numbers. */
  lemma WholeLayout(rows: seq<Band>, rects: seq<Rect>, r: Rect, ratio: real, round: real -> real)
    requires ratio > 0.0 && Squarified(rows, rects, r, None, ratio, round) && WholeRect(r) && RoundsToWhole(round)
    ensures forall b :: b in AllBoxes(rows) ==> WholeRect(b)
  {
    hide NeverRose, WouldRise, InStrip, WholeRect, RoundsToWhole;
    forall i | 0 <= i < |rows| ensures forall b :: b in rows[i].boxes ==> WholeRect(b) {
      WholeRects(rows, rects, r, None, ratio, round, i);
      assert RowFits(rows, rects, i, None, ratio, round);
      WholeStrip(rows[i], rects[i], rects[i + 1], i == |rows| - 1, round);
    }
    WholeBoxes(rows, |rows|);
    assert rows[..|rows|] == rows;
  }

  // ---------------------------------------------------------------- two cells in a box twice as wide as high

  /** A row of one cell of area 1 on a side of length 1 is a square; with a second one it is farther from the golden ratio. */
  lemma SecondCellRises()
    ensures WouldRise([1.0], 1.0, 1.0, 1.618)
  {
    var one, two := [1.0], [1.0, 1.0];
    assert one[1..] == [] && one[..0] == [] && two[..1] == one && two[1..] == one;
    assert Sum(one) == 1.0 && Sum(two) == 2.0;
    assert one + [1.0] == two;
    assert CellDeviation(1.0, 1.0, 1.618) == 1.618;
    assert CellDeviation(1.0, 2.0, 1.618) > 2.4;
    hide CellDeviation, Sum;
    assert WorstCell(one, 1.0, 1.618) == 1.618;
    assert WorstCell(one, 2.0, 1.618) > 2.4;
  }

  /** Two cells of area 1 in a box of 2 by 1 stand in rows of their own. */
  lemma TwoSquares(rows: seq<Band>, rects: seq<Rect>, round: real -> real)
    requires Squarified(rows, rects, Rect(0.0, 0.0, 2.0, 1.0), None, 1.618, round) && AllAreas(rows) == [1.0, 1.0]
    ensures |rows| == 2 && rows[0].areas == rows[1].areas == [1.0]
  {
    hide Deviation, InStrip, NeverRose, WouldRise;
    SecondCellRises();
    forall i | 0 <= i < |rows| ensures rows[i].areas != [] && NeverRose(rows[i].areas, Min(rects[i].dx, rects[i].dy), 1.618) {
      assert RowFits(rows, rects, i, None, 1.618, round);
    }
    RowLengths(rows);
    if |rows| == 1 {
      assert rows[..0] == [] && rows[0].areas == [1.0, 1.0];
      NotBoth(rows[0].areas);
    } else {
      assert rows[..1][..0] == [] && rows[..|rows| - 1] == rows[..1];
      var a, b := rows[0].areas, rows[1].areas;
      assert AllAreas(rows) == a + b;
      assert (a + b)[0] == a[0] && (a + b)[1] == b[0];
    }
  }

  lemma NotBoth(areas: seq<real>)
    requires areas == [1.0, 1.0]
    ensures !NeverRose(areas, 1.0, 1.618)
  {
    hide Deviation;
    SecondCellRises();
    assert areas[..1 + 1] == [1.0] + [1.0] && areas[..1] == [1.0];
    assert RoseAt(areas, 1, 1.0, 1.618);
  }

  /** Rows that are not empty are no more than their cells. */
  lemma {:induction false} RowLengths(rows: seq<Band>)
    requires forall i :: 0 <= i < |rows| ==> rows[i].areas != []
    ensures |rows| <= |AllAreas(rows)| && (rows == [] ==> AllAreas(rows) == [])
  {
    if rows == [] {
    } else {
      RowLengths(rows[..|rows| - 1]);
    }
  }
}
