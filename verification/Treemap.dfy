/** The squarified treemap (d3.layout.treemap) over real coordinates, on the nodes of a hierarchy. */
module Treemap {
  import opened Wrappers
  import opened Reals
  import opened Sequences
  import opened Tiling
  import opened Strips
  import opened TreemapRows
  import TreemapThrows

  /** A node of the hierarchy: its value and children are given, its area and box are written by the layout. */
  class TreeNode {
    const value: real
    const children: seq<TreeNode>
    ghost const Repr: set<TreeNode>
    var area: real
    var infinite: bool  // the area is Infinity, and the number in the field area is of no account
    var x: real
    var y: real
    var dx: real
    var dy: real
    var z: bool

    /** The nodes below this one form a tree. */
    ghost predicate Valid()
      decreases Repr
    {
      && this in Repr
      && (forall c :: c in children ==> c in Repr && c.Repr <= Repr && this !in c.Repr && c.Valid())
      && (forall i, j :: 0 <= i < j < |children| ==> children[i].Repr !! children[j].Repr)
    }

    constructor (value: real, children: seq<TreeNode>)
      requires forall c :: c in children ==> c.Valid()
      requires forall i, j :: 0 <= i < j < |children| ==> children[i].Repr !! children[j].Repr
      ensures Valid() && fresh(this) && this.value == value && this.children == children
      ensures Repr == {this} + set i, o | 0 <= i < |children| && o in children[i].Repr :: o
    {
      this.value, this.children := value, children;
      Repr := {this} + set i, o | 0 <= i < |children| && o in children[i].Repr :: o;
    }

    function Box(): Rect
      reads this
    {
      Rect(x, y, dx, dy)
    }

    function AreaNumber(): TreemapThrows.Number
      reads this
    {
      if infinite then TreemapThrows.INFINITE else TreemapThrows.Finite(area)
    }
  }

  function Boxes(nodes: seq<TreeNode>): (b: seq<Rect>)
    reads nodes
    ensures |b| == |nodes| && forall i :: 0 <= i < |nodes| ==> b[i] == nodes[i].Box()
  {
    seq(|nodes|, i requires 0 <= i < |nodes| reads nodes => nodes[i].Box())
  }

  function Areas(nodes: seq<TreeNode>): (a: seq<real>)
    reads nodes
    ensures |a| == |nodes| && forall i :: 0 <= i < |nodes| ==> a[i] == nodes[i].area
  {
    seq(|nodes|, i requires 0 <= i < |nodes| reads nodes => nodes[i].area)
  }

  ghost predicate Distinct(nodes: seq<TreeNode>) {
    forall i, j :: 0 <= i < j < |nodes| ==> nodes[i] != nodes[j]
  }

  // ---------------------------------------------------------------- placing a row

  /** What is still to be placed when the first i boxes are and the next one begins at p. */
  ghost predicate Pending(areas: seq<real>, len: seq<real>, at: seq<real>, i: nat, v: real, p: real, end: real, round: real -> real)
    requires i <= |areas| == |len| == |at|
  {
    i < |areas| ==> Lengths(areas[i..], v, end - p, round) == len[i..] && Starts(p, len[i..]) == at[i..]
  }

  lemma PlaceNext(areas: seq<real>, len: seq<real>, at: seq<real>, i: nat, v: real, p: real, end: real, round: real -> real)
    requires i < |areas| == |len| == |at| && Pending(areas, len, at, i, v, p, end, round)
    ensures var w := Min(end - p, Share(areas[i], v, round));
      && at[i] == p
      && (if i + 1 < |areas| then len[i] == w && Pending(areas, len, at, i + 1, v, p + w, end, round) else len[i] == end - p)
  {
    hide Share;
    assert areas[i..][1..] == areas[i + 1..] && len[i..][1..] == len[i + 1..] && at[i..][1..] == at[i + 1..];
    assert areas[i..][0] == areas[i] && len[i..][0] == len[i] && at[i..][0] == at[i];
    var w := Min(end - p, Share(areas[i], v, round));
    assert (end - p) - w == end - (p + w);
  }

  /** The boxes of the row lie side by side in a strip of depth v. */
  ghost predicate Placed(row: seq<TreeNode>, r: Rect, v: real, across: bool, round: real -> real)
    reads row
  {
    var len := Lengths(Areas(row), v, if across then r.dx else r.dy, round);
    var at := Starts(if across then r.x else r.y, len);
    forall k :: 0 <= k < |row| ==> row[k].Box() == StripBox(r, across, v, at[k], len[k])
  }

  /** The loop of position along one side of r; across tells which of its two branches runs. */
  method Place(row: seq<TreeNode>, r: Rect, v: real, across: bool, round: real -> real)
    requires row != [] && Distinct(row)
    modifies row
    ensures Areas(row) == old(Areas(row))
    ensures row[|row| - 1].z == across
    ensures Placed(row, r, v, across, round)
  {
    hide Lengths, Starts, Share, Min, Pending, Areas;
    ghost var areas := Areas(row);
    ghost var len := Lengths(areas, v, if across then r.dx else r.dy, round);
    ghost var at := Starts(if across then r.x else r.y, len);
    var p := if across then r.x else r.y;
    var end := p + if across then r.dx else r.dy;
    assert Pending(areas, len, at, 0, v, p, end, round) by {
      PendingAtStart(areas, v, p, end - p, round);
    }
    var last := row[|row| - 1];
    for i := 0 to |row|
      invariant forall k :: 0 <= k < |row| ==> row[k].area == areas[k]
      invariant i < |row| ==> Pending(areas, len, at, i, v, p, end, round)
      invariant forall k :: 0 <= k < i && k < |row| - 1 ==> row[k].Box() == StripBox(r, across, v, at[k], len[k])
      invariant i == |row| ==> last.Box() == StripBox(r, across, v, at[i - 1], len[i - 1] - (end - p))
    {
      PlaceNext(areas, len, at, i, v, p, end, round);
      var o := row[i];
      var w := Min(end - p, Share(o.area, v, round));
      if across {
        o.x, o.y, o.dy, o.dx := p, r.y, v, w;
      } else {
        o.x, o.y, o.dx, o.dy := r.x, p, v, w;
      }
      p := p + w;
    }
    last.z := across;
    if across {
      last.dx := last.dx + (end - p);
    } else {
      last.dy := last.dy + (end - p);
    }
  }

  lemma PendingAtStart(areas: seq<real>, v: real, p: real, room: real, round: real -> real)
    ensures var len := Lengths(areas, v, room, round);
      Pending(areas, len, Starts(p, len), 0, v, p, p + room, round)
  {
    var len := Lengths(areas, v, room, round);
    assert areas[0..] == areas && len[0..] == len && Starts(p, len)[0..] == Starts(p, len);
    assert (p + room) - p == room;
  }

  // ---------------------------------------------------------------- positioning a row

  /** How deep the strip for a row of area s becomes. */
  function Depth(s: real, u: real, r: Rect, flush: bool, round: real -> real): real {
    var v := if u != 0.0 then round(s / u) else 0.0;
    var limit := if u == r.dx then r.dy else r.dx;
    if flush || v > limit then limit else v
  }

  lemma DepthFits(s: real, u: real, r: Rect, flush: bool, round: real -> real)
    requires NonNegative(r) && u == Min(r.dx, r.dy) && s >= 0.0 && Rounding(round)
    ensures 0.0 <= Depth(s, u, r, flush, round) <= (if u == r.dx then r.dy else r.dx)
    ensures Exact(round) && s <= r.dx * r.dy && (flush ==> s == r.dx * r.dy) ==> Depth(s, u, r, flush, round) * u == s
  {
    if u > 0.0 {
      assert s / u >= 0.0;
      var limit := if u == r.dx then r.dy else r.dx;
      assert r.dx * r.dy == limit * u;
      if Exact(round) && s <= r.dx * r.dy {
        assert (s / u) * u == s;
        if s / u > limit {
          PositiveProduct(s / u - limit, u);
        }
      }
    }
  }

  /** Every box of the row has the area that its node asked for. */
  ghost predicate KeepsAreas(nodes: seq<TreeNode>)
    reads nodes
  {
    forall k :: 0 <= k < |nodes| ==> AreaKept(nodes[k])
  }

  ghost predicate AreaKept(o: TreeNode)
    reads o
  {
    o.dx * o.dy == o.area
  }

  /** position(row, u, rect, flush): the row fills a strip of rect, and rect becomes what is left of it. */
  method Position(row: seq<TreeNode>, rowArea: real, u: real, rect: Rect, flush: bool, round: real -> real) returns (rest: Rect)
    requires row != [] && Distinct(row) && AllNonNegative(Areas(row)) && rowArea == Sum(Areas(row))
    requires NonNegative(rect) && u == Min(rect.dx, rect.dy) && Rounding(round)
    modifies row
    ensures Areas(row) == old(Areas(row))
    ensures NonNegative(rest) && Tiles(Boxes(row) + [rest], rect) && (flush ==> NoPoints(rest))
    ensures InStrip(Band(Areas(row), Boxes(row)), rect, rest, flush, round)
    ensures Exact(round) && rowArea <= rect.dx * rect.dy && (flush ==> rowArea == rect.dx * rect.dy) ==>
      KeepsAreas(row) && rest.dx * rest.dy == rect.dx * rect.dy - rowArea
  {
    hide Lengths, Starts, Depth, Tiles, Sum, KeepsAreas, Min, StripBox, Rest, Exact, Rounding, Placed, Distinct;
    hide AllNonNegative, Boxes, Areas, NoPoints, InStrip;
    var v := Depth(rowArea, u, rect, flush, round);
    var across := u == rect.dx;
    Place(row, rect, v, across, round);
    rest := Rest(rect, across, v);
    RowTiles(row, rowArea, u, rect, flush, round);
    RowInStrip(row, rowArea, u, rect, flush, round);
    RowKeepsAreas(row, rowArea, u, rect, flush, round);
  }

  lemma RowTiles(row: seq<TreeNode>, rowArea: real, u: real, rect: Rect, flush: bool, round: real -> real)
    requires row != [] && AllNonNegative(Areas(row)) && rowArea == Sum(Areas(row))
    requires NonNegative(rect) && u == Min(rect.dx, rect.dy) && Rounding(round)
    requires Placed(row, rect, Depth(rowArea, u, rect, flush, round), u == rect.dx, round)
    ensures var rest := Rest(rect, u == rect.dx, Depth(rowArea, u, rect, flush, round));
      NonNegative(rest) && Tiles(Boxes(row) + [rest], rect) && (flush ==> NoPoints(rest))
  {
    hide Lengths, Starts, Depth, Tiles, Fills, Sum, Rounding;
    var v, across := Depth(rowArea, u, rect, flush, round), u == rect.dx;
    var room := if across then rect.dx else rect.dy;
    var len, from := Lengths(Areas(row), v, room, round), if across then rect.x else rect.y;
    SumNonNegative(Areas(row));
    DepthFits(rowArea, u, rect, flush, round);
    LengthsFill(Areas(row), v, room, round);
    StartsFill(from, len);
    StripTiles(rect, across, v, Starts(from, len), len, Boxes(row));
    DepthOfFlush(rowArea, u, rect, round);
  }

  lemma RowKeepsAreas(row: seq<TreeNode>, rowArea: real, u: real, rect: Rect, flush: bool, round: real -> real)
    requires row != [] && AllNonNegative(Areas(row)) && rowArea == Sum(Areas(row))
    requires NonNegative(rect) && u == Min(rect.dx, rect.dy) && Rounding(round)
    requires Placed(row, rect, Depth(rowArea, u, rect, flush, round), u == rect.dx, round)
    ensures Exact(round) && rowArea <= rect.dx * rect.dy && (flush ==> rowArea == rect.dx * rect.dy) ==>
      var rest := Rest(rect, u == rect.dx, Depth(rowArea, u, rect, flush, round));
      KeepsAreas(row) && rest.dx * rest.dy == rect.dx * rect.dy - rowArea
  {
    hide Depth, Sum, KeepsAreas, Placed, Rest, Rounding, Exact;
    SumNonNegative(Areas(row));
    DepthFits(rowArea, u, rect, flush, round);
    if Exact(round) && rowArea <= rect.dx * rect.dy && (flush ==> rowArea == rect.dx * rect.dy) {
      StripKeepsAreas(row, rect, Depth(rowArea, u, rect, flush, round), u == rect.dx, round);
    }
  }

  /** Where the lengths of a row put its boxes. */
  lemma {:induction false} LengthAt(areas: seq<real>, v: real, room: real, from: real, round: real -> real, k: nat)
    requires k < |areas|
    ensures var len := Lengths(areas, v, room, round); var at := Starts(from, len);
      && at[k] == (if k == 0 then from else at[k - 1] + len[k - 1])
      && len[k] == if k == |areas| - 1 then from + room - at[k] else Min(from + room - at[k], Share(areas[k], v, round))
    decreases |areas|
  {
    hide Lengths, Starts, Share, Min;
    LengthsUnfold(areas, v, room, from, round);
    if k > 0 {
      var first := Lengths(areas, v, room, round)[0];
      LengthsUnfold(areas[1..], v, room - first, from + first, round);
      LengthAt(areas[1..], v, room - first, from + first, round, k - 1);
      assert areas[1..][k - 1] == areas[k];
    }
  }

  lemma LengthsUnfold(areas: seq<real>, v: real, room: real, from: real, round: real -> real)
    requires areas != []
    ensures var len := Lengths(areas, v, room, round); var at := Starts(from, len);
      && |at| == |areas| && at[0] == from
      && len[0] == (if |areas| == 1 then room else Min(room, Share(areas[0], v, round)))
      && (|areas| > 1 ==>
            len[1..] == Lengths(areas[1..], v, room - len[0], round) && at[1..] == Starts(from + len[0], len[1..]))
  {
    hide Share, Min;
  }

  lemma RowInStrip(row: seq<TreeNode>, rowArea: real, u: real, rect: Rect, flush: bool, round: real -> real)
    requires row != [] && rowArea == Sum(Areas(row)) && NonNegative(rect) && u == Min(rect.dx, rect.dy)
    requires Placed(row, rect, Depth(rowArea, u, rect, flush, round), u == rect.dx, round)
    ensures InStrip(Band(Areas(row), Boxes(row)), rect, Rest(rect, u == rect.dx, Depth(rowArea, u, rect, flush, round)), flush, round)
  {
    hide Lengths, Starts, Sum;
    var v, across := Depth(rowArea, u, rect, flush, round), u == rect.dx;
    var band := Band(Areas(row), Boxes(row));
    hide Depth;
    forall k | 0 <= k < |row| ensures if across then BoxInRow(band, k, rect, v, round) else BoxInColumn(band, k, rect, v, round) {
      BoxAt(row, rect, v, across, round, k);
    }
    DepthIs(rowArea, u, rect, flush, round);
    hide BoxInRow, BoxInColumn;
  }

  lemma DepthIs(s: real, u: real, r: Rect, flush: bool, round: real -> real)
    requires u == Min(r.dx, r.dy)
    ensures u == r.dx <==> r.dx <= r.dy
    ensures var wanted := if u == 0.0 then 0.0 else round(s / u); var limit := if u == r.dx then r.dy else r.dx;
      Depth(s, u, r, flush, round) == if flush || wanted > limit then limit else wanted
  {}

  lemma BoxAt(row: seq<TreeNode>, r: Rect, v: real, across: bool, round: real -> real, k: nat)
    requires k < |row| && Placed(row, r, v, across, round)
    ensures var band := Band(Areas(row), Boxes(row));
      if across then BoxInRow(band, k, r, v, round) else BoxInColumn(band, k, r, v, round)
  {
    hide Lengths, Starts;
    var room, from := if across then r.dx else r.dy, if across then r.x else r.y;
    LengthAt(Areas(row), v, room, from, round, k);
    var len := Lengths(Areas(row), v, room, round);
    var at := Starts(from, len);
    assert row[k].Box() == StripBox(r, across, v, at[k], len[k]) == Boxes(row)[k];
    assert k > 0 ==> row[k - 1].Box() == StripBox(r, across, v, at[k - 1], len[k - 1]) == Boxes(row)[k - 1];
  }

  lemma DepthOfFlush(s: real, u: real, r: Rect, round: real -> real)
    ensures Depth(s, u, r, true, round) == if u == r.dx then r.dy else r.dx
  {
  }

  lemma StripKeepsAreas(row: seq<TreeNode>, r: Rect, v: real, across: bool, round: real -> real)
    requires AllNonNegative(Areas(row)) && v >= 0.0 && Exact(round)
    requires v * (if across then r.dx else r.dy) == Sum(Areas(row))
    requires Placed(row, r, v, across, round)
    ensures KeepsAreas(row)
    ensures Rest(r, across, v).dx * Rest(r, across, v).dy == r.dx * r.dy - Sum(Areas(row))
  {
    hide Lengths, Starts, Sum;
    var room := if across then r.dx else r.dy;
    forall k | 0 <= k < |row| ensures row[k].dx * row[k].dy == row[k].area {
      LengthsExact(Areas(row), v, room, round, k);
      var len := Lengths(Areas(row), v, room, round);
      assert row[k].Box() == StripBox(r, across, v, Starts(if across then r.x else r.y, len)[k], len[k]);
    }
  }

  // ---------------------------------------------------------------- the score of a row

  predicate NoWorse(score: Option<real>, best: Option<real>) {
    best == None || (score.Some? && score.value <= best.value)
  }

  lemma NoWorseIff(score: Option<real>, best: Option<real>)
    ensures NoWorse(score, best) <==> !Exceeds(score, best)
    ensures best == None ==> NoWorse(score, best)
  {}

  /** worst(row, u): the largest deviation over the cells of the row that have an area; None stands for Infinity. */
  method Worst(row: seq<TreeNode>, s: real, u: real, ratio: real) returns (score: Option<real>)
    requires AllNonNegative(Areas(row)) && s == Sum(Areas(row)) && u >= 0.0 && ratio > 0.0
    ensures score == Deviation(Areas(row), u, ratio)
    ensures score == None <==> s == 0.0 || u == 0.0
    ensures score.Some? ==> IsWorst(Areas(row), Times(s, s), Times(u, u), ratio, score.value)
  {
    hide Sum, TooWide, TooTall, Times;
    SumNonNegative(Areas(row));
    var rmax, rmin: Option<real> := 0.0, None;
    for i := 0 to |row|
      invariant rmin == None <==> rmax == 0.0
      invariant rmin == None ==> forall k :: 0 <= k < i ==> row[k].area == 0.0
      invariant rmin.Some? ==> 0.0 < rmin.value <= rmax
      invariant rmin.Some? ==> forall k :: 0 <= k < i && row[k].area > 0.0 ==> rmin.value <= row[k].area <= rmax
      invariant rmin.Some? ==> exists k :: 0 <= k < i && row[k].area == rmin.value
      invariant rmin.Some? ==> exists k :: 0 <= k < i && row[k].area == rmax
    {
      var r := row[i].area;
      assert Areas(row)[i] == r;
      if r == 0.0 { continue; }
      if rmin == None || r < rmin.value { rmin := Some(r); }
      if r > rmax { rmax := r; }
    }
    if s == 0.0 || u == 0.0 {
      return None;
    }
    if rmin == None {
      NoAreas(Areas(row));
    }
    TimesSign(s, s);
    TimesSign(u, u);
    var s2, u2 := Times(s, s), Times(u, u);
    var wide, tall := TooWide(rmax, s2, u2, ratio), TooTall(rmin.value, s2, u2, ratio);
    forall k | 0 <= k < |row| && row[k].area > 0.0
      ensures TooWide(row[k].area, s2, u2, ratio) <= wide && TooTall(row[k].area, s2, u2, ratio) <= tall
    {
      Monotone(row[k].area, rmax, s2, u2, ratio);
      Monotone(rmin.value, row[k].area, s2, u2, ratio);
    }
    score := Some(if tall > wide then tall else wide);
    RowIsWorst(row, s2, u2, ratio, rmin.value, rmax, score.value);
    WorstIsDeviation(Areas(row), s, u, ratio, score.value);
  }

  lemma RowIsWorst(row: seq<TreeNode>, s2: real, u2: real, ratio: real, rmin: real, rmax: real, w: real)
    requires s2 > 0.0 && u2 > 0.0 && ratio > 0.0 && 0.0 < rmin && 0.0 < rmax
    requires w == Greater(TooWide(rmax, s2, u2, ratio), TooTall(rmin, s2, u2, ratio))
    requires forall k :: 0 <= k < |row| && row[k].area > 0.0 ==>
               TooWide(row[k].area, s2, u2, ratio) <= w && TooTall(row[k].area, s2, u2, ratio) <= w
    requires exists k :: 0 <= k < |row| && row[k].area == rmin
    requires exists k :: 0 <= k < |row| && row[k].area == rmax
    ensures IsWorst(Areas(row), s2, u2, ratio, w)
  {
    hide TooWide, TooTall;
    var k :| 0 <= k < |row| && row[k].area == rmin;
    var l :| 0 <= l < |row| && row[l].area == rmax;
    assert Areas(row)[k] == rmin && Areas(row)[l] == rmax;
  }

  // ---------------------------------------------------------------- the loop over the children

  /** The nodes that the first k steps have taken from the end of the children, in that order. */
  ghost predicate TakenFrom(children: seq<TreeNode>, taken: seq<TreeNode>, remaining: seq<TreeNode>) {
    && |taken| + |remaining| == |children| && remaining == children[..|remaining|]
    && forall i :: 0 <= i < |taken| ==> taken[i] == children[|children| - 1 - i]
  }

  lemma TakenApart(children: seq<TreeNode>, done: seq<TreeNode>, row: seq<TreeNode>, remaining: seq<TreeNode>)
    requires Distinct(children) && TakenFrom(children, done + row, remaining)
    ensures Distinct(row) && (forall o :: o in row ==> o in children) && (forall o :: o in done ==> o in children && o !in row)
    ensures forall o :: o in remaining ==> o in children && o !in row && o !in done
  {
    var t := done + row;
    forall i, j | 0 <= i < |t| && 0 <= j < |t| && i != j ensures t[i] != t[j] {
      assert t[i] == children[|children| - 1 - i] && t[j] == children[|children| - 1 - j];
    }
    forall i | 0 <= i < |row| ensures row[i] == t[|done| + i] {
    }
    forall i | 0 <= i < |done| ensures done[i] == t[i] {
    }
  }

  lemma TakeNext(children: seq<TreeNode>, taken: seq<TreeNode>, remaining: seq<TreeNode>)
    requires TakenFrom(children, taken, remaining) && remaining != []
    ensures TakenFrom(children, taken + [remaining[|remaining| - 1]], remaining[..|remaining| - 1])
    ensures remaining == remaining[..|remaining| - 1] + [remaining[|remaining| - 1]]
  {
  }

  lemma AreasSplit(a: seq<TreeNode>, b: seq<TreeNode>)
    ensures Areas(a + b) == Areas(a) + Areas(b) && Sum(Areas(a + b)) == Sum(Areas(a)) + Sum(Areas(b))
    ensures AllNonNegative(Areas(a + b)) <==> AllNonNegative(Areas(a)) && AllNonNegative(Areas(b))
  {
    SumConcat(Areas(a), Areas(b));
    assert Areas(a + b) == Areas(a) + Areas(b);
    if AllNonNegative(Areas(a + b)) {
      forall i | 0 <= i < |a| ensures Areas(a)[i] >= 0.0 { assert Areas(a + b)[i] >= 0.0; }
      forall i | 0 <= i < |b| ensures Areas(b)[i] >= 0.0 { assert Areas(a + b)[|a| + i] >= 0.0; }
    }
  }

  /** done is placed, row is pending, remaining is untouched, and rect is the free part of rect0. */
  ghost predicate Laid(children: seq<TreeNode>, rect0: Rect, done: seq<TreeNode>, row: seq<TreeNode>,
                       remaining: seq<TreeNode>, rect: Rect, exact: bool)
    reads done, row, remaining
  {
    && TakenFrom(children, done + row, remaining)
    && AllNonNegative(Areas(row)) && AllNonNegative(Areas(remaining)) && NonNegative(rect)
    && Tiles(Boxes(done) + [rect], rect0)
    && (exact ==> KeepsAreas(done) && rect.dx * rect.dy == Sum(Areas(row)) + Sum(Areas(remaining)))
  }

  lemma LaidAtStart(children: seq<TreeNode>, rect0: Rect, exact: bool)
    requires AllNonNegative(Areas(children)) && NonNegative(rect0)
    requires exact ==> Sum(Areas(children)) == rect0.dx * rect0.dy
    ensures Laid(children, rect0, [], [], children, rect0, exact)
  {
    assert Boxes([]) + [rect0] == [rect0];
    forall px, py | In(rect0, px, py) ensures Covered([rect0], px, py) {
      assert In([rect0][0], px, py);
    }
  }

  lemma LaidPushed(children: seq<TreeNode>, rect0: Rect, done: seq<TreeNode>, row: seq<TreeNode>,
                   remaining: seq<TreeNode>, rect: Rect, exact: bool)
    requires Laid(children, rect0, done, row, remaining, rect, exact) && remaining != []
    ensures var child := remaining[|remaining| - 1];
      && Laid(children, rect0, done, row + [child], remaining[..|remaining| - 1], rect, exact)
      && AllNonNegative(Areas(row + [child])) && Sum(Areas(row + [child])) == Sum(Areas(row)) + child.area
  {
    hide Tiles, KeepsAreas, Sum, AllNonNegative, TakenFrom;
    var child, rest := remaining[|remaining| - 1], remaining[..|remaining| - 1];
    TakeNext(children, done + row, remaining);
    assert done + (row + [child]) == done + row + [child];
    AreasSplit(row, [child]);
    AreasSplit(rest, [child]);
    OneArea(child);
  }

  lemma OneArea(o: TreeNode)
    ensures Sum(Areas([o])) == o.area
  {
    assert Areas([o])[1..] == [];
  }

  lemma LaidPlaced(children: seq<TreeNode>, rect0: Rect, done: seq<TreeNode>, row: seq<TreeNode>,
                   remaining: seq<TreeNode>, rect: Rect, rest: Rect, exact: bool)
    requires TakenFrom(children, done + row, remaining) && AllNonNegative(Areas(remaining)) && NonNegative(rest)
    requires Tiles(Boxes(done) + [rect], rect0) && Tiles(Boxes(row) + [rest], rect)
    requires exact ==> KeepsAreas(done) && KeepsAreas(row) && rest.dx * rest.dy == Sum(Areas(remaining))
    ensures Laid(children, rect0, done + row, [], remaining, rest, exact)
  {
    hide Tiles;
    assert Boxes(done) + [rect] == Boxes(done) + [rect] + [];
    Refine(Boxes(done), rect, [], Boxes(row) + [rest], rect0);
    assert Boxes(done) + (Boxes(row) + [rest]) + [] == Boxes(done + row) + [rest];
    assert done + row + [] == done + row;
    assert Sum(Areas([])) == 0.0;
  }

  lemma LaidAtEnd(children: seq<TreeNode>, rect0: Rect, done: seq<TreeNode>, rect: Rect, exact: bool)
    requires Laid(children, rect0, done, [], [], rect, exact) && NoPoints(rect)
    ensures Tiles(Boxes(children), rect0) && (exact ==> KeepsAreas(children))
  {
    assert done + [] == done;
    DropEmpty(Boxes(done), rect, rect0);
    assert Boxes(done) == Reversed(Boxes(children));
    TilesReversed(Boxes(children), rect0);
    if exact {
      hide Tiles;
      forall k | 0 <= k < |children| ensures AreaKept(children[k]) {
        assert children[k] == done[|children| - 1 - k] && AreaKept(done[|children| - 1 - k]);
      }
    }
  }

  ghost predicate InSet(row: seq<TreeNode>, children: seq<TreeNode>) {
    forall i :: 0 <= i < |row| ==> row[i] in children
  }

  lemma LaidFacts(children: seq<TreeNode>, rect0: Rect, done: seq<TreeNode>, row: seq<TreeNode>,
                  remaining: seq<TreeNode>, rect: Rect, exact: bool)
    requires Distinct(children) && Laid(children, rect0, done, row, remaining, rect, exact)
    ensures Distinct(row) && AllNonNegative(Areas(row)) && NonNegative(rect) && Min(rect.dx, rect.dy) >= 0.0
    ensures InSet(row, children)
    ensures (forall o :: o in done ==> o !in row) && (forall o :: o in remaining ==> o !in row)
    ensures exact ==> Sum(Areas(row)) <= rect.dx * rect.dy && (remaining == [] ==> Sum(Areas(row)) == rect.dx * rect.dy)
  {
    hide Tiles, KeepsAreas;
    TakenApart(children, done, row, remaining);
    SumNonNegative(Areas(remaining));
    assert remaining == [] ==> Sum(Areas(remaining)) == 0.0;
  }

  /** One call of position from the loop. */
  method PlaceRow(ghost children: seq<TreeNode>, ghost rect0: Rect, ghost done: seq<TreeNode>, row: seq<TreeNode>,
                  rowArea: real, ghost remaining: seq<TreeNode>, u: real, rect: Rect, flush: bool,
                  round: real -> real, ghost exact: bool) returns (rest: Rect)
    requires Distinct(children) && Laid(children, rect0, done, row, remaining, rect, exact)
    requires row != [] && rowArea == Sum(Areas(row)) && u == Min(rect.dx, rect.dy) && (flush ==> remaining == [])
    requires Rounding(round) && (exact ==> Exact(round))
    modifies row
    ensures Laid(children, rect0, done + row, [], remaining, rest, exact) && (flush ==> NoPoints(rest))
    ensures forall o :: o in row ==> o.area == old(o.area)
    ensures InStrip(Band(Areas(row), Boxes(row)), rect, rest, flush, round)
    ensures Areas(row) == old(Areas(row)) && Areas(done) == old(Areas(done)) && Boxes(done) == old(Boxes(done))
  {
    hide Tiles, Sum, TakenFrom, AllNonNegative, Exact, NoPoints, NonNegative, Rounding, Distinct, InSet, InStrip;
    LaidFacts(children, rect0, done, row, remaining, rect, exact);
    ghost var doneBoxes, left := Boxes(done), Areas(remaining);
    rest := Position(row, rowArea, u, rect, flush, round);
    forall i | 0 <= i < |done|
      ensures done[i].Box() == doneBoxes[i] && done[i].area == old(done[i].area) && (exact ==> AreaKept(done[i]))
    {
      assert done[i] !in row;
      assert exact ==> old(AreaKept(done[i]));
    }
    assert Boxes(done) == doneBoxes && Areas(remaining) == left && Areas(done) == old(Areas(done));
    assert forall i :: 0 <= i < |row| ==> row[i].area == Areas(row)[i];
    LaidPlaced(children, rect0, done, row, remaining, rect, rest, exact);
  }

  /** The children, from the last to the first, were laid out in rows as squarify has it. */
  ghost predicate LaidInRows(children: seq<TreeNode>, rect0: Rect, ratio: real, round: real -> real)
    requires ratio > 0.0
    reads children
  {
    exists rows: seq<Band>, rects: seq<Rect> ::
      && AllAreas(rows) == Reversed(Areas(children)) && AllBoxes(rows) == Reversed(Boxes(children))
      && Squarified(rows, rects, rect0, None, ratio, round)
  }

  /** The rows so far: done is laid out in them, and row is the next one as far as it has come. */
  ghost predicate RowsSoFar(rows: seq<Band>, rects: seq<Rect>, rect0: Rect, done: seq<TreeNode>, row: seq<TreeNode>,
                            remaining: seq<TreeNode>, rect: Rect, ratio: real, round: real -> real)
    requires ratio > 0.0 && (row == [] ==> remaining != [])
    reads done, row, remaining
  {
    && Squarified(rows, rects, rect0, Some(if row != [] then row[0].area else remaining[|remaining| - 1].area), ratio, round)
    && rects[|rows|] == rect && AllAreas(rows) == Areas(done) && AllBoxes(rows) == Boxes(done)
    && NeverRose(Areas(row), Min(rect.dx, rect.dy), ratio)
  }

  lemma RowsStart(rect0: Rect, remaining: seq<TreeNode>, ratio: real, round: real -> real)
    requires ratio > 0.0 && remaining != []
    ensures RowsSoFar([], [rect0], rect0, [], [], remaining, rect0, ratio, round)
  {
    NoRows(rect0, Some(remaining[|remaining| - 1].area), ratio, round);
  }

  /** A cell that does not raise the deviation stays in the row. */
  lemma RowsPush(rows: seq<Band>, rects: seq<Rect>, rect0: Rect, done: seq<TreeNode>, row: seq<TreeNode>,
                 remaining: seq<TreeNode>, rect: Rect, ratio: real, round: real -> real)
    requires ratio > 0.0 && remaining != [] && RowsSoFar(rows, rects, rect0, done, row, remaining, rect, ratio, round)
    requires var child, u := remaining[|remaining| - 1], Min(rect.dx, rect.dy);
      row != [] ==> !Exceeds(Deviation(Areas(row + [child]), u, ratio), Deviation(Areas(row), u, ratio))
    ensures RowsSoFar(rows, rects, rect0, done, row + [remaining[|remaining| - 1]], remaining[..|remaining| - 1], rect, ratio, round)
  {
    hide Squarified, Deviation, NeverRose, Exceeds, Min;
    var child := remaining[|remaining| - 1];
    assert Areas(row + [child]) == Areas(row) + [child.area];
    if row == [] {
      assert row + [child] == [child] && Areas([child]) == [child.area];
      OneCell(child.area, Min(rect.dx, rect.dy), ratio);
    } else {
      CellAdded(Areas(row), child.area, Min(rect.dx, rect.dy), ratio);
    }
  }

  /** The row is laid out in front of the area next, which would raise its deviation, or as the last one. */
  lemma RowsClose(rows: seq<Band>, rects: seq<Rect>, rect0: Rect, rect: Rect, done: seq<TreeNode>, row: seq<TreeNode>, rest: Rect,
                  next: Option<real>, ratio: real, round: real -> real)
    requires ratio > 0.0 && row != [] && Squarified(rows, rects, rect0, Some(row[0].area), ratio, round)
    requires rects[|rows|] == rect && AllAreas(rows) == Areas(done) && AllBoxes(rows) == Boxes(done)
    requires NeverRose(Areas(row), Min(rect.dx, rect.dy), ratio)
    requires next.Some? ==> WouldRise(Areas(row), next.value, Min(rect.dx, rect.dy), ratio)
    requires InStrip(Band(Areas(row), Boxes(row)), rect, rest, next.None?, round)
    ensures var band := Band(Areas(row), Boxes(row));
      && Squarified(rows + [band], rects + [rest], rect0, next, ratio, round)
      && AllAreas(rows + [band]) == Areas(done + row) && AllBoxes(rows + [band]) == Boxes(done + row)
  {
    hide Squarified, NeverRose, WouldRise, InStrip, AllAreas, AllBoxes, Min;
    var band := Band(Areas(row), Boxes(row));
    assert Areas(row)[0] == row[0].area;
    RectsOf(rows, rects, rect0, Some(row[0].area), ratio, round);
    RowAdded(rows, rects, rect0, band, rest, next, ratio, round);
    RowJoins(rows, done, row);
  }

  lemma RowJoins(rows: seq<Band>, done: seq<TreeNode>, row: seq<TreeNode>)
    requires AllAreas(rows) == Areas(done) && AllBoxes(rows) == Boxes(done)
    ensures var more := rows + [Band(Areas(row), Boxes(row))];
      AllAreas(more) == Areas(done + row) && AllBoxes(more) == Boxes(done + row)
  {
    hide AllAreas, AllBoxes;
    Appended(rows, Band(Areas(row), Boxes(row)));
    assert Areas(done + row) == Areas(done) + Areas(row);
    BoxesJoin(done, row);
  }

  lemma RectsOf(rows: seq<Band>, rects: seq<Rect>, rect0: Rect, next: Option<real>, ratio: real, round: real -> real)
    requires ratio > 0.0 && Squarified(rows, rects, rect0, next, ratio, round)
    ensures |rects| == |rows| + 1
  {}

  lemma RowsEnd(children: seq<TreeNode>, done: seq<TreeNode>, rows: seq<Band>, rects: seq<Rect>, rect0: Rect, ratio: real,
                round: real -> real)
    requires ratio > 0.0 && TakenFrom(children, done, []) && Squarified(rows, rects, rect0, None, ratio, round)
    requires AllAreas(rows) == Areas(done) && AllBoxes(rows) == Boxes(done)
    ensures LaidInRows(children, rect0, ratio, round)
  {
    hide Squarified, AllAreas, AllBoxes;
    assert Areas(done) == Reversed(Areas(children)) && Boxes(done) == Reversed(Boxes(children));
  }

  /**
   * squarify's loop: the boxes of the children tile rect0, in rows that each cell but the first has made no worse and that
   * the next cell would have made worse; without rounding each has its own area.
   */
  method LayOut(children: seq<TreeNode>, rect0: Rect, round: real -> real, ratio: real)
    requires children != [] && Distinct(children) && AllNonNegative(Areas(children))
    requires NonNegative(rect0) && Rounding(round) && ratio > 0.0
    modifies children
    ensures Areas(children) == old(Areas(children))
    ensures Tiles(Boxes(children), rect0)
    ensures LaidInRows(children, rect0, ratio, round)
    ensures Exact(round) && Sum(Areas(children)) == rect0.dx * rect0.dy ==> KeepsAreas(children)
  {
    hide Tiles, Sum, KeepsAreas, Distinct, AllNonNegative, Exact, Laid, NoPoints, IsWorst;
    hide RowsSoFar, Deviation, InStrip, Squarified, LaidInRows, Areas, Boxes, NoWorse, Exceeds, Min, Rounding;
    var rect: Rect, row: seq<TreeNode>, remaining, best: Option<real> := rect0, [], children, None;
    var u, rowArea := Min(rect.dx, rect.dy), 0.0;
    ghost var done: seq<TreeNode>, rows: seq<Band>, rects := [], [], [rect0];
    ghost var exact := Exact(round) && Sum(Areas(children)) == rect0.dx * rect0.dy;
    LaidAtStart(children, rect0, exact);
    RowsStart(rect0, remaining, ratio, round);
    NoRow();
    while |remaining| > 0
      invariant Laid(children, rect0, done, row, remaining, rect, exact)
      invariant row == [] ==> best == None && remaining != []
      invariant row != [] ==> best == Deviation(Areas(row), u, ratio)
      invariant RowsSoFar(rows, rects, rect0, done, row, remaining, rect, ratio, round)
      invariant InSet(row, children)
      invariant forall o :: o in children ==> o.area == old(o.area)
      invariant rowArea == Sum(Areas(row)) && u == Min(rect.dx, rect.dy)
      decreases |remaining|, |row|
    {
      var child := remaining[|remaining| - 1];
      ghost var row0 := row;
      LaidPushed(children, rect0, done, row, remaining, rect, exact);
      row := row + [child];
      rowArea := rowArea + child.area;
      LaidFacts(children, rect0, done, row, remaining[..|remaining| - 1], rect, exact);
      var score := Worst(row, rowArea, u, ratio);
      NoWorseIff(score, best);
      if NoWorse(score, best) {
        RowsPush(rows, rects, rect0, done, row0, remaining, rect, ratio, round);
        remaining := remaining[..|remaining| - 1];
        best := score;
      } else {
        rowArea := rowArea - row[|row| - 1].area;
        row := row[..|row| - 1];
        assert row == row0;
        rect, rows, rects := CloseRow(children, rect0, done, row, rowArea, remaining, u, rect, round, exact, rows, rects, ratio);
        u := Min(rect.dx, rect.dy);
        done := done + row;
        row, rowArea, best := [], 0.0, None;
        NoRow();
      }
    }
    if |row| > 0 {
      rect := FlushRow(children, rect0, done, row, rowArea, u, rect, round, exact, rows, rects, ratio);
      LaidAtEnd(children, rect0, done + row, rect, exact);
    }
  }

  /** The call of position for a row that the next child would have made worse. */
  method CloseRow(ghost children: seq<TreeNode>, ghost rect0: Rect, ghost done: seq<TreeNode>, row: seq<TreeNode>, rowArea: real,
                  ghost remaining: seq<TreeNode>, u: real, rect: Rect, round: real -> real, ghost exact: bool,
                  ghost rows: seq<Band>, ghost rects: seq<Rect>, ghost ratio: real)
    returns (rest: Rect, ghost rows1: seq<Band>, ghost rects1: seq<Rect>)
    requires Distinct(children) && Laid(children, rect0, done, row, remaining, rect, exact)
    requires row != [] && remaining != [] && rowArea == Sum(Areas(row)) && u == Min(rect.dx, rect.dy)
    requires Rounding(round) && (exact ==> Exact(round)) && ratio > 0.0
    requires RowsSoFar(rows, rects, rect0, done, row, remaining, rect, ratio, round)
    requires Exceeds(Deviation(Areas(row + [remaining[|remaining| - 1]]), u, ratio), Deviation(Areas(row), u, ratio))
    modifies row
    ensures Laid(children, rect0, done + row, [], remaining, rest, exact)
    ensures RowsSoFar(rows1, rects1, rect0, done + row, [], remaining, rest, ratio, round)
    ensures forall o :: o in row ==> o.area == old(o.area)
  {
    hide Laid, Squarified, NeverRose, InStrip, Deviation, Exact, Rounding, Distinct, AllNonNegative, AllAreas, AllBoxes, Sum, Min;
    ghost var child := remaining[|remaining| - 1];
    AreasOneMore(row, child);
    RectsOf(rows, rects, rect0, Some(row[0].area), ratio, round);
    LaidFacts(children, rect0, done, row, remaining, rect, exact);
    rest := PlaceRow(children, rect0, done, row, rowArea, remaining, u, rect, false, round, exact);
    rows1, rects1 := rows + [Band(Areas(row), Boxes(row))], rects + [rest];
    RowsClose(rows, rects, rect0, rect, done, row, rest, Some(child.area), ratio, round);
    EmptyNeverRose(rest, ratio);
    hide Areas, Boxes;
  }

  lemma AreasOneMore(row: seq<TreeNode>, child: TreeNode)
    ensures Areas(row + [child]) == Areas(row) + [child.area]
  {}

  lemma EmptyNeverRose(rect: Rect, ratio: real)
    requires ratio > 0.0
    ensures NeverRose(Areas([]), Min(rect.dx, rect.dy), ratio)
  {}

  /** The call of position for the last row. */
  method FlushRow(ghost children: seq<TreeNode>, ghost rect0: Rect, ghost done: seq<TreeNode>, row: seq<TreeNode>, rowArea: real,
                  u: real, rect: Rect, round: real -> real, ghost exact: bool, ghost rows: seq<Band>, ghost rects: seq<Rect>,
                  ghost ratio: real)
    returns (rest: Rect)
    requires Distinct(children) && Laid(children, rect0, done, row, [], rect, exact)
    requires row != [] && rowArea == Sum(Areas(row)) && u == Min(rect.dx, rect.dy)
    requires Rounding(round) && (exact ==> Exact(round)) && ratio > 0.0
    requires RowsSoFar(rows, rects, rect0, done, row, [], rect, ratio, round)
    modifies row
    ensures Laid(children, rect0, done + row, [], [], rest, exact) && NoPoints(rest)
    ensures LaidInRows(children, rect0, ratio, round)
    ensures forall o :: o in row ==> o.area == old(o.area)
  {
    hide Laid, Squarified, NeverRose, InStrip, Deviation, Exact, Rounding, Distinct, AllNonNegative, AllAreas, AllBoxes, Sum, Min;
    hide LaidInRows, Areas, Boxes;
    rest := PlaceRow(children, rect0, done, row, rowArea, [], u, rect, true, round, exact);
    RowsClose(rows, rects, rect0, rect, done, row, rest, None, ratio, round);
    LaidTaken(children, rect0, done + row, rest, exact);
    RowsEnd(children, done + row, rows + [Band(Areas(row), Boxes(row))], rects + [rest], rect0, ratio, round);
  }

  lemma LaidTaken(children: seq<TreeNode>, rect0: Rect, done: seq<TreeNode>, rect: Rect, exact: bool)
    requires Laid(children, rect0, done, [], [], rect, exact)
    ensures TakenFrom(children, done, [])
  {
    hide Tiles, KeepsAreas;
    assert done + [] == done;
  }

  lemma NoRow()
    ensures Sum(Areas([])) == 0.0
  {
  }

  // ---------------------------------------------------------------- the whole hierarchy

  datatype Padding = Padding(top: real, right: real, bottom: real, left: real)

  /** d3_layout_treemapPad: the box without its padding; a side that would become negative collapses to its middle. */
  function Padded(r: Rect, p: Padding): (q: Rect)
    ensures NonNegative(q)
    ensures p.left + p.right <= r.dx ==> q.x - r.x == p.left && (r.x + r.dx) - (q.x + q.dx) == p.right
    ensures p.left + p.right > r.dx ==> q.dx == 0.0 && q.x - (r.x + p.left) == (r.x + r.dx - p.right) - q.x
    ensures p.top + p.bottom <= r.dy ==> q.y - r.y == p.top && (r.y + r.dy) - (q.y + q.dy) == p.bottom
    ensures p.top + p.bottom > r.dy ==> q.dy == 0.0 && q.y - (r.y + p.top) == (r.y + r.dy - p.bottom) - q.y
  {
    var x, y, dx, dy := r.x + p.left, r.y + p.top, r.dx - p.right - p.left, r.dy - p.top - p.bottom;
    Rect(if dx < 0.0 then x + dx / 2.0 else x, if dy < 0.0 then y + dy / 2.0 else y,
         if dx < 0.0 then 0.0 else dx, if dy < 0.0 then 0.0 else dy)
  }

  function Values(nodes: seq<TreeNode>): (v: seq<real>)
    ensures |v| == |nodes| && forall i :: 0 <= i < |nodes| ==> v[i] == nodes[i].value
  {
    seq(|nodes|, i requires 0 <= i < |nodes| => nodes[i].value)
  }

  /** What d3.layout.hierarchy computes for nonnegative leaves: a parent's value is the sum of its children's. */
  ghost predicate Weighted(n: TreeNode)
    requires n.Valid()
    decreases n.Repr
  {
    && n.value >= 0.0
    && (n.children != [] ==> n.value == Sum(Values(n.children)))
    && (forall c :: c in n.children ==> Weighted(c))
  }

  /** A total of 0 divides a box with an area up among children of which one has a positive value. */
  ghost predicate Fails(n: TreeNode, rect: Rect) {
    n.value == 0.0 && rect.dx * rect.dy > 0.0 && exists i :: 0 <= i < |n.children| && n.children[i].value > 0.0
  }

  /** Nothing fails below n with the boxes that the nodes have. */
  ghost predicate SafeBelow(n: TreeNode, pad: TreeNode -> Padding)
    requires n.Valid()
    reads n.Repr
    decreases n.Repr
  {
    !Fails(n, Padded(n.Box(), pad(n))) && forall c :: c in n.children ==> SafeBelow(c, pad)
  }

  /** The value of n is positive and the sum of its children's, none of which is negative. */
  ghost predicate Balanced(n: TreeNode) {
    n.value > 0.0 && n.value == Sum(Values(n.children)) && forall i :: 0 <= i < |n.children| ==> n.children[i].value >= 0.0
  }

  /** In a hierarchy of values that are not negative, whatever the boxes, nothing fails. */
  lemma {:induction false} WeightedIsSafe(n: TreeNode, pad: TreeNode -> Padding)
    requires n.Valid() && Weighted(n)
    ensures SafeBelow(n, pad) && (n.children != [] && n.value > 0.0 ==> Balanced(n))
    decreases n.Repr
  {
    hide Sum, Values, Padded;
    forall c | c in n.children ensures SafeBelow(c, pad) && c.value >= 0.0 {
      WeightedIsSafe(c, pad);
    }
    forall i | 0 <= i < |n.children| && n.value == 0.0 ensures n.children[i].value <= 0.0 {
      assert n.children[i] in n.children;
      PartOfSum(n.children, i);
    }
  }

  lemma PartOfSum(nodes: seq<TreeNode>, i: nat)
    requires i < |nodes| && forall c :: c in nodes ==> c.value >= 0.0
    ensures nodes[i].value <= Sum(Values(nodes))
  {
    SumNonNegative(Values(nodes));
    assert Values(nodes)[i] == nodes[i].value;
  }

  /** Below n nothing fails, and the children of every node tile its padded box; with exact, in proportion if balanced. */
  ghost predicate TiledBelow(n: TreeNode, pad: TreeNode -> Padding, exact: bool)
    requires n.Valid()
    reads n.Repr
    decreases n.Repr
  {
    n.children != [] ==>
      && !Fails(n, Padded(n.Box(), pad(n)))
      && Tiles(Boxes(n.children), Padded(n.Box(), pad(n)))
      && (exact && Balanced(n) ==> Proportional(n, Padded(n.Box(), pad(n))))
      && (forall c :: c in n.children ==> TiledBelow(c, pad, exact))
  }

  ghost predicate Proportional(n: TreeNode, rect: Rect)
    reads n.children
  {
    forall c :: c in n.children ==> c.dx * c.dy * n.value == c.value * (rect.dx * rect.dy)
  }

  /** scale(children, k); k is infinite or not a number when the total is 0. */
  method Scale(nodes: seq<TreeNode>, k: TreemapThrows.Number)
    requires Distinct(nodes)
    modifies nodes
    ensures forall i :: 0 <= i < |nodes| ==> IsScaled(nodes[i], k) && nodes[i].Box() == old(nodes[i].Box())
  {
    for i := 0 to |nodes|
      invariant forall j :: 0 <= j < |nodes| ==> nodes[j].Box() == old(nodes[j].Box())
      invariant forall j :: 0 <= j < i ==> IsScaled(nodes[j], k)
    {
      var child := nodes[i];
      ScaledIs(child.value, k);
      var area := ScaledNumber(child.value, k);
      child.infinite := area.Infinity?;
      child.area := if area.Finite? then area.value else 0.0;
    }
  }

  /** The area that scale computes, in the numbers of JavaScript. */
  function ScaledNumber(value: real, k: TreemapThrows.Number): TreemapThrows.Number {
    var factor := if TreemapThrows.Less(k, TreemapThrows.ZERO) then TreemapThrows.ZERO else k;
    var area := TreemapThrows.Multiply(TreemapThrows.Finite(value), factor);
    if area.NaN? || TreemapThrows.AtMost(area, TreemapThrows.ZERO) then TreemapThrows.ZERO else area
  }

  lemma ScaledIs(value: real, k: TreemapThrows.Number)
    ensures var area := ScaledNumber(value, k);
      && area != TreemapThrows.NaN && area != TreemapThrows.Infinity(false)
      && (area.Infinity? <==> k == TreemapThrows.INFINITE && value > 0.0)
      && (area.Finite? ==> area.value == if k.Finite? && k.value > 0.0 && value > 0.0 then value * k.value else 0.0)
  {
    if k.Finite? {
      ScaledSign(value, k.value);
    }
  }

  predicate IsScaled(c: TreeNode, k: TreemapThrows.Number)
    reads c
  {
    && (c.infinite <==> k == TreemapThrows.INFINITE && c.value > 0.0)
    && c.area == if k.Finite? && k.value > 0.0 && c.value > 0.0 then c.value * k.value else 0.0
  }

  lemma ScaledSign(v: real, k: real)
    ensures v > 0.0 && k > 0.0 ==> v * k > 0.0
    ensures v <= 0.0 && k >= 0.0 ==> v * k <= 0.0
  {
  }

  lemma {:induction false} SumScaled(a: seq<real>, v: seq<real>, k: real)
    requires |a| == |v| && forall i :: 0 <= i < |a| ==> a[i] == v[i] * k
    ensures Sum(a) == Sum(v) * k
    decreases |a|
  {
    if a == [] {
    } else {
      SumScaled(a[1..], v[1..], k);
    }
  }

  /** The areas are the values scaled from a total to a whole. */
  ghost predicate Scaled(areas: seq<real>, values: seq<real>, total: real, whole: real) {
    |areas| == |values| && forall i :: 0 <= i < |areas| ==> ScaledArea(areas[i], values[i], total, whole)
  }

  ghost predicate ScaledArea(area: real, value: real, total: real, whole: real) {
    area * total == value * whole
  }

  lemma ChildrenApart(node: TreeNode)
    requires node.Valid()
    ensures Distinct(node.children) && node in node.Repr
    ensures forall i :: 0 <= i < |node.children| ==> IsPart(node.children[i], node)
    ensures forall i, j :: 0 <= i < j < |node.children| ==> node.children[i].Repr !! node.children[j].Repr
  {
    forall i | 0 <= i < |node.children| ensures IsPart(node.children[i], node) {
      assert node.children[i].Valid();
    }
    forall i, j | 0 <= i < j < |node.children| ensures node.children[i] != node.children[j] {
      assert node.children[i] in node.children[i].Repr;
    }
  }

  ghost predicate IsPart(c: TreeNode, node: TreeNode) {
    c.Valid() && c in c.Repr && c in node.Repr && c.Repr <= node.Repr - {node}
  }

  /** The factor by which the values of the children become areas. */
  function Factor(node: TreeNode, whole: real): TreemapThrows.Number {
    TreemapThrows.Divide(TreemapThrows.Finite(whole), TreemapThrows.Finite(node.value))
  }

  method ScaleChildren(node: TreeNode, rect: Rect)
    requires node.Valid() && NonNegative(rect)
    modifies node.children
    ensures AllNonNegative(Areas(node.children))
    ensures (exists i :: 0 <= i < |node.children| && node.children[i].infinite) <==> Fails(node, rect)
    ensures Balanced(node) ==>
      Scaled(Areas(node.children), Values(node.children), node.value, rect.dx * rect.dy) &&
      Sum(Areas(node.children)) == rect.dx * rect.dy
  {
    hide TreeNode.Valid, Balanced, Sum, Scaled, AllNonNegative, Fails, Factor;
    ChildrenApart(node);
    NonNegativeProduct(rect.dx, rect.dy);
    Scale(node.children, Factor(node, rect.dx * rect.dy));
    AfterScale(node, rect);
  }

  lemma AfterScale(node: TreeNode, rect: Rect)
    requires rect.dx * rect.dy >= 0.0
    requires forall i :: 0 <= i < |node.children| ==> IsScaled(node.children[i], Factor(node, rect.dx * rect.dy))
    ensures AllNonNegative(Areas(node.children))
    ensures (exists i :: 0 <= i < |node.children| && node.children[i].infinite) <==> Fails(node, rect)
    ensures Balanced(node) ==>
      Scaled(Areas(node.children), Values(node.children), node.value, rect.dx * rect.dy) &&
      Sum(Areas(node.children)) == rect.dx * rect.dy
  {
    hide Sum, Areas, Values, Scaled, AllNonNegative;
    var whole := rect.dx * rect.dy;
    FactorIs(node, whole);
    AreasAreScaled(node, whole, Factor(node, whole));
    hide Factor;
    forall i | 0 <= i < |node.children|
      ensures node.children[i].infinite <==> Factor(node, whole) == TreemapThrows.INFINITE && node.children[i].value > 0.0
    {
      assert IsScaled(node.children[i], Factor(node, whole));
    }
  }

  lemma FactorIs(node: TreeNode, whole: real)
    requires whole >= 0.0
    ensures Factor(node, whole) == TreemapThrows.INFINITE <==> node.value == 0.0 && whole > 0.0
    ensures node.value != 0.0 ==> Factor(node, whole) == TreemapThrows.Finite(whole / node.value)
  {}

  lemma AreasAreScaled(node: TreeNode, whole: real, k: TreemapThrows.Number)
    requires whole >= 0.0 && (node.value != 0.0 ==> k == TreemapThrows.Finite(whole / node.value))
    requires forall i :: 0 <= i < |node.children| ==> IsScaled(node.children[i], k)
    ensures AllNonNegative(Areas(node.children))
    ensures Balanced(node) ==>
      Scaled(Areas(node.children), Values(node.children), node.value, whole) && Sum(Areas(node.children)) == whole
  {
    hide Sum;
    forall i | 0 <= i < |node.children| ensures node.children[i].area >= 0.0 {
      assert IsScaled(node.children[i], k);
      if k.Finite? {
        ScaledSign(node.children[i].value, k.value);
      }
    }
    if Balanced(node) {
      Shares(whole, node.value);
      forall i | 0 <= i < |node.children|
        ensures node.children[i].area == node.children[i].value * k.value
        ensures ScaledArea(node.children[i].area, node.children[i].value, node.value, whole)
      {
        assert IsScaled(node.children[i], k);
        ScaledChild(node.children[i].value, k.value, node.value, whole);
      }
      SumScaled(Areas(node.children), Values(node.children), k.value);
    }
  }

  lemma ScaledChild(v: real, f: real, total: real, whole: real)
    requires v >= 0.0 && f >= 0.0
    ensures v * f >= 0.0 && (v == 0.0 || f == 0.0 ==> v * f == 0.0)
    ensures f * total == whole ==> v * f * total == v * whole
  {
    NonNegativeProduct(v, f);
    assert v * f * total == v * (f * total);
  }

  lemma Shares(whole: real, total: real)
    requires whole >= 0.0 && total > 0.0
    ensures whole / total >= 0.0 && (whole / total) * total == whole
  {
  }

  lemma KeptIsProportional(node: TreeNode, rect: Rect)
    requires KeepsAreas(node.children)
    requires Scaled(Areas(node.children), Values(node.children), node.value, rect.dx * rect.dy)
    ensures Proportional(node, rect)
  {
    forall c | c in node.children ensures c.dx * c.dy * node.value == c.value * (rect.dx * rect.dy) {
      var i :| 0 <= i < |node.children| && node.children[i] == c;
      assert AreaKept(node.children[i]);
      assert ScaledArea(Areas(node.children)[i], Values(node.children)[i], node.value, rect.dx * rect.dy);
    }
  }

  lemma BoxesNonNegative(nodes: seq<TreeNode>, rect: Rect)
    requires Tiles(Boxes(nodes), rect)
    ensures forall j :: 0 <= j < |nodes| ==> NonNegative(nodes[j].Box())
  {
    forall j | 0 <= j < |nodes| ensures NonNegative(nodes[j].Box()) {
      assert NonNegative(Boxes(nodes)[j]);
    }
  }

  function AreaNumbers(nodes: seq<TreeNode>): (a: seq<TreemapThrows.Number>)
    reads nodes
    ensures |a| == |nodes| && forall i :: 0 <= i < |nodes| ==> a[i] == nodes[i].AreaNumber()
  {
    seq(|nodes|, i requires 0 <= i < |nodes| reads nodes => nodes[i].AreaNumber())
  }

  /** The loop over the rows comes to a TypeError, whatever position makes of the free rectangle. */
  ghost predicate RowsThrow(nodes: seq<TreeNode>, ratio: real)
    reads nodes
  {
    forall sides: nat -> TreemapThrows.Number ::
      TreemapThrows.Throws(AreaNumbers(nodes), [], TreemapThrows.ZERO, TreemapThrows.INFINITE, sides, 0, ratio)
  }

  lemma InfiniteRowsThrow(nodes: seq<TreeNode>, i: nat, ratio: real)
    requires i < |nodes| && nodes[i].infinite && AllNonNegative(Areas(nodes)) && ratio > 0.0
    ensures RowsThrow(nodes, ratio)
  {
    forall sides: nat -> TreemapThrows.Number
      ensures TreemapThrows.Throws(AreaNumbers(nodes), [], TreemapThrows.ZERO, TreemapThrows.INFINITE, sides, 0, ratio)
    {
      assert AreaNumbers(nodes)[i] == TreemapThrows.INFINITE;
      forall j | 0 <= j < |nodes| ensures TreemapThrows.IsArea(AreaNumbers(nodes)[j]) {
        assert Areas(nodes)[j] >= 0.0;
      }
      TreemapThrows.InfinityThrows(AreaNumbers(nodes), [], TreemapThrows.ZERO, TreemapThrows.INFINITE, sides, 0, ratio);
    }
  }

  /** One level of squarify: areas, then rows. It throws exactly when a total of 0 makes an area infinite. */
  method SquarifyLevel(node: TreeNode, rect: Rect, round: real -> real, ratio: real) returns (ok: bool)
    requires node.Valid() && node.children != [] && NonNegative(rect) && Rounding(round) && ratio > 0.0
    modifies node.children
    ensures ok <==> !Fails(node, rect)
    ensures !ok ==> RowsThrow(node.children, ratio)
    ensures ok ==> Tiles(Boxes(node.children), rect) && LaidInRows(node.children, rect, ratio, round)
    ensures ok && Exact(round) && Balanced(node) ==> Proportional(node, rect)
    ensures ok ==> forall j :: 0 <= j < |node.children| ==> NonNegative(node.children[j].Box())
  {
    hide Tiles, Sum, KeepsAreas, Exact, AllNonNegative, Balanced, Proportional, TreeNode.Valid, Fails, RowsThrow;
    hide Scaled, Boxes, Areas, LaidInRows;
    ChildrenApart(node);
    ScaleChildren(node, rect);
    if i: nat :| i < |node.children| && node.children[i].infinite {
      InfiniteRowsThrow(node.children, i, ratio);
      return false;
    }
    LayOut(node.children, rect, round, ratio);
    BoxesNonNegative(node.children, rect);
    if Exact(round) && Balanced(node) {
      KeptIsProportional(node, rect);
    }
    return true;
  }

  /** Below n, the children of every node are laid out in rows. */
  ghost predicate RowsBelow(n: TreeNode, pad: TreeNode -> Padding, ratio: real, round: real -> real)
    requires n.Valid() && ratio > 0.0
    reads n.Repr
    decreases n.Repr
  {
    n.children != [] ==>
      && LaidInRows(n.children, Padded(n.Box(), pad(n)), ratio, round)
      && (forall c :: c in n.children ==> RowsBelow(c, pad, ratio, round))
  }

  lemma RowsWhenChildrenHave(n: TreeNode, pad: TreeNode -> Padding, ratio: real, round: real -> real)
    requires n.Valid() && ratio > 0.0
    requires n.children != [] ==> LaidInRows(n.children, Padded(n.Box(), pad(n)), ratio, round)
    requires forall j :: 0 <= j < |n.children| ==> n.children[j].Valid() && RowsBelow(n.children[j], pad, ratio, round)
    ensures RowsBelow(n, pad, ratio, round)
  {
    hide LaidInRows, Padded;
    forall c | c in n.children ensures RowsBelow(c, pad, ratio, round) {
      var j :| 0 <= j < |n.children| && n.children[j] == c;
    }
  }

  /** squarify(node): the children tile the padded box of their parent, at every level, unless one of these throws. */
  method Squarify(node: TreeNode, pad: TreeNode -> Padding, round: real -> real, ratio: real) returns (ok: bool)
    requires node.Valid() && NonNegative(node.Box()) && Rounding(round) && ratio > 0.0
    modifies node.Repr - {node}
    ensures ok ==> TiledBelow(node, pad, Exact(round)) && RowsBelow(node, pad, ratio, round)
    ensures ok <==> SafeBelow(node, pad)
    decreases node.Repr
  {
    hide Tiles, Exact, Padded, Proportional, TreeNode.Valid, Balanced, TiledBelow, SafeBelow, Fails, RowsBelow, LaidInRows;
    if node.children != [] {
      var rect := Padded(node.Box(), pad(node));
      ChildrenApart(node);
      ok := SquarifyLevel(node, rect, round, ratio);
      if !ok {
        NotSafe(node, pad);
        return;
      }
      for i := 0 to |node.children|
        invariant Tiles(Boxes(node.children), rect) && (Exact(round) && Balanced(node) ==> Proportional(node, rect))
        invariant LaidInRows(node.children, rect, ratio, round)
        invariant forall j :: 0 <= j < |node.children| ==> IsPart(node.children[j], node) && NonNegative(node.children[j].Box())
        invariant forall j :: 0 <= j < i ==>
          TiledBelow(node.children[j], pad, Exact(round)) && RowsBelow(node.children[j], pad, ratio, round)
      {
        var c := node.children[i];
        ghost var boxes := Boxes(node.children);
        assert forall j :: 0 <= j < |node.children| && j != i ==> node.children[j].Repr !! c.Repr;
        ok := Squarify(c, pad, round, ratio);
        if !ok {
          ChildNotSafe(node, c, pad);
          return;
        }
        assert forall j :: 0 <= j < |node.children| ==> node.children[j].Box() == boxes[j];
        assert Boxes(node.children) == boxes;
      }
    }
    TiledWhenChildrenAre(node, pad, Exact(round));
    RowsWhenChildrenHave(node, pad, ratio, round);
    TiledIsSafe(node, pad, Exact(round));
    return true;
  }

  lemma NotSafe(n: TreeNode, pad: TreeNode -> Padding)
    requires n.Valid() && Fails(n, Padded(n.Box(), pad(n)))
    ensures !SafeBelow(n, pad)
  {}

  lemma ChildNotSafe(n: TreeNode, c: TreeNode, pad: TreeNode -> Padding)
    requires n.Valid() && c in n.children && c.Valid() && !SafeBelow(c, pad)
    ensures !SafeBelow(n, pad)
  {}

  lemma {:induction false} TiledIsSafe(n: TreeNode, pad: TreeNode -> Padding, exact: bool)
    requires n.Valid() && TiledBelow(n, pad, exact)
    ensures SafeBelow(n, pad)
    decreases n.Repr
  {
    hide Tiles, Padded, Proportional, Balanced;
    if n.children == [] {
    } else {
      forall c | c in n.children ensures SafeBelow(c, pad) {
        TiledIsSafe(c, pad, exact);
      }
    }
  }

  lemma TiledWhenChildrenAre(n: TreeNode, pad: TreeNode -> Padding, exact: bool)
    requires n.Valid()
    requires n.children != [] ==> !Fails(n, Padded(n.Box(), pad(n))) && Tiles(Boxes(n.children), Padded(n.Box(), pad(n)))
    requires n.children != [] && exact && Balanced(n) ==> Proportional(n, Padded(n.Box(), pad(n)))
    requires forall j :: 0 <= j < |n.children| ==> n.children[j].Valid() && TiledBelow(n.children[j], pad, exact)
    ensures TiledBelow(n, pad, exact)
  {
    hide Tiles, Proportional;
    forall c | c in n.children ensures TiledBelow(c, pad, exact) {
      var j :| 0 <= j < |n.children| && n.children[j] == c;
    }
  }

  /**
   * treemap(d) on a fresh hierarchy: the root takes the whole size, and the layout goes down from it. It throws exactly when
   * somewhere a total of 0 is to be divided up, which values that are not negative rule out.
   */
  method Layout(root: TreeNode, width: real, height: real, pad: TreeNode -> Padding, round: real -> real, ratio: real)
    returns (ok: bool)
    requires root.Valid() && width >= 0.0 && height >= 0.0 && Rounding(round) && ratio > 0.0
    modifies root.Repr
    ensures root.Box() == Rect(0.0, 0.0, width, height)
    ensures ok ==> TiledBelow(root, pad, Exact(round)) && RowsBelow(root, pad, ratio, round)
    ensures ok <==> SafeBelow(root, pad)
    ensures Weighted(root) ==> ok
  {
    hide Tiles, Exact, TiledBelow, SafeBelow, Factor, Weighted, RowsBelow;
    root.x, root.y, root.dx, root.dy := 0.0, 0.0, width, height;
    var nodes := [root];
    Scale(nodes, Factor(root, width * height));
    assert nodes[0] == root;
    ok := Squarify(root, pad, round, ratio);
    if Weighted(root) {
      WeightedIsSafe(root, pad);
    }
  }

  /** The values 1 and -1 under a total of 0, in a unit square without padding: the layout throws. */
  lemma CancelledValues(root: TreeNode, pad: TreeNode -> Padding)
    requires root.Valid() && Values(root.children) == [1.0, -1.0] && root.value == 0.0
    requires root.Box() == Rect(0.0, 0.0, 1.0, 1.0) && pad(root) == Padding(0.0, 0.0, 0.0, 0.0)
    ensures !SafeBelow(root, pad)
  {
    hide TreeNode.Valid, SafeBelow, Fails, Padded, Values, TreeNode.Box;
    NoPadding(root.Box());
    UnitFails(root);
    NotSafe(root, pad);
  }

  lemma UnitFails(root: TreeNode)
    requires Values(root.children) == [1.0, -1.0] && root.value == 0.0
    ensures Fails(root, Rect(0.0, 0.0, 1.0, 1.0))
  {
    var v := Values(root.children);
    assert v[0] == 1.0 && root.children[0].value == v[0];
  }

  // ---------------------------------------------------------------- the leaves

  ghost function Leaves(n: TreeNode): seq<TreeNode>
    requires n.Valid()
    decreases n.Repr, 0, 1
  {
    if n.children == [] then [n] else LeavesOf(n, |n.children|)
  }

  ghost function LeavesOf(n: TreeNode, k: nat): seq<TreeNode>
    requires n.Valid() && k <= |n.children|
    decreases n.Repr, 0, 0, k
  {
    if k == 0 then [] else LeavesOf(n, k - 1) + Leaves(n.children[k - 1])
  }

  ghost predicate Unpadded(n: TreeNode, pad: TreeNode -> Padding) {
    forall c :: c in n.Repr ==> pad(c) == Padding(0.0, 0.0, 0.0, 0.0)
  }

  /** Without padding, the boxes of the leaves tile the box of the root. */
  lemma {:induction false} LeavesTile(n: TreeNode, pad: TreeNode -> Padding, exact: bool)
    requires n.Valid() && TiledBelow(n, pad, exact) && Unpadded(n, pad) && NonNegative(n.Box())
    ensures Tiles(Boxes(Leaves(n)), n.Box())
    decreases n.Repr, 1
  {
    if n.children == [] {
      SelfTiles(n.Box());
      assert Boxes(Leaves(n)) == [n.Box()];
    } else {
      LeavesOfTile(n, pad, exact, |n.children|);
      assert Boxes(n.children[|n.children|..]) == [];
      assert Boxes(LeavesOf(n, |n.children|)) + [] == Boxes(LeavesOf(n, |n.children|));
    }
  }

  lemma SelfTiles(r: Rect)
    requires NonNegative(r)
    ensures Tiles([r], r)
  {
    forall px, py | In(r, px, py) ensures Covered([r], px, py) {
      assert In([r][0], px, py);
    }
  }

  lemma {:induction false} LeavesOfTile(n: TreeNode, pad: TreeNode -> Padding, exact: bool, k: nat)
    requires n.Valid() && TiledBelow(n, pad, exact) && Unpadded(n, pad) && NonNegative(n.Box())
    requires n.children != [] && k <= |n.children|
    ensures Tiles(Boxes(LeavesOf(n, k)) + Boxes(n.children[k..]), n.Box())
    decreases n.Repr, 0, k
  {
    hide Tiles, NonNegative, TreeNode.Valid, TiledBelow, Unpadded, LeavesOf, Leaves;
    if k == 0 {
      NoLeavesYet(n, pad, exact);
    } else {
      LeavesOfTile(n, pad, exact, k - 1);
      ChildTiled(n, pad, exact, k - 1);
      LeavesTile(n.children[k - 1], pad, exact);
      LeavesJoin(n, k);
      var c := n.children[k - 1];
      Refine(Boxes(LeavesOf(n, k - 1)), c.Box(), Boxes(n.children[k..]), Boxes(Leaves(c)), n.Box());
    }
  }

  lemma NoLeavesYet(n: TreeNode, pad: TreeNode -> Padding, exact: bool)
    requires n.Valid() && TiledBelow(n, pad, exact) && Unpadded(n, pad) && NonNegative(n.Box()) && n.children != []
    ensures Tiles(Boxes(LeavesOf(n, 0)) + Boxes(n.children[0..]), n.Box())
  {
    hide Tiles;
    NoPadding(n.Box());
    assert n in n.Repr;
    assert n.children[0..] == n.children && Boxes(LeavesOf(n, 0)) + Boxes(n.children) == Boxes(n.children);
  }

  lemma ChildTiled(n: TreeNode, pad: TreeNode -> Padding, exact: bool, j: nat)
    requires n.Valid() && TiledBelow(n, pad, exact) && Unpadded(n, pad) && NonNegative(n.Box()) && j < |n.children|
    ensures var c := n.children[j];
      c.Valid() && c.Repr < n.Repr && TiledBelow(c, pad, exact) && Unpadded(c, pad) && NonNegative(c.Box())
  {
    hide Tiles, Padded, Proportional;
    BoxesNonNegative(n.children, Padded(n.Box(), pad(n)));
  }

  lemma LeavesNext(n: TreeNode, k: nat)
    requires n.Valid() && 0 < k <= |n.children|
    ensures n.children[k - 1].Valid() && LeavesOf(n, k) == LeavesOf(n, k - 1) + Leaves(n.children[k - 1])
  {}

  /** The leaves of one more child take its place. */
  lemma LeavesJoin(n: TreeNode, k: nat)
    requires n.Valid() && 0 < k <= |n.children|
    ensures n.children[k - 1].Valid()
    ensures Boxes(LeavesOf(n, k - 1)) + Boxes(n.children[k - 1..]) ==
            Boxes(LeavesOf(n, k - 1)) + [n.children[k - 1].Box()] + Boxes(n.children[k..])
    ensures Boxes(LeavesOf(n, k - 1)) + Boxes(Leaves(n.children[k - 1])) == Boxes(LeavesOf(n, k))
  {
    hide LeavesOf, Leaves, TreeNode.Valid;
    LeavesNext(n, k);
    var c := n.children[k - 1];
    BoxesJoin(LeavesOf(n, k - 1), Leaves(c));
    FirstBox(c, n.children[k - 1..], n.children[k..]);
    Regroup(Boxes(LeavesOf(n, k - 1)), c.Box(), Boxes(n.children[k..]));
  }

  lemma FirstBox(c: TreeNode, s: seq<TreeNode>, rest: seq<TreeNode>)
    requires s == [c] + rest
    ensures Boxes(s) == [c.Box()] + Boxes(rest)
  {}

  lemma Regroup(a: seq<Rect>, r: Rect, d: seq<Rect>)
    ensures a + ([r] + d) == a + [r] + d
  {}

  lemma BoxesJoin(a: seq<TreeNode>, b: seq<TreeNode>)
    ensures Boxes(a + b) == Boxes(a) + Boxes(b)
  {}

  function Area(r: Rect): real {
    r.dx * r.dy
  }

  /** The box of the leaf l has the part of n's area that its value is of n's value. */
  ghost predicate HasShare(l: TreeNode, n: TreeNode)
    reads l, n
  {
    Times(Area(l.Box()), n.value) == Times(l.value, Area(n.Box()))
  }

  lemma {:induction false} LeafOfChild(n: TreeNode, k: nat, l: TreeNode) returns (j: nat)
    requires n.Valid() && k <= |n.children| && l in LeavesOf(n, k)
    ensures j < k && l in Leaves(n.children[j])
    decreases k
  {
    if l in Leaves(n.children[k - 1]) {
      j := k - 1;
    } else {
      j := LeafOfChild(n, k - 1, l);
    }
  }

  lemma {:induction false} LeafValue(n: TreeNode, l: TreeNode)
    requires n.Valid() && Weighted(n) && l in Leaves(n)
    ensures 0.0 <= l.value <= n.value
    decreases n.Repr
  {
    if n.children == [] {
    } else {
      var j := LeafOfChild(n, |n.children|, l);
      LeafValue(n.children[j], l);
      ValueOfChild(n, j);
    }
  }

  lemma ValueOfChild(n: TreeNode, j: nat)
    requires n.Valid() && Weighted(n) && j < |n.children|
    ensures n.children[j].value <= n.value
  {
    hide Sum, Values;
    forall c | c in n.children ensures c.value >= 0.0 {
      assert Weighted(c);
    }
    PartOfSum(n.children, j);
  }

  /** A leaf is within the box of its ancestor, by the tiling of the leaves. */
  lemma LeafWithin(n: TreeNode, pad: TreeNode -> Padding, exact: bool, l: TreeNode)
    requires n.Valid() && TiledBelow(n, pad, exact) && Unpadded(n, pad) && NonNegative(n.Box()) && l in Leaves(n)
    ensures NonNegative(l.Box()) && Within(l.Box(), n.Box())
  {
    LeavesTile(n, pad, exact);
    var i :| 0 <= i < |Leaves(n)| && Leaves(n)[i] == l;
    assert Boxes(Leaves(n))[i] == l.Box();
  }

  lemma NoPadding(r: Rect)
    requires NonNegative(r)
    ensures Padded(r, Padding(0.0, 0.0, 0.0, 0.0)) == r
  {}

  /** Without padding and rounding, the area of every leaf is proportional to its value. */
  lemma {:induction false} LeavesProportional(n: TreeNode, pad: TreeNode -> Padding, l: TreeNode)
    requires n.Valid() && Weighted(n) && TiledBelow(n, pad, true) && Unpadded(n, pad) && NonNegative(n.Box())
    requires n.value > 0.0 && l in Leaves(n)
    ensures HasShare(l, n)
    decreases n.Repr
  {
    hide TreeNode.Valid, Weighted, SafeBelow, Balanced, TiledBelow, Unpadded, Times, LeavesOf, Within, NonNegative, Area;
    if n.children == [] {
      OwnShare(n.value, Area(n.Box()));
    } else {
      var j := ChildOfLeaf(n, l);
      var c := n.children[j];
      ChildParts(n, pad, c);
      WeightedIsSafe(n, pad);
      ChildShare(n, pad, c);
      LeafValue(c, l);
      LeafWithin(c, pad, true, l);
      if c.value > 0.0 {
        LeavesProportional(c, pad, l);
      }
      ShareOfShare(l.Box(), c.Box(), l.value, c.value, n.value, Area(n.Box()));
    }
  }

  lemma ChildOfLeaf(n: TreeNode, l: TreeNode) returns (j: nat)
    requires n.Valid() && n.children != [] && l in Leaves(n)
    ensures j < |n.children| && n.children[j].Valid() && l in Leaves(n.children[j]) && n.children[j].Repr < n.Repr
  {
    j := LeafOfChild(n, |n.children|, l);
  }

  lemma ChildParts(n: TreeNode, pad: TreeNode -> Padding, c: TreeNode)
    requires n.Valid() && Weighted(n) && TiledBelow(n, pad, true) && Unpadded(n, pad) && c in n.children
    ensures c.Valid() && Weighted(c) && TiledBelow(c, pad, true) && Unpadded(c, pad)
  {
    hide Tiles, Padded, Proportional;
    var j :| 0 <= j < |n.children| && n.children[j] == c;
  }

  lemma ChildShare(n: TreeNode, pad: TreeNode -> Padding, c: TreeNode)
    requires n.Valid() && TiledBelow(n, pad, true) && Unpadded(n, pad) && NonNegative(n.Box())
    requires Balanced(n) && c in n.children
    ensures NonNegative(c.Box()) && Times(Area(c.Box()), n.value) == Times(c.value, Area(n.Box()))
  {
    hide Tiles, Padded, Sum, Balanced;
    NoPadding(n.Box());
    assert n in n.Repr;
    assert Tiles(Boxes(n.children), n.Box()) && Proportional(n, n.Box());
    hide TreeNode.Valid, TiledBelow, Unpadded;
    BoxesNonNegative(n.children, n.Box());
    var j :| 0 <= j < |n.children| && n.children[j] == c;
  }

  lemma OwnShare(v: real, a: real)
    ensures Times(a, v) == Times(v, a)
  {}

  lemma ShareOfShare(l: Rect, c: Rect, lv: real, cv: real, v: real, whole: real)
    requires Within(l, c) && NonNegative(l) && 0.0 <= lv <= cv && v > 0.0
    requires Times(Area(c), v) == Times(cv, whole)
    requires cv > 0.0 ==> Times(Area(l), cv) == Times(lv, Area(c))
    ensures Times(Area(l), v) == Times(lv, whole)
  {
    if cv > 0.0 {
      ChainShares(Area(l), Area(c), lv, cv, v, whole);
    } else {
      NoShare(Area(c), v, whole);
      NoRoom(l, c);
      OwnShare(v, 0.0);
    }
  }

  lemma ChainShares(la: real, ca: real, lv: real, cv: real, v: real, whole: real)
    requires cv > 0.0 && Times(ca, v) == Times(cv, whole) && Times(la, cv) == Times(lv, ca)
    ensures Times(la, v) == Times(lv, whole)
  {
    assert la * cv * v == lv * ca * v;
    assert lv * (ca * v) == lv * (cv * whole);
    assert cv * (la * v) == cv * (lv * whole);
  }

  lemma NoShare(ca: real, v: real, whole: real)
    requires v > 0.0 && Times(ca, v) == Times(0.0, whole)
    ensures ca == 0.0 && Times(0.0, whole) == 0.0
  {}

  lemma NoRoom(l: Rect, c: Rect)
    requires Within(l, c) && NonNegative(l) && Area(c) == 0.0
    ensures Area(l) == 0.0
  {
    assert c.dx == 0.0 || c.dy == 0.0;
  }

  // ---------------------------------------------------------------- whole boxes

  ghost predicate WholeBelow(n: TreeNode)
    requires n.Valid()
    reads n.Repr
    decreases n.Repr
  {
    WholeRect(n.Box()) && forall c :: c in n.children ==> WholeBelow(c)
  }

  /** A rounding to whole numbers, as Math.round is, gives every node a box of whole numbers when the root has one. */
  lemma {:induction false} WholeTreemap(n: TreeNode, pad: TreeNode -> Padding, ratio: real, round: real -> real)
    requires n.Valid() && ratio > 0.0 && RowsBelow(n, pad, ratio, round) && Unpadded(n, pad) && NonNegative(n.Box())
    requires TiledBelow(n, pad, false) && WholeRect(n.Box()) && RoundsToWhole(round)
    ensures WholeBelow(n)
    decreases n.Repr
  {
    hide WholeRect, RoundsToWhole, LaidInRows, Tiles, Padded, Unpadded, NonNegative;
    forall c | c in n.children ensures WholeBelow(c) {
      var j: nat :| j < |n.children| && n.children[j] == c;
      ChildTiled(n, pad, false, j);
      WholeChildren(n, pad, ratio, round);
      assert WholeRect(c.Box());
      WholeTreemap(c, pad, ratio, round);
    }
  }

  lemma WholeChildren(n: TreeNode, pad: TreeNode -> Padding, ratio: real, round: real -> real)
    requires n.Valid() && ratio > 0.0 && RowsBelow(n, pad, ratio, round) && Unpadded(n, pad) && NonNegative(n.Box())
    requires WholeRect(n.Box()) && RoundsToWhole(round)
    ensures forall j :: 0 <= j < |n.children| ==> WholeRect(n.children[j].Box())
  {
    hide WholeRect, RoundsToWhole, Squarified, AllAreas, AllBoxes, Reversed, Areas, Boxes;
    NoPadding(n.Box());
    hide Padded;
    assert n in n.Repr;
    if n.children != [] {
      var rows: seq<Band>, rects: seq<Rect> :|
        AllAreas(rows) == Reversed(Areas(n.children)) && AllBoxes(rows) == Reversed(Boxes(n.children))
        && Squarified(rows, rects, n.Box(), None, ratio, round);
      WholeLayout(rows, rects, n.Box(), ratio, round);
      forall j | 0 <= j < |n.children| ensures WholeRect(n.children[j].Box()) {
        assert Boxes(n.children)[j] == Reversed(Boxes(n.children))[|n.children| - 1 - j];
      }
    }
  }
}
