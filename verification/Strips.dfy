/** How a row of areas is shared out along one side of a rectangle (the loops of treemap's position). */
module Strips {
  import opened Reals
  import opened Tiling

  function Min(a: real, b: real): real { if b < a then b else a }

  function Sum(s: seq<real>): real {
    if s == [] then 0.0 else s[0] + Sum(s[1..])
  }

  ghost predicate AllNonNegative(s: seq<real>) {
    forall i :: 0 <= i < |s| ==> s[i] >= 0.0
  }

  lemma {:induction false} NoAreas(areas: seq<real>)
    requires forall k :: 0 <= k < |areas| ==> areas[k] == 0.0
    ensures Sum(areas) == 0.0
  {
    if areas == [] {
    } else {
      NoAreas(areas[1..]);
    }
  }

  /** A rounding function: Math.round, or Number when rounding is off. */
  ghost predicate Rounding(round: real -> real) {
    forall a :: a >= 0.0 ==> round(a) >= 0.0
  }

  ghost predicate Exact(round: real -> real) {
    forall a :: round(a) == a
  }

  function Share(area: real, v: real, round: real -> real): real {
    if v != 0.0 then round(area / v) else 0.0
  }

  /** The lengths that the boxes of a row get: the rounded share, as far as there is room; the last one takes the rest. */
  function Lengths(areas: seq<real>, v: real, room: real, round: real -> real): (len: seq<real>)
    ensures |len| == |areas|
  {
    if areas == [] then [] else if |areas| == 1 then [room]
    else
      var w := Min(room, Share(areas[0], v, round));
      [w] + Lengths(areas[1..], v, room - w, round)
  }

  /** Where the boxes begin. */
  function Starts(from: real, len: seq<real>): (at: seq<real>)
    ensures |at| == |len| && (len != [] ==> at[0] == from)
    decreases |len|
  {
    if len == [] then [] else [from] + Starts(from + len[0], len[1..])
  }

  lemma SumConcat(a: seq<real>, b: seq<real>)
    ensures Sum(a + b) == Sum(a) + Sum(b)
  {
    if a == [] {
      assert a + b == b;
    } else {
      assert (a + b)[1..] == a[1..] + b;
    }
  }

  lemma {:induction false} SumNonNegative(s: seq<real>)
    requires AllNonNegative(s)
    ensures Sum(s) >= 0.0 && forall i :: 0 <= i < |s| ==> s[i] <= Sum(s)
  {
    if s == [] {
    } else {
      SumNonNegative(s[1..]);
      forall i | 0 <= i < |s| ensures s[i] <= Sum(s) {
        if i > 0 { assert s[i] == s[1..][i - 1]; }
      }
    }
  }

  lemma {:induction false} LengthsFill(areas: seq<real>, v: real, room: real, round: real -> real)
    requires AllNonNegative(areas) && areas != [] && v >= 0.0 && room >= 0.0 && Rounding(round)
    ensures AllNonNegative(Lengths(areas, v, room, round)) && Sum(Lengths(areas, v, room, round)) == room
    decreases |areas|
  {
    var len := Lengths(areas, v, room, round);
    if |areas| > 1 {
      var w := Min(room, Share(areas[0], v, round));
      ShareNonNegative(areas[0], v, round);
      LengthsFill(areas[1..], v, room - w, round);
      assert len[1..] == Lengths(areas[1..], v, room - w, round);
      forall i | 0 <= i < |len| ensures len[i] >= 0.0 {
        if i > 0 { assert len[i] == len[1..][i - 1]; }
      }
    } else {
      assert len[1..] == [];
    }
  }

  lemma ShareNonNegative(area: real, v: real, round: real -> real)
    requires area >= 0.0 && v >= 0.0 && Rounding(round)
    ensures Share(area, v, round) >= 0.0
  {
    if v > 0.0 {
      assert area / v >= 0.0;
    }
  }

  lemma {:induction false} StartsFill(from: real, len: seq<real>)
    requires AllNonNegative(len) && len != []
    ensures Fills(Starts(from, len), len, from, from + Sum(len))
    decreases |len|
  {
    var at := Starts(from, len);
    if |len| == 1 {
      assert len[1..] == [];
    } else {
      var to := from + Sum(len);
      StartsFill(from + len[0], len[1..]);
      assert at[1..] == Starts(from + len[0], len[1..]);
      FillsShift(at, len, from, to);
    }
  }

  lemma FillsShift(at: seq<real>, len: seq<real>, from: real, to: real)
    requires |at| == |len| > 1 && at[0] == from && len[0] >= 0.0
    requires Fills(at[1..], len[1..], from + len[0], to)
    ensures Fills(at, len, from, to)
  {
    var b, m := at[1..], len[1..];
    forall i, j | 0 <= i < j < |at| ensures Before(at, len, i, j) {
      assert j > 1 ==> Before(b, m, 0, j - 1);
      assert i > 0 ==> Before(b, m, i - 1, j - 1);
    }
    forall i | 0 <= i < |at| - 1 ensures Adjacent(at, len, i) {
      assert i > 0 ==> Adjacent(b, m, i - 1);
    }
    forall i | 0 <= i < |len| ensures len[i] >= 0.0 {
      assert i > 0 ==> m[i - 1] >= 0.0;
    }
  }

  /** Without rounding, and with room for exactly the row's area, every box gets its own area. */
  lemma {:induction false} LengthsExact(areas: seq<real>, v: real, room: real, round: real -> real, k: nat)
    requires AllNonNegative(areas) && v >= 0.0 && Exact(round) && v * room == Sum(areas) && k < |areas|
    ensures Lengths(areas, v, room, round)[k] * v == areas[k]
    decreases |areas|
  {
    hide Lengths, Sum, Min, Share;
    SumNonNegative(areas);
    LengthsAt(areas, v, room, round, k);
    if v == 0.0 {
      assert areas[k] == 0.0;
    } else if |areas| > 1 {
      var w := ExactShare(areas[0], v, room, round);
      if k > 0 {
        SumTail(areas, v, room, w);
        LengthsExact(areas[1..], v, room - w, round, k - 1);
      }
    }
  }

  lemma LengthsAt(areas: seq<real>, v: real, room: real, round: real -> real, k: nat)
    requires k < |areas|
    ensures |areas| == 1 ==> Lengths(areas, v, room, round)[k] == room && Sum(areas) == areas[0]
    ensures |areas| > 1 ==>
      var w := Min(room, Share(areas[0], v, round));
      Lengths(areas, v, room, round)[k] == if k == 0 then w else Lengths(areas[1..], v, room - w, round)[k - 1]
  {
    if |areas| == 1 {
      assert areas[1..] == [];
    }
  }

  lemma ExactShare(area: real, v: real, room: real, round: real -> real) returns (w: real)
    requires v > 0.0 && 0.0 <= area <= v * room && Exact(round)
    ensures w == Share(area, v, round) == Min(room, Share(area, v, round)) && w * v == area
  {
    w := area / v;
    assert w * v == area;
    if w > room {
      PositiveProduct(w - room, v);
    }
  }

  lemma SumTail(areas: seq<real>, v: real, room: real, w: real)
    requires areas != [] && v * room == Sum(areas) && w * v == areas[0]
    ensures v * (room - w) == Sum(areas[1..])
  {
  }
}
