/** When the rows of a treemap (squarify's loop) end in a TypeError: exactly when some cell has an infinite area. */
module TreemapThrows {
  import opened Reals
  import Strips
  import Rows = TreemapRows

  /** A number as JavaScript has it, but for rounding and the sign of zero. */
  datatype Number = Finite(value: real) | Infinity(positive: bool) | NaN

  const ZERO := Finite(0.0)
  const INFINITE := Infinity(true)

  function Plus(a: Number, b: Number): Number {
    if a.NaN? || b.NaN? then NaN
    else if a.Finite? && b.Finite? then Finite(a.value + b.value)
    else if a.Finite? then b
    else if b.Finite? || a == b then a
    else NaN
  }

  function Multiply(a: Number, b: Number): Number {
    if a.NaN? || b.NaN? then NaN
    else if a.Finite? && b.Finite? then Finite(Times(a.value, b.value))
    else if a == ZERO || b == ZERO then NaN
    else Infinity(Positive(a) == Positive(b))
  }

  predicate Positive(a: Number) {
    match a
    case Finite(v) => v > 0.0
    case Infinity(positive) => positive
    case NaN => false
  }

  function Divide(a: Number, b: Number): Number {
    if a.NaN? || b.NaN? || (a.Infinity? && b.Infinity?) then NaN
    else if b.Infinity? then ZERO
    else if b.value != 0.0 then
      if a.Finite? then Finite(a.value / b.value) else Infinity(a.positive == (b.value > 0.0))
    else if a == ZERO then NaN
    else Infinity(Positive(a))
  }

  /** a <= b, which is false of anything that is not a number. */
  predicate AtMost(a: Number, b: Number) {
    && a != NaN && b != NaN
    && (a == Infinity(false) || b == INFINITE || (a.Finite? && b.Finite? && a.value <= b.value))
  }

  predicate Less(a: Number, b: Number) {
    a != b && AtMost(a, b)
  }

  /** Math.max */
  function Max(a: Number, b: Number): Number {
    if a.NaN? || b.NaN? then NaN else if AtMost(a, b) then b else a
  }

  // ---------------------------------------------------------------- the loop

  /** The largest and the smallest area of a row that count: neither zero nor missing. */
  function Greatest(row: seq<Number>): Number {
    if row == [] then ZERO
    else
      var m, r := Greatest(row[..|row| - 1]), row[|row| - 1];
      if r != ZERO && Less(m, r) then r else m
  }

  function Smallest(row: seq<Number>): Number {
    if row == [] then INFINITE
    else
      var m, r := Smallest(row[..|row| - 1]), row[|row| - 1];
      if r != ZERO && Less(r, m) then r else m
  }

  /** worst(row, u), for a row of total area s. */
  function Score(row: seq<Number>, s: Number, u: Number, ratio: real): Number {
    var s2, u2 := Multiply(s, s), Multiply(u, u);
    if s2 == ZERO || s2 == NaN then INFINITE
    else
      Max(Divide(Multiply(Multiply(u2, Greatest(row)), Finite(ratio)), s2),
          Divide(s2, Multiply(Multiply(u2, Smallest(row)), Finite(ratio))))
  }

  /**
   * Whether the loop calls position for an empty row, which looks for a last cell and finds none. The shorter side of the
   * free rectangle after k rows is sides(k), whatever position makes of it.
   */
  predicate Throws(remaining: seq<Number>, row: seq<Number>, rowArea: Number, best: Number, sides: nat -> Number, k: nat,
                   ratio: real)
    decreases |remaining|, |row|
  {
    if remaining == [] then false
    else
      var child := remaining[|remaining| - 1];
      var area := Plus(rowArea, child);
      var score := Score(row + [child], area, sides(k), ratio);
      if AtMost(score, best) then Throws(remaining[..|remaining| - 1], row + [child], area, score, sides, k, ratio)
      else if row == [] then true
      else Throws(remaining, [], ZERO, INFINITE, sides, k + 1, ratio)
  }

  // ---------------------------------------------------------------- the exact condition

  /** An area as scale leaves it: infinite, or finite and not negative. */
  predicate IsArea(a: Number) {
    a == INFINITE || (a.Finite? && a.value >= 0.0)
  }

  ghost predicate AllAreas(areas: seq<Number>) {
    forall i :: 0 <= i < |areas| ==> IsArea(areas[i])
  }

  ghost predicate AllFinite(areas: seq<Number>) {
    forall i :: 0 <= i < |areas| ==> areas[i].Finite? && areas[i].value >= 0.0
  }

  lemma {:induction false} GreatestOfFinite(row: seq<Number>)
    requires AllFinite(row)
    ensures Greatest(row).Finite? && Greatest(row).value >= 0.0
  {
    if row == [] {
    } else {
      GreatestOfFinite(row[..|row| - 1]);
    }
  }

  /** A row with an infinite area has no score that compares. */
  lemma InfiniteScore(row: seq<Number>, area: Number, u: Number, ratio: real)
    requires AllFinite(row) && area.Finite? && ratio > 0.0
    ensures Score(row + [INFINITE], Plus(area, INFINITE), u, ratio) == NaN
  {
    hide Times;
    var q := row + [INFINITE];
    assert q[..|q| - 1] == row;
    GreatestOfFinite(row);
    assert Greatest(q) == INFINITE;
    var u2 := Multiply(u, u);
    assert u2 == NaN || u2 == INFINITE || (u2.Finite? && u2.value >= 0.0) by {
      SquareIsNotNegative(u);
    }
    assert Multiply(u2, INFINITE) == NaN || Multiply(u2, INFINITE) == INFINITE;
    assert Multiply(INFINITE, INFINITE) == INFINITE && Multiply(INFINITE, Finite(ratio)) == INFINITE;
  }

  lemma SquareIsNotNegative(u: Number)
    ensures var s := Multiply(u, u); s == NaN || s == INFINITE || (s.Finite? && s.value >= 0.0)
  {
    hide Times;
    if u.Finite? {
      TimesSign(u.value, u.value);
    }
  }

  /** A single finite area has a score, which may be infinite. */
  lemma SingleScore(r: real, u: real, ratio: real)
    requires r >= 0.0 && ratio > 0.0
    ensures AtMost(Score([Finite(r)], Plus(ZERO, Finite(r)), Finite(u), ratio), INFINITE)
  {
    hide Score, Plus, AtMost, Multiply, Greatest, Smallest;
    SingleRow(r);
    SquarePositive(r);
    FiniteScore([Finite(r)], r, Finite(u), ratio);
  }

  lemma FiniteScore(row: seq<Number>, r: real, u: Number, ratio: real)
    requires u.Finite? && r >= 0.0 && (r > 0.0 ==> Greatest(row) == Smallest(row) == Finite(r))
    ensures AtMost(Score(row, Finite(r), u, ratio), INFINITE)
  {
    hide Multiply, Divide, Max, AtMost, Greatest, Smallest;
    var s, u2 := Finite(r), Multiply(u, u);
    SquarePositive(r);
    FiniteProduct(u, u);
    if r > 0.0 {
      FiniteProduct(u2, s);
      FiniteProduct(Multiply(u2, s), Finite(ratio));
      RatiosCompare(Multiply(Multiply(u2, s), Finite(ratio)), Multiply(s, s));
    }
    InfiniteIsGreatest();
  }

  lemma SingleRow(r: real)
    requires r >= 0.0
    ensures Plus(ZERO, Finite(r)) == Finite(r)
    ensures r > 0.0 ==> Greatest([Finite(r)]) == Smallest([Finite(r)]) == Finite(r)
  {
    assert [Finite(r)][..0] == [];
  }

  lemma SquarePositive(r: real)
    requires r >= 0.0
    ensures if r == 0.0 then Multiply(Finite(r), Finite(r)) == ZERO
            else Multiply(Finite(r), Finite(r)).Finite? && Multiply(Finite(r), Finite(r)).value > 0.0
  {
    hide Times;
    TimesSign(r, r);
  }

  lemma FiniteProduct(a: Number, b: Number)
    requires a.Finite? && b.Finite?
    ensures Multiply(a, b).Finite?
  {}

  lemma InfiniteIsGreatest()
    ensures AtMost(INFINITE, INFINITE)
  {}

  lemma RatiosCompare(x: Number, y: Number)
    requires x.Finite? && y.Finite? && y.value > 0.0
    ensures AtMost(Max(Divide(x, y), Divide(y, x)), INFINITE)
  {}

  ghost predicate SomeInfinite(areas: seq<Number>) {
    exists i :: 0 <= i < |areas| && areas[i] == INFINITE
  }

  /** With an infinite area ahead the loop ends in the error, whatever sides position leaves. */
  lemma {:induction false} InfinityThrows(remaining: seq<Number>, row: seq<Number>, rowArea: Number, best: Number,
                                          sides: nat -> Number, k: nat, ratio: real)
    requires AllAreas(remaining) && SomeInfinite(remaining) && AllFinite(row) && rowArea.Finite? && ratio > 0.0
    ensures Throws(remaining, row, rowArea, best, sides, k, ratio)
    decreases |remaining|, |row|
  {
    hide Score, AtMost;
    var child := remaining[|remaining| - 1];
    var area := Plus(rowArea, child);
    var score := Score(row + [child], area, sides(k), ratio);
    if child == INFINITE {
      InfiniteScore(row, rowArea, sides(k), ratio);
      NothingAtMost(best);
    }
    if AtMost(score, best) {
      var rest := remaining[..|remaining| - 1];
      var i :| 0 <= i < |remaining| && remaining[i] == INFINITE;
      assert rest[i] == INFINITE;
      InfinityThrows(rest, row + [child], area, score, sides, k, ratio);
    } else if row != [] {
      InfinityThrows(remaining, [], ZERO, INFINITE, sides, k + 1, ratio);
    }
  }

  lemma NothingAtMost(best: Number)
    ensures !AtMost(NaN, best)
  {}

  ghost predicate FiniteSides(sides: nat -> Number) {
    forall k :: sides(k).Finite?
  }

  lemma {:induction false} FiniteDoesNotThrow(remaining: seq<Number>, row: seq<Number>, rowArea: Number, best: Number,
                                              sides: nat -> Number, k: nat, ratio: real)
    requires AllFinite(remaining) && FiniteSides(sides) && ratio > 0.0
    requires row == [] ==> rowArea == ZERO && best == INFINITE
    ensures !Throws(remaining, row, rowArea, best, sides, k, ratio)
    decreases |remaining|, |row|
  {
    hide Score, AtMost;
    if remaining == [] {
    } else {
      var child := remaining[|remaining| - 1];
      var area := Plus(rowArea, child);
      var score := Score(row + [child], area, sides(k), ratio);
      if row == [] {
        assert row + [child] == [child];
        SingleScore(child.value, sides(k).value, ratio);
      }
      if AtMost(score, best) {
        FiniteDoesNotThrow(remaining[..|remaining| - 1], row + [child], area, score, sides, k, ratio);
      } else {
        FiniteDoesNotThrow(remaining, [], ZERO, INFINITE, sides, k + 1, ratio);
      }
    }
  }

  /** With finite sides, the loop over the children ends in the error if and only if one of their areas is infinite. */
  lemma ThrowsIff(areas: seq<Number>, sides: nat -> Number, ratio: real)
    requires AllAreas(areas) && FiniteSides(sides) && ratio > 0.0
    ensures Throws(areas, [], ZERO, INFINITE, sides, 0, ratio) <==> SomeInfinite(areas)
  {
    if SomeInfinite(areas) {
      InfinityThrows(areas, [], ZERO, INFINITE, sides, 0, ratio);
    } else {
      FiniteDoesNotThrow(areas, [], ZERO, INFINITE, sides, 0, ratio);
    }
  }

  // ---------------------------------------------------------------- on finite areas

  function Numbers(areas: seq<real>): (n: seq<Number>)
    ensures |n| == |areas| && forall i :: 0 <= i < |n| ==> n[i] == Finite(areas[i])
  {
    if areas == [] then [] else Numbers(areas[..|areas| - 1]) + [Finite(areas[|areas| - 1])]
  }

  /** The largest area of a row, or zero. */
  ghost predicate IsGreatest(areas: seq<real>, m: Number) {
    && m.Finite? && (forall k :: 0 <= k < |areas| ==> areas[k] <= m.value)
    && (m == ZERO || exists k :: 0 <= k < |areas| && areas[k] == m.value)
  }

  /** The smallest area of a row that is not zero, or Infinity when there is none. */
  ghost predicate IsSmallest(areas: seq<real>, m: Number) {
    if m == INFINITE then forall k :: 0 <= k < |areas| ==> areas[k] == 0.0
    else
      && m.Finite? && m.value > 0.0 && (forall k :: 0 <= k < |areas| && areas[k] > 0.0 ==> m.value <= areas[k])
      && exists k :: 0 <= k < |areas| && areas[k] == m.value
  }

  lemma {:induction false} ExtremesAre(areas: seq<real>)
    requires Strips.AllNonNegative(areas)
    ensures Greatest(Numbers(areas)).Finite? && Greatest(Numbers(areas)).value >= 0.0
    ensures IsGreatest(areas, Greatest(Numbers(areas))) && IsSmallest(areas, Smallest(Numbers(areas)))
  {
    hide IsGreatest, IsSmallest, Less;
    if areas == [] {
      NoExtremes();
    } else {
      var n := |areas| - 1;
      var before, row := areas[..n], Numbers(areas);
      ExtremesAre(before);
      assert row[..n] == Numbers(before);
      GreatestGrows(before, areas[n], Greatest(Numbers(before)));
      SmallestGrows(before, areas[n], Smallest(Numbers(before)));
      assert before + [areas[n]] == areas;
    }
  }

  lemma NoExtremes()
    ensures IsGreatest([], ZERO) && IsSmallest([], INFINITE)
  {}

  lemma GreatestGrows(before: seq<real>, a: real, m: Number)
    requires IsGreatest(before, m) && a >= 0.0 && m.Finite? && m.value >= 0.0
    ensures var g := if Finite(a) != ZERO && Less(m, Finite(a)) then Finite(a) else m;
            IsGreatest(before + [a], g) && g.Finite? && g.value >= 0.0
  {
    var areas := before + [a];
    assert areas[|before|] == a;
    assert forall k :: 0 <= k < |before| ==> areas[k] == before[k];
  }

  lemma SmallestGrows(before: seq<real>, a: real, m: Number)
    requires IsSmallest(before, m) && a >= 0.0
    ensures IsSmallest(before + [a], if Finite(a) != ZERO && Less(Finite(a), m) then Finite(a) else m)
  {
    var areas := before + [a];
    assert areas[|before|] == a;
    assert forall k :: 0 <= k < |before| ==> areas[k] == before[k];
  }

  /** The score of finite areas is how far the row is from the wanted ratio, and Infinity for a row without area or side. */
  lemma ScoreIsDeviation(areas: seq<real>, u: real, ratio: real)
    requires Strips.AllNonNegative(areas) && u >= 0.0 && ratio > 0.0
    ensures Score(Numbers(areas), Finite(Strips.Sum(areas)), Finite(u), ratio) ==
            match Rows.Deviation(areas, u, ratio) case None => INFINITE case Some(w) => Finite(w)
  {
    hide Times, Greatest, Smallest, Rows.TooWide, Rows.TooTall, Rows.WorstCell, Strips.Sum;
    var s := Strips.Sum(areas);
    Strips.SumNonNegative(areas);
    TimesSign(s, s);
    TimesSign(u, u);
    if s > 0.0 {
      var row := Numbers(areas);
      ExtremesAre(areas);
      var max, min := Greatest(row), Smallest(row);
      if min == INFINITE {
        Strips.NoAreas(areas);
      }
      AreaAtMost(areas, max, min);
      var s2, u2 := Times(s, s), Times(u, u);
      ScoreOf(row, s, u, ratio, max.value, min.value);
      if u > 0.0 {
        ScoreIsWorst(areas, s2, u2, ratio, max.value, min.value);
        Rows.WorstIsDeviation(areas, s, u, ratio,
                              Rows.Greater(Rows.TooWide(max.value, s2, u2, ratio), Rows.TooTall(min.value, s2, u2, ratio)));
      }
    }
  }

  lemma AreaAtMost(areas: seq<real>, max: Number, min: Number)
    requires Strips.AllNonNegative(areas) && IsGreatest(areas, max) && IsSmallest(areas, min) && min != INFINITE
    ensures 0.0 < min.value <= max.value
  {
  }

  lemma ScoreOf(row: seq<Number>, s: real, u: real, ratio: real, max: real, min: real)
    requires Greatest(row) == Finite(max) && Smallest(row) == Finite(min) && 0.0 < min <= max && s > 0.0 && u >= 0.0
    requires ratio > 0.0 && Times(s, s) > 0.0 && (if u == 0.0 then Times(u, u) == 0.0 else Times(u, u) > 0.0)
    ensures Score(row, Finite(s), Finite(u), ratio) ==
            if u == 0.0 then INFINITE
            else Finite(Rows.Greater(Rows.TooWide(max, Times(s, s), Times(u, u), ratio),
                                     Rows.TooTall(min, Times(s, s), Times(u, u), ratio)))
  {
    var s2, u2 := Times(s, s), Times(u, u);
    assert Multiply(Finite(s), Finite(s)) == Finite(s2) && Multiply(Finite(u), Finite(u)) == Finite(u2);
    hide Multiply, Divide, Times, Greatest, Smallest, Rows.TooWide, Rows.TooTall;
    WideQuotient(max, s2, u2, ratio);
    TallQuotient(min, s2, u2, ratio);
  }

  lemma WideQuotient(a: real, s2: real, u2: real, ratio: real)
    requires s2 > 0.0
    ensures Divide(Multiply(Multiply(Finite(u2), Finite(a)), Finite(ratio)), Finite(s2)) == Finite(Rows.TooWide(a, s2, u2, ratio))
  {}

  lemma TallQuotient(a: real, s2: real, u2: real, ratio: real)
    requires a > 0.0 && s2 > 0.0 && u2 >= 0.0 && ratio > 0.0
    ensures Divide(Finite(s2), Multiply(Multiply(Finite(u2), Finite(a)), Finite(ratio))) ==
            if u2 == 0.0 then INFINITE else Finite(Rows.TooTall(a, s2, u2, ratio))
  {
    if u2 > 0.0 {
      Rows.Denominator(a, u2, ratio);
    }
  }

  lemma ScoreIsWorst(areas: seq<real>, s2: real, u2: real, ratio: real, max: real, min: real)
    requires Strips.AllNonNegative(areas) && s2 > 0.0 && u2 > 0.0 && ratio > 0.0 && 0.0 < min <= max
    requires IsGreatest(areas, Finite(max)) && IsSmallest(areas, Finite(min))
    ensures Rows.IsWorst(areas, s2, u2, ratio, Rows.Greater(Rows.TooWide(max, s2, u2, ratio), Rows.TooTall(min, s2, u2, ratio)))
  {
    hide Rows.TooWide, Rows.TooTall;
    forall k | 0 <= k < |areas| && areas[k] > 0.0
      ensures Rows.TooWide(areas[k], s2, u2, ratio) <= Rows.TooWide(max, s2, u2, ratio)
      ensures Rows.TooTall(areas[k], s2, u2, ratio) <= Rows.TooTall(min, s2, u2, ratio)
    {
      Rows.Monotone(areas[k], max, s2, u2, ratio);
      Rows.Monotone(min, areas[k], s2, u2, ratio);
    }
    var g :| 0 <= g < |areas| && areas[g] == max;
    var l :| 0 <= l < |areas| && areas[l] == min;
    assert areas[g] > 0.0 && areas[l] > 0.0;
  }
}
