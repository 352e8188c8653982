/** Products of reals, put in a form that the solver's nonlinear arithmetic does not have to search for. */
module Reals {

  lemma PositiveProduct(a: real, b: real)
    requires a > 0.0 && b > 0.0
    ensures a * b > 0.0
  {
  }

  lemma NonNegativeProduct(a: real, b: real)
    requires a >= 0.0 && b >= 0.0
    ensures a * b >= 0.0
  {
  }

  /** A positive multiple of x that is a sum of products of nonnegative numbers makes x nonnegative. */
  lemma PositiveMultiple(k: real, x: real, a: real, b: real, c: real, d: real, e: real, f: real)
    requires k > 0.0 && k * x == a * b + c * d + e * f
    requires a >= 0.0 && b >= 0.0 && c >= 0.0 && d >= 0.0 && e >= 0.0 && f >= 0.0
    ensures x >= 0.0
    ensures a > 0.0 && b > 0.0 ==> x > 0.0
  {
    assert a * b >= 0.0 && c * d >= 0.0 && e * f >= 0.0;
  }

  /** A product that the solver does not rewrite, which lets squares be compared with zero. */
  function Times(a: real, b: real): real { a * b }

  lemma TimesSign(a: real, b: real)
    ensures (a > 0.0 && b > 0.0) || (a < 0.0 && b < 0.0) ==> Times(a, b) > 0.0
    ensures a == 0.0 ==> Times(a, b) == 0.0
  {
    if a < 0.0 && b < 0.0 {
      assert (-a) * (-b) > 0.0;
    }
  }

  lemma TimesOrder(a: real, b: real)
    requires a >= 0.0
    ensures b >= 0.0 ==> Times(a, b) >= 0.0
    ensures b <= 0.0 ==> Times(a, b) <= 0.0
    ensures a > 0.0 && b < 0.0 ==> Times(a, b) < 0.0
  {
    if b >= 0.0 {
      NonNegativeProduct(a, b);
    } else {
      NonNegativeProduct(a, -b);
      if a > 0.0 {
        PositiveProduct(a, -b);
      }
    }
  }

  /** The number between k, at t = 0, and l, at t = 1. */
  function Mean(k: real, l: real, t: real): real { k + t * (l - k) }

  lemma MeanAsTimes(k: real, l: real, t: real)
    ensures Mean(k, l, t) == Times(1.0 - t, k) + Times(t, l)
  {
  }

  lemma MeanSign(k: real, l: real, t: real)
    requires 0.0 <= t <= 1.0
    ensures k <= 0.0 && l <= 0.0 ==> Mean(k, l, t) <= 0.0
    ensures k >= 0.0 && l >= 0.0 ==> Mean(k, l, t) >= 0.0
    ensures k <= 0.0 && l < 0.0 && t > 0.0 ==> Mean(k, l, t) < 0.0
  {
    hide Times, Mean;
    MeanAsTimes(k, l, t);
    TimesOrder(1.0 - t, k);
    TimesOrder(t, l);
  }

  lemma TimesSum(a: real, b: real, c: real, d: real)
    ensures a * b + c * d == Times(a, b) + Times(c, d)
  {
  }

  lemma SquaresVanish(a: real, b: real)
    requires a * a + b * b <= 0.0
    ensures a == 0.0 && b == 0.0
  {
    hide Times;
    TimesSum(a, a, b, b);
    TimesSign(a, a);
    TimesSign(b, b);
  }

  /** A part of a positive whole. */
  lemma PartOf(x: real, w: real) returns (q: real)
    requires 0.0 < x && 0.0 < w
    ensures q > 0.0 && q * w == x && (x <= w ==> q <= 1.0)
  {
    q := x / w;
    assert q * w == x;
    if q <= 0.0 {
      NonNegativeProduct(-q, w);
    }
    if q > 1.0 {
      PositiveProduct(q - 1.0, w);
    }
  }

  lemma DivideUp(a: real, b: real, n: real)
    requires a <= b && n > 0.0
    ensures a / n <= b / n
  {
  }

  lemma DivideDown(a: real, b: real, n: real)
    requires 0.0 < a <= b && n > 0.0
    ensures n / b <= n / a
  {
    assert (n / a) * a == n && (n / b) * b == n;
    if n / b > n / a {
      PositiveProduct(n / b - n / a, a);
      NonNegativeProduct(n / b, b - a);
    }
  }
}
