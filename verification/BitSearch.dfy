/** The portable bit searches of Bits: logarithms, the lowest set bit, and the least power of two above a number. */
module BitSearch {
  import opened Bitwise

  // ---------------------------------------------------------------- logarithms

  /** r is the whole part of the binary logarithm of n, or -1 for zero. */
  predicate IsFloorLog(n: int, r: int) {
    if n == 0 then r == -1 else r >= 0 && Pow2(r) <= n < Pow2(r + 1)
  }

  lemma FloorLogIsUnique(n: int, r: int, s: int)
    requires n >= 0 && IsFloorLog(n, r) && IsFloorLog(n, s)
    ensures r == s
  {
    if n > 0 {
      if r < s {
        Pow2Grows(r + 1, s);
      } else if s < r {
        Pow2Grows(s + 1, r);
      }
    }
  }

  /** What is left of n after log bits have been shifted out. */
  ghost predicate Shifted(n: int, value: int, log: nat) {
    value >= 1 && Pow2(log) * value <= n < Pow2(log) * (value + 1)
  }

  lemma ShiftMore(n: int, value: int, log: nat, shift: nat)
    requires Shifted(n, value, log) && value / Pow2(shift) != 0
    ensures Shifted(n, value / Pow2(shift), log + shift)
  {
    hide Pow2;
    Pow2Adds(log, shift);
    ShiftBounds(n, value, Pow2(log), Pow2(shift));
  }

  lemma ShiftBounds(n: int, value: int, q: int, p: int)
    requires p > 0 && q > 0 && value >= 1 && q * value <= n < q * (value + 1)
    ensures value / p >= 0 && (q * p) * (value / p) <= n < (q * p) * (value / p + 1)
  {
    var x := value / p;
    assert value == p * x + value % p;
    Factor(q, p, x);
    Factor(q, p, x + 1);
    assert p * (x + 1) == p * x + p;
    MultipleGrows(q, p * x, value);
    MultipleGrows(q, value + 1, p * (x + 1));
    MultipleGrows(p, x, -1);
  }

  lemma Factor(q: int, p: int, x: int)
    ensures q * (p * x) == (q * p) * x
  {}

  /** Log2Floor_Portable. */
  method Log2FloorPortable(n: Uint32) returns (log: int)
    ensures IsFloorLog(n, log)
  {
    hide Pow2;
    if n == 0 {
      return -1;
    }
    log := 0;
    var value: int := n;
    FirstShift(n);
    var i := 4;
    while i >= 0
      invariant -1 <= i <= 4 && log >= 0 && Shifted(n, value, log)
      invariant value < Pow2(Pow2(i + 1))
    {
      var shift := Pow2(i);
      var x := value / Pow2(shift);
      HalfWidth(value, i);
      if x != 0 {
        ShiftMore(n, value, log, shift);
        value := x;
        log := log + shift;
      }
      i := i - 1;
    }
    OneIsLeft(n, value, log);
  }

  lemma FirstShift(n: Uint32)
    requires n > 0
    ensures Shifted(n, n, 0) && n < Pow2(Pow2(5))
  {
    assert Pow2(0) == 1 && Pow2(5) == 32;
    hide Pow2;
    Pow2Values();
  }

  lemma HalfWidth(value: int, i: nat)
    requires 1 <= value < Pow2(Pow2(i + 1))
    ensures 0 <= value / Pow2(Pow2(i)) < Pow2(Pow2(i))
    ensures value / Pow2(Pow2(i)) == 0 ==> value < Pow2(Pow2(i))
  {
    assert Pow2(i + 1) == Pow2(i) + Pow2(i);
    hide Pow2;
    Pow2Adds(Pow2(i), Pow2(i));
    BelowSquare(value, Pow2(Pow2(i)));
  }

  lemma BelowSquare(value: int, p: int)
    requires p > 0 && 0 <= value < p * p
    ensures 0 <= value / p < p && (value / p == 0 ==> value < p)
  {
    var x := value / p;
    assert value == p * x + value % p;
    MultipleGrows(p, p, x);
    MultipleGrows(p, x, -1);
  }

  lemma OneIsLeft(n: int, value: int, log: nat)
    requires Shifted(n, value, log) && value < Pow2(Pow2(0))
    ensures IsFloorLog(n, log)
  {
    assert Pow2(Pow2(0)) == 2 && Pow2(log + 1) == 2 * Pow2(log);
    hide Pow2;
    assert value == 1;
  }

  /** Log2Floor64_Portable; the version for numbers that are not zero does the same. */
  method Log2Floor64Portable(n: Uint64) returns (log: int)
    ensures IsFloorLog(n, log)
  {
    hide Pow2;
    HighBits(n);
    var topbits: int := n / 0x1_0000_0000;
    if topbits == 0 {
      log := Log2FloorPortable(n % 0x1_0000_0000);
    } else {
      log := Log2FloorPortable(topbits);
      LogOfTop(n, topbits, log);
      log := 32 + log;
    }
  }

  lemma HighBits(n: Uint64)
    ensures 0 <= n / 0x1_0000_0000 < 0x1_0000_0000
    ensures n / 0x1_0000_0000 == 0 ==> n % 0x1_0000_0000 == n
  {}

  lemma LogOfTop(n: int, top: int, log: int)
    requires top == n / 0x1_0000_0000 > 0 && IsFloorLog(top, log)
    ensures IsFloorLog(n, 32 + log)
  {
    hide Pow2;
    Pow2Values();
    Pow2Adds(32, log);
    Pow2Adds(32, log + 1);
  }

  // ---------------------------------------------------------------- the next power of two

  /** r is the least number with n <= 2^r, or -1 for zero. */
  predicate IsCeilingLog(n: int, r: int) {
    if n == 0 then r == -1 else r >= 0 && n <= Pow2(r) && (r > 0 ==> Pow2(r - 1) < n)
  }

  lemma CeilingLogIsLeast(n: int, r: int, s: nat)
    requires n > 0 && IsCeilingLog(n, r)
    ensures n <= Pow2(s) <==> r <= s
  {
    if r <= s {
      Pow2Grows(r, s);
    } else {
      Pow2Grows(s, r - 1);
    }
  }

  /** n & ~(n - 1) in words of w bits. */
  function LowestBit(w: nat, n: int): int {
    And(n, Not((n - 1) % Pow2(w)) % Pow2(w))
  }

  /** Every positive number is an odd one, shifted. */
  lemma {:induction false} OddPart(n: int) returns (r: nat, o: int)
    requires n > 0
    ensures n == Pow2(r) * o && o % 2 == 1 && o > 0
  {
    if n % 2 == 1 {
      r, o := 0, n;
    } else {
      r, o := OddPart(n / 2);
      Halves(r);
      hide Pow2;
      DoubleProduct(Pow2(r), o);
      r := r + 1;
    }
  }

  lemma DoubleProduct(p: int, o: int)
    ensures 2 * p * o == 2 * (p * o)
  {}

  lemma LowestBitIs(w: nat, r: nat, o: int)
    requires o % 2 == 1 && 0 < Pow2(r) * o < Pow2(w)
    ensures LowestBit(w, Pow2(r) * o) == Pow2(r)
  {
    hide Pow2, Apply;
    var p: int, q: int, n := Pow2(r), Pow2(w), Pow2(r) * o;
    DivisionIsUnique(q, 0, n - 1);
    DivisionIsUnique(q, -1, q - n);
    AndInWord(w, n, q - n);
    AndOfNegated(r, o);
  }

  /** The sign does not matter inside a word. */
  lemma AndInWord(w: nat, n: int, m: int)
    requires 0 <= n < Pow2(w) && 0 <= m < Pow2(w)
    ensures And(n, m) == And(n, m - Pow2(w))
  {
    hide Pow2, Apply;
    ApplySplits(AND, w, 0, n, 0, m);
    ApplySplits(AND, w, 0, n, -1, m);
    WithZero(0);
    WithOnes(0);
  }

  lemma AndOfNegated(r: nat, o: int)
    requires o % 2 == 1
    ensures And(Pow2(r) * o, -(Pow2(r) * o)) == Pow2(r)
  {
    hide Pow2, Apply;
    var p: int, c := Pow2(r), o / 2;
    Pow2Positive(r);
    ApplySplits(AND, r, o, 0, -o, 0);
    WithZero(0);
    ApplyStep(AND, o, -o);
    assert -o / 2 == Not(c) && -o % 2 == 1;
    WithOnes(c);
    AndOfComplements(-1, c);
    assert o * p == p * o && -o * p == -(p * o);
  }

  lemma Pow2Positive(r: nat)
    ensures Pow2(r) > 0
  {}

  /** n is its own lowest bit exactly when it is zero or a power of two, so the floor is the ceiling. */
  lemma CeilingFromFloor(w: nat, n: int, floor: int)
    requires 0 <= n < Pow2(w) && IsFloorLog(n, floor)
    ensures IsCeilingLog(n, if n == LowestBit(w, n) then floor else floor + 1)
  {
    if n == 0 {
      ZeroIsItself(w);
    } else {
      var r, o := OddPart(n);
      LowestBitIs(w, r, o);
      hide LowestBit;
      if o == 1 {
        FloorLogIsUnique(n, r, floor);
      } else {
        NotThePower(n, r, o, floor);
      }
    }
  }

  lemma ZeroIsItself(w: nat)
    ensures LowestBit(w, 0) == 0
  {
    hide Pow2, Apply;
    WithZero(Not(-1 % Pow2(w)) % Pow2(w));
  }

  lemma NotThePower(n: int, r: nat, o: int, floor: int)
    requires n == Pow2(r) * o && o % 2 == 1 && o > 1 && IsFloorLog(n, floor)
    ensures n != Pow2(r) && Pow2(floor) < n
  {
    hide Pow2;
    var p: int := Pow2(r);
    MultipleGrows(p, 2, o);
    if Pow2(floor) == n {
      if floor <= r {
        Pow2Grows(floor, r);
      } else {
        Pow2Adds(r, floor - r);
        EvenPower(floor - r);
        SameFactor(p, o, Pow2(floor - r));
      }
    }
  }

  lemma EvenPower(k: nat)
    requires k > 0
    ensures Pow2(k) % 2 == 0
  {}

  lemma SameFactor(p: int, a: int, b: int)
    requires p > 0 && p * a == p * b
    ensures a == b
  {
    MultipleGrows(p, a + 1, b);
    MultipleGrows(p, b + 1, a);
  }

  /** Log2Ceiling. */
  method Log2Ceiling(n: Uint32) returns (r: int)
    ensures IsCeilingLog(n, r)
  {
    hide Pow2, LowestBit;
    Pow2Values();
    var floor := Log2FloorPortable(n);
    CeilingFromFloor(32, n, floor);
    if n == LowestBit(32, n) {
      r := floor;
    } else {
      r := floor + 1;
    }
  }

  /** Log2Ceiling64. */
  method Log2Ceiling64(n: Uint64) returns (r: int)
    ensures IsCeilingLog(n, r)
  {
    hide Pow2, LowestBit;
    Pow2Values();
    var floor := Log2Floor64Portable(n);
    CeilingFromFloor(64, n, floor);
    if n == LowestBit(64, n) {
      r := floor;
    } else {
      r := floor + 1;
    }
  }

  // ---------------------------------------------------------------- the lowest set bit

  /** r is the index of the lowest set bit of n. */
  predicate IsLowestSet(n: int, r: int) {
    r >= 0 && n % Pow2(r) == 0 && n / Pow2(r) % 2 == 1
  }

  lemma LowestSetIsUnique(n: int, r: int, s: int)
    requires IsLowestSet(n, r) && IsLowestSet(n, s)
    ensures r == s
  {
    if r < s {
      LowerBitIsClear(n, r, s);
    } else if s < r {
      LowerBitIsClear(n, s, r);
    }
  }

  lemma LowerBitIsClear(n: int, r: nat, s: nat)
    requires r < s && n % Pow2(s) == 0
    ensures n / Pow2(r) % 2 == 0
  {
    hide Pow2;
    Pow2Adds(r, s - r);
    Halves(s - r - 1);
    LowPart(n, Pow2(s), Pow2(r), Pow2(s - r - 1));
  }

  /** The bits of n under m = p * 2 * h decide whether p divides n, and how often modulo two. */
  lemma LowPart(n: int, m: int, p: int, h: int)
    requires p > 0 && h > 0 && m == p * (2 * h)
    ensures n % m % p == 0 ==> n % p == 0 && n / p % 2 == n % m / p % 2
  {
    MultipleGrows(p, 1, 2 * h);
    var t, b := n / m, n % m;
    assert n == t * m + b;
    LowPartOf(n, t, b, m, p, h);
  }

  lemma LowPartOf(n: int, t: int, b: int, m: int, p: int, h: int)
    requires p > 0 && m == p * (2 * h) && n == t * m + b
    ensures b % p == 0 ==> n % p == 0 && n / p % 2 == b / p % 2
  {
    var q, r, e := b / p, b % p, t * h;
    assert b == q * p + r;
    DoubleFactor(t, p, h);
    SumOfMultiples(2 * e, q, p);
    DivisionIsUnique(p, 2 * e + q, r);
    EvenPlus(e, q);
  }

  lemma SumOfMultiples(a: int, b: int, p: int)
    ensures (a + b) * p == a * p + b * p
  {}

  lemma EvenPlus(e: int, q: int)
    ensures (2 * e + q) % 2 == q % 2
  {}

  lemma DoubleFactor(t: int, p: int, h: int)
    ensures t * (p * (2 * h)) == 2 * (t * h) * p
  {
    assert p * (2 * h) == 2 * (p * h);
    Factor(t, h, p);
    assert p * h == h * p;
    assert t * (2 * (h * p)) == 2 * (t * (h * p));
    assert 2 * (t * h) * p == 2 * ((t * h) * p);
  }

  lemma OddPartIsLowest(r: nat, o: int)
    requires o % 2 == 1
    ensures IsLowestSet(Pow2(r) * o, r)
  {
    hide Pow2;
    DivisionIsUnique(Pow2(r), o, 0);
  }

  /** An odd number shifted up inside a 32-bit word is zero exactly when its last bit leaves. */
  lemma OddShifted(e: nat, o: int)
    requires o % 2 == 1
    ensures Pow2(e) * o % 0x1_0000_0000 == 0 <==> e >= 32
  {
    Pow2Values();
    if e >= 32 {
      Pow2Adds(32, e - 32);
      hide Pow2;
      var m: int := Pow2(e - 32);
      Factor(0x1_0000_0000, m, o);
      DivisionIsUnique(0x1_0000_0000, m * o, 0);
    } else {
      OddPartIsLowest(e, o);
      if Pow2(e) * o % 0x1_0000_0000 == 0 {
        LowerBitIsClear(Pow2(e) * o, e, 32);
      }
    }
  }

  lemma ShiftInWord(e: nat, o: int, s: nat)
    ensures Pow2(e) * o % 0x1_0000_0000 * Pow2(s) % 0x1_0000_0000 == Pow2(e + s) * o % 0x1_0000_0000
  {
    hide Pow2;
    Pow2Adds(e, s);
    var m, x: int, p: int := 0x1_0000_0000, Pow2(e) * o, Pow2(s);
    var q, r := x / m, x % m;
    assert x == q * m + r;
    assert x * p == (q * p) * m + r * p;
    assert x * p == Pow2(e + s) * o;
    var t := r * p;
    DivisionIsUnique(m, q * p + t / m, t % m);
  }

  /** FindLSBSetNonZero_Portable; its result for zero is not defined. */
  method FindLSBSetNonZeroPortable(n0: Uint32) returns (rc: int)
    requires n0 != 0
    ensures IsLowestSet(n0, rc)
  {
    hide Pow2;
    ghost var r: nat, o: int := OddPart(n0);
    var n: int := n0;
    rc := 31;
    var i, shift := 4, 16;
    LowestFits(n0, r, o);
    while i >= 0
      invariant -1 <= i <= 4 && r <= rc <= 31 && rc - r < Pow2(i + 1) && (i >= 0 ==> shift == Pow2(i))
      invariant n == Pow2(r + 31 - rc) * o % 0x1_0000_0000
    {
      var x := n * Pow2(shift) % 0x1_0000_0000;
      ShiftInWord(r + 31 - rc, o, shift);
      OddShifted(r + 31 - rc + shift, o);
      Halves(i);
      if x != 0 {
        n := x;
        rc := rc - shift;
      }
      shift := shift / 2;
      i := i - 1;
    }
    Pow2Zero();
    OddPartIsLowest(r, o);
  }

  lemma Halves(i: nat)
    ensures Pow2(i + 1) == 2 * Pow2(i) && (i > 0 ==> Pow2(i) / 2 == Pow2(i - 1))
  {}

  lemma LowestFits(n: Uint32, r: nat, o: int)
    requires n == Pow2(r) * o && o % 2 == 1 && o > 0
    ensures r <= 31 && n == Pow2(r) * o % 0x1_0000_0000
    ensures Pow2(4) == 16 && Pow2(5) == 32
  {
    assert Pow2(4) == 16 && Pow2(5) == 32;
    hide Pow2;
    OddShifted(r, o);
  }

  /** FindLSBSetNonZero64_Portable. */
  method FindLSBSetNonZero64Portable(n: Uint64) returns (rc: int)
    requires n != 0
    ensures IsLowestSet(n, rc)
  {
    hide IsLowestSet;
    HighBits(n);
    var bottombits: int := n % 0x1_0000_0000;
    if bottombits == 0 {
      rc := FindLSBSetNonZeroPortable(n / 0x1_0000_0000);
      LowestOfTop(n, rc);
      rc := 32 + rc;
    } else {
      rc := FindLSBSetNonZeroPortable(bottombits);
      LowestOfBottom(n, rc);
    }
  }

  lemma LowestOfTop(n: int, rc: int)
    requires n % 0x1_0000_0000 == 0 && IsLowestSet(n / 0x1_0000_0000, rc)
    ensures IsLowestSet(n, 32 + rc)
  {
    hide Pow2;
    Pow2Values();
    Pow2Adds(32, rc);
    var m: int, p: int, q := 0x1_0000_0000, Pow2(rc), n / 0x1_0000_0000 / Pow2(rc);
    assert n / m == q * p && n == (q * p) * m;
    assert (q * p) * m == q * (m * p);
    DivisionIsUnique(m * p, q, 0);
  }

  lemma LowestOfBottom(n: int, rc: int)
    requires 0 < n % 0x1_0000_0000 && IsLowestSet(n % 0x1_0000_0000, rc)
    ensures IsLowestSet(n, rc)
  {
    hide Pow2;
    Pow2Values();
    var b: int := n % 0x1_0000_0000;
    if rc >= 32 {
      Pow2Grows(32, rc);
      DivisionIsUnique(Pow2(rc), 0, b);
    } else {
      Pow2Adds(rc, 32 - rc);
      Halves(31 - rc);
      LowPart(n, 0x1_0000_0000, Pow2(rc), Pow2(31 - rc));
    }
  }
}
