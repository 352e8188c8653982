/** The enumeration tests of casts.h: is an int a value that an enumeration can hold? */
module EnumCasts {
  import opened Bitwise

  /** The width of int in bits; both widths the source allows. */
  type Width = w: nat | w == 32 || w == 64 witness 32

  predicate IsInt(w: Width, x: int) {
    -(Pow2(w - 1) as int) <= x < Pow2(w - 1)
  }

  // ---------------------------------------------------------------- the values of an enumeration

  /** Every number from -2^k, or from 0 when no enumerator is negative, to 2^k - 1; k must be enough for both ends. */
  predicate Covers(k: nat, eMin: int, eMax: int) {
    -(Pow2(k) as int) <= eMin && eMax < Pow2(k)
  }

  /** The number of bits of x. */
  function BitLength(x: nat): nat {
    if x == 0 then 0 else 1 + BitLength(x / 2)
  }

  /** The bits that the values of an enumeration need beside a sign. */
  function ValueBits(eMin: int, eMax: int): nat {
    BitLength(if Size(eMin) > Size(eMax) then Size(eMin) else Size(eMax))
  }

  /** The values of an enumeration with these least and greatest enumerators (ISO/IEC 14882, section 7.2). */
  predicate IsEnumValue(eMin: int, eMax: int, v: int) {
    var k := ValueBits(eMin, eMax);
    (if eMin < 0 then -(Pow2(k) as int) else 0) <= v < Pow2(k)
  }

  lemma {:induction false} BitLengthBounds(x: nat)
    ensures x < Pow2(BitLength(x)) && (x > 0 ==> BitLength(x) > 0 && Pow2(BitLength(x) - 1) <= x)
  {
    if x == 0 {
    } else {
      BitLengthBounds(x / 2);
    }
  }

  lemma {:induction false} BitLengthIsLeast(x: nat, k: nat)
    requires x < Pow2(k)
    ensures BitLength(x) <= k
  {
    if x == 0 {
    } else {
      BitLengthIsLeast(x / 2, k - 1);
    }
  }

  /** ValueBits is the least k that covers both enumerators. */
  lemma ValueBitsAreLeast(eMin: int, eMax: int, k: nat)
    requires eMin <= eMax
    ensures Covers(ValueBits(eMin, eMax), eMin, eMax)
    ensures Covers(k, eMin, eMax) ==> ValueBits(eMin, eMax) <= k
  {
    hide Pow2, BitLength;
    var m := if Size(eMin) > Size(eMax) then Size(eMin) else Size(eMax);
    BitLengthBounds(m);
    if Covers(k, eMin, eMax) {
      BitLengthIsLeast(m, k);
    }
  }

  /** The tight range is within the loose one. */
  lemma TightIsLoose(eMin: int, eMax: int, v: int)
    requires eMin <= eMax && TightEnumTest(eMin, eMax, v)
    ensures IsEnumValue(eMin, eMax, v)
  {
    ValueBitsAreLeast(eMin, eMax, 0);
    hide Pow2, ValueBits;
  }

  predicate TightEnumTest(eMin: int, eMax: int, v: int) {
    eMin <= v <= eMax
  }

  // ---------------------------------------------------------------- smearing

  /** The top n bits of a number of k bits are set, or all of them. */
  predicate TopSet(y: int, k: nat, n: nat) {
    0 <= y < Pow2(k) && (if n >= k then y == Pow2(k) - 1 else y >= Pow2(k) - Pow2(k - n))
  }

  lemma TopStarts(x: nat)
    ensures TopSet(x, BitLength(x), 1)
  {
    BitLengthBounds(x);
    if BitLength(x) > 0 {
      assert Pow2(BitLength(x)) == 2 * Pow2(BitLength(x) - 1);
    }
  }

  /** OR below a multiple of a power of two. */
  lemma OrBelow(h: int, m: nat, r: int, z: int)
    requires 0 <= r < Pow2(m) && 0 <= z < Pow2(m)
    ensures h * Pow2(m) + z <= Or(h * Pow2(m) + r, z) < h * Pow2(m) + Pow2(m)
  {
    hide Pow2, Apply;
    ApplySplits(OR, m, h, r, 0, z);
    WithZero(h);
    OrBounds(r, z);
  }

  /** One step doubles the bits that are set. */
  lemma TopDoubles(y: int, k: nat, n: nat)
    requires TopSet(y, k, n) && n > 0
    ensures TopSet(Or(y, y / Pow2(n)), k, 2 * n)
  {
    hide Pow2, Apply;
    if n >= k {
      Pow2Grows(k, n);
      DivisionIsUnique(Pow2(n), 0, y);
      WithZero(y);
    } else {
      var q: int, z := Pow2(k - n), y / Pow2(n);
      SmearedQuotient(y, k, n);
      TopAsMultiple(k, n);
      OrBelow(Pow2(n) - 1, k - n, y - (Pow2(k) - q), z);
    }
  }

  lemma TopAsMultiple(k: nat, n: nat)
    requires n <= k
    ensures (Pow2(n) - 1) * Pow2(k - n) == Pow2(k) - Pow2(k - n)
  {
    hide Pow2;
    Pow2Adds(n, k - n);
  }

  /** The shifted number is below the top bits and fills as many again. */
  lemma SmearedQuotient(y: int, k: nat, n: nat)
    requires TopSet(y, k, n) && 0 < n < k
    ensures 0 <= y / Pow2(n) < Pow2(k - n)
    ensures if 2 * n >= k then y / Pow2(n) == Pow2(k - n) - 1 else y / Pow2(n) >= Pow2(k - n) - Pow2(k - 2 * n)
  {
    hide Pow2;
    var m := k - n;
    Pow2Adds(n, m);
    if 2 * n >= k {
      Pow2Grows(m, n);
      QuotientFromBelow(y, Pow2(n), Pow2(m), 1);
    } else {
      Pow2Adds(n, m - n);
      QuotientFromBelow(y, Pow2(n), Pow2(m), Pow2(m - n));
    }
  }

  lemma QuotientFromBelow(y: int, p: int, q: int, s: int)
    requires p > 0 && 0 <= y < p * q && p * q - p * s <= y
    ensures 0 <= y / p < q && y / p >= q - s
  {
    var z := y / p;
    assert y == p * z + y % p;
    MultipleGrows(p, q, z);
    MultipleGrows(p, z, -1);
    MultipleGrows(p, z, q - s - 1);
    assert p * (q - s - 1) == p * q - p * s - p;
  }

  /** b |= b >> 1; ... to the width of an int. */
  method SmearRight(w: Width, x: int) returns (b: int)
    requires 0 <= x < Pow2(w - 1)
    ensures b == Pow2(BitLength(x)) - 1
  {
    hide Pow2, Apply, BitLength, TopSet;
    TopStarts(x);
    ghost var k := BitLength(x);
    BitLengthIsLeast(x, w - 1);
    b := x;
    TopDoubles(b, k, 1);
    b := Or(b, b / Pow2(1));
    TopDoubles(b, k, 2);
    b := Or(b, b / Pow2(2));
    TopDoubles(b, k, 4);
    b := Or(b, b / Pow2(4));
    TopDoubles(b, k, 8);
    b := Or(b, b / Pow2(8));
    TopDoubles(b, k, 16);
    b := Or(b, b / Pow2(16));
    if w == 64 {
      TopDoubles(b, k, 32);
      b := Or(b, b / Pow2(32));
    }
    AllSet(b, k, w);
  }

  lemma AllSet(y: int, k: nat, n: nat)
    requires TopSet(y, k, n) && k <= n
    ensures y == Pow2(k) - 1
  {}

  lemma NotQuotient(c: int, n: nat)
    ensures Not(c) / Pow2(n) == Not(c / Pow2(n))
  {
    hide Pow2;
    var p := Pow2(n);
    assert c == c / p * p + c % p;
    assert Not(c) == Not(c / p) * p + (p - 1 - c % p);
    DivisionIsUnique(p, Not(c / p), p - 1 - c % p);
  }

  /** On a negative number, clearing rightwards is setting rightwards on its complement. */
  lemma ClearingIsSetting(c: int, n: nat)
    ensures And(Not(c), Not(c) / Pow2(n)) == Not(Or(c, c / Pow2(n)))
  {
    NotQuotient(c, n);
    DeMorgan(c, c / Pow2(n));
  }

  /** On a number that is not negative, a step leaves less than the shifted number. */
  lemma ClearingShrinks(b: int, m: nat, n: nat)
    requires 0 <= b < Pow2(m) && n <= m
    ensures 0 <= And(b, b / Pow2(n)) < Pow2(m - n)
  {
    hide Pow2, Apply;
    var p, z := Pow2(n), b / Pow2(n);
    Pow2Adds(n, m - n);
    assert b == p * z + b % p;
    MultipleGrows(p, Pow2(m - n), z);
    MultipleGrows(p, z, -1);
    AndCommutes(b, z);
    AndBounds(z, b);
  }

  /** b &= b >> 1; ... to the width of an int: zero, or the least power of two saturated downwards. */
  method ClearRight(w: Width, x: int) returns (b: int)
    requires IsInt(w, x)
    ensures b == if x < 0 then -(Pow2(BitLength(Not(x))) as int) else 0
  {
    hide Pow2, Apply, BitLength;
    b := x;
    ghost var k := BitLength(if x < 0 then Not(x) else 0);
    ClearingStarts(w, x);
    b := ClearStep(w, b, k, 1);
    b := ClearStep(w, b, k, 2);
    b := ClearStep(w, b, k, 4);
    b := ClearStep(w, b, k, 8);
    b := ClearStep(w, b, k, 16);
    if w == 64 {
      b := ClearStep(w, b, k, 32);
    }
    ClearingEnds(w, b, k);
  }

  /** After steps that add up to n - 1: set from the top on the complement, or gone from the top. */
  ghost predicate Clearing(w: Width, b: int, k: nat, n: nat)
    requires 1 <= n <= w
  {
    if b < 0 then TopSet(Not(b), k, n) else b < Pow2(w - n)
  }

  lemma ClearingStarts(w: Width, x: int)
    requires IsInt(w, x)
    ensures Clearing(w, x, BitLength(if x < 0 then Not(x) else 0), 1)
    ensures x < 0 ==> BitLength(Not(x)) < w
  {
    if x < 0 {
      TopStarts(Not(x));
      BitLengthIsLeast(Not(x), w - 1);
    }
  }

  /** b &= b >> n. */
  method ClearStep(w: Width, x: int, ghost k: nat, n: nat) returns (b: int)
    requires 1 <= n && 2 * n <= w && Clearing(w, x, k, n)
    ensures Clearing(w, b, k, 2 * n) && (b < 0 <==> x < 0)
  {
    hide Pow2, Apply, TopSet;
    if x < 0 {
      ClearingIsSetting(Not(x), n);
      TopDoubles(Not(x), k, n);
      StaysNatural(Or(Not(x), Not(x) / Pow2(n)), k, 2 * n);
    } else {
      ClearingShrinks(x, w - n, n);
    }
    b := And(x, x / Pow2(n));
  }

  lemma StaysNatural(y: int, k: nat, n: nat)
    requires TopSet(y, k, n)
    ensures y >= 0
  {}

  lemma ClearingEnds(w: Width, b: int, k: nat)
    requires Clearing(w, b, k, w) && (b < 0 ==> k < w)
    ensures b < 0 ==> b == -(Pow2(k) as int)
    ensures b >= 0 ==> b == 0
  {}

  // ---------------------------------------------------------------- the tests

  lemma SignOf(w: Width, x: int)
    requires IsInt(w, x)
    ensures x / Pow2(w - 1) == if x < 0 then -1 else 0
  {
    hide Pow2;
    var p: int := Pow2(w - 1);
    DivisionIsUnique(p, if x < 0 then -1 else 0, if x < 0 then x + p else x);
  }

  /** XOR with a sign takes the complement of a negative number. */
  lemma Flip(x: int)
    ensures Xor(if x < 0 then -1 else 0, x) == Size(x)
    ensures Xor(Not(if x < 0 then -1 else 0), x) == Not(Size(x))
  {
    WithZero(x);
    WithOnes(x);
  }

  lemma {:induction false} BitLengthOfOr(x: nat, y: nat)
    ensures Or(x, y) >= 0 && BitLength(Or(x, y)) == BitLength(if x > y then x else y)
    decreases x + y
  {
    hide Apply, BitLength;
    OrBounds(x, y);
    if x + y > 0 {
      BitLengthOfOr(x / 2, y / 2);
      ApplyStep(OR, x, y);
      HalfAsLong(Or(x, y));
      HalfAsLong(if x > y then x else y);
      SameHalves(x, y);
    } else {
      WithZero(0);
    }
  }

  lemma HalfAsLong(x: nat)
    requires x > 0
    ensures BitLength(x) == 1 + BitLength(x / 2)
  {}

  lemma SameHalves(x: nat, y: nat)
    ensures (if x > y then x else y) / 2 == if x / 2 > y / 2 then x / 2 else y / 2
  {}

  /** The numbers that the two chains of shifts start from. */
  lemma Flips(w: Width, eMin: int, eMax: int)
    requires IsInt(w, eMin) && IsInt(w, eMax) && eMin <= eMax
    ensures var low := And(Not(Size(eMax)), eMin);
      IsInt(w, low) && (low < 0 <==> eMin < 0) && (low < 0 ==> BitLength(Not(low)) == ValueBits(eMin, eMax))
    ensures var high := Or(Size(eMax), Size(eMin));
      0 <= high < Pow2(w - 1) && BitLength(high) == ValueBits(eMin, eMax)
  {
    hide Pow2, Apply, BitLength;
    BitLengthOfOr(Size(eMax), Size(eMin));
    ApplyFits(OR, w - 1, Size(eMax), Size(eMin));
    if eMin < 0 {
      DeMorgan(Size(eMax), Size(eMin));
    } else {
      AndCommutes(Not(Size(eMax)), eMin);
      AndBounds(eMin, Not(Size(eMax)));
    }
  }

  /** loose_enum_test. */
  method LooseEnumTest(w: Width, eMin: int, eMax: int, eVal: int) returns (r: bool)
    requires IsInt(w, eMin) && IsInt(w, eMax) && IsInt(w, eVal) && eMin <= eMax
    ensures r <==> IsEnumValue(eMin, eMax, eVal)
  {
    hide Pow2, Apply, BitLength;
    SignOf(w, eMax);
    SignOf(w, eMin);
    Flip(eMax);
    Flip(eMin);
    Flips(w, eMin, eMax);
    var eMaxSign := eMax / Pow2(w - 1);
    var bMin := Xor(Not(eMaxSign), eMax);
    bMin := And(bMin, eMin);
    bMin := ClearRight(w, bMin);
    var bMax := Xor(eMaxSign, eMax);
    var eMinSign := eMin / Pow2(w - 1);
    bMax := Or(bMax, Xor(eMinSign, eMin));
    bMax := SmearRight(w, bMax);
    r := bMin <= eVal <= bMax;
  }

  /** e_var: the variable that a successful test assigns. */
  class EnumVariable {
    var value: int

    constructor (value: int)
      ensures this.value == value
    {
      this.value := value;
    }
  }

  /** loose_enum_test_cast. */
  method LooseEnumTestCast(w: Width, eMin: int, eMax: int, eVal: int, eVar: EnumVariable) returns (r: bool)
    requires IsInt(w, eMin) && IsInt(w, eMax) && IsInt(w, eVal) && eMin <= eMax
    modifies eVar
    ensures r <==> IsEnumValue(eMin, eMax, eVal)
    ensures eVar.value == if r then eVal else old(eVar.value)
  {
    r := LooseEnumTest(w, eMin, eMax, eVal);
    if r {
      eVar.value := eVal;
    }
  }

  /** tight_enum_test_cast. */
  method TightEnumTestCast(eMin: int, eMax: int, eVal: int, eVar: EnumVariable) returns (r: bool)
    modifies eVar
    ensures r <==> eMin <= eVal <= eMax
    ensures eVar.value == if r then eVal else old(eVar.value)
  {
    r := TightEnumTest(eMin, eMax, eVal);
    if r {
      eVar.value := eVal;
    }
  }
}
