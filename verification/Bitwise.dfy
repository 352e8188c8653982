// Bitwise operators on integers in two's complement without a fixed width. A negative integer has ones without end on
// the left, so that a word of w bits is its value modulo Pow2(w), an arithmetic right shift is a division by a power of
// two, and the complement of x is -1 - x.
module Bitwise {

  const WORD := 0x1_0000_0000_0000_0000

  type Uint64 = x: int | 0 <= x < WORD

  type Uint32 = x: int | 0 <= x < 0x1_0000_0000

  type Int32 = x: int | -0x8000_0000 <= x < 0x8000_0000

  function Pow2(n: nat): (p: nat)
    ensures p > 0
  {
    if n == 0 then 1 else 2 * Pow2(n - 1)
  }

  datatype Op = AND | OR | XOR

  function OnBits(op: Op, a: int, b: int): (r: int)
    requires 0 <= a <= 1 && 0 <= b <= 1
    ensures 0 <= r <= 1
  {
    match op
    case AND => if a == 1 && b == 1 then 1 else 0
    case OR => if a == 1 || b == 1 then 1 else 0
    case XOR => if a != b then 1 else 0
  }

  function Size(x: int): nat {
    if x < 0 then -1 - x else x
  }

  /** The operator on every bit; once only sign bits are left, its value on those repeats. */
  function Apply(op: Op, x: int, y: int): int
    decreases Size(x) + Size(y)
  {
    if Size(x) == 0 && Size(y) == 0 then -OnBits(op, x % 2, y % 2)
    else 2 * Apply(op, x / 2, y / 2) + OnBits(op, x % 2, y % 2)
  }

  function And(x: int, y: int): int {
    Apply(AND, x, y)
  }

  function Or(x: int, y: int): int {
    Apply(OR, x, y)
  }

  function Xor(x: int, y: int): int {
    Apply(XOR, x, y)
  }

  function Not(x: int): int {
    -1 - x
  }

  // ---------------------------------------------------------------- one bit at a time

  lemma ApplyStep(op: Op, x: int, y: int)
    ensures Apply(op, x, y) == 2 * Apply(op, x / 2, y / 2) + OnBits(op, x % 2, y % 2)
  {}

  lemma ApplyEnds(op: Op, x: int, y: int)
    requires Size(x) == 0 && Size(y) == 0
    ensures Apply(op, x, y) == -OnBits(op, x % 2, y % 2)
  {}

  lemma NotStep(x: int)
    ensures Not(x) / 2 == Not(x / 2) && Not(x) % 2 == 1 - x % 2 && Size(Not(x)) == Size(x)
  {}

  /** The low bits and the high bits do not meet. */
  lemma {:induction false} ApplySplits(op: Op, m: nat, x: int, a: int, y: int, b: int)
    requires 0 <= a < Pow2(m) && 0 <= b < Pow2(m)
    ensures Apply(op, x * Pow2(m) + a, y * Pow2(m) + b) == Apply(op, x, y) * Pow2(m) + Apply(op, a, b)
    ensures 0 <= Apply(op, a, b) < Pow2(m)
  {
    hide Apply, OnBits;
    if m > 0 {
      ApplySplits(op, m - 1, x, a / 2, y, b / 2);
      Halve(x, m, a);
      Halve(y, m, b);
      ApplyStep(op, x * Pow2(m) + a, y * Pow2(m) + b);
      ApplyStep(op, a, b);
      Double(Apply(op, x, y), m);
    } else {
      ApplyEnds(op, 0, 0);
      ZeroBits(op);
    }
  }

  lemma ApplyFits(op: Op, m: nat, a: int, b: int)
    requires 0 <= a < Pow2(m) && 0 <= b < Pow2(m)
    ensures 0 <= Apply(op, a, b) < Pow2(m)
  {
    ApplySplits(op, m, 0, a, 0, b);
  }

  lemma ApplyToBits(op: Op, a: int, b: int)
    requires 0 <= a <= 1 && 0 <= b <= 1
    ensures Apply(op, a, b) == OnBits(op, a, b)
  {
    ApplyEnds(op, 0, 0);
    ApplyStep(op, a, b);
    hide Apply;
  }

  lemma ZeroBits(op: Op)
    ensures OnBits(op, 0, 0) == 0
  {}

  lemma Double(x: int, m: nat)
    requires m > 0
    ensures x * Pow2(m) == 2 * (x * Pow2(m - 1))
  {}

  lemma Halve(x: int, m: nat, a: int)
    requires m > 0
    ensures (x * Pow2(m) + a) / 2 == x * Pow2(m - 1) + a / 2
    ensures (x * Pow2(m) + a) % 2 == a % 2
  {
    Double(x, m);
    var h := x * Pow2(m - 1);
    assert x * Pow2(m) + a == 2 * h + a;
  }

  // ---------------------------------------------------------------- powers of two

  lemma {:induction false} Pow2Adds(m: nat, n: nat)
    ensures Pow2(m + n) == Pow2(m) * Pow2(n)
  {
    if m == 0 {
    } else {
      Pow2Adds(m - 1, n);
      Double(Pow2(n), m);
    }
  }

  lemma Pow2Zero()
    ensures Pow2(0) == 1
  {}

  lemma Pow2Values()
    ensures Pow2(4) == 16 && Pow2(8) == 0x100 && Pow2(16) == 0x10000 && Pow2(31) == 0x80000000
    ensures Pow2(32) == 0x1_0000_0000 && Pow2(64) == 0x1_0000_0000_0000_0000
  {
    assert Pow2(4) == 16 && Pow2(32) == 2 * Pow2(31);
    hide Pow2;
    Pow2Adds(4, 4);
    Pow2Adds(8, 8);
    Pow2Adds(16, 16);
    Pow2Adds(32, 32);
  }

  lemma Pow2Grows(m: nat, n: nat)
    requires m <= n
    ensures Pow2(m) <= Pow2(n)
  {}

  /** Quotient and remainder are the only such pair. */
  lemma DivisionIsUnique(p: int, q: int, r: int)
    requires p > 0 && 0 <= r < p
    ensures (q * p + r) / p == q && (q * p + r) % p == r
  {
    var x := q * p + r;
    var d := x / p - q;
    assert x == p * (x / p) + x % p;
    assert p * d == r - x % p by {
      assert p * (x / p - q) == p * (x / p) - p * q;
    }
    NoMultipleBetween(p, d);
  }

  lemma NoMultipleBetween(p: int, d: int)
    requires p > 0 && -p < p * d < p
    ensures d == 0
  {
    MultipleGrows(p, 1, d);
    MultipleGrows(p, d, -1);
  }

  lemma MultipleGrows(p: int, c: int, d: int)
    requires p > 0
    ensures c <= d ==> p * c <= p * d
  {
    if c <= d {
      assert p * (d - c) >= 0;
      assert p * d == p * c + p * (d - c);
    }
  }

  // ---------------------------------------------------------------- the operators by parts

  /** The quotient and the remainder by a power of two are those of the operands. */
  lemma ApplyByParts(op: Op, m: nat, x: int, y: int)
    ensures Apply(op, x, y) / Pow2(m) == Apply(op, x / Pow2(m), y / Pow2(m))
    ensures Apply(op, x, y) % Pow2(m) == Apply(op, x % Pow2(m), y % Pow2(m))
  {
    hide Apply, Pow2;
    var p := Pow2(m);
    var a, b := x % p, y % p;
    assert x == x / p * p + a && y == y / p * p + b;
    ApplySplits(op, m, x / p, a, y / p, b);
    DivisionIsUnique(p, Apply(op, x / p, y / p), Apply(op, a, b));
  }

  lemma {:induction false} WithZero(x: int)
    ensures Or(x, 0) == Or(0, x) == Xor(x, 0) == Xor(0, x) == x && And(x, 0) == And(0, x) == 0
    decreases Size(x)
  {
    if Size(x) == 0 {
    } else {
      WithZero(x / 2);
    }
  }

  lemma {:induction false} WithOnes(x: int)
    ensures Or(x, -1) == Or(-1, x) == -1 && And(x, -1) == And(-1, x) == x && Xor(x, -1) == Xor(-1, x) == Not(x)
    decreases Size(x)
  {
    if Size(x) == 0 {
    } else {
      WithOnes(x / 2);
    }
  }

  /** Numbers without a common bit are added by OR. */
  lemma OrIsSum(x: int, y: int, m: nat)
    requires 0 <= y < Pow2(m)
    ensures Or(x * Pow2(m), y) == x * Pow2(m) + y
  {
    hide Apply, Pow2;
    ApplySplits(OR, m, x, 0, 0, y);
    WithZero(x);
    WithZero(y);
  }

  /** AND with a mask of ones is a remainder. */
  lemma AndIsRemainder(x: int, m: nat)
    ensures And(x, Pow2(m) - 1) == x % Pow2(m)
  {
    hide Apply, Pow2;
    var p: int := Pow2(m);
    var a := x % p;
    assert x == x / p * p + a;
    ApplySplits(AND, m, x / p, a, 0, p - 1);
    ApplySplits(AND, m, 0, a, -1, p - 1);
    WithZero(x / p);
    WithOnes(a);
    assert -1 * p + (p - 1) == -1;
    WithZero(0);
  }

  lemma {:induction false} AndCommutes(x: int, y: int)
    ensures And(x, y) == And(y, x)
    decreases Size(x) + Size(y)
  {
    if Size(x) + Size(y) == 0 {
    } else {
      AndCommutes(x / 2, y / 2);
    }
  }

  lemma {:induction false} OrCommutes(x: int, y: int)
    ensures Or(x, y) == Or(y, x)
    decreases Size(x) + Size(y)
  {
    if Size(x) + Size(y) == 0 {
    } else {
      OrCommutes(x / 2, y / 2);
    }
  }

  lemma {:induction false} OrBounds(x: int, y: int)
    requires x >= 0 && y >= 0
    ensures Or(x, y) >= x && Or(x, y) >= y
    decreases Size(x) + Size(y)
  {
    if x == 0 && y == 0 {
    } else {
      OrBounds(x / 2, y / 2);
    }
  }

  lemma {:induction false} AndBounds(x: int, y: int)
    requires x >= 0
    ensures 0 <= And(x, y) <= x
    decreases Size(x) + Size(y)
  {
    if Size(x) + Size(y) == 0 {
    } else {
      AndBounds(x / 2, y / 2);
    }
  }

  lemma {:induction false} DeMorgan(x: int, y: int)
    ensures And(Not(x), Not(y)) == Not(Or(x, y))
    decreases Size(x) + Size(y)
  {
    hide Apply;
    NotStep(x);
    NotStep(y);
    if Size(x) + Size(y) > 0 {
      ApplyStep(AND, Not(x), Not(y));
      ApplyStep(OR, x, y);
      DeMorgan(x / 2, y / 2);
    } else {
      ApplyEnds(AND, Not(x), Not(y));
      ApplyEnds(OR, x, y);
    }
  }

  lemma {:induction false} AndKeepsSign(x: int, y: int)
    ensures And(x, y) < 0 <==> x < 0 && y < 0
    decreases Size(x) + Size(y)
  {
    if Size(x) + Size(y) == 0 {
    } else {
      AndKeepsSign(x / 2, y / 2);
    }
  }

  lemma {:induction false} XorIsZero(x: int, y: int)
    ensures Xor(x, y) == 0 <==> x == y
    decreases Size(x) + Size(y)
  {
    hide Apply;
    if Size(x) + Size(y) > 0 {
      ApplyStep(XOR, x, y);
      XorIsZero(x / 2, y / 2);
    } else {
      ApplyEnds(XOR, x, y);
    }
  }

  lemma {:induction false} AndOfComplements(h: int, v: int)
    ensures And(And(h, v), Not(v)) == 0
    decreases Size(h) + Size(v)
  {
    hide Apply;
    NotStep(v);
    ApplyStep(AND, h, v);
    ApplyStep(AND, And(h, v), Not(v));
    if Size(h) + Size(v) > 0 {
      AndOfComplements(h / 2, v / 2);
    } else {
      ApplyEnds(AND, h, v);
      ApplyEnds(AND, And(h, v), Not(v));
    }
  }
}
