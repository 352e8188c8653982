/** The class uint128: a 128-bit unsigned integer in two 64-bit halves, with operators that update it in place. */
module Uint128 {
  import opened Bitwise

  const MODULUS := 0x1_0000_0000_0000_0000_0000_0000_0000_0000

  /** Conversion to a 64-bit unsigned integer, which every 64-bit operation ends with. */
  function U64(x: int): (r: Uint64) {
    x % WORD
  }

  function Join(hi: int, lo: int): int {
    hi * WORD + lo
  }

  class Uint128 {
    var lo: Uint64
    var hi: Uint64

    function Value(): (v: int)
      reads this
      ensures 0 <= v < MODULUS
    {
      Join(hi, lo)
    }

    constructor (top: Uint64, bottom: Uint64)
      ensures Value() == Join(top, bottom) && hi == top && lo == bottom
    {
      lo, hi := bottom, top;
    }

    constructor Copy(v: Uint128)
      ensures Value() == v.Value()
    {
      lo, hi := v.lo, v.hi;
    }

    /** A negative int is extended with its sign. */
    constructor FromInt(bottom: Int32)
      ensures Value() == bottom % MODULUS
    {
      lo, hi := U64(bottom), 0;
      new;
      if bottom < 0 {
        hi := U64(hi - 1);
      }
      SignExtends(bottom);
    }

    // ---------------------------------------------------------------- arithmetic, in place

    /** operator+=; b may be this object. */
    method Add(b: Uint128)
      modifies this
      ensures Value() == (old(Value()) + old(b.Value())) % MODULUS
    {
      hide U64, Join;
      AddHalves(hi, lo, b.hi, b.lo);
      hi := U64(hi + b.hi);
      var lolo := U64(lo + b.lo);
      if lolo < lo {
        hi := U64(hi + 1);
      }
      lo := lolo;
    }

    /** operator-=; b may be this object. */
    method Subtract(b: Uint128)
      modifies this
      ensures Value() == (old(Value()) - old(b.Value())) % MODULUS
    {
      hide U64, Join;
      SubtractHalves(hi, lo, b.hi, b.lo);
      hi := U64(hi - b.hi);
      if b.lo > lo {
        hi := U64(hi - 1);
      }
      lo := U64(lo - b.lo);
    }

    /** operator++ before the object. */
    method Increment()
      modifies this
      ensures Value() == (old(Value()) + 1) % MODULUS
    {
      hide U64, Join;
      var one := new Uint128.FromInt(1);
      Add(one);
    }

    /** operator++ after the object: the value before. */
    method PostIncrement() returns (before: Uint128)
      modifies this
      ensures fresh(before) && before.Value() == old(Value()) && Value() == (old(Value()) + 1) % MODULUS
    {
      hide U64, Join;
      before := new Uint128.Copy(this);
      var one := new Uint128.FromInt(1);
      Add(one);
    }

    /** operator-- before the object. */
    method Decrement()
      modifies this
      ensures Value() == (old(Value()) - 1) % MODULUS
    {
      hide U64, Join;
      var one := new Uint128.FromInt(1);
      Subtract(one);
    }

    /** operator-- after the object: the value before. */
    method PostDecrement() returns (before: Uint128)
      modifies this
      ensures fresh(before) && before.Value() == old(Value()) && Value() == (old(Value()) - 1) % MODULUS
    {
      hide U64, Join;
      before := new Uint128.Copy(this);
      var one := new Uint128.FromInt(1);
      Subtract(one);
    }

    /** Unary minus. */
    method Negated() returns (r: Uint128)
      ensures fresh(r) && r.Value() == -Value() % MODULUS
    {
      NegateHalves(hi, lo);
      var hiFlip: int, loFlip: int := U64(Not(hi)), U64(Not(lo));
      var loAdd := U64(loFlip + 1);
      if loAdd < loFlip {
        r := new Uint128(U64(hiFlip + 1), loAdd);
      } else {
        r := new Uint128(hiFlip, loAdd);
      }
    }

    /** operator~. */
    method Complemented() returns (r: Uint128)
      ensures fresh(r) && r.Value() == MODULUS - 1 - Value()
    {
      r := new Uint128(U64(Not(hi)), U64(Not(lo)));
    }

    /** operator&=, |= and ^=; other may be this object. */
    method Logic(op: Op, other: Uint128)
      modifies this
      ensures Value() == Apply(op, old(Value()), old(other.Value()))
    {
      LogicHalves(op, hi, lo, other.hi, other.lo);
      hi := Apply(op, hi, other.hi);
      lo := Apply(op, lo, other.lo);
    }

    // ---------------------------------------------------------------- shifts

    /** operator<<=. */
    method ShiftLeft(amount: nat)
      modifies this
      ensures Value() == old(Value()) * Pow2(amount) % MODULUS
    {
      hide Apply, Pow2, U64, Join;
      LeftHalves(hi, lo, amount);
      if amount < 64 {
        if amount != 0 {
          hi := Or(U64(hi * Pow2(amount)), lo / Pow2(64 - amount));
          lo := U64(lo * Pow2(amount));
        }
      } else if amount < 128 {
        hi := U64(lo * Pow2(amount - 64));
        lo := 0;
      } else {
        hi := 0;
        lo := 0;
      }
    }

    /** The operator <<, which leaves its operand alone. */
    method ShiftedLeft(amount: nat) returns (r: Uint128)
      ensures fresh(r) && r.Value() == Value() * Pow2(amount) % MODULUS
    {
      hide Apply, Pow2, U64, Join;
      LeftHalves(hi, lo, amount);
      if amount < 64 {
        if amount == 0 {
          r := new Uint128.Copy(this);
          return;
        }
        var newHi := Or(U64(hi * Pow2(amount)), lo / Pow2(64 - amount));
        var newLo := U64(lo * Pow2(amount));
        r := new Uint128(newHi, newLo);
      } else if amount < 128 {
        r := new Uint128(U64(lo * Pow2(amount - 64)), 0);
      } else {
        r := new Uint128(0, 0);
      }
    }

    /** The operator >>. */
    method ShiftedRight(amount: nat) returns (r: Uint128)
      ensures fresh(r) && r.Value() == Value() / Pow2(amount)
    {
      hide Apply, Pow2, U64, Join;
      RightHalves(hi, lo, amount);
      if amount < 64 {
        if amount == 0 {
          r := new Uint128.Copy(this);
          return;
        }
        var newHi := hi / Pow2(amount);
        var newLo := Or(lo / Pow2(amount), U64(hi * Pow2(64 - amount)));
        r := new Uint128(newHi, newLo);
      } else if amount < 128 {
        r := new Uint128(0, hi / Pow2(amount - 64));
      } else {
        r := new Uint128(0, 0);
      }
    }

    /** operator>>=, which clears the high half before it reads it when the shift is from 64 to 127. */
    method ShiftRight(amount: nat)
      modifies this
      ensures Value() == RightInPlace(old(Value()), amount)
    {
      hide Apply, Pow2, U64, Join;
      RightHalves(hi, lo, amount);
      if amount < 64 {
        if amount != 0 {
          lo := Or(lo / Pow2(amount), U64(hi * Pow2(64 - amount)));
          hi := hi / Pow2(amount);
        }
      } else if amount < 128 {
        hi := 0;
        ZeroHalves(Pow2(amount - 64));
        lo := hi / Pow2(amount - 64);
      } else {
        hi := 0;
        lo := 0;
      }
    }

    // ---------------------------------------------------------------- multiplication

    /** operator*=; b may be this object. */
    method Multiply(b: Uint128)
      modifies this
      ensures Value() == old(Value()) * old(b.Value()) % MODULUS
    {
      hide Apply, Pow2, U64, Join, Accumulated;
      ghost var ahi, alo, bhi, blo := hi, lo, b.hi, b.lo;
      Parts(hi);
      Parts(lo);
      Parts(b.hi);
      Parts(b.lo);
      var a96, a64 := hi / 0x1_0000_0000, And(hi, 0xffff_ffff);
      var a32, a00 := lo / 0x1_0000_0000, And(lo, 0xffff_ffff);
      var b96, b64 := b.hi / 0x1_0000_0000, And(b.hi, 0xffff_ffff);
      var b32, b00 := b.lo / 0x1_0000_0000, And(b.lo, 0xffff_ffff);
      var c96 := U64(a96 * b00 + a64 * b32 + a32 * b64 + a00 * b96);
      var c64 := U64(a64 * b00 + a32 * b32 + a00 * b64);
      Accumulate(c96, c64, U64(a32 * b00), U64(a00 * b32), U64(a00 * b00));
      ProductByParts(ahi, alo, bhi, blo, a96, a64, a32, a00, b96, b64, b32, b00);
    }

    /** The second half of operator*=: the high terms without their carries, then the others one at a time. */
    method Accumulate(c96: Uint64, c64: Uint64, m32: Uint64, n32: Uint64, m00: Uint64)
      modifies this
      ensures Value() == Accumulated(c96, c64, m32, n32, m00)
    {
      hide U64, Join;
      hi := HighWord(c96, c64);
      lo := 0;
      AddShifted(m32);
      AddShifted(n32);
      var last := new Uint128(0, m00);
      JoinLow(m00);
      Add(last);
    }

    /** Adds x, moved up by 32 bits, to the number. */
    method AddShifted(x: Uint64)
      modifies this
      ensures Value() == (old(Value()) + x * 0x1_0000_0000) % MODULUS
    {
      hide U64, Join;
      var t := new Uint128(0, x);
      var s := t.ShiftedLeft(32);
      JoinLow(x);
      SmallShift(x);
      Add(s);
    }
  }

  // ---------------------------------------------------------------- comparison

  datatype Comparison = LT | GT | GE | LE {
    predicate Holds(x: int, y: int) {
      match this
      case LT => x < y
      case GT => x > y
      case GE => x >= y
      case LE => x <= y
    }
  }

  /** CMP128. */
  predicate Compare(op: Comparison, l: Uint128, r: Uint128): (b: bool)
    reads l, r
    ensures op == LT ==> (b <==> l.Value() < r.Value())
    ensures op == GT ==> (b <==> l.Value() > r.Value())
    ensures op == GE ==> (b <==> l.Value() >= r.Value())
    ensures op == LE ==> (b <==> l.Value() <= r.Value())
  {
    if l.hi == r.hi then op.Holds(l.lo, r.lo) else op.Holds(l.hi, r.hi)
  }

  predicate Equal(l: Uint128, r: Uint128): (b: bool)
    reads l, r
    ensures b <==> l.Value() == r.Value()
  {
    l.lo == r.lo && l.hi == r.hi
  }

  /** operator!. */
  predicate IsZero(v: Uint128): (b: bool)
    reads v
    ensures b <==> v.Value() == 0
  {
    v.hi == 0 && v.lo == 0
  }

  // ---------------------------------------------------------------- the two right shifts

  /** The value that operator>>= leaves. */
  function RightInPlace(v: int, amount: nat): int {
    if 64 <= amount < 128 then 0 else v / Pow2(amount)
  }

  /** operator>>= and the operator >> agree outside 64 to 127, and there only on values that vanish. */
  lemma RightShiftsAgree(v: int, amount: nat)
    requires 0 <= v < MODULUS
    ensures RightInPlace(v, amount) == v / Pow2(amount) <==> amount < 64 || amount >= 128 || v < Pow2(amount)
  {
    hide Pow2;
    var p := Pow2(amount);
    if v < p {
      DivisionIsUnique(p, 0, v);
    } else {
      QuotientIsPositive(v, p);
    }
  }

  lemma QuotientIsPositive(v: int, p: int)
    requires v >= p > 0
    ensures v / p > 0
  {
    assert v == p * (v / p) + v % p;
    MultipleGrows(p, v / p, 0);
  }

  lemma RightShiftsDiffer()
    ensures RightInPlace(WORD, 64) == 0 && WORD / Pow2(64) == 1
  {
    hide Pow2;
    Pow2Values();
  }

  // ---------------------------------------------------------------- halves

  /** A low part outside its range carries into the high part. */
  lemma Carry(s: int, t: int)
    ensures Join(U64(s + t / WORD), U64(t)) == (s * WORD + t) % MODULUS
  {
    var h := s + t / WORD;
    var q := h / WORD;
    assert t == t / WORD * WORD + U64(t) && h == q * WORD + U64(h);
    var r := Join(U64(h), U64(t));
    assert s * WORD + t == q * MODULUS + r && 0 <= r < MODULUS;
    DivisionIsUnique(MODULUS, q, r);
  }

  lemma U64Again(x: int, y: int)
    ensures U64(U64(x) + y) == U64(x + y)
  {
    var q := x / WORD;
    assert x == q * WORD + U64(x);
    var r := U64(x) + y;
    assert r == r / WORD * WORD + U64(r);
    DivisionIsUnique(WORD, q + r / WORD, U64(r));
  }

  lemma SignExtends(bottom: Int32)
    ensures Join(if bottom < 0 then U64(-1) else 0, U64(bottom)) == bottom % MODULUS
  {
    Carry(0, bottom);
  }

  lemma AddHalves(ahi: Uint64, alo: Uint64, bhi: Uint64, blo: Uint64)
    ensures var hi := U64(ahi + bhi); var lolo := U64(alo + blo);
      Join(if lolo < alo then U64(hi + 1) else hi, lolo) == (Join(ahi, alo) + Join(bhi, blo)) % MODULUS
  {
    var s, t := ahi + bhi, alo + blo;
    assert Join(ahi, alo) + Join(bhi, blo) == s * WORD + t;
    U64Again(s, 1);
    assert t / WORD == if U64(t) < alo then 1 else 0;
    hide U64, Join;
    Carry(s, t);
  }

  lemma SubtractHalves(ahi: Uint64, alo: Uint64, bhi: Uint64, blo: Uint64)
    ensures var hi := U64(ahi - bhi);
      Join(if blo > alo then U64(hi - 1) else hi, U64(alo - blo)) == (Join(ahi, alo) - Join(bhi, blo)) % MODULUS
  {
    var s, t := ahi - bhi, alo - blo;
    assert Join(ahi, alo) - Join(bhi, blo) == s * WORD + t;
    U64Again(s, -1);
    assert t / WORD == if blo > alo then -1 else 0;
    hide U64, Join;
    Carry(s, t);
  }

  lemma NegateHalves(hi: Uint64, lo: Uint64)
    ensures var hiFlip := U64(Not(hi)); var loFlip := U64(Not(lo)); var loAdd := U64(loFlip + 1);
      Join(if loAdd < loFlip then U64(hiFlip + 1) else hiFlip, loAdd) == -Join(hi, lo) % MODULUS
  {
    var h: int, l: int := hi, lo;
    assert -l / WORD == if l == 0 then 0 else -1;
    assert U64(Not(lo)) == Not(lo) + WORD && U64(Not(hi)) == Not(hi) + WORD;
    U64Again(Not(hi), 1);
    U64Again(Not(lo), 1);
    assert -Join(hi, lo) == -h * WORD + -l;
    Carry(-h, -l);
  }

  lemma LogicHalves(op: Op, ahi: Uint64, alo: Uint64, bhi: Uint64, blo: Uint64)
    ensures 0 <= Apply(op, ahi, bhi) < WORD && 0 <= Apply(op, alo, blo) < WORD
    ensures Join(Apply(op, ahi, bhi), Apply(op, alo, blo)) == Apply(op, Join(ahi, alo), Join(bhi, blo))
  {
    hide Apply, Pow2;
    Pow2Values();
    ApplyFits(op, 64, ahi, bhi);
    ApplySplits(op, 64, ahi, alo, bhi, blo);
  }

  // ---------------------------------------------------------------- shifts by halves

  /** Shifting x out of the top of a word of size p * q by p. */
  lemma ShiftedWord(x: int, p: int, q: int)
    requires p > 0 && q > 0
    ensures x * p % (p * q) == (x % q) * p
    ensures x * p == x / q * (p * q) + (x % q) * p
  {
    var d, r := x / q, x % q;
    assert x == d * q + r;
    assert x * p == d * (p * q) + r * p;
    assert 0 <= r * p < p * q;
    DivisionIsUnique(p * q, d, r * p);
  }

  lemma LeftHalves(hi: Uint64, lo: Uint64, amount: nat)
    ensures amount == 0 ==> Join(hi, lo) == Join(hi, lo) * Pow2(amount) % MODULUS
    ensures 0 < amount < 64 ==>
              && 0 <= Or(U64(hi * Pow2(amount)), lo / Pow2(64 - amount)) < WORD
              && Join(Or(U64(hi * Pow2(amount)), lo / Pow2(64 - amount)), U64(lo * Pow2(amount)))
                 == Join(hi, lo) * Pow2(amount) % MODULUS
    ensures 64 <= amount < 128 ==> Join(U64(lo * Pow2(amount - 64)), 0) == Join(hi, lo) * Pow2(amount) % MODULUS
    ensures amount >= 128 ==> Join(0, 0) == Join(hi, lo) * Pow2(amount) % MODULUS
  {
    if 0 < amount < 64 {
      ShortLeft(hi, lo, amount);
    } else if 64 <= amount < 128 {
      LongLeft(hi, lo, amount);
    } else if amount >= 128 {
      VeryLongLeft(Join(hi, lo), amount);
    }
  }

  lemma ShortLeft(hi: Uint64, lo: Uint64, amount: nat)
    requires 0 < amount < 64
    ensures 0 <= Or(U64(hi * Pow2(amount)), lo / Pow2(64 - amount)) < WORD
    ensures Join(Or(U64(hi * Pow2(amount)), lo / Pow2(64 - amount)), U64(lo * Pow2(amount)))
            == Join(hi, lo) * Pow2(amount) % MODULUS
  {
    hide Apply, Pow2;
    var p: int, q: int := Pow2(amount), Pow2(64 - amount);
    Pow2Values();
    Pow2Adds(amount, 64 - amount);
    assert p * q == WORD;
    ShiftedWord(hi, p, q);
    ShiftedWord(lo, p, q);
    var h, l := hi % q, lo / q;
    QuotientFits(lo, p, q);
    OrIsSum(h, l, amount);
    RoomAbove(h, l, p, q);
    JoinShifted(hi, lo, p, hi / q, h * p + l, (lo % q) * p);
  }

  lemma QuotientFits(x: int, p: int, q: int)
    requires p > 0 && q > 0 && 0 <= x < p * q
    ensures 0 <= x / q < p
  {
    var d := x / q;
    assert x == q * d + x % q;
    MultipleGrows(q, p, d);
    assert q * p == p * q;
  }

  lemma RoomAbove(h: int, l: int, p: int, q: int)
    requires 0 <= h < q && 0 <= l < p
    ensures 0 <= h * p + l < p * q
  {
    assert h * p + p <= q * p by {
      MultipleGrows(p, h + 1, q);
      assert p * (h + 1) == h * p + p && p * q == q * p;
    }
    assert h * p >= 0;
  }

  lemma JoinShifted(hi: int, lo: int, p: int, d: int, h: int, l: int)
    requires 0 <= h < WORD && 0 <= l < WORD
    requires exists c :: lo * p == c * WORD + l && hi * p + c == d * WORD + h
    ensures Join(h, l) == Join(hi, lo) * p % MODULUS
  {
    var c :| lo * p == c * WORD + l && hi * p + c == d * WORD + h;
    assert Join(hi, lo) * p == (hi * p) * WORD + lo * p;
    assert Join(hi, lo) * p == d * MODULUS + Join(h, l);
    DivisionIsUnique(MODULUS, d, Join(h, l));
  }

  lemma LongLeft(hi: Uint64, lo: Uint64, amount: nat)
    requires 64 <= amount < 128
    ensures Join(U64(lo * Pow2(amount - 64)), 0) == Join(hi, lo) * Pow2(amount) % MODULUS
  {
    hide Pow2;
    var p: int := Pow2(amount - 64);
    Pow2Values();
    Pow2Adds(64, amount - 64);
    var x := lo * p;
    var d := hi * p + x / WORD;
    assert Join(hi, lo) * (WORD * p) == (hi * p) * MODULUS + x * WORD;
    assert x == x / WORD * WORD + U64(x);
    DivisionIsUnique(MODULUS, d, Join(U64(x), 0));
  }

  lemma VeryLongLeft(v: int, amount: nat)
    requires amount >= 128
    ensures v * Pow2(amount) % MODULUS == 0
  {
    hide Pow2;
    var p: int := Pow2(amount - 128);
    Pow2Values();
    Pow2Adds(64, 64);
    Pow2Adds(128, amount - 128);
    assert v * (MODULUS * p) == (v * p) * MODULUS;
    DivisionIsUnique(MODULUS, v * p, 0);
  }

  lemma ZeroHalves(p: int)
    requires p > 0
    ensures 0 / p == 0 && Join(0, 0) == 0
  {}

  lemma RightHalves(hi: Uint64, lo: Uint64, amount: nat)
    ensures amount == 0 ==> Join(hi, lo) == Join(hi, lo) / Pow2(amount)
    ensures 0 < amount < 64 ==>
              && 0 <= hi / Pow2(amount) < WORD
              && 0 <= Or(lo / Pow2(amount), U64(hi * Pow2(64 - amount))) < WORD
              && Join(hi / Pow2(amount), Or(lo / Pow2(amount), U64(hi * Pow2(64 - amount))))
                 == Join(hi, lo) / Pow2(amount)
    ensures 64 <= amount < 128 ==>
              0 <= hi / Pow2(amount - 64) < WORD && Join(0, hi / Pow2(amount - 64)) == Join(hi, lo) / Pow2(amount)
    ensures amount >= 128 ==> Join(0, 0) == Join(hi, lo) / Pow2(amount)
  {
    if 0 < amount < 64 {
      ShortRight(hi, lo, amount);
    } else if 64 <= amount < 128 {
      LongRight(hi, lo, amount);
    } else if amount >= 128 {
      VeryLongRight(Join(hi, lo), amount);
    }
  }

  lemma ShortRight(hi: Uint64, lo: Uint64, amount: nat)
    requires 0 < amount < 64
    ensures 0 <= hi / Pow2(amount) < WORD
    ensures 0 <= Or(lo / Pow2(amount), U64(hi * Pow2(64 - amount))) < WORD
    ensures Join(hi / Pow2(amount), Or(lo / Pow2(amount), U64(hi * Pow2(64 - amount))))
            == Join(hi, lo) / Pow2(amount)
  {
    hide Apply, Pow2;
    var p: int, q: int := Pow2(amount), Pow2(64 - amount);
    Pow2Values();
    Pow2Adds(amount, 64 - amount);
    assert p * q == WORD && q * p == WORD;
    ShiftedWord(hi, q, p);
    QuotientFits(lo, q, p);
    var h, l := hi % p, lo / p;
    OrCommutes(l, h * q);
    OrIsSum(h, l, 64 - amount);
    RoomAbove(h, l, q, p);
    QuotientIsSmaller(hi, p);
    QuotientOfJoin(hi, lo, p, q);
  }

  lemma QuotientIsSmaller(x: int, p: int)
    requires x >= 0 && p > 0
    ensures 0 <= x / p <= x
  {
    var d, r := x / p, x % p;
    assert x == p * d + r && 0 <= r < p;
    MultipleGrows(p, d, -1);
    TimesAtLeast(p, d);
  }

  lemma TimesAtLeast(p: int, d: int)
    requires p > 0 && d >= 0
    ensures p * d >= d
  {
    var e := p - 1;
    assert e * d >= 0;
    assert (e + 1) * d == e * d + d;
  }

  lemma QuotientOfJoin(hi: int, lo: int, p: int, q: int)
    requires p > 0 && p * q == WORD
    ensures Join(hi, lo) / p == Join(hi / p, (hi % p) * q + lo / p)
  {
    var d, r := hi / p, hi % p;
    assert hi == d * p + r && lo == lo / p * p + lo % p;
    var e := d * WORD + r * q + lo / p;
    assert (d * p + r) * (p * q) == (d * (p * q) + r * q) * p;
    assert Join(hi, lo) == e * p + lo % p;
    DivisionIsUnique(p, e, lo % p);
  }

  lemma LongRight(hi: Uint64, lo: Uint64, amount: nat)
    requires 64 <= amount < 128
    ensures 0 <= hi / Pow2(amount - 64) < WORD && Join(0, hi / Pow2(amount - 64)) == Join(hi, lo) / Pow2(amount)
  {
    hide Pow2;
    var p: int := Pow2(amount - 64);
    Pow2Values();
    Pow2Adds(64, amount - 64);
    QuotientIsSmaller(hi, p);
    var d, r := hi / p, hi % p;
    assert hi == d * p + r;
    assert Join(hi, lo) == d * (WORD * p) + (r * WORD + lo);
    assert r * WORD + lo < WORD * p;
    DivisionIsUnique(WORD * p, d, r * WORD + lo);
  }

  lemma VeryLongRight(v: int, amount: nat)
    requires amount >= 128 && 0 <= v < MODULUS
    ensures v / Pow2(amount) == 0
  {
    hide Pow2;
    Pow2Values();
    Pow2Adds(64, 64);
    Pow2Grows(128, amount);
    DivisionIsUnique(Pow2(amount), 0, v);
  }

  // ---------------------------------------------------------------- the product by parts

  lemma JoinLow(x: int)
    ensures Join(0, x) == x
  {}

  lemma SmallShift(x: Uint64)
    ensures x * Pow2(32) % MODULUS == x * 0x1_0000_0000
  {
    hide Pow2;
    Pow2Values();
  }

  lemma Parts(x: Uint64)
    ensures And(x, 0xffff_ffff) == x % 0x1_0000_0000
    ensures 0 <= x / 0x1_0000_0000 < 0x1_0000_0000 && 0 <= And(x, 0xffff_ffff) < 0x1_0000_0000
    ensures x == x / 0x1_0000_0000 * 0x1_0000_0000 + And(x, 0xffff_ffff)
  {
    hide Apply, Pow2;
    Pow2Values();
    AndIsRemainder(x, 32);
  }

  predicate IsHalf(x: int) {
    0 <= x < 0x1_0000_0000
  }

  lemma HalvesProduct(x: int, y: int)
    requires IsHalf(x) && IsHalf(y)
    ensures U64(x * y) == x * y
  {
    ProductBelow(x, y, 0x1_0000_0000);
  }

  lemma ProductBelow(x: int, y: int, n: int)
    requires 0 <= x < n && 0 <= y < n
    ensures 0 <= x * y < n * n
  {
    assert x * (n - y) >= 0 && n * (n - x) > 0;
    assert x * n == n * x;
  }

  lemma ModAdd(x: int, y: int)
    ensures (x % MODULUS + y) % MODULUS == (x + y) % MODULUS
  {
    var q := x / MODULUS;
    assert x == q * MODULUS + x % MODULUS;
    var r := x % MODULUS + y;
    DivisionIsUnique(MODULUS, q + r / MODULUS, r % MODULUS);
  }

  function HighWord(c96: int, c64: int): Uint64 {
    U64(U64(c96 * 0x1_0000_0000) + c64)
  }

  /** What the method computes, in the order it does. */
  function Accumulated(c96: int, c64: int, m32: int, n32: int, m00: int): int {
    (((Join(HighWord(c96, c64), 0) + m32 * 0x1_0000_0000) % MODULUS + n32 * 0x1_0000_0000) % MODULUS + m00) % MODULUS
  }

  lemma AccumulatedIs(c96: int, c64: int, m32: int, n32: int, m00: int)
    ensures Accumulated(c96, c64, m32, n32, m00) ==
            ((c96 * 0x1_0000_0000 + c64) * WORD + (m32 + n32) * 0x1_0000_0000 + m00) % MODULUS
  {
    U64Again(c96 * 0x1_0000_0000, c64);
    var h := c96 * 0x1_0000_0000 + c64;
    hide U64;
    Carry(h, 0);
    ZeroWord();
    hide Join;
    var v := h * WORD;
    ModAdd(v, m32 * 0x1_0000_0000);
    ModAdd(v + m32 * 0x1_0000_0000, n32 * 0x1_0000_0000);
    ModAdd(v + m32 * 0x1_0000_0000 + n32 * 0x1_0000_0000, m00);
  }

  lemma ZeroWord()
    ensures U64(0) == 0
  {}

  /** Wrapping the high terms to words before they are added changes nothing. */
  lemma HighWordOfWords(c96: int, c64: int)
    ensures HighWord(U64(c96), U64(c64)) == HighWord(c96, c64)
  {
    var q := c96 / WORD;
    assert c96 == q * WORD + U64(c96);
    var r := U64(c96) * 0x1_0000_0000;
    DivisionIsUnique(WORD, q * 0x1_0000_0000 + r / WORD, r % WORD);
    var x := c96 * 0x1_0000_0000;
    U64Again(x, U64(c64));
    U64Again(c64, x);
    U64Again(x, c64);
  }

  lemma AccumulatedWords(c96: int, c64: int, m32: int, n32: int, m00: int)
    ensures Accumulated(U64(c96), U64(c64), m32, n32, m00) ==
            ((c96 * 0x1_0000_0000 + c64) * WORD + (m32 + n32) * 0x1_0000_0000 + m00) % MODULUS
  {
    hide U64, HighWord, Join;
    HighWordOfWords(c96, c64);
    assert Accumulated(U64(c96), U64(c64), m32, n32, m00) == Accumulated(c96, c64, m32, n32, m00);
    AccumulatedIs(c96, c64, m32, n32, m00);
    hide Accumulated;
  }

  lemma ProductByParts(ahi: Uint64, alo: Uint64, bhi: Uint64, blo: Uint64, a96: int, a64: int, a32: int, a00: int,
                       b96: int, b64: int, b32: int, b00: int)
    requires ahi == a96 * 0x1_0000_0000 + a64 && alo == a32 * 0x1_0000_0000 + a00
    requires bhi == b96 * 0x1_0000_0000 + b64 && blo == b32 * 0x1_0000_0000 + b00
    requires IsHalf(a32) && IsHalf(a00) && IsHalf(b32) && IsHalf(b00)
    ensures Accumulated(U64(a96 * b00 + a64 * b32 + a32 * b64 + a00 * b96), U64(a64 * b00 + a32 * b32 + a00 * b64),
                        U64(a32 * b00), U64(a00 * b32), U64(a00 * b00))
            == Join(ahi, alo) * Join(bhi, blo) % MODULUS
  {
    HalvesProduct(a32, b00);
    HalvesProduct(a00, b32);
    HalvesProduct(a00, b00);
    hide U64, HighWord, Accumulated, Join, IsHalf, HighTerms;
    var c96, c64 := a96 * b00 + a64 * b32 + a32 * b64 + a00 * b96, a64 * b00 + a32 * b32 + a00 * b64;
    AccumulatedWords(c96, c64, a32 * b00, a00 * b32, a00 * b00);
    ProductIs(a96, a64, a32, a00, b96, b64, b32, b00, c96, c64, a32 * b00, a00 * b32, a00 * b00);
  }

  /** Modulo 2^128, the product is what its lower terms add up to. */
  lemma ProductIs(a96: int, a64: int, a32: int, a00: int, b96: int, b64: int, b32: int, b00: int,
                  c96: int, c64: int, m32: int, n32: int, m00: int)
    requires c96 == a96 * b00 + a64 * b32 + a32 * b64 + a00 * b96 && c64 == a64 * b00 + a32 * b32 + a00 * b64
    requires m32 == a32 * b00 && n32 == a00 * b32 && m00 == a00 * b00
    ensures Join(a96 * 0x1_0000_0000 + a64, a32 * 0x1_0000_0000 + a00)
            * Join(b96 * 0x1_0000_0000 + b64, b32 * 0x1_0000_0000 + b00) % MODULUS
         == ((c96 * 0x1_0000_0000 + c64) * WORD + (m32 + n32) * 0x1_0000_0000 + m00) % MODULUS
  {
    hide Join, HighTerms;
    ProductExpands(a96, a64, a32, a00, b96, b64, b32, b00);
    DropHigh((c96 * 0x1_0000_0000 + c64) * WORD + (m32 + n32) * 0x1_0000_0000 + m00,
             HighTerms(a96, a64, a32, b96, b64, b32));
  }

  lemma DropHigh(low: int, q: int)
    ensures (low + q * MODULUS) % MODULUS == low % MODULUS
  {
    assert low == low / MODULUS * MODULUS + low % MODULUS;
    DivisionIsUnique(MODULUS, q + low / MODULUS, low % MODULUS);
  }

  /** The terms that disappear off the high side. */
  function HighTerms(a96: int, a64: int, a32: int, b96: int, b64: int, b32: int): int {
    (a96 * b32 + a64 * b64 + a32 * b96) + (a96 * b64 + a64 * b96) * 0x1_0000_0000 + a96 * b96 * WORD
  }

  lemma ProductExpands(a96: int, a64: int, a32: int, a00: int, b96: int, b64: int, b32: int, b00: int)
    ensures Join(a96 * 0x1_0000_0000 + a64, a32 * 0x1_0000_0000 + a00)
            * Join(b96 * 0x1_0000_0000 + b64, b32 * 0x1_0000_0000 + b00)
            == ((a96 * b00 + a64 * b32 + a32 * b64 + a00 * b96) * 0x1_0000_0000
                + (a64 * b00 + a32 * b32 + a00 * b64)) * WORD
               + (a32 * b00 + a00 * b32) * 0x1_0000_0000 + a00 * b00
               + HighTerms(a96, a64, a32, b96, b64, b32) * MODULUS
  {
    var n := 0x1_0000_0000;
    var p, q, r, t := a96 * n + a64, a32 * n + a00, b96 * n + b64, b32 * n + b00;
    TwoDigits(p, q, r, t, WORD);
    TwoDigits(a96, a64, b96, b64, n);
    TwoDigits(a96, a64, b32, b00, n);
    TwoDigits(a32, a00, b96, b64, n);
    TwoDigits(a32, a00, b32, b00, n);
  }

  lemma TwoDigits(a: int, b: int, c: int, d: int, n: int)
    ensures (a * n + b) * (c * n + d) == a * c * (n * n) + (a * d + b * c) * n + b * d
  {
    var x := a * n + b;
    assert x * (c * n + d) == x * (c * n) + x * d;
    assert x * (c * n) == (a * n) * (c * n) + b * (c * n);
    assert (a * n) * (c * n) == a * c * (n * n);
    assert b * (c * n) == b * c * n;
    assert x * d == a * n * d + b * d;
    assert a * n * d == a * d * n;
    assert (a * d + b * c) * n == a * d * n + b * c * n;
  }
}
