// The byte predicates of Bits: tests on all bytes of a word at once, by arithmetic on the whole word, in which carries
// and borrows run from byte to byte.
module Swar {
  import opened Bitwise
  import opened Bytes

  predicate Contains(bs: seq<Byte>, c: Byte) {
    exists i :: 0 <= i < |bs| && bs[i] == c
  }

  predicate ContainsLess(bs: seq<Byte>, c: int) {
    exists i :: 0 <= i < |bs| && bs[i] < c
  }

  predicate AllWithin(bs: seq<Byte>, lo: int, hi: int) {
    forall i :: 0 <= i < |bs| ==> lo <= bs[i] <= hi
  }

  // ---------------------------------------------------------------- integer types

  /** The unsigned type of a size in bytes, or int: 4 bytes, signed. */
  datatype IntType = Unsigned(size: nat) | SignedInt {
    function Size(): nat {
      if SignedInt? then 4 else size
    }
  }

  /** Conversion to the type. */
  function Cast(T: IntType, x: int): int {
    if T.SignedInt? then (x + Pow2(31)) % Pow2(32) - Pow2(31) else x % Pow2(8 * T.size)
  }

  /** The type of an arithmetic result: types narrower than int are promoted to it. */
  function Promoted(T: IntType): IntType {
    if T.Size() < 4 then SignedInt else T
  }

  /** An arithmetic result. */
  function Arith(T: IntType, x: int): int {
    Cast(Promoted(T), x)
  }

  // ---------------------------------------------------------------- the source's functions

  /** BitPattern<T>::l. */
  function PatternL(T: IntType): int {
    var halfOnes := Pow2(T.Size() * 4) - 1;
    if T.Size() == 1 then 1 else halfOnes / 0xff * (halfOnes + 2)
  }

  /** BitPattern<T>::h. */
  function PatternH(T: IntType): int {
    Cast(T, Not(PatternL(T) * 0x7f))
  }

  function BytesContainByteLessThan(T: IntType, bytes: int, c: Byte): bool {
    var l, h := PatternL(T), PatternH(T);
    var less := Arith(T, bytes - Arith(T, l * c));
    if c <= 0x80 then And(And(h, less), Arith(T, Not(bytes))) != 0
    else And(Or(less, Xor(bytes, h)), h) != 0
  }

  function BytesContainByte(T: IntType, bytes: int, c: Byte): bool {
    BytesContainByteLessThan(T, Cast(T, Xor(bytes, Arith(T, c * PatternL(T)))), 1)
  }

  function BytesAllInRange(T: IntType, bytes: int, lo: Byte, hi: Byte): bool {
    var l, h := PatternL(T), PatternH(T);
    if lo > hi then false
    else if hi - lo < 128 then
      var x := Cast(T, Arith(T, bytes - Arith(T, l * lo)));
      var y := Cast(T, Arith(T, bytes + Arith(T, l * (127 - hi))));
      And(Or(x, y), h) == 0
    else
      // the argument's type is the template argument, so for a narrow T it is int
      !BytesContainByteLessThan(Promoted(T), Arith(T, bytes + Arith(T, (255 - hi) * l)), lo + (255 - hi))
  }

  // ---------------------------------------------------------------- digits

  function Ones(k: nat): nat {
    if k == 0 then 0 else 1 + 256 * Ones(k - 1)
  }

  function Highs(k: nat): nat {
    if k == 0 then 0 else 128 + 256 * Highs(k - 1)
  }

  lemma CastKeepsDigits(T: IntType, x: int, i: nat)
    requires i < T.Size()
    ensures Digit(Cast(T, x), i) == Digit(x, i)
  {
    hide Pow2, Digit;
    if T.SignedInt? {
      var y := x + Pow2(31);
      DigitsAreLow(x, -(y / Pow2(32)), 4, i);
      assert Cast(T, x) == x + -(y / Pow2(32)) * Pow2(32);
    } else {
      var p := Pow2(8 * T.size);
      DigitsAreLow(x, -(x / p), T.size, i);
      assert Cast(T, x) == x + -(x / p) * p;
    }
  }

  lemma ArithKeepsDigits(T: IntType, x: int, i: nat)
    requires i < T.Size()
    ensures Digit(Arith(T, x), i) == Digit(x, i)
  {
    CastKeepsDigits(Promoted(T), x, i);
  }

  /** Adding d to every byte: byte i comes out right when no byte below it overflows. */
  lemma {:induction false} AddToAll(bs: seq<Byte>, d: int, i: nat)
    requires i < |bs| && forall j :: 0 <= j < i ==> 0 <= bs[j] + d < 256
    ensures Digit(Value(bs) + Ones(|bs|) * d, i) == (bs[i] + d) % 256
  {
    hide Value, Ones, Digit;
    var b, rest := bs[0], bs[1..];
    var w := Value(rest) + Ones(|rest|) * d;
    SumStep(bs, d);
    DigitStep((b + d) + 256 * w, i);
    LowestByte(b + d, w);
    if i == 0 {
    } else {
      assert forall j :: 0 <= j < i - 1 ==> rest[j] == bs[j + 1];
      AddToAll(rest, d, i - 1);
    }
  }

  lemma SumStep(bs: seq<Byte>, d: int)
    requires bs != []
    ensures Value(bs) + Ones(|bs|) * d == (bs[0] + d) + 256 * (Value(bs[1..]) + Ones(|bs[1..]|) * d)
  {
    var v: int, n: int := Value(bs[1..]), Ones(|bs[1..]|);
    assert Value(bs) == bs[0] + 256 * v && Ones(|bs|) == 1 + 256 * n;
    hide Value, Ones;
    AddOne(Value(bs), Ones(|bs|), bs[0], v, n, d);
  }

  lemma AddOne(value: int, ones: int, b: int, v: int, n: int, d: int)
    requires value == b + 256 * v && ones == 1 + 256 * n
    ensures value + ones * d == (b + d) + 256 * (v + n * d)
  {
    OnesTimes(n, d);
  }

  lemma OnesTimes(n: int, d: int)
    ensures (1 + 256 * n) * d == d + 256 * (n * d)
  {}

  // ---------------------------------------------------------------- the high bits

  lemma BytesHighBit(a: Byte, b: Byte)
    ensures 0 <= Or(a, b) < 256 && (Or(a, b) >= 128 <==> a >= 128 || b >= 128)
    ensures 0 <= And(a, b) < 256 && (And(a, b) >= 128 <==> a >= 128 && b >= 128)
    ensures 0 <= Xor(a, b) < 256 && (Xor(a, b) >= 128 <==> (a >= 128) != (b >= 128))
  {
    hide Pow2, Apply;
    HighBitOf(AND, a, b);
    HighBitOf(OR, a, b);
    HighBitOf(XOR, a, b);
  }

  lemma HighBitOf(op: Op, a: Byte, b: Byte)
    ensures 0 <= Apply(op, a, b) < 256
    ensures Apply(op, a, b) / 128 == OnBits(op, a / 128, b / 128)
  {
    hide Pow2, Apply;
    SevenAndEight();
    ApplyFits(op, 8, a, b);
    ApplyByParts(op, 7, a, b);
    ApplyToBits(op, a / 128, b / 128);
  }

  lemma HighBitOnly(a: Byte)
    ensures And(128, a) == And(a, 128) == if a >= 128 then 128 else 0
  {
    hide Pow2, Apply;
    SevenAndEight();
    HighBitOf(AND, 128, a);
    HighBitOf(AND, a, 128);
    ApplyByParts(AND, 7, 128, a);
    ApplyByParts(AND, 7, a, 128);
    WithZero(a % 128);
  }

  /** Both of u and w have a high bit in no byte. */
  lemma {:induction false} AndHighs(k: nat, u: int, w: int)
    ensures And(And(Highs(k), u), w) == 0 <==> forall i :: 0 <= i < k ==> LowAt(u, w, i)
    decreases k
  {
    hide Pow2, Apply, LowAt, Highs;
    if k == 0 {
      HighsZero();
      WithZero(u);
      WithZero(w);
    } else {
      HighsStep(k);
      SevenAndEight();
      ApplyByParts(AND, 8, Highs(k), u);
      ApplyByParts(AND, 8, And(Highs(k), u), w);
      AndHighs(k - 1, u / 256, w / 256);
      HighBitOnly(u % 256);
      HighBitOnly(w % 256);
      WithZero(w % 256);
      DigitsBelow(k, u, w);
    }
  }

  lemma HighsZero()
    ensures Highs(0) == 0
  {}

  lemma HighsStep(k: nat)
    requires k > 0
    ensures Highs(k) == 128 + 256 * Highs(k - 1) && Highs(k) / 256 == Highs(k - 1) && Highs(k) % 256 == 128
  {}

  predicate LowAt(u: int, w: int, i: nat) {
    Digit(u, i) < 128 || Digit(w, i) < 128
  }

  /** A claim about k bytes is one about the lowest byte and one about the others. */
  lemma DigitsBelow(k: nat, u: int, w: int)
    requires k > 0
    ensures (forall i :: 0 <= i < k ==> LowAt(u, w, i)) <==>
            (u % 256 < 128 || w % 256 < 128) && (forall i :: 0 <= i < k - 1 ==> LowAt(u / 256, w / 256, i))
  {
    assert LowAt(u, w, 0) <==> u % 256 < 128 || w % 256 < 128;
    forall i: nat ensures LowAt(u, w, i + 1) <==> LowAt(u / 256, w / 256, i) {}
    hide LowAt;
    if forall i :: 0 <= i < k ==> LowAt(u, w, i) {
      forall i | 0 <= i < k - 1 ensures LowAt(u / 256, w / 256, i) {
        assert LowAt(u, w, i + 1);
      }
    }
    if (u % 256 < 128 || w % 256 < 128) && (forall i :: 0 <= i < k - 1 ==> LowAt(u / 256, w / 256, i)) {
      forall i | 0 <= i < k ensures LowAt(u, w, i) {
        if i > 0 {
          assert LowAt(u / 256, w / 256, i - 1);
        }
      }
    }
  }

  predicate NoHigh(k: nat, v: int) {
    forall i :: 0 <= i < k ==> Digit(v, i) < 128
  }

  lemma HighsOnTheRight(k: nat, v: int)
    ensures And(v, Highs(k)) == 0 <==> NoHigh(k, v)
  {
    AndCommutes(v, Highs(k));
    WithOnes(And(Highs(k), v));
    AndHighs(k, v, -1);
    hide Apply, Highs;
    forall i: nat ensures LowAt(v, -1, i) <==> Digit(v, i) < 128 {
      DigitOfNot(0, i);
      DigitOfZero(i);
    }
    hide LowAt;
    assert NoHigh(k, v) <==> forall i :: 0 <= i < k ==> LowAt(v, -1, i) by {
      if NoHigh(k, v) {
        forall i | 0 <= i < k ensures LowAt(v, -1, i) {
          assert Digit(v, i) < 128;
        }
      }
      if forall i :: 0 <= i < k ==> LowAt(v, -1, i) {
        forall i | 0 <= i < k ensures Digit(v, i) < 128 {
          assert LowAt(v, -1, i);
        }
      }
    }
  }

  // ---------------------------------------------------------------- the patterns

  lemma {:induction false} OnesAndHighs(k: nat)
    ensures 255 * Ones(k) == Pow2(8 * k) - 1 && Highs(k) == 128 * Ones(k)
  {
    if k == 0 {
    } else {
      Pow2OfByte(k);
      OnesAndHighs(k - 1);
      hide Pow2;
    }
  }

  /** l is the sum of the powers of the base, h has the high bit of every byte. */
  lemma PatternsAre(k: nat)
    requires Supported(k)
    ensures PatternL(Unsigned(k)) == Ones(k) && PatternH(Unsigned(k)) == Highs(k)
  {
    hide Pow2, Ones, Highs;
    OnesAndHighs(k);
    if k == 1 {
      OnesOfOne();
    } else {
      EvenPattern(k);
    }
    NegativeRemainder(Pow2(8 * k), Highs(k), Ones(k));
  }

  lemma EvenPattern(k: nat)
    requires k > 0 && k % 2 == 0
    ensures PatternL(Unsigned(k)) == Ones(k)
  {
    hide Pow2, Ones;
    var m := k / 2;
    var p: int := Pow2(4 * k);
    OnesAndHighs(k);
    OnesAndHighs(m);
    assert 8 * m == 4 * k;
    Pow2Adds(4 * k, 4 * k);
    SquareLessOne(p);
    assert 255 * (Ones(m) * (p + 1)) == (p - 1) * (p + 1);
  }

  lemma OnesOfOne()
    ensures Ones(1) == 1
  {}

  lemma SquareLessOne(p: int)
    ensures (p - 1) * (p + 1) == p * p - 1
  {}

  lemma NegativeRemainder(p: int, h: int, l: int)
    requires p > 0 && 0 <= h < p && h + l * 127 == p - 1
    ensures Not(l * 127) % p == h
  {
    DivisionIsUnique(p, -1, h);
  }

  // ---------------------------------------------------------------- a byte less than c

  lemma LowestOutside(bs: seq<Byte>, lo: int, hi: int) returns (i: nat)
    requires !AllWithin(bs, lo, hi)
    ensures i < |bs| && !(lo <= bs[i] <= hi) && forall j :: 0 <= j < i ==> lo <= bs[j] <= hi
  {
    i := 0;
    while lo <= bs[i] <= hi
      invariant i < |bs| && forall j :: 0 <= j < i ==> lo <= bs[j] <= hi
      invariant exists j :: i <= j < |bs| && !(lo <= bs[j] <= hi)
      decreases |bs| - i
    {
      i := i + 1;
    }
  }

  /** An arithmetic result is right modulo the size of its type. */
  lemma ArithIsCongruent(T: IntType, x: int) returns (q: int)
    ensures Arith(T, x) == x + q * Pow2(8 * Promoted(T).Size()) && Promoted(T).Size() >= T.Size()
  {
    hide Pow2;
    var p := Pow2(8 * Promoted(T).Size());
    q := if Promoted(T).SignedInt? then -((x + Pow2(31)) / p) else -(x / p);
  }

  predicate Supported(k: nat) {
    k == 1 || (k > 0 && k % 2 == 0)
  }

  /** Byte i of bytes + e, where e is l * d in the arithmetic of the type, when no byte below overflows. */
  lemma SumDigit(T: IntType, bs: seq<Byte>, d: int, e: int, q: int, i: nat)
    requires T == Unsigned(|bs|) && Supported(|bs|)
    requires e == PatternL(T) * d + q * Pow2(8 * Promoted(T).Size())
    requires i < |bs| && forall j :: 0 <= j < i ==> 0 <= bs[j] + d < 256
    ensures Digit(Arith(T, Value(bs) + e), i) == (bs[i] + d) % 256
  {
    hide Digit, Value, Ones, Highs, Cast, PatternL, PatternH, Pow2;
    PatternsAre(|bs|);
    AddToAll(bs, d, i);
    ArithKeepsDigits(T, Value(bs) + e, i);
    DigitsAreLow(Value(bs) + Ones(|bs|) * d, q, Promoted(T).Size(), i);
  }

  /** Byte i of bytes - l * c. */
  lemma LessDigit(T: IntType, bs: seq<Byte>, c: int, i: nat)
    requires T == Unsigned(|bs|) && Supported(|bs|)
    requires 0 <= c < 256 && i < |bs| && forall j :: 0 <= j < i ==> c <= bs[j]
    ensures Digit(Arith(T, Value(bs) - Arith(T, PatternL(T) * c)), i) == if bs[i] < c then bs[i] - c + 256 else bs[i] - c
  {
    hide Digit, Value, Arith, PatternL, Pow2;
    var q := ArithIsCongruent(T, PatternL(T) * c);
    SignsOut(PatternL(T), c, q, Pow2(8 * Promoted(T).Size()));
    SumDigit(T, bs, -c, -Arith(T, PatternL(T) * c), -q, i);
  }

  lemma SignsOut(l: int, c: int, q: int, p: int)
    ensures -(l * c + q * p) == l * -c + -q * p
  {}

  lemma {:induction false} DigitOfHighs(k: nat, i: nat)
    requires i < k
    ensures Digit(Highs(k), i) == 128
  {
    HighsStep(k);
    if i == 0 {
    } else {
      DigitOfHighs(k - 1, i - 1);
    }
  }

  /**
   * BytesContainByteLessThan is right for every word and every c: the lowest byte below c gets no borrow from the bytes
   * under it, and a borrow can change only bytes above it.
   */
  lemma LessThanIsExact(bs: seq<Byte>, c: Byte)
    requires Supported(|bs|)
    ensures BytesContainByteLessThan(Unsigned(|bs|), Value(bs), c) <==> ContainsLess(bs, c)
  {
    hide BytesContainByteLessThan;
    if c <= 0x80 {
      LessThanSmall(bs, c);
    } else {
      LessThanLarge(bs, c);
    }
  }

  lemma LessThanSmall(bs: seq<Byte>, c: Byte)
    requires Supported(|bs|) && c <= 0x80
    ensures BytesContainByteLessThan(Unsigned(|bs|), Value(bs), c) <==> ContainsLess(bs, c)
  {
    hide Digit, Value, Arith, PatternL, PatternH, Pow2, Highs, LowAt, Apply;
    var T, k := Unsigned(|bs|), |bs|;
    PatternsAre(k);
    var less := Arith(T, Value(bs) - Arith(T, PatternL(T) * c));
    var nb := Arith(T, Not(Value(bs)));
    AndHighs(k, less, nb);
    if ContainsLess(bs, c) {
      var i := LowestOutside(bs, c, 255);
      LessDigit(T, bs, c, i);
      LowAtIs(T, bs, less, i);
    } else {
      forall i | 0 <= i < k ensures LowAt(less, nb, i) {
        LessDigit(T, bs, c, i);
        LowAtIs(T, bs, less, i);
      }
    }
  }

  lemma LessThanLarge(bs: seq<Byte>, c: Byte)
    requires Supported(|bs|) && c > 0x80
    ensures BytesContainByteLessThan(Unsigned(|bs|), Value(bs), c) <==> ContainsLess(bs, c)
  {
    hide Digit, Value, Arith, PatternL, PatternH, Pow2, Highs, NoHigh, Apply;
    var T, k := Unsigned(|bs|), |bs|;
    PatternsAre(k);
    var less := Arith(T, Value(bs) - Arith(T, PatternL(T) * c));
    var either := Or(less, Xor(Value(bs), Highs(k)));
    HighsOnTheRight(k, either);
    if ContainsLess(bs, c) {
      var i := LowestOutside(bs, c, 255);
      LessDigit(T, bs, c, i);
      EitherIs(bs, less, i);
      SomeHigh(k, either, i);
    } else {
      forall i | 0 <= i < k ensures Digit(either, i) < 128 {
        LessDigit(T, bs, c, i);
        EitherIs(bs, less, i);
      }
      NoneHigh(k, either);
    }
  }

  lemma SomeHigh(k: nat, v: int, i: nat)
    requires i < k && Digit(v, i) >= 128
    ensures !NoHigh(k, v)
  {}

  lemma NoneHigh(k: nat, v: int)
    requires forall i :: 0 <= i < k ==> Digit(v, i) < 128
    ensures NoHigh(k, v)
  {}

  lemma LowAtIs(T: IntType, bs: seq<Byte>, less: int, i: nat)
    requires T == Unsigned(|bs|) && i < |bs|
    ensures LowAt(less, Arith(T, Not(Value(bs))), i) <==> Digit(less, i) < 128 || bs[i] >= 128
  {
    ArithKeepsDigits(T, Not(Value(bs)), i);
    DigitOfNot(Value(bs), i);
    DigitsOfValue(bs, i);
    hide Digit, Arith, Value;
  }

  lemma EitherIs(bs: seq<Byte>, less: int, i: nat)
    requires i < |bs|
    ensures Digit(Or(less, Xor(Value(bs), Highs(|bs|))), i) >= 128 <==> Digit(less, i) >= 128 || bs[i] < 128
  {
    hide Digit, Value, Highs, Apply;
    var x := Xor(Value(bs), Highs(|bs|));
    DigitOfApply(OR, less, x, i);
    DigitOfApply(XOR, Value(bs), Highs(|bs|), i);
    DigitOfHighs(|bs|, i);
    DigitsOfValue(bs, i);
    BytesHighBit(bs[i], 128);
    BytesHighBit(Digit(less, i), Digit(x, i));
  }

  // ---------------------------------------------------------------- a byte equal to c

  lemma {:induction false} DigitOfRepeated(k: nat, c: Byte, i: nat)
    requires i < k
    ensures Digit(c * Ones(k), i) == c
  {
    var n: int := Ones(k - 1);
    OnesTimes(n, c);
    assert (1 + 256 * n) * c == c * Ones(k) && n * c == c * n;
    hide Ones, Digit;
    DigitStep(c * Ones(k), i);
    if i == 0 {
    } else {
      DigitOfRepeated(k - 1, c, i - 1);
    }
  }

  lemma ContainByteIsExact(bs: seq<Byte>, c: Byte)
    requires Supported(|bs|)
    ensures BytesContainByte(Unsigned(|bs|), Value(bs), c) <==> Contains(bs, c)
  {
    hide Digit, Value, Arith, PatternL, PatternH, Pow2, Apply, BytesContainByteLessThan;
    var T, k := Unsigned(|bs|), |bs|;
    PatternsAre(k);
    var r := Arith(T, c * Ones(k));
    var x := Cast(T, Xor(Value(bs), r));
    forall i | 0 <= i < k ensures Digit(x, i) == 0 <==> bs[i] == c {
      CastKeepsDigits(T, Xor(Value(bs), r), i);
      DigitOfApply(XOR, Value(bs), r, i);
      DigitsOfValue(bs, i);
      ArithKeepsDigits(T, c * Ones(k), i);
      DigitOfRepeated(k, c, i);
      XorIsZero(bs[i], c);
    }
    CastFits(T, Xor(Value(bs), r));
    ValueOfDigits(x, k);
    LessThanIsExact(Digits(x, k), 1);
    ZeroesMatch(bs, Digits(x, k), c);
  }

  lemma CastFits(T: IntType, x: int)
    requires T.Unsigned?
    ensures 0 <= Cast(T, x) < Pow2(8 * T.size)
  {}

  lemma ZeroesMatch(bs: seq<Byte>, ds: seq<Byte>, c: Byte)
    requires |ds| == |bs| && forall i :: 0 <= i < |bs| ==> (ds[i] == 0 <==> bs[i] == c)
    ensures ContainsLess(ds, 1) <==> Contains(bs, c)
  {
    if ContainsLess(ds, 1) {
      var i :| 0 <= i < |ds| && ds[i] < 1;
      assert bs[i] == c;
    }
    if Contains(bs, c) {
      var i :| 0 <= i < |bs| && bs[i] == c;
      assert ds[i] < 1;
    }
  }

  // ---------------------------------------------------------------- all bytes within a range

  /** The narrow range: both tests leave every high bit clear exactly when every byte is within it. */
  lemma NarrowRange(bs: seq<Byte>, lo: Byte, hi: Byte)
    requires Supported(|bs|) && 0 <= hi - lo < 128
    ensures BytesAllInRange(Unsigned(|bs|), Value(bs), lo, hi) <==> AllWithin(bs, lo, hi)
  {
    hide Digit, Value, Arith, Cast, PatternL, PatternH, Pow2, Apply, Highs, NoHigh;
    var T, k := Unsigned(|bs|), |bs|;
    PatternsAre(k);
    var x := Cast(T, Arith(T, Value(bs) - Arith(T, PatternL(T) * lo)));
    var y := Cast(T, Arith(T, Value(bs) + Arith(T, PatternL(T) * (127 - hi))));
    HighsOnTheRight(k, Or(x, y));
    if AllWithin(bs, lo, hi) {
      forall i | 0 <= i < k ensures Digit(Or(x, y), i) < 128 {
        RangeDigits(T, bs, lo, hi, x, y, i);
      }
      NoneHigh(k, Or(x, y));
    } else {
      var i := LowestOutside(bs, lo, hi);
      RangeDigits(T, bs, lo, hi, x, y, i);
      SomeHigh(k, Or(x, y), i);
    }
  }

  lemma RangeDigits(T: IntType, bs: seq<Byte>, lo: Byte, hi: Byte, x: int, y: int, i: nat)
    requires T == Unsigned(|bs|) && Supported(|bs|) && 0 <= hi - lo < 128
    requires x == Cast(T, Arith(T, Value(bs) - Arith(T, PatternL(T) * lo)))
    requires y == Cast(T, Arith(T, Value(bs) + Arith(T, PatternL(T) * (127 - hi))))
    requires i < |bs| && forall j :: 0 <= j < i ==> lo <= bs[j] <= hi
    ensures Digit(Or(x, y), i) >= 128 <==> !(lo <= bs[i] <= hi)
  {
    hide Digit, Value, Arith, Cast, PatternL, Pow2, Apply;
    CastKeepsDigits(T, Arith(T, Value(bs) - Arith(T, PatternL(T) * lo)), i);
    LessDigit(T, bs, lo, i);
    UpperDigit(T, bs, hi, y, i);
    DigitOfApply(OR, x, y, i);
    BytesHighBit(Digit(x, i), Digit(y, i));
  }

  lemma UpperDigit(T: IntType, bs: seq<Byte>, hi: Byte, y: int, i: nat)
    requires T == Unsigned(|bs|) && Supported(|bs|)
    requires y == Cast(T, Arith(T, Value(bs) + Arith(T, PatternL(T) * (127 - hi))))
    requires i < |bs| && forall j :: 0 <= j < i ==> 0 <= bs[j] + (127 - hi) < 256
    ensures var s := bs[i] + (127 - hi);
      Digit(y, i) == if s < 0 then s + 256 else if s < 256 then s else s - 256
  {
    hide Digit, Value, Arith, Cast, PatternL, Pow2;
    CastKeepsDigits(T, Arith(T, Value(bs) + Arith(T, PatternL(T) * (127 - hi))), i);
    var q := ArithIsCongruent(T, PatternL(T) * (127 - hi));
    SumDigit(T, bs, 127 - hi, Arith(T, PatternL(T) * (127 - hi)), q, i);
  }

  /** The wide range, for words of at least 4 bytes. */
  lemma WideRange(bs: seq<Byte>, lo: Byte, hi: Byte)
    requires Supported(|bs|) && |bs| >= 4 && hi - lo >= 128
    ensures BytesAllInRange(Unsigned(|bs|), Value(bs), lo, hi) <==> AllWithin(bs, lo, hi)
  {
    hide Value, Arith, PatternL, PatternH, Pow2, BytesContainByteLessThan, AllWithin, ContainsLess;
    var T, k := Unsigned(|bs|), |bs|;
    var x := Arith(T, Value(bs) + Arith(T, (255 - hi) * PatternL(T)));
    ArithFits(T, Value(bs) + Arith(T, (255 - hi) * PatternL(T)));
    ValueOfDigits(x, k);
    LessThanIsExact(Digits(x, k), lo + (255 - hi));
    WideDigits(T, bs, lo, hi, x);
  }

  lemma WideDigits(T: IntType, bs: seq<Byte>, lo: Byte, hi: Byte, x: int)
    requires T == Unsigned(|bs|) && Supported(|bs|) && hi - lo >= 128
    requires x == Arith(T, Value(bs) + Arith(T, (255 - hi) * PatternL(T)))
    ensures ContainsLess(Digits(x, |bs|), lo + (255 - hi)) <==> !AllWithin(bs, lo, hi)
  {
    hide Value, Digit, Digits;
    if AllWithin(bs, lo, hi) {
      forall i | 0 <= i < |bs| ensures Digits(x, |bs|)[i] >= lo + (255 - hi) {
        MoreDigit(T, bs, lo, hi, i);
      }
    } else {
      var i := LowestOutside(bs, lo, hi);
      MoreDigit(T, bs, lo, hi, i);
      assert Digits(x, |bs|)[i] < lo + (255 - hi);
    }
  }

  lemma MoreDigit(T: IntType, bs: seq<Byte>, lo: Byte, hi: Byte, i: nat)
    requires T == Unsigned(|bs|) && Supported(|bs|) && hi - lo >= 128
    requires i < |bs| && forall j :: 0 <= j < i ==> lo <= bs[j] <= hi
    ensures var b := Digit(Arith(T, Value(bs) + Arith(T, (255 - hi) * PatternL(T))), i);
      lo <= bs[i] <= hi <==> b >= lo + (255 - hi)
  {
    hide Digit, Value, Arith, PatternL, Pow2;
    var q := ArithIsCongruent(T, (255 - hi) * PatternL(T));
    SumDigit(T, bs, 255 - hi, Arith(T, (255 - hi) * PatternL(T)), q, i);
  }

  lemma ArithFits(T: IntType, x: int)
    requires T.Unsigned? && T.size >= 4
    ensures 0 <= Arith(T, x) < Pow2(8 * T.size)
  {}

  /**
   * The wide range, for words of one or two bytes: the sum stays an int, whose two upper bytes are zero or small, so
   * the test on the int finds a byte that is less unless nothing can be.
   */
  lemma WideRangeOfInt(bs: seq<Byte>, lo: Byte, hi: Byte)
    requires 1 <= |bs| <= 2 && hi - lo >= 128
    ensures BytesAllInRange(Unsigned(|bs|), Value(bs), lo, hi) <==> hi - lo == 255
  {
    hide Value, Pow2, PatternL, PatternH, Ones, Arith, BytesContainByteLessThan, BytesAllInRange;
    var T := Unsigned(|bs|);
    PatternsAre(|bs|);
    SmallValues(bs);
    var e := (255 - hi) * Ones(|bs|);
    ProductFits(255 - hi, Ones(|bs|));
    IntArith(T, e);
    IntArith(T, Value(bs) + e);
    IntLessThan(Value(bs) + e, lo + (255 - hi));
    WideBranch(T, Value(bs), lo, hi);
  }

  lemma WideBranch(T: IntType, bytes: int, lo: Byte, hi: Byte)
    requires hi - lo >= 128
    ensures BytesAllInRange(T, bytes, lo, hi) ==
            !BytesContainByteLessThan(Promoted(T), Arith(T, bytes + Arith(T, (255 - hi) * PatternL(T))), lo + (255 - hi))
  {
    hide Arith, PatternL, PatternH, BytesContainByteLessThan;
  }

  lemma ProductFits(m: int, n: int)
    requires 0 <= m <= 127 && (n == 1 || n == 257)
    ensures 0 <= m * n <= 127 * 257
  {
    if n == 1 {
      assert m * n == m;
    } else {
      assert m * n == m * 257;
    }
  }

  /** Narrow types do their arithmetic in int. */
  lemma IntArith(T: IntType, x: int)
    requires T.Size() < 4 && 0 <= x < 0x1000000
    ensures Arith(T, x) == x && Promoted(T) == SignedInt
  {
    hide Pow2;
    Pow2Values();
  }

  lemma IntPatterns()
    ensures PatternL(SignedInt) == 0x01010101 && PatternH(SignedInt) < 0
    ensures Pow2(31) == 0x80000000 && Pow2(32) == 0x1_0000_0000
  {
    hide Pow2;
    Pow2Values();
  }

  lemma SmallValues(bs: seq<Byte>)
    requires 1 <= |bs| <= 2
    ensures Value(bs) < 65536 && (Ones(|bs|) == 1 || Ones(|bs|) == 257)
  {
    assert Value(bs) == bs[0] + 256 * Value(bs[1..]);
    if |bs| == 2 {
      assert Value(bs[1..]) == bs[1] + 256 * Value(bs[2..]);
      assert bs[1..][1..] == [] && bs[2..] == [];
    }
  }

  lemma IntLessThan(v: int, c: Byte)
    requires 0 <= v < 0x1000000 && c <= 127
    ensures BytesContainByteLessThan(SignedInt, v, c) <==> c > 0
  {
    IntPatterns();
    hide PatternL, PatternH, Pow2, Apply;
    var h := PatternH(SignedInt);
    var less := v - 0x01010101 * c;
    AndKeepsSign(h, less);
    AndKeepsSign(And(h, less), Not(v));
    AndOfComplements(h, v);
  }

  /**
   * What BytesAllInRange answers, for every word and range: right for words of 4 bytes and more; for narrower words a
   * range of 129 to 255 values is answered with false even when all bytes are in it.
   */
  lemma AllInRangeIs(bs: seq<Byte>, lo: Byte, hi: Byte)
    requires Supported(|bs|)
    ensures BytesAllInRange(Unsigned(|bs|), Value(bs), lo, hi) <==>
            AllWithin(bs, lo, hi) && (|bs| >= 4 || hi - lo < 128 || hi - lo == 255)
  {
    hide BytesAllInRange, Value, AllWithin;
    if lo > hi {
      EmptyRange(bs, lo, hi);
    } else if hi - lo < 128 {
      NarrowRange(bs, lo, hi);
    } else if |bs| >= 4 {
      WideRange(bs, lo, hi);
    } else {
      WideRangeOfInt(bs, lo, hi);
      if hi - lo == 255 {
        AnyByte(bs);
      }
    }
  }

  lemma EmptyRange(bs: seq<Byte>, lo: Byte, hi: Byte)
    requires lo > hi && bs != []
    ensures !BytesAllInRange(Unsigned(|bs|), Value(bs), lo, hi) && !AllWithin(bs, lo, hi)
  {
    hide Value, Arith, PatternL, PatternH;
    assert 0 <= bs[0];
  }

  lemma AnyByte(bs: seq<Byte>)
    ensures AllWithin(bs, 0, 255)
  {}

  /** The byte 5 is between 0 and 200, and BytesAllInRange on a uint8 denies it. */
  lemma NarrowWordDenied()
    ensures AllWithin([5], 0, 200) && !BytesAllInRange(Unsigned(1), 5, 0, 200)
  {
    hide BytesAllInRange;
    AllInRangeIs([5], 0, 200);
    assert Value([5]) == 5;
  }
}
