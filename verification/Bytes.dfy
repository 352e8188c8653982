/** Numbers and their bytes, the lowest byte first. */
module Bytes {
  import opened Bitwise

  type Byte = b: int | 0 <= b < 256

  /** The word with these bytes, the lowest first. */
  function Value(bs: seq<Byte>): nat {
    if bs == [] then 0 else bs[0] + 256 * Value(bs[1..])
  }

  /** Byte i of a number in two's complement. */
  function Digit(x: int, i: nat): Byte
    decreases i
  {
    if i == 0 then x % 256 else Digit(x / 256, i - 1)
  }

  lemma Pow2OfByte(k: nat)
    requires k > 0
    ensures Pow2(8 * k) == 256 * Pow2(8 * (k - 1))
  {
    hide Pow2;
    Pow2Adds(8, 8 * (k - 1));
    SevenAndEight();
    assert 8 + 8 * (k - 1) == 8 * k;
  }

  lemma SevenAndEight()
    ensures Pow2(7) == 128 && Pow2(8) == 256
  {
    assert Pow2(3) == 8 && Pow2(4) == 16;
    Pow2Adds(3, 4);
    Pow2Adds(4, 4);
  }

  lemma {:induction false} DigitsOfValue(bs: seq<Byte>, i: nat)
    requires i < |bs|
    ensures Digit(Value(bs), i) == bs[i]
  {
    if i == 0 {
    } else {
      DigitsOfValue(bs[1..], i - 1);
    }
  }

  lemma {:induction false} ValueFits(bs: seq<Byte>)
    ensures Value(bs) < Pow2(8 * |bs|)
  {
    if bs == [] {
    } else {
      ValueFits(bs[1..]);
      Pow2OfByte(|bs|);
      hide Pow2;
    }
  }

  /** A multiple of the k-th power of the base has no part in the first k digits. */
  lemma {:induction false} DigitsAreLow(x: int, q: int, k: nat, i: nat)
    requires i < k
    ensures Digit(x + q * Pow2(8 * k), i) == Digit(x, i)
    decreases i
  {
    hide Pow2, Digit;
    Pow2OfByte(k);
    var p: int := Pow2(8 * (k - 1));
    assert q * (256 * p) == 256 * (q * p);
    DigitStep(x + q * Pow2(8 * k), i);
    DigitStep(x, i);
    if i == 0 {
    } else {
      DigitsAreLow(x / 256, q, k - 1, i - 1);
    }
  }

  lemma {:induction false} DigitOfApply(op: Op, x: int, y: int, i: nat)
    ensures Digit(Apply(op, x, y), i) == Apply(op, Digit(x, i), Digit(y, i))
    decreases i
  {
    hide Pow2, Apply, Digit;
    SevenAndEight();
    ApplyByParts(op, 8, x, y);
    DigitStep(x, i);
    DigitStep(y, i);
    DigitStep(Apply(op, x, y), i);
    if i == 0 {
    } else {
      DigitOfApply(op, x / 256, y / 256, i - 1);
    }
  }

  lemma {:induction false} DigitOfNot(x: int, i: nat)
    ensures Digit(Not(x), i) == 255 - Digit(x, i)
    decreases i
  {
    if i == 0 {
    } else {
      DigitOfNot(x / 256, i - 1);
    }
  }

  lemma DigitStep(x: int, i: nat)
    ensures Digit(x, i) == if i == 0 then x % 256 else Digit(x / 256, i - 1)
  {}

  lemma LowestByte(s: int, w: int)
    ensures (s + 256 * w) % 256 == s % 256
    ensures 0 <= s < 256 ==> (s + 256 * w) / 256 == w
  {}

  lemma {:induction false} DigitOfZero(i: nat)
    ensures Digit(0, i) == 0
  {
    if i == 0 {
    } else {
      DigitOfZero(i - 1);
    }
  }

  function Digits(x: int, k: nat): (bs: seq<Byte>)
    ensures |bs| == k && forall i :: 0 <= i < k ==> bs[i] == Digit(x, i)
  {
    seq(k, i requires 0 <= i < k => Digit(x, i))
  }

  lemma {:induction false} ValueOfDigits(x: int, k: nat)
    requires 0 <= x < Pow2(8 * k)
    ensures Value(Digits(x, k)) == x
    decreases k
  {
    if k == 0 {
    } else {
      Pow2OfByte(k);
      hide Pow2;
      ValueOfDigits(x / 256, k - 1);
      assert Digits(x, k)[1..] == Digits(x / 256, k - 1);
    }
  }

  lemma {:induction false} ValueOfJoined(a: seq<Byte>, b: seq<Byte>)
    ensures Value(a + b) == Value(a) + Pow2(8 * |a|) * Value(b)
  {
    if a == [] {
      assert a + b == b;
    } else {
      var p: int := Pow2(8 * |a[1..]|);
      ValueOfJoined(a[1..], b);
      assert (a + b)[1..] == a[1..] + b;
      Pow2OfByte(|a|);
      hide Pow2;
      assert 256 * (p * Value(b)) == (256 * p) * Value(b);
    }
  }

  /** The low bytes are a remainder. */
  lemma RemainderOfJoined(a: seq<Byte>, b: seq<Byte>)
    ensures Value(a + b) % Pow2(8 * |a|) == Value(a)
  {
    hide Value, Pow2;
    ValueOfJoined(a, b);
    ValueFits(a);
    var p: int, v: int := Pow2(8 * |a|), Value(b);
    assert p * v == v * p;
    DivisionIsUnique(p, v, Value(a));
  }

  lemma ValueIsInjective(a: seq<Byte>, b: seq<Byte>)
    requires |a| == |b| && Value(a) == Value(b)
    ensures a == b
  {
    forall i | 0 <= i < |a| ensures a[i] == b[i] {
      DigitsOfValue(a, i);
      DigitsOfValue(b, i);
    }
  }
}
