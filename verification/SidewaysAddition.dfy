// CountOnes and CountOnes64: counting bits in fields of two, four and eight bits that are added side by side in one
// word, and gathering the byte counts with a multiplication.
module SidewaysAddition {
  import opened Bitwise
  import opened Bytes
  import opened BitCount

  /** c in each of k fields of b bits. */
  function Fields(b: nat, c: nat, k: nat): nat {
    if k == 0 then 0 else c + Pow2(b) * Fields(b, c, k - 1)
  }

  /** The counts of the lowest k fields of b bits of n, each in its own field. */
  function Counts(b: nat, n: int, k: nat): nat
    decreases k
  {
    if k == 0 then 0 else PopCount(n % Pow2(b)) + Pow2(b) * Counts(b, n / Pow2(b), k - 1)
  }

  // ---------------------------------------------------------------- the three steps

  lemma FieldsStep(b: nat, c: nat, k: nat)
    requires k > 0
    ensures Fields(b, c, k) == c + Pow2(b) * Fields(b, c, k - 1)
  {}

  lemma CountsStep(b: nat, n: int, k: nat)
    requires k > 0
    ensures Counts(b, n, k) == PopCount(n % Pow2(b)) + Pow2(b) * Counts(b, n / Pow2(b), k - 1)
  {}

  /** AND by the lowest field and the others. */
  lemma AndOfFields(b: nat, x: int, c: nat, k: nat)
    requires k > 0 && c < Pow2(b)
    ensures And(x, Fields(b, c, k)) == And(x % Pow2(b), c) + Pow2(b) * And(x / Pow2(b), Fields(b, c, k - 1))
  {
    hide Apply, Pow2, Fields;
    FieldsStep(b, c, k);
    var p: int := Pow2(b);
    ApplySplits(AND, b, x / p, x % p, Fields(b, c, k - 1), c);
    assert x == x / p * p + x % p;
  }

  lemma SmallPowers()
    ensures Pow2(1) == 2 && Pow2(2) == 4 && Pow2(4) == 16 && Pow2(8) == 256
  {
    hide Pow2;
    Pow2Values();
    Pow2Low();
  }

  lemma Pow2Low()
    ensures Pow2(1) == 2 && Pow2(2) == 4
  {}

  /** n - ((n >> 1) & 0x55...): in each pair of bits, their number. */
  lemma {:induction false} Pairs(n: nat, k: nat)
    requires n < Pow2(2 * k)
    ensures n - And(n / 2, Fields(2, 1, k)) == Counts(2, n, k)
    decreases k
  {
    hide Apply, Pow2, Fields, Counts, PopCount;
    SmallPowers();
    if k == 0 {
      NoFields(2, n / 2, n);
    } else {
      Pow2Adds(2, 2 * (k - 1));
      Pairs(n / 4, k - 1);
      CountsStep(2, n, k);
      AndOfFields(2, n / 2, 1, k);
      PairCount(n % 4);
      assert n / 2 / 4 == n / 4 / 2 && n / 2 % 4 == n / 4 % 2 * 2 + n % 4 / 2;
      AndOne(n / 2 % 4);
    }
  }

  lemma NoFields(b: nat, x: int, n: int)
    ensures And(x, Fields(b, 1, 0)) == 0 && Counts(b, n, 0) == 0 && Pow2(2 * 0) == 1
  {
    WithZero(x);
  }

  lemma AndOne(x: int)
    ensures And(x, 1) == x % 2
  {
    hide Apply;
    ApplyStep(AND, x, 1);
    WithZero(x / 2);
  }

  lemma PairCount(d: nat)
    requires d < 4
    ensures PopCount(d) == d - d / 2
  {
    assert PopCount(d) == d % 2 + PopCount(d / 2);
    assert PopCount(d / 2) == d / 2 % 2 + PopCount(d / 4);
  }

  /** The counts of a field of two halves. */
  lemma CountOfHalves(b: nat, n: nat)
    ensures PopCount(n % Pow2(2 * b)) == PopCount(n % Pow2(b)) + PopCount(n / Pow2(b) % Pow2(b))
    ensures n / Pow2(2 * b) == n / Pow2(b) / Pow2(b)
  {
    hide PopCount, Pow2;
    Pow2Adds(b, b);
    HalvesOf(n, Pow2(b));
    PopCountSplits(n / Pow2(b) % Pow2(b), b, n % Pow2(b));
  }

  lemma HalvesOf(n: nat, p: int)
    requires p > 0
    ensures n / (p * p) == n / p / p && n % (p * p) == n / p % p * p + n % p
    ensures n / p >= 0 && n / p / p >= 0
  {
    var l, m := n % p, n / p;
    var h, t := m % p, m / p;
    Halves(t, h, l, p);
    Whole(n, p);
    Whole(m, p);
  }

  lemma Whole(n: nat, p: int)
    requires p > 0
    ensures n == n / p * p + n % p && n / p >= 0
  {}

  lemma Halves(t: int, h: int, l: int, p: int)
    requires 0 <= h < p && 0 <= l < p
    ensures p * p > 0
    ensures ((t * p + h) * p + l) / (p * p) == t && ((t * p + h) * p + l) % (p * p) == h * p + l
  {
    RoomForHalves(h, l, p);
    TwoLevels(t, h, p);
    DivisionIsUnique(p * p, t, h * p + l);
  }

  lemma TwoLevels(t: int, h: int, p: int)
    ensures (t * p + h) * p == t * (p * p) + h * p
  {}

  lemma RoomForHalves(h: int, l: int, p: int)
    requires 0 <= h < p && 0 <= l < p
    ensures 0 <= h * p + l < p * p
  {
    MultipleGrows(p, h + 1, p);
    MultipleGrows(p, 0, h);
    assert p * (h + 1) == h * p + p;
  }

  /** ((n >> 2) & 0x33...) + (n & 0x33...): in each nibble, the number of its bits. */
  lemma {:induction false} Nibbles(n: nat, k: nat)
    ensures var y := Counts(2, n, 2 * k);
      And(y / 4, Fields(4, 3, k)) + And(y, Fields(4, 3, k)) == Counts(4, n, k)
    decreases k
  {
    hide Apply, Pow2, Fields, Counts, PopCount;
    SmallPowers();
    var y := Counts(2, n, 2 * k);
    if k == 0 {
      NoFields(4, y, n);
      NoNibbles(y);
    } else {
      Nibbles(n / 16, k - 1);
      NibbleOfPairs(n, k);
      AndOfFields(4, y / 4, 3, k);
      AndOfFields(4, y, 3, k);
      AndIsRemainder(y / 4 % 16, 2);
      AndIsRemainder(y % 16, 2);
      CountsStep(4, n, k);
      CountOfHalves(2, n);
    }
  }

  /** The word of pair counts, by its lowest nibble and the others. */
  lemma NibbleOfPairs(n: nat, k: nat)
    requires k > 0
    ensures var y := Counts(2, n, 2 * k); var rest := Counts(2, n / 16, 2 * (k - 1));
      y % 16 % 4 == PopCount(n % 4) && y / 16 == rest &&
      y / 4 % 16 % 4 == PopCount(n / 4 % 4) && y / 4 / 16 == rest / 4
  {
    hide Pow2, Counts, PopCount;
    SmallPowers();
    CountsStep(2, n, 2 * k);
    CountsStep(2, n / 4, 2 * k - 1);
    PairCount(n % 4);
    PairCount(n / 4 % 4);
    assert n / 4 / 4 == n / 16 && 2 * k - 2 == 2 * (k - 1);
    PairParts(PopCount(n % 4), PopCount(n / 4 % 4), Counts(2, n / 16, 2 * (k - 1)));
  }

  lemma PairParts(c: nat, d: nat, rest: nat)
    requires c <= 2 && d <= 2
    ensures var y := c + 4 * (d + 4 * rest);
      y % 16 % 4 == c && y / 16 == rest && y / 4 % 16 % 4 == d && y / 4 / 16 == rest / 4
  {
    var q, r := rest / 4, rest % 4;
    DivisionIsUnique(16, rest, 4 * d + c);
    DivisionIsUnique(4, d, c);
    DivisionIsUnique(4, d + 4 * rest, c);
    DivisionIsUnique(16, q, 4 * r + d);
    DivisionIsUnique(4, r, d);
  }

  lemma NoNibbles(y: int)
    ensures And(y, Fields(4, 3, 0)) == And(y / 4, Fields(4, 3, 0)) == 0
  {
    WithZero(y);
    WithZero(y / 4);
  }

  lemma NibbleCount(d: nat)
    requires d < 16
    ensures PopCount(d) <= 4
  {
    hide Pow2, PopCount;
    SmallPowers();
    CountOfHalves(2, d);
    PairCount(d % 4);
    PairCount(d / 4 % 4);
    assert d % 16 == d;
  }

  /** (n + (n >> 4)) & 0x0f...: in each byte, the number of its bits; no sum of two nibbles overflows. */
  lemma {:induction false} ByteCounts(n: nat, k: nat)
    ensures var z := Counts(4, n, 2 * k);
      And(z + z / 16, Fields(8, 15, k)) == Counts(8, n, k)
    decreases k
  {
    hide Apply, Pow2, Fields, Counts, PopCount;
    SmallPowers();
    var z := Counts(4, n, 2 * k);
    if k == 0 {
      NoBytes(z + z / 16, n);
    } else {
      ByteCounts(n / 256, k - 1);
      ByteOfNibbles(n, k);
      AndOfFields(8, z + z / 16, 15, k);
      AndIsRemainder((z + z / 16) % 256, 4);
      CountsStep(8, n, k);
      CountOfHalves(4, n);
      NibbleCount(n % 16);
      NibbleCount(n / 16 % 16);
    }
  }

  /** The word of nibble counts, by its lowest byte and the others. */
  lemma ByteOfNibbles(n: nat, k: nat)
    requires k > 0
    ensures var z := Counts(4, n, 2 * k); var rest := Counts(4, n / 256, 2 * (k - 1));
      (z + z / 16) / 256 == rest + rest / 16 &&
      (z + z / 16) % 256 % 16 == PopCount(n % 16) + PopCount(n / 16 % 16)
  {
    hide Pow2, Counts, PopCount;
    TwoNibbles(n, k);
    NibbleCount(n % 16);
    NibbleCount(n / 16 % 16);
    LowNibble(n / 256, k - 1);
    AddedNibbles(PopCount(n % 16), PopCount(n / 16 % 16), Counts(4, n / 256, 2 * (k - 1)), Counts(4, n, 2 * k));
  }

  lemma TwoNibbles(n: nat, k: nat)
    requires k > 0
    ensures Counts(4, n, 2 * k) ==
            PopCount(n % 16) + 16 * (PopCount(n / 16 % 16) + 16 * Counts(4, n / 256, 2 * (k - 1)))
  {
    hide Pow2, Counts, PopCount;
    SecondNibble(n / 16, n / 256, k) by {
      SixteenTwice(n);
    }
    NibbleStep(n, 2 * k);
  }

  lemma SecondNibble(m: nat, rest: nat, k: nat)
    requires k > 0 && m / 16 == rest
    ensures Counts(4, m, 2 * k - 1) == PopCount(m % 16) + 16 * Counts(4, rest, 2 * (k - 1))
  {
    hide Pow2, Counts, PopCount;
    NibbleStep(m, 2 * k - 1);
    assert 2 * k - 1 - 1 == 2 * (k - 1);
  }

  lemma SixteenTwice(n: nat)
    ensures n / 16 / 16 == n / 256
  {
    var m, r := n / 16, n % 16;
    assert n == 16 * m + r && m == 16 * (m / 16) + m % 16;
    DivisionIsUnique(256, m / 16, 16 * (m % 16) + r);
  }

  lemma NibbleStep(n: nat, k: nat)
    requires k > 0
    ensures Counts(4, n, k) == PopCount(n % 16) + 16 * Counts(4, n / 16, k - 1)
  {
    hide Pow2, Counts, PopCount;
    SmallPowers();
    CountsStep(4, n, k);
  }

  lemma NoBytes(x: int, n: int)
    ensures And(x, Fields(8, 15, 0)) == 0 && Counts(8, n, 0) == Counts(4, n, 2 * 0) == 0
  {
    WithZero(x);
  }

  lemma LowNibble(n: nat, k: nat)
    ensures Counts(4, n, 2 * k) % 16 <= 4
  {
    hide PopCount, Pow2;
    SmallPowers();
    hide Counts;
    if k == 0 {
      NoBytes(0, n);
    } else {
      NibbleStep(n, 2 * k);
      NibbleCount(n % 16);
      DivisionIsUnique(16, Counts(4, n / 16, 2 * k - 1), PopCount(n % 16));
    }
  }

  lemma AddedNibbles(c: nat, d: nat, rest: nat, z: nat)
    requires c <= 4 && d <= 4 && rest % 16 <= 4 && z == c + 16 * (d + 16 * rest)
    ensures (z + z / 16) / 256 == rest + rest / 16 && (z + z / 16) % 256 % 16 == c + d
  {
    assert z / 16 == d + 16 * rest;
    var q, r := rest / 16, rest % 16;
    assert rest == 16 * q + r;
    assert z + z / 16 == (rest + q) * 256 + (16 * (d + r) + (c + d));
    DivisionIsUnique(256, rest + q, 16 * (d + r) + (c + d));
  }

  // ---------------------------------------------------------------- gathering the bytes

  /** The running totals of the byte counts, one a byte. */
  function Totals(n: int, k: nat, before: nat): nat
    decreases k
  {
    if k == 0 then 0
    else before + PopCount(n % 256) + 256 * Totals(n / 256, k - 1, before + PopCount(n % 256))
  }

  lemma TotalsStep(n: int, k: nat, before: nat)
    requires k > 0
    ensures Totals(n, k, before) ==
            before + PopCount(n % 256) + 256 * Totals(n / 256, k - 1, before + PopCount(n % 256))
  {}

  lemma {:induction false} FieldsFromTop(k: nat)
    requires k > 0
    ensures Fields(8, 1, k) == Fields(8, 1, k - 1) + Pow2(8 * (k - 1))
  {
    hide Pow2, Fields;
    SmallPowers();
    FieldsStep(8, 1, k);
    if k == 1 {
      NoFieldsAtAll();
    } else {
      FieldsFromTop(k - 1);
      FieldsStep(8, 1, k - 1);
      Pow2OfByte(k - 1);
    }
  }

  lemma NoFieldsAtAll()
    ensures Fields(8, 1, 0) == 0 && Pow2(8 * 0) == 1
  {}

  /** Multiplied by one in every byte, byte j becomes the total of the bytes up to j; the rest leaves the word. */
  lemma {:induction false} ProductIsTotals(n: nat, k: nat, before: nat) returns (q: int)
    ensures (Counts(8, n, k) + before) * Fields(8, 1, k) == Totals(n, k, before) + q * Pow2(8 * k)
    decreases k
  {
    hide Pow2, Fields, Counts, PopCount, Totals;
    if k == 0 {
      q := 0;
      NothingGathered(n, before);
    } else {
      SmallPowers();
      var s := before + PopCount(n % 256);
      q := ProductIsTotals(n / 256, k - 1, s);
      CountsStep(8, n, k);
      FieldsStep(8, 1, k);
      FieldsFromTop(k);
      Pow2OfByte(k);
      TotalsStep(n, k, before);
      var w: int := Counts(8, n / 256, k - 1);
      GatherStep(s, w, Fields(8, 1, k - 1), Pow2(8 * (k - 1)), Totals(n / 256, k - 1, s), q);
      q := q + w;
    }
  }

  lemma NothingGathered(n: nat, before: nat)
    ensures Fields(8, 1, 0) == 0 && Totals(n, 0, before) == 0
  {}

  lemma GatherStep(s: int, w: int, f: int, p: int, t: int, q: int)
    requires (w + s) * f == t + q * p && f + p == 1 + 256 * f
    ensures (s + 256 * w) * (1 + 256 * f) == s + 256 * t + (q + w) * (256 * p)
  {
    assert (s + 256 * w) * (1 + 256 * f) == s * (1 + 256 * f) + 256 * (w * (f + p));
    assert s * (1 + 256 * f) == s + 256 * (s * f);
    assert w * (f + p) == w * f + w * p && (w + s) * f == w * f + s * f;
    assert (q + w) * (256 * p) == 256 * (q * p + w * p);
  }

  /** The top byte of the totals is the number of all bits, as long as that fits a byte. */
  lemma {:induction false} TopTotal(n: nat, k: nat, before: nat)
    requires k > 0 && n < Pow2(8 * k) && before + PopCount(n) < 256
    ensures Totals(n, k, before) < Pow2(8 * k)
    ensures Totals(n, k, before) / Pow2(8 * (k - 1)) == before + PopCount(n)
    decreases k
  {
    hide Pow2, PopCount, Totals;
    SmallPowers();
    Pow2OfByte(k);
    TotalsStep(n, k, before);
    PopCountSplits(n / 256, 8, n % 256);
    assert Glue(n / 256, 8, n % 256) == n;
    var s := before + PopCount(n % 256);
    if k == 1 {
      NothingGathered(n / 256, s);
      NoFieldsAtAll();
      PopCountOfZero();
    } else {
      TopTotal(n / 256, k - 1, s);
      Pow2OfByte(k - 1);
      TopByte(s, Totals(n / 256, k - 1, s), Pow2(8 * (k - 2)), before + PopCount(n));
    }
  }

  lemma TopByte(s: int, t: int, p: int, total: int)
    requires 0 <= s < 256 && p > 0 && 0 <= t < 256 * p && t / p == total
    ensures (s + 256 * t) / (256 * p) == total && s + 256 * t < 256 * (256 * p)
  {
    var r := t % p;
    assert t == total * p + r;
    assert total * (256 * p) == 256 * (total * p);
    DivisionIsUnique(256 * p, total, s + 256 * r);
  }

  // ---------------------------------------------------------------- the source's functions

  lemma {:induction false} FieldsTimes(b: nat, c: nat, k: nat)
    ensures Fields(b, c, k) * (Pow2(b) - 1) == c * (Pow2(b * k) - 1)
    decreases k
  {
    hide Pow2, Fields;
    if k == 0 {
      EmptyFields(b, c);
    } else {
      FieldsTimes(b, c, k - 1);
      FieldsStep(b, c, k);
      assert b * k == b + b * (k - 1);
      Pow2Adds(b, b * (k - 1));
      var p: int, f: int, m: int := Pow2(b), Fields(b, c, k - 1), Pow2(b * (k - 1));
      FieldsAlgebra(p, f, m, c);
    }
  }

  lemma EmptyFields(b: nat, c: nat)
    ensures Fields(b, c, 0) == 0 && Pow2(b * 0) == 1
  {}

  lemma FieldsAlgebra(p: int, f: int, m: int, c: int)
    requires f * (p - 1) == c * (m - 1)
    ensures (c + p * f) * (p - 1) == c * (p * m - 1)
  {
    assert (c + p * f) * (p - 1) == c * (p - 1) + p * (f * (p - 1));
    assert p * (c * (m - 1)) == c * (p * m - p);
    assert c * (p - 1) + c * (p * m - p) == c * (p * m - 1);
  }

  /** The number of one bits by sideways addition, in words of k bytes with their four constants. */
  function CountOnesBy(k: nat, m2: nat, m4: nat, m8: nat, ones: nat, n: int): int
    requires k > 0
  {
    var word := Pow2(8 * k);
    var n1 := (n - And(n / 2, m2)) % word;
    var n2 := (And(n1 / 4, m4) + And(n1, m4)) % word;
    And((n2 + n2 / 16) % word, m8) * ones % word / Pow2(8 * (k - 1))
  }

  /** CountOnes. */
  function CountOnes(n: int): int {
    CountOnesBy(4, 0x5555_5555, 0x3333_3333, 0xF0F_0F0F, 0x101_0101, n)
  }

  /** CountOnes64. */
  function CountOnes64(n: int): int {
    CountOnesBy(8, 0x5555_5555_5555_5555, 0x3333_3333_3333_3333, 0xF0F_0F0F_0F0F_0F0F, 0x101_0101_0101_0101, n)
  }

  lemma {:induction false} NibblesFit(n: nat, k: nat)
    ensures Counts(4, n, k) <= 4 * Fields(4, 1, k)
    decreases k
  {
    hide Pow2, PopCount, Counts, Fields;
    SmallPowers();
    if k == 0 {
      NoCounts(n);
    } else {
      CountsStep(4, n, k);
      FieldsStep(4, 1, k);
      NibbleCount(n % 16);
      NibblesFit(n / 16, k - 1);
    }
  }

  lemma NoCounts(n: nat)
    ensures Counts(4, n, 0) == 0
  {}

  /** Nibble counts and the sum of neighbours stay within the word. */
  lemma NibbleSumsFit(n: nat, k: nat)
    ensures var z := Counts(4, n, 2 * k); z < Pow2(8 * k) && z + z / 16 < Pow2(8 * k)
  {
    hide Pow2, Counts, Fields;
    SmallPowers();
    NibblesFit(n, 2 * k);
    FieldsTimes(4, 1, 2 * k);
    assert 4 * (2 * k) == 8 * k;
  }

  /** Sideways addition counts the bits of every word whose bits can be counted in a byte. */
  lemma SidewaysIsRight(k: nat, n: nat)
    requires k > 0 && n < Pow2(8 * k) && PopCount(n) < 256
    ensures CountOnesBy(k, Fields(2, 1, 4 * k), Fields(4, 3, 2 * k), Fields(8, 15, k), Fields(8, 1, k), n) == PopCount(n)
  {
    hide Pow2, PopCount, Counts, Fields, And, Apply;
    assert 2 * (2 * k) == 4 * k && 2 * (4 * k) == 8 * k;
    PairsInWord(k, n);
    NibblesInWord(k, n);
    BytesInWord(k, n);
    Gathered(k, n);
  }

  lemma PairsInWord(k: nat, n: nat)
    requires n < Pow2(8 * k)
    ensures (n - And(n / 2, Fields(2, 1, 4 * k))) % Pow2(8 * k) == Counts(2, n, 4 * k)
  {
    hide Pow2, PopCount, Counts, Fields, Apply;
    assert 2 * (4 * k) == 8 * k;
    Pairs(n, 4 * k);
    AndBounds(n / 2, Fields(2, 1, 4 * k));
    SmallWord(n - And(n / 2, Fields(2, 1, 4 * k)), Pow2(8 * k));
  }

  lemma NibblesInWord(k: nat, n: nat)
    ensures var y := Counts(2, n, 4 * k);
      (And(y / 4, Fields(4, 3, 2 * k)) + And(y, Fields(4, 3, 2 * k))) % Pow2(8 * k) == Counts(4, n, 2 * k)
  {
    hide Pow2, PopCount, Counts, Fields, Apply;
    assert 2 * (2 * k) == 4 * k;
    Nibbles(n, 2 * k);
    NibbleSumsFit(n, k);
    SmallWord(Counts(4, n, 2 * k), Pow2(8 * k));
  }

  lemma BytesInWord(k: nat, n: nat)
    ensures var z := Counts(4, n, 2 * k); And((z + z / 16) % Pow2(8 * k), Fields(8, 15, k)) == Counts(8, n, k)
  {
    hide Pow2, PopCount, Counts, Fields, Apply;
    NibbleSumsFit(n, k);
    var z := Counts(4, n, 2 * k);
    SmallWord(z + z / 16, Pow2(8 * k));
    ByteCounts(n, k);
  }

  lemma Gathered(k: nat, n: nat)
    requires k > 0 && n < Pow2(8 * k) && PopCount(n) < 256
    ensures Counts(8, n, k) * Fields(8, 1, k) % Pow2(8 * k) / Pow2(8 * (k - 1)) == PopCount(n)
  {
    hide Pow2, PopCount, Counts, Fields, Totals;
    var q := ProductIsTotals(n, k, 0);
    TopTotal(n, k, 0);
    DivisionIsUnique(Pow2(8 * k), q, Totals(n, k, 0));
  }

  lemma SmallWord(x: int, word: int)
    requires 0 <= x < word
    ensures x % word == x
  {
    DivisionIsUnique(word, 0, x);
  }

  lemma {:induction false} PopCountFits(n: nat, m: nat)
    requires n < Pow2(m)
    ensures PopCount(n) <= m
  {
    if m == 0 {
    } else {
      PopCountFits(n / 2, m - 1);
    }
  }

  lemma Constants()
    ensures Fields(2, 1, 16) == 0x5555_5555 && Fields(4, 3, 8) == 0x3333_3333
    ensures Fields(8, 15, 4) == 0xF0F_0F0F && Fields(8, 1, 4) == 0x101_0101
    ensures Fields(2, 1, 32) == 0x5555_5555_5555_5555 && Fields(4, 3, 16) == 0x3333_3333_3333_3333
    ensures Fields(8, 15, 8) == 0xF0F_0F0F_0F0F_0F0F && Fields(8, 1, 8) == 0x101_0101_0101_0101
  {
    hide Pow2, Fields;
    SmallPowers();
    Pow2Values();
    FieldsTimes(2, 1, 16);
    FieldsTimes(4, 3, 8);
    FieldsTimes(8, 15, 4);
    FieldsTimes(8, 1, 4);
    FieldsTimes(2, 1, 32);
    FieldsTimes(4, 3, 16);
    FieldsTimes(8, 15, 8);
    FieldsTimes(8, 1, 8);
  }

  lemma CountOnesIsRight(n: nat)
    requires n < 0x1_0000_0000
    ensures CountOnes(n) == PopCount(n)
  {
    hide Pow2, PopCount, Fields, CountOnesBy;
    Pow2Values();
    Constants();
    PopCountFits(n, 32);
    SidewaysIsRight(4, n);
  }

  lemma CountOnes64IsRight(n: nat)
    requires n < 0x1_0000_0000_0000_0000
    ensures CountOnes64(n) == PopCount(n)
  {
    hide Pow2, PopCount, Fields, CountOnesBy;
    Pow2Values();
    Constants();
    PopCountFits(n, 64);
    SidewaysIsRight(8, n);
  }
}
