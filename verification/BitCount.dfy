/** Counting bits: the table of bits.cc and the loops over it. */
module BitCount {
  import opened Bitwise
  import opened Bytes

  /** The number of one bits. */
  function PopCount(x: nat): nat {
    if x == 0 then 0 else x % 2 + PopCount(x / 2)
  }

  /** The number of positions at which the bits of x and y differ. */
  function Differing(x: nat, y: nat): nat
    decreases x + y
  {
    if x + y == 0 then 0 else (if x % 2 != y % 2 then 1 else 0) + Differing(x / 2, y / 2)
  }

  lemma {:induction false} XorMarksDifferences(x: nat, y: nat)
    ensures Xor(x, y) >= 0 && PopCount(Xor(x, y)) == Differing(x, y)
    decreases x + y
  {
    hide Apply, PopCount, Differing;
    DifferingStep(x, y);
    if x + y == 0 {
      WithZero(0);
      PopCountOfZero();
    } else {
      ApplyStep(XOR, x, y);
      XorMarksDifferences(x / 2, y / 2);
      PopCountStep(Xor(x, y));
    }
  }

  lemma PopCountStep(x: nat)
    ensures PopCount(x) == x % 2 + PopCount(x / 2)
  {}

  lemma DifferingStep(x: nat, y: nat)
    ensures Differing(x, y) ==
            if x + y == 0 then 0 else (if x % 2 != y % 2 then 1 else 0) + Differing(x / 2, y / 2)
  {}

  // ---------------------------------------------------------------- the table

  /** num_bits, by rows of sixteen. */
  function NumBitsRow(row: nat): (r: seq<nat>)
    requires row < 16
    ensures |r| == 16
  {
    match row
    case 0 => [0, 1, 1, 2, 1, 2, 2, 3, 1, 2, 2, 3, 2, 3, 3, 4]
    case 1 => [1, 2, 2, 3, 2, 3, 3, 4, 2, 3, 3, 4, 3, 4, 4, 5]
    case 2 => [1, 2, 2, 3, 2, 3, 3, 4, 2, 3, 3, 4, 3, 4, 4, 5]
    case 3 => [2, 3, 3, 4, 3, 4, 4, 5, 3, 4, 4, 5, 4, 5, 5, 6]
    case 4 => [1, 2, 2, 3, 2, 3, 3, 4, 2, 3, 3, 4, 3, 4, 4, 5]
    case 5 => [2, 3, 3, 4, 3, 4, 4, 5, 3, 4, 4, 5, 4, 5, 5, 6]
    case 6 => [2, 3, 3, 4, 3, 4, 4, 5, 3, 4, 4, 5, 4, 5, 5, 6]
    case 7 => [3, 4, 4, 5, 4, 5, 5, 6, 4, 5, 5, 6, 5, 6, 6, 7]
    case 8 => [1, 2, 2, 3, 2, 3, 3, 4, 2, 3, 3, 4, 3, 4, 4, 5]
    case 9 => [2, 3, 3, 4, 3, 4, 4, 5, 3, 4, 4, 5, 4, 5, 5, 6]
    case 10 => [2, 3, 3, 4, 3, 4, 4, 5, 3, 4, 4, 5, 4, 5, 5, 6]
    case 11 => [3, 4, 4, 5, 4, 5, 5, 6, 4, 5, 5, 6, 5, 6, 6, 7]
    case 12 => [2, 3, 3, 4, 3, 4, 4, 5, 3, 4, 4, 5, 4, 5, 5, 6]
    case 13 => [3, 4, 4, 5, 4, 5, 5, 6, 4, 5, 5, 6, 5, 6, 6, 7]
    case 14 => [3, 4, 4, 5, 4, 5, 5, 6, 4, 5, 5, 6, 5, 6, 6, 7]
    case 15 => [4, 5, 5, 6, 5, 6, 6, 7, 5, 6, 6, 7, 6, 7, 7, 8]
  }

  /** CountOnesInByte. */
  function CountOnesInByte(n: Byte): nat {
    NumBitsRow(n / 16)[n % 16]
  }

  lemma PopCountOfZero()
    ensures PopCount(0) == 0
  {}

  /** l below the number h that stands above m bits. */
  function Glue(h: nat, m: nat, l: nat): nat {
    assert h * Pow2(m) >= 0;
    h * Pow2(m) + l
  }

  lemma GlueStep(h: nat, m: nat, l: nat)
    requires m > 0
    ensures Glue(h, m, l) / 2 == Glue(h, m - 1, l / 2) && Glue(h, m, l) % 2 == l % 2
  {
    Halve(h, m, l);
    hide Pow2;
  }

  /** The bits of a number are those above some bit and those below it. */
  lemma {:induction false} PopCountSplits(h: nat, m: nat, l: nat)
    requires l < Pow2(m)
    ensures PopCount(Glue(h, m, l)) == PopCount(h) + PopCount(l)
    decreases m
  {
    if m == 0 {
      PopCountOfZero();
    } else {
      PopCountSplits(h, m - 1, l / 2);
      GlueStep(h, m, l);
      PopCountStep(Glue(h, m, l));
      PopCountStep(l);
      hide PopCount, Glue;
    }
  }

  lemma PopCountOfNibbles(n: Byte)
    ensures PopCount(n) == PopCount(n / 16) + PopCount(n % 16)
  {
    hide PopCount, Pow2;
    Pow2Values();
    PopCountSplits(n / 16, 4, n % 16);
    assert n == n / 16 * 16 + n % 16;
  }

  lemma RowStart(row: nat, i: nat)
    requires row < 16 && i < 16
    ensures NumBitsRow(row)[i] == NumBitsRow(row)[0] + NumBitsRow(0)[i]
  {}

  lemma PopCountOfNibble(i: nat)
    requires i < 16
    ensures PopCount(i) == NumBitsRow(0)[i]
  {}

  lemma RowStartIs(row: nat)
    requires row < 16
    ensures NumBitsRow(row)[0] == NumBitsRow(0)[row]
  {}

  /** The table is right for every byte. */
  lemma TableIsRight(n: Byte)
    ensures CountOnesInByte(n) == PopCount(n)
  {
    hide NumBitsRow, PopCount;
    PopCountOfNibbles(n);
    PopCountOfNibble(n / 16);
    PopCountOfNibble(n % 16);
    RowStart(n / 16, n % 16);
    RowStartIs(n / 16);
  }

  // ---------------------------------------------------------------- the loops

  /** The number of one bits in the first n bytes. */
  function OnesIn(bs: seq<Byte>, n: nat): nat
    requires n <= |bs|
  {
    if n == 0 then 0 else OnesIn(bs, n - 1) + PopCount(bs[n - 1])
  }

  /** The Hamming distance of the first n bytes. */
  function Distance(a: seq<Byte>, b: seq<Byte>, n: nat): nat
    requires n <= |a| && n <= |b|
  {
    if n == 0 then 0 else Distance(a, b, n - 1) + Differing(a[n - 1], b[n - 1])
  }

  lemma DistanceGrows(a: seq<Byte>, b: seq<Byte>, m: nat, n: nat)
    requires m <= n && n <= |a| && n <= |b|
    ensures Distance(a, b, m) <= Distance(a, b, n)
  {}

  /** num_bits[*s1 ^ *s2]. */
  lemma TableOfXor(x: Byte, y: Byte)
    ensures 0 <= Xor(x, y) < 256 && CountOnesInByte(Xor(x, y)) == Differing(x, y)
  {
    hide Apply, PopCount, NumBitsRow, Pow2;
    Pow2Values();
    ApplyFits(XOR, 8, x, y);
    TableIsRight(Xor(x, y));
    XorMarksDifferences(x, y);
  }

  method Count(m: seq<Byte>, numBytes: nat) returns (nbits: nat)
    requires numBytes <= |m|
    ensures nbits == OnesIn(m, numBytes)
  {
    hide PopCount, CountOnesInByte;
    nbits := 0;
    for i := 0 to numBytes
      invariant nbits == OnesIn(m, i)
    {
      TableIsRight(m[i]);
      nbits := nbits + CountOnesInByte(m[i]);
    }
  }

  method Difference(m1: seq<Byte>, m2: seq<Byte>, numBytes: nat) returns (nbits: nat)
    requires numBytes <= |m1| && numBytes <= |m2|
    ensures nbits == Distance(m1, m2, numBytes)
  {
    hide Apply, CountOnesInByte;
    nbits := 0;
    for i := 0 to numBytes
      invariant nbits == Distance(m1, m2, i)
    {
      TableOfXor(m1[i], m2[i]);
      nbits := nbits + CountOnesInByte(Xor(m1[i], m2[i]));
    }
  }

  /** The distance when it is at most cap, and otherwise a number above cap, as the distance is. */
  method CappedDifference(m1: seq<Byte>, m2: seq<Byte>, numBytes: nat, cap: int) returns (nbits: nat)
    requires numBytes <= |m1| && numBytes <= |m2|
    ensures Distance(m1, m2, numBytes) <= cap ==> nbits == Distance(m1, m2, numBytes)
    ensures Distance(m1, m2, numBytes) > cap ==> cap < nbits <= Distance(m1, m2, numBytes)
  {
    hide Apply, CountOnesInByte;
    nbits := 0;
    var i := 0;
    while i < numBytes && nbits <= cap
      invariant i <= numBytes && nbits == Distance(m1, m2, i)
    {
      TableOfXor(m1[i], m2[i]);
      nbits := nbits + CountOnesInByte(Xor(m1[i], m2[i]));
      i := i + 1;
    }
    DistanceGrows(m1, m2, i, numBytes);
  }
}
