/** The classes LittleEndian and BigEndian: numbers in memory in one byte order, on a host of either. */
module Endian {
  import opened Bitwise
  import opened Bytes
  import opened Sequences
  import opened Uint128

  datatype ByteOrder = LITTLE | BIG

  /** The bytes of a number in memory, put with the lowest first; and the other way around. */
  function InOrder(order: ByteOrder, bs: seq<Byte>): seq<Byte> {
    if order == LITTLE then bs else Reversed(bs)
  }

  // ---------------------------------------------------------------- byte swaps

  /** bswap_32. */
  function Swap32(x: int): int {
    Or(Or(Or(And(x, 0xff) * Pow2(24), And(x, 0xff00) * Pow2(8)), And(x, 0xff0000) / Pow2(8)), And(x, 0xff000000) / Pow2(24))
  }

  /** gbswap_64 in its portable form. */
  function Swap64(x: int): int {
    Or(Swap32(x / Pow2(32)), Swap32(x % Pow2(32)) * Pow2(32))
  }

  /** AND with a field of eight ones. */
  lemma AndField(x: int, m: nat)
    ensures And(x, 255 * Pow2(m)) == x / Pow2(m) % 256 * Pow2(m)
  {
    hide Apply, Pow2, Reversed;
    var p := Pow2(m);
    var a := x % p;
    assert x == x / p * p + a;
    ApplySplits(AND, m, x / p, a, 255, 0);
    WithZero(a);
    Pow2Values();
    AndIsRemainder(x / p, 8);
  }

  lemma SwapSmallPowers()
    ensures Pow2(8) == 0x100 && Pow2(16) == 0x1_0000 && Pow2(24) == 0x100_0000 && Pow2(32) == 0x1_0000_0000
  {
    hide Pow2, Reversed;
    Pow2Values();
    Pow2Adds(8, 16);
  }

  function Four(a: int, b: int, c: int, d: int): int {
    a + 0x100 * (b + 0x100 * (c + 0x100 * d))
  }

  lemma FieldsOfFour(a: Byte, b: Byte, c: Byte, d: Byte)
    ensures var x := Four(a, b, c, d);
      And(x, 0xff) == a && And(x, 0xff00) == b * 0x100 && And(x, 0xff0000) == c * 0x1_0000 &&
      And(x, 0xff000000) == d * 0x100_0000
  {
    hide Apply, Pow2, Reversed;
    var x := Four(a, b, c, d);
    SwapSmallPowers();
    Pow2Zero();
    AndField(x, 0);
    AndField(x, 8);
    AndField(x, 16);
    AndField(x, 24);
    assert x / 0x100 == b + 0x100 * (c + 0x100 * d) && x / 0x1_0000 == c + 0x100 * d && x / 0x100_0000 == d;
  }

  lemma OrOfFour(a: Byte, b: Byte, c: Byte, d: Byte)
    ensures Or(Or(Or(a * 0x100_0000, b * 0x1_0000), c * 0x100), d) == Four(d, c, b, a)
  {
    hide Apply, Pow2, Reversed;
    SwapSmallPowers();
    OrIsSum(a, b * 0x1_0000, 24);
    OrIsSum(a * 0x100 + b, c * 0x100, 16);
    OrIsSum((a * 0x100 + b) * 0x100 + c, d, 8);
  }

  lemma Swap32OfBytes(a: Byte, b: Byte, c: Byte, d: Byte)
    ensures Swap32(Four(a, b, c, d)) == Four(d, c, b, a)
  {
    FieldsOfFour(a, b, c, d);
    OrOfFour(a, b, c, d);
    hide Or, Apply, Pow2, Four, Reversed;
    SwapSmallPowers();
    assert b * 0x100 * 0x100 == b * 0x1_0000;
    assert c * 0x1_0000 / 0x100 == c * 0x100 && d * 0x100_0000 / 0x100_0000 == d;
  }

  lemma ValueOfFour(bs: seq<Byte>)
    requires |bs| == 4
    ensures Value(bs) == Four(bs[0], bs[1], bs[2], bs[3])
  {
    assert bs[1..][1..] == bs[2..] && bs[2..][1..] == bs[3..] && bs[3..][1..] == [];
    assert Value(bs) == bs[0] + 0x100 * Value(bs[1..]) && Value(bs[1..]) == bs[1] + 0x100 * Value(bs[2..]);
    assert Value(bs[2..]) == bs[2] + 0x100 * Value(bs[3..]) && Value(bs[3..]) == bs[3] + 0x100 * Value([]);
  }

  lemma Swap32Reverses(bs: seq<Byte>)
    requires |bs| == 4
    ensures Swap32(Value(bs)) == Value(Reversed(bs))
  {
    hide Value, Swap32, Reversed;
    ValueOfFour(bs);
    ValueOfFour(Reversed(bs));
    Swap32OfBytes(bs[0], bs[1], bs[2], bs[3]);
  }

  /** The byte swap reverses the bytes. */
  lemma Swap64Reverses(bs: seq<Byte>)
    requires |bs| == 8
    ensures Swap64(Value(bs)) == Value(Reversed(bs))
  {
    hide Value, Swap32, Pow2, Apply, Reversed;
    var lo, hi := bs[..4], bs[4..];
    assert bs == lo + hi;
    ReversedOfJoined(lo, hi);
    ValueOfJoined(lo, hi);
    ValueOfJoined(Reversed(hi), Reversed(lo));
    ValueFits(lo);
    ValueFits(Reversed(hi));
    SwapSmallPowers();
    DivisionIsUnique(Pow2(32), Value(hi), Value(lo));
    Swap32Reverses(lo);
    Swap32Reverses(hi);
    OrCommutes(Swap32(Value(hi)), Swap32(Value(lo)) * Pow2(32));
    OrIsSum(Value(Reversed(lo)), Value(Reversed(hi)), 32);
  }

  lemma Swap64Involutive(x: Uint64)
    ensures Swap64(Swap64(x)) == x
  {
    hide Value, Swap64, Pow2, Reversed;
    Pow2Values();
    var bs := Digits(x, 8);
    ValueOfDigits(x, 8);
    Swap64Reverses(bs);
    Swap64Reverses(Reversed(bs));
    assert Reversed(Reversed(bs)) == bs;
  }

  // ---------------------------------------------------------------- loads and stores of 64 and 128 bits

  /** A load of the host's own, and of one of its stores the bytes. */
  function HostLoad64(host: ByteOrder, bs: seq<Byte>): int
    requires |bs| == 8
  {
    Value(InOrder(host, bs))
  }

  function HostStore64(host: ByteOrder, v: Uint64): (bs: seq<Byte>)
    ensures |bs| == 8
  {
    InOrder(host, Digits(v, 8))
  }

  /** FromHost64 and ToHost64 of the class for an order. */
  function FromHost64(order: ByteOrder, host: ByteOrder, x: int): int {
    if order == host then x else Swap64(x)
  }

  function ToHost64(order: ByteOrder, host: ByteOrder, x: int): int {
    if order == host then x else Swap64(x)
  }

  function Load64(order: ByteOrder, host: ByteOrder, p: seq<Byte>): int
    requires |p| >= 8
  {
    ToHost64(order, host, HostLoad64(host, p[..8]))
  }

  function Load128(order: ByteOrder, host: ByteOrder, p: seq<Byte>): int
    requires |p| >= 16
  {
    if order == LITTLE then Join(Load64(order, host, p[8..]), Load64(order, host, p))
    else Join(Load64(order, host, p), Load64(order, host, p[8..]))
  }

  /** A load gives the number that the bytes are in the order of the class, on every host. */
  lemma Load64Is(order: ByteOrder, host: ByteOrder, p: seq<Byte>)
    requires |p| >= 8
    ensures Load64(order, host, p) == Value(InOrder(order, p[..8]))
  {
    hide Value, Swap64, Reversed;
    var bs := p[..8];
    Swap64Reverses(InOrder(host, bs));
    assert Reversed(Reversed(bs)) == bs;
  }

  lemma Load128Is(order: ByteOrder, host: ByteOrder, p: seq<Byte>)
    requires |p| >= 16
    ensures Load128(order, host, p) == Value(InOrder(order, p[..16]))
  {
    hide Value, Load64, Pow2, InOrder, Reversed;
    Load64Is(order, host, p);
    Load64Is(order, host, p[8..]);
    JoinedInOrder(order, p[..8], p[8..][..8]);
    assert p[..16] == p[..8] + p[8..][..8];
  }

  lemma JoinedInOrder(order: ByteOrder, a: seq<Byte>, b: seq<Byte>)
    requires |a| == |b| == 8
    ensures Value(InOrder(order, a + b)) ==
            if order == LITTLE then Join(Value(InOrder(order, b)), Value(InOrder(order, a)))
            else Join(Value(InOrder(order, a)), Value(InOrder(order, b)))
  {
    hide Value, Pow2, Reversed;
    Pow2Values();
    if order == LITTLE {
      ValueOfJoined(a, b);
    } else {
      ReversedOfJoined(a, b);
      ValueOfJoined(Reversed(b), Reversed(a));
    }
  }

  /** The bytes of a number of k bytes in an order. */
  function BytesOf(order: ByteOrder, v: int, k: nat): (bs: seq<Byte>)
    ensures |bs| == k
  {
    InOrder(order, Digits(v, k))
  }

  lemma StoredBytes(order: ByteOrder, host: ByteOrder, v: Uint64)
    ensures 0 <= FromHost64(order, host, v) < WORD
    ensures HostStore64(host, FromHost64(order, host, v)) == BytesOf(order, v, 8)
  {
    hide Value, Swap64, Pow2, Digits, Reversed;
    Pow2Values();
    var bs := Digits(v, 8);
    ValueOfDigits(v, 8);
    Swap64Reverses(bs);
    ValueFits(Reversed(bs));
    ValueOfDigits(Value(Reversed(bs)), 8);
    ValueIsInjective(Digits(Value(Reversed(bs)), 8), Reversed(bs));
    assert Reversed(Reversed(bs)) == bs;
  }

  lemma StoredOneMore(s: seq<Byte>, at: nat, bs: seq<Byte>, i: nat)
    requires i < |bs| && at + |bs| <= |s|
    ensures (s[..at] + bs[..i] + s[at + i..])[at + i := bs[i]] == s[..at] + bs[..i + 1] + s[at + i + 1..]
  {}

  /** UNALIGNED_STORE64. */
  method HostStore(host: ByteOrder, a: array<Byte>, at: nat, v: Uint64)
    requires at + 8 <= a.Length
    modifies a
    ensures a[..] == old(a[..at]) + HostStore64(host, v) + old(a[at + 8..])
  {
    hide HostStore64;
    var bs := HostStore64(host, v);
    for i := 0 to 8
      invariant a[..] == old(a[..at]) + bs[..i] + old(a[at + i..])
    {
      StoredOneMore(old(a[..]), at, bs, i);
      a[at + i] := bs[i];
    }
  }

  /** Store64. */
  method Store64(order: ByteOrder, host: ByteOrder, a: array<Byte>, at: nat, v: Uint64)
    requires at + 8 <= a.Length
    modifies a
    ensures a[..] == old(a[..at]) + BytesOf(order, v, 8) + old(a[at + 8..])
  {
    hide FromHost64, HostStore64, BytesOf, Reversed;
    StoredBytes(order, host, v);
    HostStore(host, a, at, FromHost64(order, host, v));
  }

  /** Store128. */
  method Store128(order: ByteOrder, host: ByteOrder, a: array<Byte>, at: nat, hi: Uint64, lo: Uint64)
    requires at + 16 <= a.Length
    modifies a
    ensures a[..] == old(a[..at]) + BytesOf(order, Join(hi, lo), 16) + old(a[at + 16..])
  {
    hide BytesOf, Join, Reversed;
    BytesOfHalves(order, hi, lo);
    ghost var before := a[..];
    if order == LITTLE {
      Store64(order, host, a, at, lo);
      Store64(order, host, a, at + 8, hi);
      TwoStores(before, at, BytesOf(order, lo, 8), BytesOf(order, hi, 8));
    } else {
      Store64(order, host, a, at, hi);
      Store64(order, host, a, at + 8, lo);
      TwoStores(before, at, BytesOf(order, hi, 8), BytesOf(order, lo, 8));
    }
  }

  lemma TwoStores(s: seq<Byte>, at: nat, p: seq<Byte>, q: seq<Byte>)
    requires at + 16 <= |s| && |p| == |q| == 8
    ensures var t := s[..at] + p + s[at + 8..];
      t[..at + 8] + q + t[at + 16..] == s[..at] + (p + q) + s[at + 16..]
  {}

  lemma BytesOfHalves(order: ByteOrder, hi: Uint64, lo: Uint64)
    ensures BytesOf(order, Join(hi, lo), 16) ==
            if order == LITTLE then BytesOf(order, lo, 8) + BytesOf(order, hi, 8)
            else BytesOf(order, hi, 8) + BytesOf(order, lo, 8)
  {
    hide Value, Pow2, Digits, Reversed;
    Pow2Values();
    Pow2Adds(64, 64);
    var a, b := Digits(lo, 8), Digits(hi, 8);
    ValueOfDigits(lo, 8);
    ValueOfDigits(hi, 8);
    ValueOfJoined(a, b);
    ValueOfDigits(Join(hi, lo), 16);
    ValueIsInjective(Digits(Join(hi, lo), 16), a + b);
    ReversedOfJoined(a, b);
  }

  /** What Store128 writes, Load128 of the same class reads. */
  lemma LoadInvertsStore(order: ByteOrder, host: ByteOrder, v: int, rest: seq<Byte>)
    requires 0 <= v < MODULUS
    ensures Load128(order, host, BytesOf(order, v, 16) + rest) == v
  {
    hide Value, Pow2, Digits, Load128, Reversed;
    var p := BytesOf(order, v, 16) + rest;
    Load128Is(order, host, p);
    assert p[..16] == BytesOf(order, v, 16);
    assert Reversed(Reversed(Digits(v, 16))) == Digits(v, 16);
    Pow2Values();
    Pow2Adds(64, 64);
    ValueOfDigits(v, 16);
  }

  /** What Load128 read, Store128 of the same class writes back. */
  lemma StoreInvertsLoad(order: ByteOrder, host: ByteOrder, p: seq<Byte>)
    requires |p| == 16
    ensures BytesOf(order, Load128(order, host, p), 16) == p
  {
    hide Value, Pow2, Digits, Load128, Reversed;
    Load128Is(order, host, p);
    var bs := InOrder(order, p);
    assert p[..16] == p;
    ValueFits(bs);
    ValueOfDigits(Value(bs), 16);
    ValueIsInjective(Digits(Value(bs), 16), bs);
    assert Reversed(Reversed(p)) == p;
  }

  // ---------------------------------------------------------------- loads of a variable length

  /** A byte read through a char pointer. */
  function Char(charIsSigned: bool, b: Byte): int {
    if charIsSigned && b >= 128 then b - 256 else b
  }

  /** The bytes as a sum of chars; a negative char hides all bytes above it behind its sign. */
  function SumOfChars(charIsSigned: bool, bs: seq<Byte>): int {
    if bs == [] then 0
    else if charIsSigned && bs[0] >= 128 then bs[0] - 256
    else bs[0] + 256 * SumOfChars(charIsSigned, bs[1..])
  }

  lemma SumStep(charIsSigned: bool, p: seq<Byte>, n: nat)
    requires n < |p|
    ensures SumOfChars(charIsSigned, p[n..]) == Or(256 * SumOfChars(charIsSigned, p[n + 1..]), Char(charIsSigned, p[n]))
  {
    var x := SumOfChars(charIsSigned, p[n + 1..]);
    assert p[n..][0] == p[n] && p[n..][1..] == p[n + 1..];
    OrChar(x, p[n]);
    hide Apply, Reversed;
  }

  lemma OrChar(x: int, b: Byte)
    ensures Or(256 * x, b) == b + 256 * x
    ensures Or(256 * x, b - 256) == b - 256
  {
    hide Apply, Pow2, Reversed;
    SwapSmallPowers();
    OrIsSum(x, b, 8);
    ApplySplits(OR, 8, x, 0, -1, b);
    WithOnes(x);
    WithZero(b);
  }

  /** A 64-bit step loses nothing that a later one would show. */
  lemma OrInWords(x: int, c: int)
    ensures U64(Or(U64(256 * U64(x)), U64(c))) == U64(Or(256 * x, c))
  {
    hide Apply, Pow2, Reversed;
    Pow2Values();
    ApplyByParts(OR, 64, 256 * x, c);
    ApplyByParts(OR, 64, U64(256 * U64(x)), U64(c));
    var q := x / WORD;
    assert x == q * WORD + U64(x);
    var r := 256 * U64(x);
    DivisionIsUnique(WORD, 256 * q + r / WORD, r % WORD);
    assert U64(256 * U64(x)) == U64(256 * x);
  }

  /** LittleEndian::Load64VariableLength. */
  method LoadLittle64Variable(charIsSigned: bool, p: seq<Byte>, len: int) returns (val: Uint64)
    requires 1 <= len <= 8 && len <= |p|
    ensures val == U64(SumOfChars(charIsSigned, p[..len]))
  {
    hide SumOfChars, U64, Apply, Reversed;
    var n := len - 1;
    NoChars(charIsSigned);
    assert p[len..len] == [];
    val := OrByte(charIsSigned, p, len, n, 0);
    n := n - 1;
    while n >= 0
      invariant -1 <= n < len - 1
      invariant val == U64(SumOfChars(charIsSigned, p[n + 1..len]))
    {
      val := OrByte(charIsSigned, p, len, n, val);
      n := n - 1;
    }
    assert p[0..len] == p[..len];
  }

  /** The body of the loop. */
  method OrByte(charIsSigned: bool, p: seq<Byte>, len: nat, n: nat, val: Uint64) returns (r: Uint64)
    requires n < len <= |p| && val == U64(SumOfChars(charIsSigned, p[n + 1..len]))
    ensures r == U64(SumOfChars(charIsSigned, p[n..len]))
  {
    hide SumOfChars, U64, Apply, Reversed;
    assert p[..len][n..] == p[n..len] && p[..len][n + 1..] == p[n + 1..len];
    SumStep(charIsSigned, p[..len], n);
    OrInWords(SumOfChars(charIsSigned, p[n + 1..len]), Char(charIsSigned, p[n]));
    r := U64(Or(U64(256 * val), U64(Char(charIsSigned, p[n]))));
  }

  lemma NoChars(charIsSigned: bool)
    ensures U64(SumOfChars(charIsSigned, [])) == 0
  {}

  lemma {:induction false} UnsignedCharsSum(bs: seq<Byte>)
    ensures SumOfChars(false, bs) == Value(bs)
  {
    if bs == [] {
    } else {
      UnsignedCharsSum(bs[1..]);
    }
  }

  /** With unsigned chars, the load is the sum of p[i] * 256^i that is promised. */
  lemma UnsignedLoadIsSum(p: seq<Byte>, len: nat)
    requires 1 <= len <= 8 && len <= |p|
    ensures U64(SumOfChars(false, p[..len])) == Value(p[..len])
  {
    hide Pow2, Value, SumOfChars, Reversed;
    UnsignedCharsSum(p[..len]);
    ValueFits(p[..len]);
    Pow2Values();
    Pow2Grows(8 * len, 64);
  }

  /** A byte with a high bit is one of w bytes, and all bytes above it are ones. */
  predicate OnesAbove(bs: seq<Byte>, w: nat) {
    forall i :: 0 <= i < |bs| && bs[i] >= 128 ==> |bs| == w && OnesAfter(bs, i)
  }

  predicate OnesAfter(bs: seq<Byte>, i: nat) {
    forall j :: i < j < |bs| ==> bs[j] == 255
  }

  lemma {:induction false} OnesFill(bs: seq<Byte>, w: nat)
    requires |bs| <= w
    ensures Value(bs) == Pow2(8 * w) - 1 <==> |bs| == w && forall j :: 0 <= j < |bs| ==> bs[j] == 255
    decreases w
  {
    if w == 0 {
    } else {
      Pow2OfByte(w);
      Pow2AtLeastByte(w);
      hide Pow2, Reversed;
      if bs != [] {
        OnesFill(bs[1..], w - 1);
        assert Value(bs) == bs[0] + 256 * Value(bs[1..]);
        hide Value, Reversed;
        assert (forall j :: 0 <= j < |bs| ==> bs[j] == 255) <==>
               bs[0] == 255 && forall j :: 0 <= j < |bs[1..]| ==> bs[1..][j] == 255 by {
          assert bs == [bs[0]] + bs[1..];
        }
      }
    }
  }

  lemma Pow2AtLeastByte(w: nat)
    requires w > 0
    ensures Pow2(8 * w) >= 256
  {
    Pow2OfByte(w);
  }

  lemma OnesAboveStep(bs: seq<Byte>, w: nat)
    requires bs != [] && |bs| <= w
    ensures bs[0] < 128 ==> (OnesAbove(bs, w) <==> OnesAbove(bs[1..], w - 1))
    ensures bs[0] >= 128 ==>
              (OnesAbove(bs, w) <==> |bs[1..]| == w - 1 && forall j :: 0 <= j < |bs[1..]| ==> bs[1..][j] == 255)
  {
    var rest := bs[1..];
    if OnesAbove(bs, w) {
      forall i | 0 <= i < |rest| && rest[i] >= 128 ensures |rest| == w - 1 && OnesAfter(rest, i) {
        assert bs[i + 1] >= 128;
        AfterStep(bs, i);
      }
    }
    if OnesAbove(rest, w - 1) && bs[0] < 128 {
      forall i | 0 <= i < |bs| && bs[i] >= 128 ensures |bs| == w && OnesAfter(bs, i) {
        assert rest[i - 1] >= 128;
        AfterStep(bs, i - 1);
      }
    }
  }

  lemma AfterStep(bs: seq<Byte>, i: nat)
    requires bs != []
    ensures OnesAfter(bs, i + 1) <==> OnesAfter(bs[1..], i)
  {
    if OnesAfter(bs, i + 1) {
      forall j | i < j < |bs[1..]| ensures bs[1..][j] == 255 {
        assert bs[j + 1] == 255;
      }
    }
    if OnesAfter(bs[1..], i) {
      forall j | i + 1 < j < |bs| ensures bs[j] == 255 {
        assert bs[1..][j - 1] == 255;
      }
    }
  }

  lemma {:induction false} SignedSum(bs: seq<Byte>, w: nat)
    requires |bs| <= w
    ensures SumOfChars(true, bs) % Pow2(8 * w) == Value(bs) <==> OnesAbove(bs, w)
    decreases w
  {
    hide Pow2, OnesAbove, Value, SumOfChars, Reversed;
    if bs == [] {
      NothingAbove(w);
    } else {
      Pow2OfByte(w);
      OnesAboveStep(bs, w);
      SumUnfolds(bs);
      var p: int, m: int, rest := Pow2(8 * (w - 1)), Pow2(8 * w), bs[1..];
      assert m == 256 * p;
      if bs[0] >= 128 {
        OnesFill(rest, w - 1);
        NegativeByte(bs[0], p);
      } else {
        SignedSum(rest, w - 1);
        LowestByteOfRemainder(bs[0], SumOfChars(true, rest), p);
      }
    }
  }

  lemma SumUnfolds(bs: seq<Byte>)
    requires bs != []
    ensures Value(bs) == bs[0] + 256 * Value(bs[1..])
    ensures SumOfChars(true, bs) == if bs[0] >= 128 then bs[0] - 256 else bs[0] + 256 * SumOfChars(true, bs[1..])
  {}

  lemma NegativeByte(b: Byte, p: int)
    requires p > 0 && b >= 128
    ensures (b - 256) % (256 * p) == b + 256 * (p - 1)
  {
    DivisionIsUnique(256 * p, -1, b + 256 * (p - 1));
  }

  lemma LowestByteOfRemainder(b: Byte, s: int, p: int)
    requires p > 0
    ensures (b + 256 * s) % (256 * p) == b + 256 * (s % p)
  {
    var q, r := s / p, s % p;
    assert s == q * p + r;
    assert 256 * (q * p) == q * (256 * p);
    DivisionIsUnique(256 * p, q, b + 256 * r);
  }

  lemma NothingAbove(w: nat)
    ensures OnesAbove([], w) && 0 % Pow2(8 * w) == 0 && Value([]) == SumOfChars(true, []) == 0
  {}

  /** With signed chars, the load is the sum of the bytes exactly when a high byte is followed by ones to the top. */
  lemma SignedLoadIsSum(p: seq<Byte>, len: nat)
    requires 1 <= len <= 8 && len <= |p|
    ensures U64(SumOfChars(true, p[..len])) == Value(p[..len]) <==> OnesAbove(p[..len], 8)
  {
    hide Pow2, OnesAbove, Value, SumOfChars, Reversed;
    Pow2Values();
    SignedSum(p[..len], 8);
  }

  /** The byte 200 alone, read through a signed char, fills the word above it. */
  lemma SignedByteSpoils()
    ensures U64(SumOfChars(true, [200])) == WORD - 56 && Value([200]) == 200
  {
    assert SumOfChars(true, [200]) == -56;
    assert Value([200]) == 200 + 256 * Value([]);
  }

  /** LittleEndian::Load128VariableLength. */
  method LoadLittle128Variable(charIsSigned: bool, host: ByteOrder, p: seq<Byte>, len: int) returns (val: int)
    requires 1 <= len <= 16 && len <= |p|
    ensures val == if len <= 8 then U64(SumOfChars(charIsSigned, p[..len]))
                   else Join(U64(SumOfChars(charIsSigned, p[8..len])), Value(p[..8]))
    ensures !charIsSigned ==> val == Value(p[..len])
    ensures charIsSigned ==>
              (val == Value(p[..len]) <==> OnesAbove(if len <= 8 then p[..len] else p[8..len], 8))
  {
    hide SumOfChars, U64, Value, Pow2, Load64, Reversed, OnesAbove;
    if len <= 8 {
      val := LoadLittle64Variable(charIsSigned, p, len);
      UnsignedLoadIsSum(p, len);
      SignedLoadIsSum(p, len);
    } else {
      var top := LoadLittle64Variable(charIsSigned, p[8..], len - 8);
      Load64Is(LITTLE, host, p);
      val := Join(top, Load64(LITTLE, host, p));
      assert p[8..][..len - 8] == p[8..len] && p[..len] == p[..8] + p[8..len];
      UnsignedLoadIsSum(p[8..], len - 8);
      SignedLoadIsSum(p[8..], len - 8);
      ValueOfJoined(p[..8], p[8..len]);
      Pow2Values();
    }
  }

  /**
   * BigEndian::Load64VariableLength. It reads eight bytes whatever the length and keeps the last len of them, where its
   * comment, taken over from the other class, promises the first len in the opposite order.
   */
  method LoadBig64Variable(host: ByteOrder, p: seq<Byte>, len: int) returns (val: Uint64)
    requires 1 <= len <= 8 && |p| >= 8
    ensures val == Load64(BIG, host, p) % Pow2(8 * len)
    ensures val == Value(Reversed(p[8 - len..8]))
  {
    hide Load64, Apply, Pow2, Value, Reversed;
    var v := Load64(BIG, host, p);
    Load64Is(BIG, host, p);
    var mask, n := 0, len - 1;
    Pow2Zero();
    SwapSmallPowers();
    NextMask(0);
    mask := Or(mask * 256, 0xff);
    n := n - 1;
    while n >= 0
      invariant -1 <= n < len - 1 && mask == Pow2(8 * (len - 1 - n)) - 1
    {
      NextMask(len - 1 - n);
      mask := Or(mask * 256, 0xff);
      n := n - 1;
    }
    AndIsRemainder(v, 8 * len);
    LastBytes(p[..8], len);
    assert p[..8][8 - len..] == p[8 - len..8];
    Remainder(p, len);
    val := And(v, mask);
  }

  lemma NextMask(k: nat)
    ensures Or((Pow2(8 * k) - 1) * 256, 0xff) == Pow2(8 * (k + 1)) - 1
  {
    hide Apply, Pow2, Reversed;
    SwapSmallPowers();
    Pow2OfByte(k + 1);
    OrIsSum(Pow2(8 * k) - 1, 255, 8);
  }

  /** The last k bytes in big-endian order are a remainder. */
  lemma LastBytes(bs: seq<Byte>, k: nat)
    requires k <= |bs|
    ensures Value(Reversed(bs)) % Pow2(8 * k) == Value(Reversed(bs[|bs| - k..]))
  {
    hide Value, Pow2, Reversed;
    var top, low := bs[..|bs| - k], bs[|bs| - k..];
    assert bs == top + low;
    ReversedOfJoined(top, low);
    RemainderOfJoined(Reversed(low), Reversed(top));
  }

  lemma Remainder(p: seq<Byte>, len: nat)
    requires 1 <= len <= 8 && |p| >= 8
    ensures Value(Reversed(p[8 - len..8])) < WORD
  {
    hide Value, Pow2, Reversed;
    ValueFits(Reversed(p[8 - len..8]));
    Pow2Values();
    Pow2Grows(8 * len, 64);
  }

  /** That the load is the promised sum of p[i] * 256^i depends on the bytes that are left out as well. */
  lemma BigLoadIsSum(p: seq<Byte>, len: nat)
    requires 1 <= len <= 8 <= |p|
    ensures Value(Reversed(p[8 - len..8])) == Value(p[..len]) <==> forall i :: 0 <= i < len ==> p[i] == p[7 - i]
  {
    hide Value, Reversed;
    var loaded, promised := Reversed(p[8 - len..8]), p[..len];
    assert forall i :: 0 <= i < len ==> loaded[i] == p[7 - i] && promised[i] == p[i];
    if Value(loaded) == Value(promised) {
      ValueIsInjective(loaded, promised);
    }
    if forall i :: 0 <= i < len ==> p[i] == p[7 - i] {
      assert loaded == promised;
    }
  }

  /** One byte of 1 and seven of 0: the promised sum of the first byte is 1, and the load gives the last byte. */
  lemma BigLoadMissesByte()
    ensures var p := [1, 0, 0, 0, 0, 0, 0, 0]; Value(Reversed(p[7..8])) == 0 && Value(p[..1]) == 1
  {
    var p: seq<Byte> := [1, 0, 0, 0, 0, 0, 0, 0];
    assert p[7..8] == [0] && p[..1] == [1];
    assert Reversed([0]) == [0];
    assert Value([1]) == 1 + 256 * Value([]) && Value([0]) == 0 + 256 * Value([]);
  }

  /** BigEndian::Load128VariableLength. */
  method LoadBig128Variable(host: ByteOrder, p: seq<Byte>, len: int) returns (val: int)
    requires 1 <= len <= 16 && |p| >= 16
    ensures val == Load128(BIG, host, p) % Pow2(8 * len)
    ensures val == Value(Reversed(p[16 - len..16]))
  {
    hide Load64, Load128, Pow2, Value, Reversed;
    Load128Is(BIG, host, p);
    LastBytes(p[..16], len);
    assert p[..16][16 - len..] == p[16 - len..16];
    if len <= 8 {
      val := LoadBig64Variable(host, p[8..], len);
      SliceOfSlice(p, 8, 8 - len, 8);
    } else {
      var top := LoadBig64Variable(host, p, len - 8);
      Load64Is(BIG, host, p[8..]);
      val := Join(top, Load64(BIG, host, p[8..]));
      var a, b := p[16 - len..8], p[8..16];
      assert p[8..][..8] == b && p[16 - len..16] == a + b;
      ReversedOfJoined(a, b);
      ValueOfJoined(Reversed(b), Reversed(a));
      Pow2Values();
    }
  }
}
