/** The CRC-32 as a remainder of polynomials over two elements: schoolbook long division, bit by bit. */
module CrcRemainder {
  import opened Bytes
  import opened Crc

  /** A polynomial by its coefficients, highest power first. */
  type Poly = seq<bool>

  function Coefficient(b: bool): bv32 { if b then 1 else 0 }

  /** Brings down the next coefficient, and subtracts the generator when the power 32 appears. */
  function BringDown(r: bv32, b: bool): bv32 { Xor(Divide(r), Coefficient(b)) }

  /** The remainder of the polynomial divided by the generator, `r` being what is left of the powers above. */
  function Remainder(r: bv32, p: Poly): bv32
    decreases |p|
  {
    if |p| == 0 then r else Remainder(BringDown(r, p[0]), p[1..])
  }

  function Zeroes(n: nat): (p: Poly)
    ensures |p| == n
  {
    seq(n, i => false)
  }

  /** The first 32 coefficients complemented. */
  function Complemented(p: Poly): (q: Poly)
    ensures |q| == |p|
  {
    seq(|p|, i requires 0 <= i < |p| => if i < 32 then !p[i] else p[i])
  }

  /** The coefficients of a byte, least significant bit first. */
  function BitsOf(x: bv32, n: nat): (p: Poly)
    ensures |p| == n
    decreases n
  {
    if n == 0 then [] else [x & 1 == 1] + BitsOf(x >> 1, n - 1)
  }

  function MessageBits(m: seq<Byte>): (p: Poly)
    ensures |p| == 8 * |m|
  {
    if |m| == 0 then [] else BitsOf(Bits(m[0]), 8) + MessageBits(m[1..])
  }

  // ----- division is linear -----------------------------------------------------------------------

  function Divisions(r: bv32, n: nat): bv32
    decreases n
  {
    if n == 0 then r else Divisions(Divide(r), n - 1)
  }

  lemma DivideLinear(a: bv32, b: bv32)
    ensures Divide(Xor(a, b)) == Xor(Divide(a), Divide(b))
  {
    hide Divide, Shift, Reverse, Xor;
    Mirrored(a);
    Mirrored(b);
    Mirrored(Xor(a, b));
    MirroredXor(a, b);
    ShiftLinear(Reverse(a), Reverse(b));
    MirroredXor(Shift(Reverse(a)), Shift(Reverse(b)));
  }

  /** A step of division is a step of the reflected register, read backwards. */
  lemma Mirrored(a: bv32)
    ensures Divide(a) == Reverse(Shift(Reverse(a)))
  {
    hide Divide, Shift, Reverse;
    Back(a);
    ShiftIsReversedDivision(Reverse(a));
  }

  lemma Back(a: bv32)
    ensures Reverse(Reverse(a)) == a
  {
  }

  lemma MirroredXor(a: bv32, b: bv32)
    ensures Reverse(Xor(a, b)) == Xor(Reverse(a), Reverse(b))
  {
    hide Reverse;
    ReverseXor(a, b);
  }

  lemma {:induction false} DivisionsLinear(a: bv32, b: bv32, n: nat)
    ensures Divisions(Xor(a, b), n) == Xor(Divisions(a, n), Divisions(b, n))
    decreases n
  {
    hide Divide, Xor;
    if n > 0 {
      DivideLinear(a, b);
      DivisionsLinear(Divide(a), Divide(b), n - 1);
    }
  }

  /** What is left of the powers above goes through as many steps as there are coefficients. */
  lemma {:induction false} RemainderSplits(r: bv32, p: Poly)
    ensures Remainder(r, p) == Xor(Divisions(r, |p|), Remainder(0, p))
    decreases |p|
  {
    hide Divide, Xor;
    NothingMore(r);
    if |p| > 0 {
      var c := Coefficient(p[0]);
      RemainderSplits(BringDown(r, p[0]), p[1..]);
      RemainderSplits(BringDown(0, p[0]), p[1..]);
      NothingDivided();
      NothingMore(c);
      DivisionsLinear(Divide(r), c, |p| - 1);
      XorSwaps(Divisions(Divide(r), |p| - 1), Divisions(c, |p| - 1), Remainder(0, p[1..]));
    }
  }

  lemma NothingMore(r: bv32)
    ensures Xor(r, 0) == r && Xor(0, r) == r
  {
  }

  lemma NothingDivided()
    ensures Divide(0) == 0
  {
  }

  lemma XorSwaps(a: bv32, b: bv32, c: bv32)
    ensures Xor(Xor(a, b), c) == Xor(a, Xor(b, c))
  {
  }

  // ----- the register is fed at the top -----------------------------------------------------------

  function Raised(b: bool): bv32 { if b then 0x8000_0000 else 0 }

  /** The plain shift register, fed one coefficient at a time at its top. */
  function Fed(r: bv32, p: Poly): bv32
    decreases |p|
  {
    if |p| == 0 then r else Fed(Divide(Xor(r, Raised(p[0]))), p[1..])
  }

  lemma {:induction false} FedSplits(r: bv32, p: Poly)
    ensures Fed(r, p) == Xor(Divisions(r, |p|), Fed(0, p))
    decreases |p|
  {
    hide Divide, Xor;
    NothingMore(r);
    if |p| > 0 {
      var c := Raised(p[0]);
      FedSplits(Divide(Xor(r, c)), p[1..]);
      FedSplits(Divide(Xor(0, c)), p[1..]);
      NothingMore(c);
      DivideLinear(r, c);
      DivisionsLinear(Divide(r), Divide(c), |p| - 1);
      XorSwaps(Divisions(Divide(r), |p| - 1), Divisions(Divide(c), |p| - 1), Fed(0, p[1..]));
    }
  }

  /** A coefficient brought down reaches the top after 31 steps. */
  lemma Climbs(b: bool)
    ensures Divisions(Coefficient(b), 32) == Divide(Raised(b))
  {
    if b {
      FourSteps(0x1, 28);
      FourSteps(0x10, 24);
      FourSteps(0x100, 20);
      FourSteps(0x1000, 16);
      FourSteps(0x1_0000, 12);
      FourSteps(0x10_0000, 8);
      FourSteps(0x100_0000, 4);
      LastSteps();
    } else {
      NothingDivided();
      NothingClimbs(32);
    }
  }

  lemma {:induction false} NothingClimbs(n: nat)
    ensures Divisions(0, n) == 0
    decreases n
  {
    if n > 0 {
      NothingDivided();
      NothingClimbs(n - 1);
    }
  }

  lemma FourSteps(x: bv32, n: nat)
    requires x & 0xF000_0000 == 0
    ensures Divisions(x, n + 4) == Divisions(x << 4, n)
  {
    FourDoubles(x);
    hide Divide;
    assert Divisions(x, n + 4) == Divisions(x << 1, n + 3);
    assert Divisions(x << 1, n + 3) == Divisions(x << 2, n + 2);
    assert Divisions(x << 2, n + 2) == Divisions(x << 3, n + 1);
  }

  lemma FourDoubles(x: bv32)
    requires x & 0xF000_0000 == 0
    ensures Divide(x) == x << 1 && Divide(x << 1) == x << 2 && Divide(x << 2) == x << 3 && Divide(x << 3) == x << 4
  {
  }

  lemma LastSteps()
    ensures Divisions(0x1000_0000, 4) == Divide(0x8000_0000)
  {
    assert Divide(0x1000_0000) == 0x2000_0000 && Divide(0x2000_0000) == 0x4000_0000;
    assert Divide(0x4000_0000) == 0x8000_0000;
    hide Divide;
    assert Divisions(0x1000_0000, 4) == Divisions(0x2000_0000, 3) == Divisions(0x4000_0000, 2);
    assert Divisions(0x4000_0000, 2) == Divisions(0x8000_0000, 1);
  }

  lemma {:induction false} DivisionsMore(r: bv32, n: nat, k: nat)
    ensures Divisions(r, n + k) == Divisions(Divisions(r, n), k)
    decreases n
  {
    if n > 0 { DivisionsMore(Divide(r), n - 1, k); }
  }

  /** Feeding at the top is dividing the polynomial with 32 zeroes behind it. */
  lemma {:induction false} FedIsRemainder(p: Poly)
    ensures Fed(0, p) == Remainder(0, p + Zeroes(32))
    decreases |p|
  {
    hide Divide, Xor, Coefficient, Raised;
    if |p| == 0 {
      assert p + Zeroes(32) == Zeroes(32);
      RemainderOfZeroes(0, 32);
      NothingClimbs(32);
    } else {
      var b, rest := p[0], p[1..];
      assert (p + Zeroes(32))[1..] == rest + Zeroes(32);
      NothingMore(Raised(b));
      NothingMore(Coefficient(b));
      NothingDivided();
      FedSplits(Divide(Raised(b)), rest);
      RemainderSplits(Coefficient(b), rest + Zeroes(32));
      FedIsRemainder(rest);
      Climbs(b);
      DivisionsMore(Coefficient(b), 32, |rest|);
    }
  }

  lemma {:induction false} RemainderOfZeroes(r: bv32, n: nat)
    ensures Remainder(r, Zeroes(n)) == Divisions(r, n)
    decreases n
  {
    hide Divide, Xor;
    if n > 0 {
      assert Zeroes(n)[1..] == Zeroes(n - 1);
      NothingMore(Divide(r));
      RemainderOfZeroes(Divide(r), n - 1);
    }
  }

  // ----- complementing -------------------------------------------------------------------------------

  function Sum(p: Poly, q: Poly): (r: Poly)
    requires |p| == |q|
    ensures |r| == |p|
  {
    seq(|p|, i requires 0 <= i < |p| => p[i] != q[i])
  }

  lemma {:induction false} RemainderOfSum(a: bv32, b: bv32, p: Poly, q: Poly)
    requires |p| == |q|
    ensures Remainder(Xor(a, b), Sum(p, q)) == Xor(Remainder(a, p), Remainder(b, q))
    decreases |p|
  {
    hide Divide, Xor, Coefficient;
    if |p| > 0 {
      assert Sum(p, q)[1..] == Sum(p[1..], q[1..]);
      DivideLinear(a, b);
      CoefficientOfSum(p[0], q[0]);
      XorPairs(Divide(a), Divide(b), Coefficient(p[0]), Coefficient(q[0]));
      RemainderOfSum(BringDown(a, p[0]), BringDown(b, q[0]), p[1..], q[1..]);
    }
  }

  lemma CoefficientOfSum(a: bool, b: bool)
    ensures Coefficient(a != b) == Xor(Coefficient(a), Coefficient(b))
  {
  }

  lemma XorPairs(a: bv32, b: bv32, c: bv32, d: bv32)
    ensures Xor(Xor(a, b), Xor(c, d)) == Xor(Xor(a, c), Xor(b, d))
  {
    hide Xor;
    XorSwaps(a, b, Xor(c, d));
    XorSwaps(b, c, d);
    XorBack(b, c);
    XorSwaps(c, b, d);
    XorSwaps(a, c, Xor(b, d));
  }

  /** `k` ones and `n` zeroes. */
  function OnesThen(k: nat, n: nat): (p: Poly)
    ensures |p| == k + n
  {
    seq(k + n, i => i < k)
  }

  /** 32 ones are below the generator: they are their own remainder. */
  lemma OnesRemain(n: nat)
    ensures Remainder(0, OnesThen(32, n)) == Divisions(ONES, n)
  {
    FourOnes(0x0, 28, n);
    FourOnes(0xF, 24, n);
    FourOnes(0xFF, 20, n);
    FourOnes(0xFFF, 16, n);
    FourOnes(0xFFFF, 12, n);
    FourOnes(0xF_FFFF, 8, n);
    FourOnes(0xFF_FFFF, 4, n);
    FourOnes(0xFFF_FFFF, 0, n);
    assert OnesThen(0, n) == Zeroes(n);
    RemainderOfZeroes(ONES, n);
  }

  lemma FourOnes(x: bv32, k: nat, n: nat)
    requires x & 0xF000_0000 == 0
    ensures Remainder(x, OnesThen(k + 4, n)) == Remainder((x << 4) ^ 0xF, OnesThen(k, n))
  {
    FourAppended(x);
    hide BringDown;
    OneMore(x, k + 3, n);
    OneMore(BringDown(x, true), k + 2, n);
    OneMore(BringDown(BringDown(x, true), true), k + 1, n);
    OneMore(BringDown(BringDown(BringDown(x, true), true), true), k, n);
  }

  lemma OneMore(x: bv32, k: nat, n: nat)
    ensures Remainder(x, OnesThen(k + 1, n)) == Remainder(BringDown(x, true), OnesThen(k, n))
  {
    hide BringDown;
    assert OnesThen(k + 1, n)[1..] == OnesThen(k, n);
  }

  lemma FourAppended(x: bv32)
    requires x & 0xF000_0000 == 0
    ensures BringDown(BringDown(BringDown(BringDown(x, true), true), true), true) == (x << 4) ^ 0xF
  {
    OneAppended(x);
    OneAppended((x << 1) ^ 1);
    OneAppended((x << 2) ^ 3);
    OneAppended((x << 3) ^ 7);
    hide BringDown;
  }

  lemma OneAppended(x: bv32)
    requires x & 0x8000_0000 == 0
    ensures BringDown(x, true) == (x << 1) ^ 1
  {
  }

  /** The polynomial with 32 zeroes behind it and its first 32 coefficients complemented. */
  lemma ComplementedRemainder(p: Poly)
    ensures Remainder(0, Complemented(p + Zeroes(32))) == Fed(ONES, p)
  {
    hide Divide, Xor;
    var q := p + Zeroes(32);
    assert Complemented(q) == Sum(q, OnesThen(32, |p|));
    NothingMore(0);
    RemainderOfSum(0, 0, q, OnesThen(32, |p|));
    OnesRemain(|p|);
    FedIsRemainder(p);
    FedSplits(ONES, p);
    XorBack(Divisions(ONES, |p|), Fed(0, p));
  }

  lemma XorBack(a: bv32, b: bv32)
    ensures Xor(a, b) == Xor(b, a)
  {
  }

  // ----- the checksum ---------------------------------------------------------------------------------

  lemma {:induction false} FedAppend(r: bv32, p: Poly, q: Poly)
    ensures Fed(r, p + q) == Fed(Fed(r, p), q)
    decreases |p|
  {
    hide Divide, Xor;
    if |p| == 0 {
      assert p + q == q;
    } else {
      assert (p + q)[1..] == p[1..] + q;
      FedAppend(Divide(Xor(r, Raised(p[0]))), p[1..], q);
    }
  }

  /** The reflected register, read backwards, is the plain one fed with the bits of the byte. */
  lemma {:induction false} SerialIsFed(c: bv32, x: bv32, n: nat)
    ensures Reverse(Serial(c, x, n)) == Fed(Reverse(c), BitsOf(x, n))
    decreases n
  {
    hide Divide, Shift, Reverse, Xor;
    if n > 0 {
      SerialIsFed(Shift(Xor(c, x & 1)), x >> 1, n - 1);
      ShiftIsReversedDivision(Xor(c, x & 1));
      MirroredXor(c, x & 1);
      LowBitRaised(x);
      assert BitsOf(x, n)[1..] == BitsOf(x >> 1, n - 1);
    }
  }

  lemma LowBitRaised(x: bv32)
    ensures Reverse(x & 1) == Raised(x & 1 == 1)
  {
    LowBits(x, x);
    if x & 1 == 1 { assert Reverse(1) == 0x8000_0000; } else { assert Reverse(0) == 0; }
  }

  lemma {:induction false} FeedAllIsFed(c: bv32, m: seq<Byte>)
    ensures Reverse(FeedAll(c, m)) == Fed(Reverse(c), MessageBits(m))
    decreases |m|
  {
    hide Feed, Reverse, Bits, Serial, BitsOf, Divide, Xor, Raised;
    if |m| > 0 {
      FeedIsSerial(c, m[0]);
      SerialIsFed(c, Bits(m[0]), 8);
      FeedAllIsFed(Feed(c, m[0]), m[1..]);
      FedAppend(Reverse(c), BitsOf(Bits(m[0]), 8), MessageBits(m[1..]));
    }
  }

  /**
   The checksum is what its standard says: take the message's bits, least
   significant first, as a polynomial, put 32 zeroes behind, complement the
   first 32, divide by the generator 0x04C11DB7 with leading power 32; the
   remainder, complemented and read backwards, is the checksum.
   */
  lemma ChecksumIsRemainder(m: seq<Byte>)
    ensures Reverse(Xor(Crc32(m), 0xFFFF_FFFF)) == Remainder(0, Complemented(MessageBits(m) + Zeroes(32)))
  {
    hide FeedAll, Reverse, Remainder, Fed, Complemented, MessageBits;
    assert Reverse(ONES) == ONES by { OnesMirrored(); }
    FeedAllIsFed(ONES, m);
    ComplementedRemainder(MessageBits(m));
    TwiceComplemented(FeedAll(ONES, m));
  }

  lemma OnesMirrored()
    ensures Reverse(ONES) == ONES
  {
  }

  lemma TwiceComplemented(x: bv32)
    ensures Xor(Xor(x, ONES), 0xFFFF_FFFF) == x
  {
  }

  /** The usual check value: the checksum of the digits from 1 to 9. */
  lemma CheckValue()
    ensures Crc32([0x31, 0x32, 0x33, 0x34, 0x35, 0x36, 0x37, 0x38, 0x39]) == 0xCBF4_3926 && Crc32([]) == 0
  {
    hide Feed, FeedAll, Xor;
    CheckSteps();
    Ends();
    var m9: seq<Byte> := [];
    var m8 := [0x39];
    var m7 := [0x38, 0x39];
    var m6 := [0x37, 0x38, 0x39];
    var m5 := [0x36, 0x37, 0x38, 0x39];
    var m4 := [0x35, 0x36, 0x37, 0x38, 0x39];
    var m3 := [0x34, 0x35, 0x36, 0x37, 0x38, 0x39];
    var m2 := [0x33, 0x34, 0x35, 0x36, 0x37, 0x38, 0x39];
    var m1 := [0x32, 0x33, 0x34, 0x35, 0x36, 0x37, 0x38, 0x39];
    var m0 := [0x31, 0x32, 0x33, 0x34, 0x35, 0x36, 0x37, 0x38, 0x39];
    assert m0 == [0x31] + m1 && m1 == [0x32] + m2 && m2 == [0x33] + m3;
    assert m3 == [0x34] + m4 && m4 == [0x35] + m5 && m5 == [0x36] + m6;
    assert m6 == [0x37] + m7 && m7 == [0x38] + m8 && m8 == [0x39] + m9;
    NextByte(0x651F_2550, 0x340B_C6D9, 0x39, m9);
    NextByte(0xAFFC_9660, 0x651F_2550, 0x38, m8);
    NextByte(0xF68D_2C9E, 0xAFFC_9660, 0x37, m7);
    NextByte(0x340A_C5E3, 0xF68D_2C9E, 0x36, m6);
    NextByte(0x641C_1F5C, 0x340A_C5E3, 0x35, m5);
    NextByte(0x77B7_9C2D, 0x641C_1F5C, 0x34, m4);
    NextByte(0xB0AC_BB32, 0x77B7_9C2D, 0x33, m3);
    NextByte(0x7C23_1048, 0xB0AC_BB32, 0x32, m2);
    NextByte(ONES, 0x7C23_1048, 0x31, m1);
  }

  lemma Ends()
    ensures Xor(0x340B_C6D9, ONES) == 0xCBF4_3926 && Xor(ONES, ONES) == 0
    ensures forall c: bv32 :: FeedAll(c, []) == c
  {
  }

  lemma NextByte(c: bv32, d: bv32, b: Byte, rest: seq<Byte>)
    requires Feed(c, b) == d
    ensures FeedAll(c, [b] + rest) == FeedAll(d, rest)
  {
    hide Feed;
    assert ([b] + rest)[1..] == rest;
  }

  lemma CheckSteps()
    ensures Feed(ONES, 0x31) == 0x7C23_1048 && Feed(0x7C23_1048, 0x32) == 0xB0AC_BB32
    ensures Feed(0xB0AC_BB32, 0x33) == 0x77B7_9C2D && Feed(0x77B7_9C2D, 0x34) == 0x641C_1F5C
    ensures Feed(0x641C_1F5C, 0x35) == 0x340A_C5E3 && Feed(0x340A_C5E3, 0x36) == 0xF68D_2C9E
    ensures Feed(0xF68D_2C9E, 0x37) == 0xAFFC_9660 && Feed(0xAFFC_9660, 0x38) == 0x651F_2550
    ensures Feed(0x651F_2550, 0x39) == 0x340B_C6D9
  {
    hide Shift8, Feed;
    FeedOf(ONES, 0x31, 0x31);
    FeedOf(0x7C23_1048, 0x32, 0x32);
    FeedOf(0xB0AC_BB32, 0x33, 0x33);
    FeedOf(0x77B7_9C2D, 0x34, 0x34);
    FeedOf(0x641C_1F5C, 0x35, 0x35);
    FeedOf(0x340A_C5E3, 0x36, 0x36);
    FeedOf(0xF68D_2C9E, 0x37, 0x37);
    FeedOf(0xAFFC_9660, 0x38, 0x38);
    FeedOf(0x651F_2550, 0x39, 0x39);
    CheckShifts();
  }

  lemma FeedOf(c: bv32, v: bv8, b: Byte)
    requires v as int == b
    ensures Feed(c, b) == Shift8(c ^ (v as bv32))
  {
    BvOf(v, b);
    hide Shift8;
  }

  lemma CheckShifts()
    ensures Shift8(0xFFFF_FFCE) == 0x7C23_1048 && Shift8(0x7C23_107A) == 0xB0AC_BB32
    ensures Shift8(0xB0AC_BB01) == 0x77B7_9C2D && Shift8(0x77B7_9C19) == 0x641C_1F5C
    ensures Shift8(0x641C_1F69) == 0x340A_C5E3 && Shift8(0x340A_C5D5) == 0xF68D_2C9E
    ensures Shift8(0xF68D_2CA9) == 0xAFFC_9660 && Shift8(0xAFFC_9658) == 0x651F_2550
    ensures Shift8(0x651F_2569) == 0x340B_C6D9
  {
  }
}
