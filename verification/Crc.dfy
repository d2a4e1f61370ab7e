/**
 The checksums.  The tables are defined by eight shift steps of a byte; the
 reference forms feed one bit at a time into a shift register.
 */
module Crc {
  import opened Bytes

  const POLY32: bv32 := 0x04C1_1DB7
  const POLY32_REFLECTED: bv32 := 0xEDB8_8320
  const ONES: bv32 := 0xFFFF_FFFF

  /** Exclusive or under a name, so that proofs can treat it as one symbol. */
  function Xor(a: bv32, b: bv32): bv32 { a ^ b }

  // ----- CRC-32, least significant bit first ----------------------------------------------

  /** One step of the reflected shift register. */
  function Shift(c: bv32): bv32 {
    if c & 1 == 1 then (c >> 1) ^ POLY32_REFLECTED else c >> 1
  }

  function Shift2(c: bv32): bv32 { Shift(Shift(c)) }
  function Shift4(c: bv32): bv32 { Shift2(Shift2(c)) }
  function Shift8(c: bv32): bv32 { Shift4(Shift4(c)) }

  lemma ShiftXor(a: bv32, b: bv32)
    ensures (a ^ b) >> 1 == (a >> 1) ^ (b >> 1)
  {
  }

  lemma LowBits(a: bv32, b: bv32)
    ensures (a ^ b) & 1 == (a & 1) ^ (b & 1)
    ensures a & 1 == 0 || a & 1 == 1
  {
  }

  lemma XorMoves(p: bv32, x: bv32, y: bv32)
    ensures (x ^ p) ^ y == (x ^ y) ^ p
    ensures x ^ (y ^ p) == (x ^ y) ^ p
    ensures (x ^ p) ^ (y ^ p) == x ^ y
    ensures (x ^ y) ^ p == x ^ (y ^ p)
    ensures x ^ y == y ^ x
  {
  }

  lemma XorCancels(x: bv32, y: bv32, z: bv32)
    ensures Xor(x, z) == Xor(y, z) ==> x == y
    ensures Xor(z, x) == Xor(z, y) ==> x == y
    ensures Xor(x, 0) == x
  {
  }

  lemma ShiftLinearBits(a: bv32, b: bv32)
    ensures Shift(a ^ b) == Shift(a) ^ Shift(b)
  {
    ShiftXor(a, b);
    LowBits(a, b);
    LowBits(b, a);
    XorMoves(POLY32_REFLECTED, a >> 1, b >> 1);
  }

  lemma ShiftLinear(a: bv32, b: bv32)
    ensures Shift(Xor(a, b)) == Xor(Shift(a), Shift(b))
  {
    ShiftLinearBits(a, b);
    hide Shift;
  }

  lemma Shift8Linear(a: bv32, b: bv32)
    ensures Shift8(Xor(a, b)) == Xor(Shift8(a), Shift8(b))
  {
    hide Xor, Shift;
    ShiftLinear(a, b);
    ShiftLinear(Shift(a), Shift(b));
    ShiftLinear(Shift2(a), Shift2(b));
    ShiftLinear(Shift(Shift2(a)), Shift(Shift2(b)));
    ShiftLinear(Shift4(a), Shift4(b));
    ShiftLinear(Shift(Shift4(a)), Shift(Shift4(b)));
    ShiftLinear(Shift2(Shift4(a)), Shift2(Shift4(b)));
    ShiftLinear(Shift(Shift2(Shift4(a))), Shift(Shift2(Shift4(b))));
  }

  lemma ShiftInjective(a: bv32, b: bv32)
    requires Shift(a) == Shift(b)
    ensures a == b
  {
  }

  lemma Shift8Injective(a: bv32, b: bv32)
    requires Shift8(a) == Shift8(b)
    ensures a == b
  {
    hide Shift;
    ShiftsBack(Shift4(a), Shift4(b));
    ShiftsBack(a, b);
  }

  lemma ShiftsBack(a: bv32, b: bv32)
    ensures Shift4(a) == Shift4(b) ==> a == b
  {
    hide Shift;
    if Shift4(a) == Shift4(b) {
      ShiftInjective(Shift(Shift2(a)), Shift(Shift2(b)));
      ShiftInjective(Shift2(a), Shift2(b));
      ShiftInjective(Shift(a), Shift(b));
      ShiftInjective(a, b);
    }
  }

  /** With a clear low byte nothing is fed back: eight steps only move the register. */
  lemma Shift8Upper(a: bv32)
    requires a & 0xFF == 0
    ensures Shift8(a) == a >> 8
  {
  }

  lemma SplitLowByte(x: bv32)
    ensures x == Xor(x & 0xFF, (x >> 8) << 8)
    ensures ((x >> 8) << 8) & 0xFF == 0
    ensures ((x >> 8) << 8) >> 8 == x >> 8
  {
  }

  function Bits(b: Byte): bv32 { Bv(b) as bv32 }

  /** The byte-wise step: eight shifts after the byte went into the low end of the register. */
  function Feed(c: bv32, b: Byte): bv32 {
    Shift8(Xor(c, Bits(b)))
  }

  function FeedAll(c: bv32, m: seq<Byte>): bv32
    decreases |m|
  {
    if |m| == 0 then c else FeedAll(Feed(c, m[0]), m[1..])
  }

  lemma TableStep(c: bv32, b: bv32)
    requires b >> 8 == 0
    ensures Xor(Shift8((c ^ b) & 0xFF), c >> 8) == Shift8(Xor(c, b))
  {
    hide Shift8;
    var x := c ^ b;
    SplitLowByte(x);
    HighBytes(c, b);
    TableStepOf(x);
  }

  lemma TableStepOf(x: bv32)
    ensures Shift8(x) == Xor(Shift8(x & 0xFF), x >> 8)
  {
    SplitLowByte(x);
    hide Shift8, Xor;
    Shift8Linear(x & 0xFF, (x >> 8) << 8);
    Shift8Upper((x >> 8) << 8);
  }

  lemma HighBytes(c: bv32, b: bv32)
    requires b >> 8 == 0
    ensures (c ^ b) >> 8 == c >> 8
  {
  }

  lemma BitsAreLow(b: Byte)
    ensures Bits(b) >> 8 == 0
  {
  }

  lemma BitsInjective(a: Byte, b: Byte)
    requires Bits(a) == Bits(b)
    ensures a == b
  {
    BvRoundTrip(a);
    BvRoundTrip(b);
  }

  // ----- the messages ---------------------------------------------------------------------

  function Crc32(m: seq<Byte>): bv32 {
    Xor(FeedAll(ONES, m), ONES)
  }

  lemma {:induction false} FeedAllAppend(c: bv32, m: seq<Byte>, k: seq<Byte>)
    ensures FeedAll(c, m + k) == FeedAll(FeedAll(c, m), k)
    decreases |m|
  {
    hide Feed;
    if |m| == 0 {
      assert m + k == k;
    } else {
      assert (m + k)[1..] == m[1..] + k;
      FeedAllAppend(Feed(c, m[0]), m[1..], k);
    }
  }

  // ----- the bit-serial reference ---------------------------------------------------------

  /** The shift register fed one message bit at a time, least significant bit first. */
  function Serial(c: bv32, x: bv32, bits: nat): bv32
    decreases bits
  {
    if bits == 0 then c else Serial(Shift(Xor(c, x & 1)), x >> 1, bits - 1)
  }

  lemma PeelBit(c: bv32, x: bv32)
    ensures Shift(Xor(c, x)) == Xor(Shift(Xor(c, x & 1)), x >> 1)
  {
    SplitLowBit(c, x);
    hide Shift, Xor;
    ShiftLinear(Xor(c, x & 1), (x >> 1) << 1);
    EvenShift((x >> 1) << 1);
  }

  lemma SplitLowBit(c: bv32, x: bv32)
    ensures Xor(c, x) == Xor(Xor(c, x & 1), (x >> 1) << 1)
    ensures ((x >> 1) << 1) >> 1 == x >> 1
    ensures ((x >> 1) << 1) & 1 == 0
  {
  }

  lemma EvenShift(y: bv32)
    requires y & 1 == 0
    ensures Shift(y) == y >> 1
  {
  }

  function Shifts(c: bv32, n: nat): bv32
    decreases n
  {
    if n == 0 then c else Shifts(Shift(c), n - 1)
  }

  function Half(x: bv32): bv32 { x >> 1 }

  function RightShifts(x: bv32, n: nat): bv32
    decreases n
  {
    if n == 0 then x else RightShifts(Half(x), n - 1)
  }

  lemma {:induction false} SerialIsShifts(c: bv32, x: bv32, n: nat)
    ensures Shifts(Xor(c, x), n) == Xor(Serial(c, x, n), RightShifts(x, n))
    decreases n
  {
    hide Shift, Xor;
    if n > 0 {
      PeelBit(c, x);
      SerialIsShifts(Shift(Xor(c, x & 1)), x >> 1, n - 1);
    }
  }

  lemma FourShifts(c: bv32, n: nat)
    ensures Shifts(c, n + 4) == Shifts(Shift4(c), n)
  {
    hide Shift;
    assert Shifts(c, n + 4) == Shifts(Shift(c), n + 3);
    assert Shifts(Shift(c), n + 3) == Shifts(Shift2(c), n + 2);
    assert Shifts(Shift2(c), n + 2) == Shifts(Shift(Shift2(c)), n + 1);
  }

  lemma EightShifts(c: bv32)
    ensures Shifts(c, 8) == Shift8(c)
  {
    hide Shift4;
    FourShifts(c, 4);
    FourShifts(Shift4(c), 0);
  }

  function Half4(x: bv32): bv32 { x >> 4 }

  lemma FourRightShifts(x: bv32, n: nat)
    ensures RightShifts(x, n + 4) == RightShifts(Half4(x), n)
  {
    FourHalves(x);
    hide Half, Half4;
    assert RightShifts(x, n + 4) == RightShifts(Half(x), n + 3);
    assert RightShifts(Half(x), n + 3) == RightShifts(Half(Half(x)), n + 2);
    assert RightShifts(Half(Half(x)), n + 2) == RightShifts(Half(Half(Half(x))), n + 1);
  }

  lemma FourHalves(x: bv32)
    ensures Half(Half(Half(Half(x)))) == Half4(x)
  {
  }

  lemma EightRightShifts(x: bv32)
    requires x >> 8 == 0
    ensures RightShifts(x, 8) == 0
  {
    assert Half4(Half4(x)) == x >> 8;
    hide Half4;
    FourRightShifts(x, 4);
    FourRightShifts(Half4(x), 0);
  }

  /** The byte step is eight steps of the bit-serial register. */
  lemma FeedIsSerial(c: bv32, b: Byte)
    ensures Feed(c, b) == Serial(c, Bits(b), 8)
  {
    BitsAreLow(b);
    var x := Bits(b);
    hide Shift8, Bits, Xor;
    EightShifts(Xor(c, x));
    XorCancels(Serial(c, x, 8), c, c);
    EightRightShifts(x);
    SerialIsShifts(c, x, 8);
  }

  // ----- the reflected register is the plain one read backwards ---------------------------

  /** The 32 bits in reverse order, by exchanging halves, bytes, nibbles, pairs and neighbours. */
  function Reverse(x: bv32): bv32 {
    var a := (x >> 16) | (x << 16);
    var b := ((a & 0xFF00_FF00) >> 8) | ((a & 0x00FF_00FF) << 8);
    var c := ((b & 0xF0F0_F0F0) >> 4) | ((b & 0x0F0F_0F0F) << 4);
    var d := ((c & 0xCCCC_CCCC) >> 2) | ((c & 0x3333_3333) << 2);
    ((d & 0xAAAA_AAAA) >> 1) | ((d & 0x5555_5555) << 1)
  }

  /** One step of division by the generator polynomial, most significant bit first. */
  function Divide(c: bv32): bv32 {
    if c & 0x8000_0000 != 0 then (c << 1) ^ POLY32 else c << 1
  }

  lemma ReverseXor(a: bv32, b: bv32)
    ensures Reverse(a ^ b) == Reverse(a) ^ Reverse(b)
  {
  }

  lemma ReverseShift(c: bv32)
    ensures Reverse(c >> 1) == Reverse(c) << 1
    ensures Reverse(c) & 0x8000_0000 != 0 <==> c & 1 == 1
  {
  }

  lemma ShiftIsReversedDivision(c: bv32)
    ensures Reverse(Shift(c)) == Divide(Reverse(c))
  {
    ReverseShift(c);
    ReverseXor(c >> 1, POLY32_REFLECTED);
    assert Reverse(POLY32_REFLECTED) == POLY32;
    hide Reverse;
  }

  // ----- detection ------------------------------------------------------------------------

  lemma FeedInjective(c: bv32, d: bv32, b: Byte)
    requires Feed(c, b) == Feed(d, b)
    ensures c == d
  {
    hide Bits, Shift8, Xor;
    Shift8Injective(Xor(c, Bits(b)), Xor(d, Bits(b)));
    XorCancels(c, d, Bits(b));
  }

  lemma {:induction false} FeedAllInjective(c: bv32, d: bv32, m: seq<Byte>)
    requires FeedAll(c, m) == FeedAll(d, m)
    ensures c == d
    decreases |m|
  {
    hide Feed;
    if |m| > 0 {
      FeedAllInjective(Feed(c, m[0]), Feed(d, m[0]), m[1..]);
      FeedInjective(c, d, m[0]);
    }
  }

  /** Up to four bytes as one word, the first one lowest. */
  function Word(m: seq<Byte>): bv32 {
    if |m| == 0 then 0 else Xor(Bits(m[0]), Word(m[1..]) << 8)
  }

  lemma WordWidth(m: seq<Byte>)
    requires |m| <= 3
    ensures Word(m) >> 24 == 0
  {
    if |m| > 0 {
      BitsAreLow(m[0]);
      if |m| > 1 {
        BitsAreLow(m[1]);
        if |m| > 2 {
          BitsAreLow(m[2]);
          assert Word(m[1..][1..][1..]) == 0;
          assert Word(m[1..][1..]) == Xor(Bits(m[2]), 0);
          assert Word(m[1..]) == Xor(Bits(m[1]), Word(m[1..][1..]) << 8);
          hide Bits;
          Widths(Bits(m[0]), Bits(m[1]), Bits(m[2]));
        } else {
          assert Word(m[1..]) == Xor(Bits(m[1]), 0);
          hide Bits;
          Widths(Bits(m[0]), Bits(m[1]), 0);
        }
      } else {
        assert Word(m) == Xor(Bits(m[0]), 0);
        hide Bits;
        Widths(Bits(m[0]), 0, 0);
      }
    }
  }

  lemma Widths(x: bv32, y: bv32, z: bv32)
    requires x >> 8 == 0 && y >> 8 == 0 && z >> 8 == 0
    ensures Xor(x, Xor(y, Xor(z, 0) << 8) << 8) >> 24 == 0
    ensures Xor(x, Xor(y, 0) << 8) >> 24 == 0
    ensures Xor(x, 0) >> 24 == 0
  {
  }

  function ByteShifts(c: bv32, n: nat): bv32
    decreases n
  {
    if n == 0 then c else ByteShifts(Shift8(c), n - 1)
  }

  lemma {:induction false} ByteShiftsInjective(c: bv32, d: bv32, n: nat)
    requires ByteShifts(c, n) == ByteShifts(d, n)
    ensures c == d
    decreases n
  {
    hide Shift8;
    if n > 0 {
      ByteShiftsInjective(Shift8(c), Shift8(d), n - 1);
      Shift8Injective(c, d);
    }
  }

  /** Feeding up to four bytes is feeding their word at once. */
  lemma {:induction false} FeedWord(c: bv32, m: seq<Byte>)
    requires |m| <= 4
    ensures FeedAll(c, m) == ByteShifts(Xor(c, Word(m)), |m|)
    decreases |m|
  {
    hide Shift8, Xor, Bits;
    if |m| == 0 {
      XorCancels(c, c, c);
    } else {
      var x, w := Bits(m[0]), Word(m[1..]);
      WordWidth(m[1..]);
      Lift(c, x, w);
      FeedWord(Feed(c, m[0]), m[1..]);
    }
  }

  /** A byte that waits above the low byte comes down, untouched, in the eight shifts that consume the low byte. */
  lemma Lift(c: bv32, x: bv32, w: bv32)
    requires w >> 24 == 0
    ensures Shift8(Xor(c, Xor(x, w << 8))) == Xor(Shift8(Xor(c, x)), w)
  {
    hide Shift8, Xor;
    var l := w << 8;
    Regroup(c, x, l);
    LiftedIsClear(w);
    Shift8Linear(Xor(c, x), l);
    Shift8Upper(l);
  }

  lemma LiftedIsClear(w: bv32)
    requires w >> 24 == 0
    ensures (w << 8) >> 8 == w && (w << 8) & 0xFF == 0
  {
  }

  lemma Regroup(c: bv32, x: bv32, y: bv32)
    ensures Xor(c, Xor(x, y)) == Xor(Xor(c, x), y)
  {
  }

  lemma {:induction false} WordInjective(a: seq<Byte>, b: seq<Byte>)
    requires |a| == |b| <= 4 && Word(a) == Word(b)
    ensures a == b
    decreases |a|
  {
    hide Bits, Xor;
    if |a| > 0 {
      WordWidth(a[1..]);
      WordWidth(b[1..]);
      BitsAreLow(a[0]);
      BitsAreLow(b[0]);
      SplitWord(Bits(a[0]), Bits(b[0]), Word(a[1..]), Word(b[1..]));
      BitsInjective(a[0], b[0]);
      WordInjective(a[1..], b[1..]);
      assert a == [a[0]] + a[1..] && b == [b[0]] + b[1..];
    }
  }

  lemma SplitWord(x: bv32, y: bv32, v: bv32, w: bv32)
    requires x >> 8 == 0 && y >> 8 == 0 && v >> 24 == 0 && w >> 24 == 0
    requires Xor(x, v << 8) == Xor(y, w << 8)
    ensures x == y && v == w
  {
  }

  /** Messages that differ only inside a window of at most four bytes have different checksums. */
  lemma BurstDetected(before: seq<Byte>, a: seq<Byte>, b: seq<Byte>, after: seq<Byte>)
    requires |a| == |b| <= 4 && a != b
    ensures Crc32(before + a + after) != Crc32(before + b + after)
  {
    hide Feed;
    FeedAllAppend(ONES, before + a, after);
    FeedAllAppend(ONES, before, a);
    FeedAllAppend(ONES, before + b, after);
    FeedAllAppend(ONES, before, b);
    var c := FeedAll(ONES, before);
    if Crc32(before + a + after) == Crc32(before + b + after) {
      XorCancels(FeedAll(ONES, before + a + after), FeedAll(ONES, before + b + after), ONES);
      FeedAllInjective(FeedAll(c, a), FeedAll(c, b), after);
      FeedWord(c, a);
      FeedWord(c, b);
      ByteShiftsInjective(Xor(c, Word(a)), Xor(c, Word(b)), |a|);
      XorCancels(Word(a), Word(b), c);
      WordInjective(a, b);
    }
  }

  // ----- the checksum as four bytes in network byte order ---------------------------------

  function ByteOf(v: bv32): Byte { ((v & 0xFF) as bv8) as int }

  function Be32(c: bv32): (b: seq<Byte>)
    ensures |b| == 4
  {
    [ByteOf(c >> 24), ByteOf(c >> 16), ByteOf(c >> 8), ByteOf(c)]
  }

  function Join(w: bv32, x: bv32, y: bv32, z: bv32): bv32 {
    (w << 24) | (x << 16) | (y << 8) | z
  }

  function Read32(b: seq<Byte>): bv32
    requires |b| == 4
  {
    Join(Bits(b[0]), Bits(b[1]), Bits(b[2]), Bits(b[3]))
  }

  lemma ByteOfBits(v: bv32)
    ensures Bits(ByteOf(v)) == v & 0xFF
  {
    BvOf((v & 0xFF) as bv8, ByteOf(v));
  }

  lemma Be32RoundTrip(c: bv32)
    ensures Read32(Be32(c)) == c
  {
    hide Bits, Join, ByteOf;
    ByteOfBits(c >> 24);
    ByteOfBits(c >> 16);
    ByteOfBits(c >> 8);
    ByteOfBits(c);
    FourBytes(c);
  }

  lemma FourBytes(c: bv32)
    ensures Join((c >> 24) & 0xFF, (c >> 16) & 0xFF, (c >> 8) & 0xFF, c & 0xFF) == c
  {
  }
}
