/** The table-driven CRC-32: bit reversal of the polynomial, the table builder, and the two lookup loops. */
module Crc32Table {
  import opened Bytes
  import opened Crc

  // ----- bit reversal ---------------------------------------------------------------------

  /** The word whose only set bit is the one `k` places below the top. */
  function TopBit(k: nat): bv32
    decreases k
  {
    if k == 0 then 0x8000_0000 else Half(TopBit(k - 1))
  }

  /** Inclusive or under a name, so that proofs can treat it as one symbol. */
  function Or(a: bv32, b: bv32): bv32 { a | b }

  lemma OrRegroups(a: bv32, b: bv32, c: bv32)
    ensures Or(Or(a, b), c) == Or(a, Or(b, c))
    ensures Or(a, 0) == a && Or(0, a) == a
  {
  }

  lemma ShiftLast(x: bv32, n: nat)
    ensures RightShifts(x, n + 1) == Half(RightShifts(x, n))
    decreases n
  {
    hide Half;
    if n > 0 {
      ShiftLast(Half(x), n - 1);
    }
  }

  lemma ShiftOrBits(a: bv32, b: bv32)
    ensures (a | b) >> 1 == (a >> 1) | (b >> 1)
  {
  }

  lemma HalfOr(a: bv32, b: bv32)
    ensures Half(Or(a, b)) == Or(Half(a), Half(b))
  {
    ShiftOrBits(a, b);
  }

  /** The bit that a shift to the left would lose, put where `k` shifts to the right have carried it. */
  lemma {:induction false} TopBitFirst(y: bv32, k: nat)
    ensures RightShifts(y, k) == Or(if IsTopSet(y) then TopBit(k) else 0, RightShifts(y << 1, k + 1))
    decreases k
  {
    if k == 0 {
      assert RightShifts(y << 1, 1) == Half(y << 1);
      FirstBit(y);
    } else {
      hide Or, Half, IsTopSet;
      TopBitFirst(y, k - 1);
      ShiftLast(y, k - 1);
      ShiftLast(y << 1, k);
      HalfOr(if IsTopSet(y) then TopBit(k - 1) else 0, RightShifts(y << 1, k));
      HalfZero();
    }
  }

  predicate IsTopSet(y: bv32) { y & 0x8000_0000 != 0 }

  lemma HalfZero()
    ensures Half(0) == 0
  {
  }

  lemma FirstBit(y: bv32)
    ensures y == Or(if IsTopSet(y) then 0x8000_0000 else 0, Half(y << 1))
  {
    hide Or, IsTopSet;
    OrTop(y, Half(y << 1));
  }

  lemma OrTop(y: bv32, h: bv32)
    requires h == (y << 1) >> 1
    ensures IsTopSet(y) ==> y == Or(0x8000_0000, h)
    ensures !IsTopSet(y) ==> y == Or(0, h)
  {
  }

  lemma NothingLeft(y: bv32)
    ensures RightShifts(y, 32) == 0
  {
    EightHalf4(y);
    hide Half4;
    var a := Half4(Half4(y));
    var b := Half4(Half4(a));
    var c := Half4(Half4(b));
    FourRightShifts(y, 28);
    FourRightShifts(Half4(y), 24);
    FourRightShifts(a, 20);
    FourRightShifts(Half4(a), 16);
    FourRightShifts(b, 12);
    FourRightShifts(Half4(b), 8);
    FourRightShifts(c, 4);
    FourRightShifts(Half4(c), 0);
  }

  lemma EightHalf4(y: bv32)
    ensures Half4(Half4(Half4(Half4(Half4(Half4(Half4(Half4(y)))))))) == 0
  {
  }

  lemma ReverseHalf(c: bv32)
    ensures Reverse(Half(c)) == Reverse(c) << 1
    ensures IsTopSet(Reverse(c)) <==> c & 1 == 1
  {
    ReverseShift(c);
    hide Reverse;
  }

  /** Moving the lowest bit of `data` to its place loses nothing of what is still to be moved. */
  lemma MoveBit(ret: bv32, data: bv32, i: nat)
    ensures Or(ret, RightShifts(Reverse(data), i))
            == Or(if data & 1 == 1 then Or(ret, TopBit(i)) else ret, RightShifts(Reverse(Half(data)), i + 1))
  {
    hide Or, Reverse, Half, IsTopSet;
    TopBitFirst(Reverse(data), i);
    ReverseHalf(data);
    var rest := RightShifts(Reverse(Half(data)), i + 1);
    OrRegroups(ret, TopBit(i), rest);
    OrRegroups(rest, 0, 0);
  }

  /** The loop that moves the 32 bits one at a time yields the reversed word. */
  method BitRev32(input: bv32) returns (ret: bv32)
    ensures ret == Reverse(input)
  {
    hide Or, Reverse, Half, IsTopSet;
    var data := input;
    ret := 0;
    OrRegroups(Reverse(input), 0, 0);
    for i := 0 to 32
      invariant Or(ret, RightShifts(Reverse(data), i)) == Reverse(input)
    {
      MoveBit(ret, data, i);
      if data & 1 == 1 {
        ret := Or(ret, TopBit(i));
      }
      data := Half(data);
    }
    NothingLeft(Reverse(data));
    OrRegroups(ret, 0, 0);
  }

  // ----- the table ------------------------------------------------------------------------

  ghost predicate IsTable(table: seq<bv32>) {
    |table| == 256 && forall k: bv8 :: table[k as int] == Entry(k)
  }

  function Entry(k: bv8): bv32 { Shift8(k as bv32) }

  method TableEntry(poly: bv32, col: bv8) returns (crc: bv32)
    requires poly == POLY32_REFLECTED
    ensures crc == Entry(col)
  {
    var start := col as bv32;
    crc := start;
    for j := 0 to 8
      invariant Shifts(crc, 8 - j) == Shifts(start, 8)
    {
      crc := if crc & 1 == 1 then poly ^ (crc >> 1) else crc >> 1;
    }
    EightShifts(start);
  }

  lemma PolynomialReversed()
    ensures Reverse(POLY32) == POLY32_REFLECTED
  {
  }

  method InitTable(generator: bv32) returns (table: array<bv32>)
    requires generator == POLY32
    ensures fresh(table) && IsTable(table[..])
  {
    hide Entry, Reverse;
    var poly := BitRev32(generator);
    PolynomialReversed();
    table := new bv32[256];
    for col := 0 to 256
      invariant forall k: bv8 :: k as int < col ==> table[k as int] == Entry(k)
    {
      var entry := TableEntry(poly, Bv(col));
      table[col] := entry;
      forall k: bv8 | k as int < col + 1 ensures table[k as int] == Entry(k) {
        if k as int == col { BvOf(k, col); }
      }
    }
  }

  /** One lookup: the table entry of the low byte, with the rest of the register moved down. */
  lemma LookupStep(table: seq<bv32>, c: bv32, b: Byte)
    requires IsTable(table)
    ensures Xor(table[((c ^ Bits(b)) & 0xFF) as bv8 as int], c >> 8) == Feed(c, b)
  {
    BitsAreLow(b);
    var x := Bits(b);
    var k := ((c ^ x) & 0xFF) as bv8;
    assert k as bv32 == (c ^ x) & 0xFF;
    assert table[k as int] == Entry(k);
    hide Shift8, Xor, Bits;
    TableStep(c, x);
  }

  /** The lookup loop that both implementations share, from any register value. */
  method Update(table: array<bv32>, start: bv32, data: array<Byte>, from: nat, len: nat) returns (crc: bv32)
    requires IsTable(table[..]) && from + len <= data.Length
    ensures crc == FeedAll(start, data[from..from + len])
  {
    assert table.Length == 256;
    hide IsTable, Feed;
    crc := start;
    for i := 0 to len
      invariant FeedAll(crc, data[from + i..from + len]) == FeedAll(start, data[from..from + len])
    {
      var b := data[from + i];
      LookupStep(table[..], crc, b);
      assert data[from + i..from + len][1..] == data[from + i + 1..from + len];
      crc := Xor(Lookup(table, crc, b), crc >> 8);
    }
  }

  function Lookup(table: array<bv32>, c: bv32, b: Byte): (r: bv32)
    requires table.Length == 256
    reads table
    ensures r == table[..][((c ^ Bits(b)) & 0xFF) as bv8 as int]
  {
    table[((c ^ Bits(b)) & 0xFF) as bv8 as int]
  }

  /** `crc32_lookup_table`: all ones in, complemented out. */
  method LookupTable(table: array<bv32>, data: array<Byte>, from: nat, len: nat) returns (crc: bv32)
    requires IsTable(table[..]) && from + len <= data.Length
    ensures crc == Crc32(data[from..from + len])
  {
    crc := Update(table, ONES, data, from, len);
    crc := Xor(crc, ONES);
  }

  // ----- segments -------------------------------------------------------------------------

  /** What `mcs_get_crc32` returns for one segment: the register carried on, or 0 for an empty segment. */
  function Segment(pre: bv32, seg: seq<Byte>): bv32 {
    if |seg| == 0 then 0 else FeedAll(pre, seg)
  }

  method GetCrc32(table: array<bv32>, data: array<Byte>, from: nat, len: nat, pre: bv32) returns (crc: bv32)
    requires IsTable(table[..]) && from + len <= data.Length
    ensures crc == Segment(pre, data[from..from + len])
  {
    if len == 0 {
      return 0;
    }
    crc := Update(table, pre, data, from, len);
  }

  /**
   Checksumming a message in two segments is checksumming it whole, exactly when
   both segments have bytes, both are empty, or the register handed to the
   missing step happens to be the 0 that an empty segment returns.
   */
  lemma SegmentsCompose(pre: bv32, a: seq<Byte>, b: seq<Byte>)
    ensures Segment(Segment(pre, a), b) == Segment(pre, a + b)
            <==> (|a| > 0 <==> |b| > 0) || (|a| == 0 && pre == 0) || (|b| == 0 && FeedAll(pre, a) == 0)
  {
    hide Feed;
    FeedAllAppend(pre, a, b);
    if |a| == 0 {
      assert a + b == b;
      if |b| > 0 && FeedAll(0, b) == FeedAll(pre, b) { FeedAllInjective(0, pre, b); }
    } else if |b| == 0 {
      assert a + b == a;
    }
  }

  /** Any number of non-empty segments, started from all ones and complemented at the end, give the checksum. */
  lemma {:induction false} ManySegments(pre: bv32, segments: seq<seq<Byte>>)
    requires forall i :: 0 <= i < |segments| ==> |segments[i]| > 0
    ensures RunSegments(pre, segments) == FeedAll(pre, Concat(segments))
    decreases |segments|
  {
    hide Feed;
    if |segments| > 0 {
      FeedAllAppend(pre, segments[0], Concat(segments[1..]));
      ManySegments(Segment(pre, segments[0]), segments[1..]);
    }
  }

  function RunSegments(pre: bv32, segments: seq<seq<Byte>>): bv32
    decreases |segments|
  {
    if |segments| == 0 then pre else RunSegments(Segment(pre, segments[0]), segments[1..])
  }

  function Concat(segments: seq<seq<Byte>>): seq<Byte> {
    if |segments| == 0 then [] else segments[0] + Concat(segments[1..])
  }
}
