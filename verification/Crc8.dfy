/** The CRC-8 of the base-band frame header: polynomial 0xD5, most significant bit first, initial value 0. */
module Crc8 {
  import opened Bytes

  const POLY8: bv8 := 0xD5

  /** One step of division by the generator polynomial. */
  function Divide(v: bv8): bv8 {
    if v & 0x80 != 0 then (v << 1) ^ POLY8 else v << 1
  }

  function Divide2(v: bv8): bv8 { Divide(Divide(v)) }
  function Divide4(v: bv8): bv8 { Divide2(Divide2(v)) }
  function Divide8(v: bv8): bv8 { Divide4(Divide4(v)) }

  function Feed(c: bv8, b: bv8): bv8 { Divide8(c ^ b) }

  function FeedAll(c: bv8, m: seq<Byte>): bv8
    decreases |m|
  {
    if |m| == 0 then c else FeedAll(Feed(c, Bv(m[0])), m[1..])
  }

  function Crc(m: seq<Byte>): bv8 { FeedAll(0, m) }

  // ----- the table builder keeps its running value in 32 bits and never masks it ----------

  function WideDivide(v: bv32): bv32 {
    if v & 0x80 != 0 then (v << 1) ^ 0xD5 else v << 1
  }

  function Low(v: bv32): bv8 { (v & 0xFF) as bv8 }

  /** Bits above the eighth never come back, so truncating at the end is as good as truncating all along. */
  lemma WideIsNarrow(v: bv32)
    ensures Low(WideDivide(v)) == Divide(Low(v))
  {
  }

  function Divides(v: bv8, n: nat): bv8
    decreases n
  {
    if n == 0 then v else Divide(Divides(v, n - 1))
  }

  lemma EightDivides(v: bv8)
    ensures Divides(v, 8) == Divide8(v)
  {
    hide Divide;
    assert Divides(v, 1) == Divide(v);
    assert Divides(v, 3) == Divide(Divide2(v));
    assert Divides(v, 4) == Divide4(v);
    assert Divides(v, 6) == Divide2(Divide4(v));
  }

  /** The table that `mcs_init_crc8_table` builds. */
  ghost predicate IsTable(table: seq<bv8>) {
    |table| == 256 && forall k: bv8 :: table[k as int] == Divide8(k)
  }

  /** The inner loop of the table builder. */
  method TableEntry(start: bv8) returns (entry: bv8)
    ensures entry == Divide8(start)
  {
    var value := start as bv32;
    for bit := 0 to 8
      invariant Low(value) == Divides(start, bit)
    {
      WideIsNarrow(value);
      if value & 0x80 != 0 {
        value := (value << 1) ^ 0xD5;
      } else {
        value := value << 1;
      }
    }
    EightDivides(start);
    entry := Low(value);
  }

  method InitTable() returns (table: array<bv8>)
    ensures fresh(table) && IsTable(table[..])
  {
    hide Divide8;
    table := new bv8[256];
    for col := 0 to 256
      invariant forall k: bv8 :: k as int < col ==> table[k as int] == Divide8(k)
    {
      var entry := TableEntry(Bv(col));
      table[col] := entry;
      forall k: bv8 | k as int < col + 1 ensures table[k as int] == Divide8(k) {
        if k as int == col { BvOf(k, col); }
      }
    }
  }

  /** The lookup loop. */
  method Lookup(table: array<bv8>, data: array<Byte>, from: nat, len: nat) returns (crc: bv8)
    requires IsTable(table[..]) && from + len <= data.Length
    ensures crc == Crc(data[from..from + len])
  {
    hide Divide8;
    crc := 0;
    for i := 0 to len
      invariant FeedAll(crc, data[from + i..from + len]) == Crc(data[from..from + len])
    {
      var b := Bv(data[from + i]);
      assert data[from + i..from + len][1..] == data[from + i + 1..from + len];
      crc := table[..][(crc ^ b) as int];
    }
  }

  // ----- the bit-serial reference ---------------------------------------------------------

  /** The register fed one message bit at a time, most significant bit first. */
  function Serial(c: bv8, x: bv8, bits: nat): bv8
    decreases bits
  {
    if bits == 0 then c else Serial(Divide(c ^ (x & 0x80)), x << 1, bits - 1)
  }

  lemma PeelBit(c: bv8, x: bv8)
    ensures Divide(c ^ x) == Divide(c ^ (x & 0x80)) ^ (x << 1)
  {
    var v, top := c ^ x, c ^ (x & 0x80);
    PeelShift(c, x, v, top);
    DivideIs(v);
    DivideIs(top);
    hide Divide;
  }

  lemma DivideIs(v: bv8)
    ensures Divide(v) == if v & 0x80 != 0 then (v << 1) ^ 0xD5 else v << 1
  {
  }

  lemma PeelShift(c: bv8, x: bv8, v: bv8, top: bv8)
    requires v == c ^ x && top == c ^ (x & 0x80)
    ensures (if v & 0x80 != 0 then (v << 1) ^ 0xD5 else v << 1)
         == (if top & 0x80 != 0 then (top << 1) ^ 0xD5 else top << 1) ^ (x << 1)
  {
  }

  function LeftShifts(x: bv8, n: nat): bv8
    decreases n
  {
    if n == 0 then x else LeftShifts(x << 1, n - 1)
  }

  lemma {:induction false} SerialIsDivides(c: bv8, x: bv8, n: nat)
    ensures DividesOn(c ^ x, n) == Serial(c, x, n) ^ LeftShifts(x, n)
    decreases n
  {
    hide Divide;
    if n > 0 {
      var d, y := Divide(c ^ (x & 0x80)), x << 1;
      PeelBit(c, x);
      SerialIsDivides(d, y, n - 1);
      assert DividesOn(c ^ x, n) == DividesOn(d ^ y, n - 1);
      assert Serial(c, x, n) == Serial(d, y, n - 1) && LeftShifts(x, n) == LeftShifts(y, n - 1);
    }
  }

  function DividesOn(v: bv8, n: nat): bv8
    decreases n
  {
    if n == 0 then v else DividesOn(Divide(v), n - 1)
  }

  lemma EightDividesOn(v: bv8)
    ensures DividesOn(v, 8) == Divide8(v)
  {
    hide Divide;
    var v4 := Divide4(v);
    assert DividesOn(v, 8) == DividesOn(Divide2(v), 6);
    assert DividesOn(Divide2(v), 6) == DividesOn(v4, 4);
    assert DividesOn(v4, 4) == DividesOn(Divide2(v4), 2);
    assert DividesOn(Divide2(v4), 2) == Divide4(v4);
  }

  lemma EightLeftShifts(x: bv8)
    ensures LeftShifts(x, 8) == 0
  {
    assert LeftShifts(x, 8) == LeftShifts(x << 2, 6) by { assert (x << 1) << 1 == x << 2; }
    assert LeftShifts(x << 2, 6) == LeftShifts(x << 4, 4) by { assert ((x << 2) << 1) << 1 == x << 4; }
    assert LeftShifts(x << 4, 4) == LeftShifts(x << 6, 2) by { assert ((x << 4) << 1) << 1 == x << 6; }
    assert ((x << 6) << 1) << 1 == 0;
  }

  /** The byte step of the table is eight steps of the bit-serial register. */
  lemma FeedIsSerial(c: bv8, b: bv8)
    ensures Feed(c, b) == Serial(c, b, 8)
  {
    EightDividesOn(c ^ b);
    EightLeftShifts(b);
    SerialIsDivides(c, b, 8);
    hide Divide8;
  }

  // ----- detection ------------------------------------------------------------------------

  lemma DivideInjective(a: bv8, b: bv8)
    requires Divide(a) == Divide(b)
    ensures a == b
  {
  }

  lemma Divide8Injective(a: bv8, b: bv8)
    requires Divide8(a) == Divide8(b)
    ensures a == b
  {
    hide Divide;
    Divide4Injective(Divide4(a), Divide4(b));
    Divide4Injective(a, b);
  }

  lemma Divide4Injective(a: bv8, b: bv8)
    requires Divide4(a) == Divide4(b)
    ensures a == b
  {
    hide Divide;
    DivideInjective(Divide(Divide2(a)), Divide(Divide2(b)));
    DivideInjective(Divide2(a), Divide2(b));
    DivideInjective(Divide(a), Divide(b));
    DivideInjective(a, b);
  }

  lemma FeedInjective(c: bv8, d: bv8, a: bv8, b: bv8)
    requires Feed(c, a) == Feed(d, b)
    ensures a == b ==> c == d
    ensures c == d ==> a == b
  {
    hide Divide8;
    Divide8Injective(c ^ a, d ^ b);
    XorCancels(c, d, a, b);
  }

  lemma XorCancels(c: bv8, d: bv8, a: bv8, b: bv8)
    requires c ^ a == d ^ b
    ensures a == b ==> c == d
    ensures c == d ==> a == b
  {
  }

  lemma {:induction false} FeedAllInjective(c: bv8, d: bv8, m: seq<Byte>)
    requires FeedAll(c, m) == FeedAll(d, m)
    ensures c == d
    decreases |m|
  {
    hide Feed;
    if |m| > 0 {
      var b := Bv(m[0]);
      FeedAllInjective(Feed(c, b), Feed(d, b), m[1..]);
      FeedInjective(c, d, b, b);
    }
  }

  lemma {:induction false} FeedAllAppend(c: bv8, m: seq<Byte>, k: seq<Byte>)
    ensures FeedAll(c, m + k) == FeedAll(FeedAll(c, m), k)
    decreases |m|
  {
    hide Feed;
    if |m| == 0 {
      assert m + k == k;
    } else {
      assert (m + k)[1..] == m[1..] + k;
      FeedAllAppend(Feed(c, Bv(m[0])), m[1..], k);
    }
  }

  /** Changing one byte of a message changes its checksum. */
  lemma SingleByteDetected(before: seq<Byte>, a: Byte, b: Byte, after: seq<Byte>)
    requires a != b
    ensures Crc(before + [a] + after) != Crc(before + [b] + after)
  {
    hide Feed;
    var c := FeedAll(0, before);
    FeedAllAppend(0, before + [a], after);
    FeedAllAppend(0, before, [a]);
    FeedAllAppend(0, before + [b], after);
    FeedAllAppend(0, before, [b]);
    if Crc(before + [a] + after) == Crc(before + [b] + after) {
      FeedAllInjective(FeedAll(c, [a]), FeedAll(c, [b]), after);
      assert FeedAll(c, [a]) == Feed(c, Bv(a)) && FeedAll(c, [b]) == Feed(c, Bv(b));
      FeedInjective(c, c, Bv(a), Bv(b));
      BvRoundTrip(a);
      BvRoundTrip(b);
    }
  }

  // ----- what the checksum is -----------------------------------------------------------------

  /** A message with its checksum behind it leaves nothing, and only the right checksum does. */
  lemma NothingRemains(m: seq<Byte>, b: Byte)
    ensures FeedAll(0, m + [b]) == 0 <==> Bv(b) == Crc(m)
  {
    hide Divide8;
    FeedAllAppend(0, m, [b]);
    assert [b][1..] == [];
    ZeroDivides(FeedAll(0, m), Bv(b));
  }

  lemma ZeroDivides(c: bv8, b: bv8)
    ensures Feed(c, b) == 0 <==> b == c
  {
    assert c ^ c == 0 && Divide8(0) == 0;
    if b == c {
    } else if Feed(c, b) == 0 {
      hide Divide8;
      FeedInjective(b, c, b, b);
      assert false;
    }
  }

  /** The usual check value: the checksum of the digits from 1 to 9. */
  lemma CheckValue()
    ensures Crc([0x31, 0x32, 0x33, 0x34, 0x35, 0x36, 0x37, 0x38, 0x39]) == 0xBC && Crc([]) == 0
  {
    hide Feed, FeedAll, Bv;
    CheckSteps();
    CheckBytes();
    Ends();
    var m9: seq<Byte> := [];
    var m8 := [0x39];
    var m7 := [0x38, 0x39];
    var m6 := [0x37, 0x38, 0x39];
    var m5 := [0x36, 0x37, 0x38, 0x39];
    var m4 := [0x35, 0x36, 0x37, 0x38, 0x39];
    var m3 := [0x34, 0x35, 0x36, 0x37, 0x38, 0x39];
    var m2 := [0x33, 0x34, 0x35, 0x36, 0x37, 0x38, 0x39];
    var m1 := [0x32, 0x33, 0x34, 0x35, 0x36, 0x37, 0x38, 0x39];
    var m0 := [0x31, 0x32, 0x33, 0x34, 0x35, 0x36, 0x37, 0x38, 0x39];
    assert m0 == [0x31] + m1 && m1 == [0x32] + m2 && m2 == [0x33] + m3;
    assert m3 == [0x34] + m4 && m4 == [0x35] + m5 && m5 == [0x36] + m6;
    assert m6 == [0x37] + m7 && m7 == [0x38] + m8 && m8 == [0x39] + m9;
    NextByte(0x45, 0xBC, 0x39, m9);
    NextByte(0xBB, 0x45, 0x38, m8);
    NextByte(0xB0, 0xBB, 0x37, m7);
    NextByte(0x64, 0xB0, 0x36, m6);
    NextByte(0x8A, 0x64, 0x35, m5);
    NextByte(0xE7, 0x8A, 0x34, m4);
    NextByte(0x87, 0xE7, 0x33, m3);
    NextByte(0x23, 0x87, 0x32, m2);
    NextByte(0x00, 0x23, 0x31, m1);
  }

  lemma Ends()
    ensures forall c: bv8 :: FeedAll(c, []) == c
  {
  }

  lemma NextByte(c: bv8, d: bv8, b: Byte, rest: seq<Byte>)
    requires Feed(c, Bv(b)) == d
    ensures FeedAll(c, [b] + rest) == FeedAll(d, rest)
  {
    hide Feed;
    assert ([b] + rest)[1..] == rest;
  }

  lemma CheckBytes()
    ensures Bv(0x31) == 0x31
    ensures Bv(0x32) == 0x32
    ensures Bv(0x33) == 0x33
    ensures Bv(0x34) == 0x34
    ensures Bv(0x35) == 0x35
    ensures Bv(0x36) == 0x36
    ensures Bv(0x37) == 0x37
    ensures Bv(0x38) == 0x38
    ensures Bv(0x39) == 0x39
  {
    BvOf(0x31, 0x31);
    BvOf(0x32, 0x32);
    BvOf(0x33, 0x33);
    BvOf(0x34, 0x34);
    BvOf(0x35, 0x35);
    BvOf(0x36, 0x36);
    BvOf(0x37, 0x37);
    BvOf(0x38, 0x38);
    BvOf(0x39, 0x39);
  }

  lemma CheckSteps()
    ensures Feed(0x00, 0x31) == 0x23
    ensures Feed(0x23, 0x32) == 0x87
    ensures Feed(0x87, 0x33) == 0xE7
    ensures Feed(0xE7, 0x34) == 0x8A
    ensures Feed(0x8A, 0x35) == 0x64
    ensures Feed(0x64, 0x36) == 0xB0
    ensures Feed(0xB0, 0x37) == 0xBB
    ensures Feed(0xBB, 0x38) == 0x45
    ensures Feed(0x45, 0x39) == 0xBC
  {
  }
}
