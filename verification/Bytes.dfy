/** Bytes and the fixed-width fields made of them. */
module Bytes {
  type Byte = x: int | 0 <= x < 256
  type U16 = x: int | 0 <= x < 0x1_0000

  /** A packet as the gateway takes it in and hands it out. */
  datatype Pdu = Pdu(protocol: U16, bytes: seq<Byte>)

  /** Truncation to an unsigned 16-bit variable. */
  function ToU16(x: int): U16 { x % 0x1_0000 }

  lemma Fits(n: nat)
    requires n < 0x1_0000
    ensures ToU16(n) == n
  {
  }

  /** A 16-bit field in network byte order. */
  function Be16(x: U16): (b: seq<Byte>)
    ensures |b| == 2
  {
    [x / 256, x % 256]
  }

  /** The byte at `i`; the model reads 0 behind the end of a buffer, where the source would read foreign memory. */
  function At(b: seq<Byte>, i: int): Byte {
    if 0 <= i < |b| then b[i] else 0
  }

  function Read16(b: seq<Byte>, i: int): U16 {
    At(b, i) * 256 + At(b, i + 1)
  }

  lemma Be16RoundTrip(b: seq<Byte>, i: nat, x: U16)
    requires i + 2 <= |b| && b[i..i + 2] == Be16(x)
    ensures Read16(b, i) == x
  {
    assert b[i] == b[i..i + 2][0] && b[i + 1] == b[i..i + 2][1];
  }

  function Zeros(n: nat): (b: seq<Byte>)
    ensures |b| == n
  {
    seq(n, i => 0)
  }

  /** The byte as eight bits, counted up from zero. */
  function Bv(b: Byte): bv8 {
    if b == 0 then 0 else Bv(b - 1) + 1
  }

  lemma {:induction false} BvRoundTrip(b: Byte)
    ensures Bv(b) as int == b
  {
    if b > 0 {
      BvRoundTrip(b - 1);
      Successor(Bv(b - 1));
    }
  }

  lemma Successor(v: bv8)
    requires v as int < 255
    ensures (v + 1) as int == v as int + 1
  {
  }

  lemma BvOf(v: bv8, b: Byte)
    requires v as int == b
    ensures v == Bv(b)
  {
    BvRoundTrip(b);
    SameBits(v, Bv(b));
  }

  lemma SameBits(v: bv8, w: bv8)
    requires v as int == w as int
    ensures v == w
  {
    assert (v as int) as bv8 == v && (w as int) as bv8 == w;
  }
}
