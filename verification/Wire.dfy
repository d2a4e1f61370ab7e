/** The bytes on the wire, written out: what any other receiver of these frames relies on. */
module Wire {
  import opened Bytes
  import opened GseFormat
  import opened Framing
  import opened Fragments
  import opened Packing
  import Crc
  import Crc8

  /** A field of two bytes, the high one first. */
  function Word(n: nat): (b: seq<Byte>)
    requires n < 0x1_0000
    ensures |b| == 2
  {
    [n / 256, n % 256]
  }

  /** A whole packet: 0xE and twelve bits of length, the packet's type, and the packet. */
  lemma WholeOnTheWire(p: Packet)
    requires GoodPacket(p) && |p.pdu.bytes| <= MAX_WHOLE
    ensures Encode(WholeGroup(p)) == Word(0xE000 + 2 + |p.pdu.bytes|) + Word(p.pdu.protocol) + p.pdu.bytes
  {
    hide GseLength, DataLength, FixedHeader, VariableHeader, HeaderBytes;
    WholeSize(p);
    WholeHeader(WholeGroup(p));
  }

  lemma WholeHeader(g: Group)
    requires !g.fragmented && g.address.Broadcast? && DataLength(g) > 0 && GseLength(g) <= 4095 && g.headers == []
    ensures FixedHeader(g) == 0xE000 + GseLength(g)
    ensures VariableHeader(g) == Word(g.protocol) && HeaderBytes(g.headers) == []
  {
    hide GseLength, DataLength;
    assert LabelBytes(g) == [];
  }

  lemma WholeSize(p: Packet)
    requires GoodPacket(p) && |p.pdu.bytes| <= MAX_WHOLE
    ensures GseLength(WholeGroup(p)) == 2 + |p.pdu.bytes| && DataLength(WholeGroup(p)) > 0
  {
    var g := WholeGroup(p);
    hide GseLength, TotalLength, Encode;
    WholeLength(p);
    Measured(g);
    PayloadCounted(g);
  }

  /**
   A piece of a cut packet: its place and twelve bits of length, the fragment
   ID, in a start the total length with type and sequence header, then the
   sequence header with stamp and number, and the bytes; an end has the packet's
   checksum behind them.
   */
  lemma PieceOnTheWire(p: Packet, plan: Plan, payload: nat, t: nat)
    requires GoodPacket(p) && plan.Cut? && GoodPlan(p, plan, payload) && t < plan.split.total && payload <= 7264
    ensures
      var bytes := Slice(p.pdu.bytes, OffsetOf(plan.split, t), SizeOf(plan.split, t));
      var sequence := [2, 2] + Word(plan.stamp * 8 + t);
      var checksum := Crc.Be32(Crc.Crc32(p.pdu.bytes));
      |bytes| <= 4088 &&
      Encode(PieceGroup(p, plan, t)) == match PartOf(plan.split, t)
        case Start =>
          Word(0xA000 + 9 + |bytes|) + [plan.id] + Word(2 + |p.pdu.bytes| + 4) + sequence + Word(p.pdu.protocol) + bytes
        case Middle => Word(0x2000 + 7 + |bytes|) + [plan.id] + sequence + Word(0) + bytes
        case End => Word(0x6000 + 11 + |bytes|) + [plan.id] + sequence + Word(0) + bytes + checksum
  {
    hide GseLength, Slice, OffsetOf, SizeOf, Crc.Be32, Crc.Crc32, Exact, Encode, TotalField, DataLength, ToU16;
    Fits(|p.pdu.bytes|);
    var g := PieceGroup(p, plan, t);
    PieceSize(p, plan, payload, t);
    FragmentOnTheWire(g, Be16(plan.stamp * 8 + t), g.protocol);
    if PartOf(plan.split, t).Start? { TotalIs(g); }
  }

  lemma TotalIs(g: Group)
    requires DataLength(g) > 0 && g.address.Broadcast? && |g.headers| == 1 && |g.headers[0].value| == 2
    requires g.wholeLength + 6 < 0x1_0000
    ensures TotalField(g) == 2 + g.wholeLength + 4
  {
    hide DataLength;
    assert HeadersSize(g.headers) == 4;
  }

  lemma FragmentOnTheWire(g: Group, value: seq<Byte>, next: U16)
    requires g.fragmented && g.address.Broadcast? && DataLength(g) > 0 && GseLength(g) <= 4095
    requires |value| == 2 && g.headers == [OptHeader(FRAG_SEQUENCE, value, next)]
    ensures var sequence := [2, 2] + value;
      Encode(g) == match g.part
        case Start => Word(0xA000 + GseLength(g)) + [g.id] + Word(TotalField(g)) + sequence + Word(next) + g.data
        case Middle => Word(0x2000 + GseLength(g)) + [g.id] + sequence + Word(next) + g.data
        case End => Word(0x6000 + GseLength(g)) + [g.id] + sequence + Word(next) + g.data + Crc.Be32(g.crc)
  {
    hide GseLength, Crc.Be32, TotalField, DataLength, FixedHeader, VariableHeader, HeaderBytes;
    FragmentHeader(g, value, next);
  }

  lemma FragmentHeader(g: Group, value: seq<Byte>, next: U16)
    requires g.fragmented && g.address.Broadcast? && DataLength(g) > 0 && GseLength(g) <= 4095
    requires |value| == 2 && g.headers == [OptHeader(FRAG_SEQUENCE, value, next)]
    ensures FixedHeader(g) == GseLength(g) + match g.part case Start => 0xA000 case Middle => 0x2000 case End => 0x6000
    ensures VariableHeader(g) == [g.id] + (if g.part.Start? then Word(TotalField(g)) else []) + [2, 2]
    ensures HeaderBytes(g.headers) == value + Word(next)
  {
    hide GseLength, TotalField, DataLength;
    assert LabelBytes(g) == [];
  }

  lemma PieceSize(p: Packet, plan: Plan, payload: nat, t: nat)
    requires GoodPacket(p) && plan.Cut? && GoodPlan(p, plan, payload) && t < plan.split.total && payload <= 7264
    ensures var g := PieceGroup(p, plan, t);
      && DataLength(g) > 0 && GseLength(g) <= 4095
      && GseLength(g) == |g.data| + match PartOf(plan.split, t) case Start => 9 case Middle => 7 case End => 11
  {
    hide Slice, OffsetOf, SizeOf, Crc.Crc32, Exact, GseLength, TotalLength, Encode;
    var g := PieceGroup(p, plan, t);
    PieceLength(p, plan, payload, t);
    Measured(g);
    PayloadCounted(g);
    assert HeadersSize(g.headers) == 4;
  }

  /** The checksum goes out with its high byte first. */
  lemma ChecksumOnTheWire()
    ensures Crc.Be32(0xCBF4_3926) == [0xCB, 0xF4, 0x39, 0x26]
  {
  }

  /** The parser's reading of the first two bytes, whatever they are. */
  lemma HeadBits(b: seq<Byte>, at: nat)
    requires at + 1 < |b|
    ensures var h := ReadHead(b, at);
      && (h.start <==> b[at] >= 0x80) && (h.end <==> b[at] % 0x80 >= 0x40)
      && h.address == b[at] % 0x40 / 0x10 && h.length == b[at] % 0x10 * 0x100 + b[at + 1] as int
  {
    FirstByte(b[at]);
    Unpack(b[at] / 0x80, b[at] % 0x80 / 0x40, b[at] % 0x40 / 0x10, b[at] % 0x10 * 0x100 + b[at + 1] as int);
  }

  lemma FirstByte(x: Byte)
    ensures x == x / 0x80 * 0x80 + x % 0x80 / 0x40 * 0x40 + x % 0x40 / 0x10 * 0x10 + x % 0x10
    ensures (x / 0x80 == 1 <==> x >= 0x80) && (x % 0x80 / 0x40 == 1 <==> x % 0x80 >= 0x40)
    ensures x / 0x80 < 2 && x % 0x80 / 0x40 < 2 && x % 0x40 / 0x10 < 4
  {
  }

  /**
   In front of the packets: the addresses, the lengths of what follows, and
   the base-band header with the data field's length in bits; behind them the
   padding, all zero.
   */
  lemma FrameOnTheWire(c: HeaderParams, max: nat, gses: seq<Group>)
    requires ValidParams(c) && TotalSize(gses) <= max <= 7264
    ensures
      var covered := [0x60, 0, 0, 0] + Word(TotalSize(gses) * 8) + [0, 0, 0];
      Message(c, max, TotalSize(gses), gses)
        == [0x10, 0, 0, 0, 0, 0x50] + c.source + [0x91, 0x01] + c.unset + [1, 6] + Word(52 + max) + [0, 0, 0, 0]
        + ([0, 0, 0, 0, 0x11, 1, c.plsCode, 1, 0x20, 0] + Word(10 + max) + Zeros(20))
        + (covered + [Crc8.Crc(covered) as int]) + EncodeAll(gses) + Zeros(max - TotalSize(gses))
  {
    hide TotalSize, EncodeAll, Crc8.Crc, ToU16;
    Fits(BBHEADER_SIZE + max);
    Fits(52 + max);
    Fits(TotalSize(gses) * 8);
  }
}
