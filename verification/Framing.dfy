/**
 Base-band frames: the headers in front of the GSE packets, the padding behind them,
 and how the parser walks through.
 */
module Framing {
  import opened Bytes
  import opened GseFormat
  import opened Addresses
  import Crc8

  const INNER_HEADER_SIZE: nat := 24
  const L2L1_HEADER_SIZE: nat := 32
  const BBHEADER_SIZE: nat := 10
  const GSE_OFFSET: nat := 66
  const FIFO_ITEM_SIZE: nat := 7373

  const VALID_PAYLOAD: seq<U16> := [
    0, 1991, 2666, 3206, 4016, 4826, 5370, 6041, 6446, 6720, 7174, 7264,
    4826, 5370, 6041, 6720, 7174, 7264, 5370, 6041, 6446, 6720, 7174, 7264,
    6041, 6446, 6720, 7174, 7264, 0, 0, 0]

  /** The bytes a frame can carry. */
  function MapPayload(modcod: nat): (n: U16)
    requires modcod < 32
    ensures 1 <= modcod <= 28 ==> 1991 <= n <= 7264 && (n <= 4095 ==> n <= 4016) && (n > 4095 ==> 4826 <= n)
  {
    VALID_PAYLOAD[modcod]
  }

  /** What the model leaves open in the headers: the port's own address, two unset bytes and the physical-layer code. */
  datatype HeaderParams = HeaderParams(source: seq<Byte>, unset: seq<Byte>, plsCode: Byte)

  predicate ValidParams(c: HeaderParams) { |c.source| == 6 && |c.unset| == 2 }

  function InnerHeader(c: HeaderParams, frameSize: U16): (b: seq<Byte>)
    requires ValidParams(c)
    ensures |b| == INNER_HEADER_SIZE
  {
    [0x10, 0, 0, 0, 0, 0x50] + c.source + Be16(0x9101) + c.unset + [1, 6]
    + Be16(ToU16(INNER_HEADER_SIZE - 14 + L2L1_HEADER_SIZE + frameSize)) + [0, 0, 0, 0]
  }

  function L2L1Header(c: HeaderParams, frameSize: U16): (b: seq<Byte>)
    ensures |b| == L2L1_HEADER_SIZE
  {
    [0, 0, 0, 0, 0x11, 1, c.plsCode, 1, 0x20, 0] + Be16(frameSize) + Zeros(20)
  }

  /** The nine bytes under the checksum: generic continuous stream, single input, and the data field length in bits. */
  function Covered(dataSize: nat): (b: seq<Byte>)
    ensures |b| == 9
  {
    [0x60, 0, 0, 0] + Be16(ToU16(dataSize * 8)) + [0, 0, 0]
  }

  function BBHeader(dataSize: nat): (b: seq<Byte>)
    ensures |b| == BBHEADER_SIZE
  {
    Covered(dataSize) + [Crc8.Crc(Covered(dataSize)) as int]
  }

  /** What `padding` computes from the header's own length field. */
  function PaddingBytes(frameSize: int, dfl: U16): int { frameSize - BBHEADER_SIZE - dfl / 8 }

  function EncodeAll(gses: seq<Group>): seq<Byte> {
    if |gses| == 0 then [] else Encode(gses[0]) + EncodeAll(gses[1..])
  }

  function Prefix(c: HeaderParams, max: nat, dataSize: nat): (b: seq<Byte>)
    requires ValidParams(c)
    ensures |b| == GSE_OFFSET
  {
    InnerHeader(c, ToU16(BBHEADER_SIZE + max)) + L2L1Header(c, ToU16(BBHEADER_SIZE + max)) + BBHeader(dataSize)
  }

  /** A frame of `max` payload bytes that carries these packets. */
  function Message(c: HeaderParams, max: nat, dataSize: nat, gses: seq<Group>): (b: seq<Byte>)
    requires ValidParams(c) && dataSize <= max
  {
    Prefix(c, max, dataSize) + EncodeAll(gses) + Zeros(max - dataSize)
  }

  // ----- reading ---------------------------------------------------------------------------

  /** The header check: checksum over the first nine bytes, and the stream is a generic one. */
  predicate IdentifyGs(b: seq<Byte>, at: nat)
    requires at + BBHEADER_SIZE <= |b|
  {
    Crc8.Crc(b[at..at + 9]) as int == b[at + 9] && b[at] / 64 <= 1
  }

  datatype FrameInfo = Rejected | Info(frameSize: U16, padding: int)

  /** The frame header of a forward data message. */
  function ProcessHeader(b: seq<Byte>): FrameInfo
    requires |b| >= GSE_OFFSET
  {
    if Read16(b, 12) == 0x9101 && (b[17] == 6 || b[17] == 0x16) && IdentifyGs(b, 56)
    then Info(Read16(b, 34), PaddingBytes(Read16(b, 34), Read16(b, 60)))
    else Rejected
  }

  /** The packets of a frame that pass the address filter, and what the filter remembers. */
  datatype Seen = Seen(packets: seq<Parsed>, previous: Previous)

  /**
   The parse loop.  `sum` is header size, bytes handled and padding, which the
   source adds in 32 unsigned bits: a negative sum reads as a large number there.
   */
  function Walk(b: seq<Byte>, at: nat, stampSeq: U16, screen: Screen, sum: int, frameSize: U16): Seen
    decreases frameSize - sum
  {
    var p := Parse(b, at, stampSeq);
    var (pass, next) := Screened(screen, p.address, LabelAt(b, at));
    var kept := if pass then [p] else [];
    var sum' := sum + p.size;
    if 0 <= sum' < frameSize then
      var rest := Walk(b, at + p.size, if pass then p.stampSeq else stampSeq, next, sum', frameSize);
      Seen(kept + rest.packets, rest.previous)
    else Seen(kept, next.previous)
  }

  /** All packets for the station `local` that the parser sees in a message. */
  function Packets(b: seq<Byte>, local: Mac, previous: Previous): Seen
    requires |b| >= GSE_OFFSET
  {
    match ProcessHeader(b)
    case Rejected => Seen([], previous)
    case Info(frameSize, padding) =>
      Walk(b, GSE_OFFSET, 0, Screen(local, true, previous), BBHEADER_SIZE + padding, frameSize)
  }

  function TotalSize(gses: seq<Group>): nat {
    if |gses| == 0 then 0 else TotalLength(gses[0]) + TotalSize(gses[1..])
  }

  ghost predicate AllSendable(gses: seq<Group>) { forall g :: g in gses ==> Sendable(g) }

  /** What the parser must see, one after the other; the sequence value is carried over to packets without one. */
  function ExpectedAll(gses: seq<Group>, stampSeq: U16): seq<Parsed> {
    if |gses| == 0 then []
    else
      var p := Expected(gses[0], stampSeq);
      [p] + ExpectedAll(gses[1..], p.stampSeq)
  }

  /** Of these packets, those for the station `local`; `before` tells whether the packet in front of them was. */
  function ForStation(local: Mac, gses: seq<Group>, stampSeq: U16, before: bool): seq<Parsed> {
    if |gses| == 0 then []
    else if Ours(local, gses[0], before) then
      var p := Expected(gses[0], stampSeq);
      [p] + ForStation(local, gses[1..], p.stampSeq, true)
    else ForStation(local, gses[1..], stampSeq, false)
  }

  predicate AllBroadcast(gses: seq<Group>) { forall g :: g in gses ==> g.address.Broadcast? }

  /** What is broadcast is for every station. */
  lemma {:induction false} ForEveryStation(local: Mac, gses: seq<Group>, stampSeq: U16, before: bool)
    requires AllBroadcast(gses)
    ensures ForStation(local, gses, stampSeq, before) == ExpectedAll(gses, stampSeq)
    decreases |gses|
  {
    hide Expected;
    if |gses| > 0 {
      ForEveryStation(local, gses[1..], Expected(gses[0], stampSeq).stampSeq, true);
    }
  }

  lemma {:induction false} EncodedSize(gses: seq<Group>)
    requires AllSendable(gses)
    ensures |EncodeAll(gses)| == TotalSize(gses)
  {
    if |gses| > 0 {
      Measured(gses[0]);
      EncodedSize(gses[1..]);
    }
  }

  /** The frame is as long as its header says, whatever it carries. */
  lemma FrameExact(c: HeaderParams, max: nat, gses: seq<Group>)
    requires ValidParams(c) && AllSendable(gses) && TotalSize(gses) <= max <= 7264
    ensures |Message(c, max, TotalSize(gses), gses)| - INNER_HEADER_SIZE - L2L1_HEADER_SIZE == BBHEADER_SIZE + max
    ensures |Message(c, max, TotalSize(gses), gses)| <= FIFO_ITEM_SIZE
  {
    EncodedSize(gses);
  }

  /** The fields the parser looks at. */
  lemma HeaderFields(c: HeaderParams, max: nat, dataSize: nat, b: seq<Byte>)
    requires ValidParams(c) && dataSize <= max <= 7264 && Holds(b, 0, Prefix(c, max, dataSize))
    ensures |b| >= GSE_OFFSET
    ensures Read16(b, 12) == 0x9101 && b[17] == 6 && Read16(b, 34) == BBHEADER_SIZE + max
    ensures Holds(b, 56, BBHeader(dataSize))
  {
    hide BBHeader, InnerHeader, L2L1Header, Holds, ToU16;
    var size := ToU16(BBHEADER_SIZE + max);
    Fits(BBHEADER_SIZE + max);
    var front := InnerHeader(c, size) + L2L1Header(c, size);
    assert Prefix(c, max, dataSize) == front + BBHeader(dataSize);
    hide Prefix;
    HoldsParts(b, 0, front, BBHeader(dataSize));
    HoldsParts(b, 0, InnerHeader(c, size), L2L1Header(c, size));
    InnerFields(c, size, b);
    L2L1Fields(c, size, b, 24);
  }

  lemma InnerFields(c: HeaderParams, size: U16, b: seq<Byte>)
    requires ValidParams(c) && Holds(b, 0, InnerHeader(c, size))
    ensures |b| >= INNER_HEADER_SIZE && Read16(b, 12) == 0x9101 && b[17] == 6
  {
    hide ToU16;
    var h := InnerHeader(c, size);
    assert h[12] == 0x91 && h[13] == 1 && h[17] == 6;
    assert b[0..|h|][12] == b[12] && b[0..|h|][13] == b[13] && b[0..|h|][17] == b[17];
  }

  lemma L2L1Fields(c: HeaderParams, size: U16, b: seq<Byte>, at: nat)
    requires Holds(b, at, L2L1Header(c, size))
    ensures Read16(b, at + 10) == size
  {
    var h := L2L1Header(c, size);
    assert b[at..at + |h|][10] == b[at + 10] && b[at..at + |h|][11] == b[at + 11];
  }

  lemma BBFields(dataSize: nat, b: seq<Byte>, at: nat)
    requires Holds(b, at, BBHeader(dataSize)) && dataSize <= 7264
    ensures IdentifyGs(b, at) && Read16(b, at + 4) == dataSize * 8
  {
    hide Crc8.Crc, ToU16;
    Fits(dataSize * 8);
    var h := BBHeader(dataSize);
    HoldsParts(b, at, Covered(dataSize), [Crc8.Crc(Covered(dataSize)) as int]);
    assert b[at..at + 10][9] == b[at + 9] && b[at..at + 10][0] == b[at];
    assert b[at..at + 10][4] == b[at + 4] && b[at..at + 10][5] == b[at + 5];
  }

  lemma HeaderAccepted(c: HeaderParams, max: nat, dataSize: nat, b: seq<Byte>)
    requires ValidParams(c) && dataSize <= max <= 7264 && Holds(b, 0, Prefix(c, max, dataSize))
    ensures |b| >= GSE_OFFSET && ProcessHeader(b) == Info(BBHEADER_SIZE + max, max - dataSize)
  {
    HeaderFields(c, max, dataSize, b);
    BBFields(dataSize, b, 56);
    hide IdentifyGs, Prefix;
  }

  lemma Peel(b: seq<Byte>, at: nat, gses: seq<Group>)
    requires AllSendable(gses) && |gses| > 0 && Holds(b, at, EncodeAll(gses))
    ensures AllSendable(gses[1..]) && Sendable(gses[0])
    ensures TotalLength(gses[0]) >= 2 && Holds(b, at, Encode(gses[0]))
    ensures Holds(b, at + TotalLength(gses[0]), EncodeAll(gses[1..]))
  {
    hide *;
    AllButOne(gses);
    LengthWritten(gses[0]);
    EncodedNext(gses);
    HoldsParts(b, at, Encode(gses[0]), EncodeAll(gses[1..]));
  }

  lemma LengthWritten(g: Group)
    requires Sendable(g)
    ensures |Encode(g)| == TotalLength(g) >= 2
  {
    hide Encode, Sendable, GseLength, TotalLength, FieldBytes, Payload, HeadersSize;
    Measured(g);
  }

  lemma EncodedNext(gses: seq<Group>)
    requires |gses| > 0
    ensures EncodeAll(gses) == Encode(gses[0]) + EncodeAll(gses[1..])
  {
    hide Encode;
  }

  lemma AllButOne(gses: seq<Group>)
    requires AllSendable(gses) && |gses| > 0
    ensures AllSendable(gses[1..]) && Sendable(gses[0])
  {
    hide Sendable;
  }

  /**
   Of the packets that were written the parse loop meets those for the station
   `local`, all of them, nothing else, and stops behind the last one, whatever
   the address filter remembers from earlier frames.
   */
  lemma {:induction false} WalkVisits(
    b: seq<Byte>, at: nat, gses: seq<Group>, stampSeq: U16, screen: Screen, before: bool, sum: int, frameSize: U16)
    requires AllSendable(gses) && |gses| > 0 && Holds(b, at, EncodeAll(gses)) && Tracks(screen, before)
    requires 0 <= sum && sum + TotalSize(gses) == frameSize
    ensures Walk(b, at, stampSeq, screen, sum, frameSize).packets == ForStation(screen.local, gses, stampSeq, before)
    decreases |gses|
  {
    hide Parse, Encode, TotalLength, Holds, Sendable, EncodeAll, AllSendable, Expected, Screened, Tracks, Ours,
      LabelAt;
    var g, rest := gses[0], gses[1..];
    Peel(b, at, gses);
    RoundTrip(b, at, g, stampSeq);
    ExpectedSize(g, stampSeq);
    AddressRead(b, at, stampSeq);
    ScreenedExactly(screen, b, at, g, before);
    var (pass, next) := Screened(screen, ReadHead(b, at).address, LabelAt(b, at));
    var stamp := if pass then Expected(g, stampSeq).stampSeq else stampSeq;
    if rest != [] {
      Peel(b, at + TotalLength(g), rest);
      assert 0 < TotalSize(rest);
      WalkVisits(b, at + TotalLength(g), rest, stamp, next, pass, sum + TotalLength(g), frameSize);
    }
  }

  lemma AddressRead(b: seq<Byte>, at: nat, stampSeq: U16)
    ensures Parse(b, at, stampSeq).address == ReadHead(b, at).address
  {
    hide ReadHead, Extensions, Slice;
  }

  lemma ExpectedSize(g: Group, stampSeq: U16)
    ensures Expected(g, stampSeq).size == TotalLength(g)
  {
  }

  /** A frame that carries packets is read back packet by packet, by the stations they are addressed to. */
  lemma MessageReadBack(c: HeaderParams, max: nat, gses: seq<Group>, local: Mac, previous: Previous)
    requires ValidParams(c) && AllSendable(gses) && |gses| > 0 && TotalSize(gses) <= max <= 7264
    ensures Packets(Message(c, max, TotalSize(gses), gses), local, previous).packets
         == ForStation(local, gses, 0, false)
  {
    hide Prefix, EncodeAll, ForStation, Walk, TotalSize, ProcessHeader, AllSendable, Message, Holds;
    var used := TotalSize(gses);
    var b := Message(c, max, used, gses);
    PartsHold(c, max, used, gses);
    HeaderAccepted(c, max, used, b);
    WalkVisits(b, GSE_OFFSET, gses, 0, Screen(local, true, previous), false, BBHEADER_SIZE + (max - used),
      BBHEADER_SIZE + max);
  }

  lemma PartsHold(c: HeaderParams, max: nat, dataSize: nat, gses: seq<Group>)
    requires ValidParams(c) && dataSize <= max
    ensures var b := Message(c, max, dataSize, gses);
      Holds(b, 0, Prefix(c, max, dataSize)) && Holds(b, GSE_OFFSET, EncodeAll(gses))
  {
    hide Prefix, EncodeAll, Holds;
    var b := Message(c, max, dataSize, gses);
    var front, middle, padding := Prefix(c, max, dataSize), EncodeAll(gses), Zeros(max - dataSize);
    assert b == front + (middle + padding);
    hide Message, Zeros;
    All(b);
    HoldsParts(b, 0, front, middle + padding);
    HoldsParts(b, GSE_OFFSET, middle, padding);
  }

  lemma All(b: seq<Byte>)
    ensures Holds(b, 0, b)
  {
  }

  /** A frame is taken apart exactly if its addresses, its stream type and its checksum are right. */
  lemma AcceptedExactly(b: seq<Byte>, local: Mac, previous: Previous)
    requires |b| >= GSE_OFFSET
    ensures
      if b[12] == 0x91 && b[13] == 0x01 && b[17] in {0x06, 0x16} && b[56] < 128 && Crc8.Crc(b[56..65]) as int == b[65]
      then
        var size, bits := b[34] * 256 + b[35] as int, b[60] * 256 + b[61] as int;
        ProcessHeader(b) == Info(size, size - 10 - bits / 8)
      else Packets(b, local, previous) == Seen([], previous)
  {
    hide Walk, Crc8.Crc;
  }

  /** Any change to one of the nine covered header bytes makes the parser drop the frame. */
  lemma HeaderChangeRejected(b: seq<Byte>, i: nat, x: Byte, local: Mac, previous: Previous)
    requires |b| >= GSE_OFFSET && IdentifyGs(b, 56) && i < 9 && x != b[56 + i]
    ensures ProcessHeader(b[56 + i := x]) == Rejected
    ensures Packets(b[56 + i := x], local, previous) == Seen([], previous)
  {
    var b' := b[56 + i := x];
    var before, after := b[56..56 + i], b[57 + i..65];
    assert b[56..65] == before + [b[56 + i]] + after;
    assert b'[56..65] == before + [x] + after;
    assert b'[65] == b[65];
    Crc8.SingleByteDetected(before, b[56 + i], x, after);
    hide Crc8.Crc;
    CrcAsInt(Crc8.Crc(b[56..65]), Crc8.Crc(b'[56..65]));
  }

  lemma CrcAsInt(v: bv8, w: bv8)
    requires v != w
    ensures v as int != w as int
  {
    if v as int == w as int { SameBits(v, w); }
  }
}
