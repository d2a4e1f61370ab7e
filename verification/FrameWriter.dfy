/** Writing a frame into the code block buffer, and giving the packets' buffers back. */
module FrameWriter {
  import opened Bytes
  import opened GseFormat
  import opened Framing
  import Crc
  import Crc8

  /** The buffers given back with these packets: those of whole packets and of end fragments. */
  function Closers(gses: seq<Group>): seq<nat> {
    if |gses| == 0 then []
    else Closers(gses[..|gses| - 1]) + (if Closing(gses[|gses| - 1]) then [gses[|gses| - 1].mbuf] else [])
  }

  predicate Closing(g: Group) { !g.fragmented || g.part.End? }

  method CopyIn(buffer: array<Byte>, offset: nat, bytes: seq<Byte>) returns (next: nat)
    requires offset + |bytes| <= buffer.Length
    modifies buffer
    ensures next == offset + |bytes|
    ensures buffer[..next] == old(buffer[..offset]) + bytes
  {
    for i := 0 to |bytes|
      invariant buffer[..offset + i] == old(buffer[..offset]) + bytes[..i]
    {
      buffer[offset + i] := bytes[i];
    }
    next := offset + |bytes|;
  }

  /** The extension headers, one after the other. */
  method CopyHeaders(buffer: array<Byte>, offset: nat, headers: seq<OptHeader>) returns (next: nat)
    requires offset + HeadersSize(headers) <= buffer.Length
    modifies buffer
    ensures next == offset + HeadersSize(headers)
    ensures buffer[..next] == old(buffer[..offset]) + HeaderBytes(headers)
  {
    next := offset;
    for j := 0 to |headers|
      invariant next + HeadersSize(headers[j..]) == offset + HeadersSize(headers)
      invariant buffer[..next] + HeaderBytes(headers[j..]) == old(buffer[..offset]) + HeaderBytes(headers)
    {
      var h := headers[j];
      ghost var before := buffer[..next];
      assert headers[j..][0] == h && headers[j..][1..] == headers[j + 1..];
      next := CopyIn(buffer, next, h.value);
      next := CopyIn(buffer, next, Be16(h.next));
      assert buffer[..next] == before + h.value + Be16(h.next);
    }
  }

  /** One GSE packet: header, extension headers, payload, and the checksum behind an end fragment. */
  method WritePacket(buffer: array<Byte>, offset: nat, g: Group) returns (next: nat, freed: seq<nat>)
    requires offset + |Encode(g)| <= buffer.Length
    modifies buffer
    ensures next == offset + |Encode(g)|
    ensures buffer[..next] == old(buffer[..offset]) + Encode(g)
    ensures freed == if Closing(g) then [g.mbuf] else []
  {
    hide FixedHeader, VariableHeader, HeaderBytes, HeadersSize, Be16, Crc.Be32, SizesOf;
    assert Encode(g) == Be16(FixedHeader(g)) + VariableHeader(g) + HeaderBytes(g.headers) + Body(g);
    next := CopyIn(buffer, offset, Be16(FixedHeader(g)) + VariableHeader(g));
    next := CopyHeaders(buffer, next, g.headers);
    next := CopyIn(buffer, next, g.data);
    freed := [];
    if !g.fragmented {
      freed := [g.mbuf];
    } else if g.part.End? {
      next := CopyIn(buffer, next, Crc.Be32(g.crc));
      freed := [g.mbuf];
    }
  }

  /** The size check is done in unsigned arithmetic: a frame too small for the header passes it. */
  method BaseBandHeader(frameSize: nat, dataSize: nat) returns (ok: bool, header: seq<Byte>)
    ensures ok <==> frameSize < BBHEADER_SIZE || dataSize + BBHEADER_SIZE <= frameSize
    ensures ok ==> header == BBHeader(dataSize)
  {
    if frameSize < BBHEADER_SIZE || dataSize <= frameSize - BBHEADER_SIZE {
      var covered := [0x60, 0, 0, 0] + Be16(ToU16(dataSize * 8)) + [0, 0, 0];
      return true, covered + [Crc8.Crc(covered) as int];
    }
    return false, [];
  }

  /**
   A frame with at least one packet.  The buffer is long enough, and the frame
   comes out at exactly the size its header announces.
   */
  method WriteFrame(c: HeaderParams, max: nat, dataSize: nat, gses: seq<Group>)
    returns (message: seq<Byte>, freed: seq<nat>)
    requires ValidParams(c) && AllSendable(gses) && |gses| > 0
    requires dataSize == TotalSize(gses) <= max <= 7264
    ensures message == Message(c, max, dataSize, gses)
    ensures |message| == INNER_HEADER_SIZE + L2L1_HEADER_SIZE + BBHEADER_SIZE + max
    ensures freed == Closers(gses)
  {
    hide EncodeAll, Sendable, TotalSize, AllSendable, BBHeader, InnerHeader, L2L1Header, Closers;
    FrameExact(c, max, gses);
    EncodedSize(gses);
    var frameSize := BBHEADER_SIZE + max;
    var ok, header := BaseBandHeader(frameSize, dataSize);
    PaddingIsRest(frameSize, dataSize);
    var padding := PaddingBytes(frameSize, Read16(header, 4));
    var buffer := new Byte[FIFO_ITEM_SIZE];
    var offset := WriteHeaders(buffer, c, frameSize, header);
    offset, freed := WritePackets(buffer, offset, gses);
    offset := CopyIn(buffer, offset, Zeros(padding));
    message := buffer[..offset];
  }

  method WriteHeaders(buffer: array<Byte>, c: HeaderParams, frameSize: U16, header: seq<Byte>) returns (next: nat)
    requires ValidParams(c) && |header| == BBHEADER_SIZE && GSE_OFFSET <= buffer.Length
    modifies buffer
    ensures next == GSE_OFFSET && buffer[..next] == InnerHeader(c, frameSize) + L2L1Header(c, frameSize) + header
  {
    hide InnerHeader, L2L1Header;
    next := CopyIn(buffer, 0, InnerHeader(c, frameSize));
    next := CopyIn(buffer, next, L2L1Header(c, frameSize));
    next := CopyIn(buffer, next, header);
  }

  method WritePackets(buffer: array<Byte>, offset: nat, gses: seq<Group>) returns (next: nat, freed: seq<nat>)
    requires offset + |EncodeAll(gses)| <= buffer.Length
    modifies buffer
    ensures next == offset + |EncodeAll(gses)|
    ensures buffer[..next] == old(buffer[..offset]) + EncodeAll(gses)
    ensures freed == Closers(gses)
  {
    hide Encode;
    next, freed := offset, [];
    for i := 0 to |gses|
      invariant next == offset + |EncodeAll(gses[..i])| <= buffer.Length
      invariant buffer[..next] == old(buffer[..offset]) + EncodeAll(gses[..i])
      invariant freed == Closers(gses[..i])
    {
      EncodeSplit(gses, i);
      var back;
      next, back := WritePacket(buffer, next, gses[i]);
      assert gses[..i + 1][..i] == gses[..i];
      freed := freed + back;
    }
    assert gses[..|gses|] == gses;
  }

  lemma PaddingIsRest(frameSize: nat, dataSize: nat)
    requires dataSize + BBHEADER_SIZE <= frameSize <= 7274
    ensures PaddingBytes(frameSize, Read16(BBHeader(dataSize), 4)) == frameSize - BBHEADER_SIZE - dataSize
  {
    hide BBHeader, Read16;
    var h := BBHeader(dataSize);
    assert h[0..|h|] == h;
    BBFields(dataSize, h, 0);
  }

  lemma {:induction false} EncodeSplit(gses: seq<Group>, i: nat)
    requires i < |gses|
    ensures EncodeAll(gses[..i + 1]) == EncodeAll(gses[..i]) + Encode(gses[i])
    ensures |EncodeAll(gses[..i])| + |Encode(gses[i])| <= |EncodeAll(gses)|
  {
    hide Encode;
    EncodeAppend(gses[..i], [gses[i]]);
    assert gses[..i + 1] == gses[..i] + [gses[i]];
    EncodeAppend(gses[..i + 1], gses[i + 1..]);
    assert gses == gses[..i + 1] + gses[i + 1..];
    assert EncodeAll([gses[i]]) == Encode(gses[i]) + EncodeAll([gses[i]][1..]);
  }

  lemma {:induction false} EncodeAppend(a: seq<Group>, b: seq<Group>)
    ensures EncodeAll(a + b) == EncodeAll(a) + EncodeAll(b)
  {
    hide Encode;
    if a == [] {
      assert a + b == b;
    } else {
      assert (a + b)[1..] == a[1..] + b;
      EncodeAppend(a[1..], b);
    }
  }
}
