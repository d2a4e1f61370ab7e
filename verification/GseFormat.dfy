/** GSE packets as bytes: what the packer writes and what the parser reads (ETSI TS 102 606, clause 4.2). */
module GseFormat {
  import opened Bytes
  import Crc

  // Extension header types (RFC 4326, section 5: the high byte is H-LEN, 0 for a mandatory header).
  const PDU_CONCAT: U16 := 0x0003
  const TIME_STAMP: U16 := 0x0301
  const FRAG_SEQUENCE: U16 := 0x0202

  datatype Part = Start | Middle | End

  datatype Label = SixBytes | ThreeBytes | Broadcast | Reuse

  type Mac = m: seq<Byte> | |m| == 6 witness [0, 0, 0, 0, 0, 0]

  datatype OptHeader = OptHeader(kind: U16, value: seq<Byte>, next: U16)

  /** One packet, or one fragment of a packet, on its way into a GSE packet; `mbuf` names the buffer it lies in. */
  datatype Group = Group(
    protocol: U16, fragmented: bool, part: Part, id: Byte, wholeLength: U16, crc: bv32,
    data: seq<Byte>, mbuf: nat, headers: seq<OptHeader>, address: Label, mac: Mac)

  // ----- lengths ---------------------------------------------------------------------------

  function HeadersSize(headers: seq<OptHeader>): nat {
    if |headers| == 0 then 0 else |headers[0].value| + 2 + HeadersSize(headers[1..])
  }

  /** The data field: payload, extension headers and, in an end packet, the checksum. */
  function DataLength(g: Group): U16 {
    ToU16(|g.data| + (if g.fragmented && g.part.End? then 4 else 0) + HeadersSize(g.headers))
  }

  /** Sizes of the optional header fields. */
  datatype FieldSizes = FieldSizes(id: nat, total: nat, protocol: nat, address: nat) {
    function Sum(): nat { id + total + protocol + address }
  }

  function LabelSize(a: Label): (n: nat)
    ensures n <= 6
  {
    match a case SixBytes => 6 case ThreeBytes => 3 case Broadcast => 0 case Reuse => 0
  }

  function SizesOf(g: Group): FieldSizes {
    FieldSizes(if g.fragmented then 1 else 0,
               if g.fragmented && g.part.Start? then 2 else 0,
               if DataLength(g) > 0 then 2 else 0,
               LabelSize(g.address))
  }

  function GseLength(g: Group): U16 { ToU16(SizesOf(g).Sum() + DataLength(g)) }

  /** What the packet takes of a frame. */
  function TotalLength(g: Group): U16 { ToU16(2 + GseLength(g)) }

  // ----- writing ---------------------------------------------------------------------------

  function LabelCode(a: Label): nat {
    match a case SixBytes => 0 case ThreeBytes => 1 case Broadcast => 2 case Reuse => 3
  }

  /** Start and end indicator, label type, and 12 bits of length. */
  function FixedHeader(g: Group): U16 {
    var start, end := !g.fragmented || g.part.Start?, !g.fragmented || g.part.End?;
    (if start then 32768 else 0) + (if end then 16384 else 0) + LabelCode(g.address) * 4096 + GseLength(g) % 4096
  }

  function ProtocolField(g: Group): U16 {
    if |g.headers| > 0 then g.headers[0].kind else g.protocol
  }

  function TotalField(g: Group): U16 {
    ToU16(SizesOf(g).protocol + SizesOf(g).address + g.wholeLength + HeadersSize(g.headers))
  }

  function LabelBytes(g: Group): (b: seq<Byte>)
    ensures |b| == LabelSize(g.address)
  {
    g.mac[..LabelSize(g.address)]
  }

  function VariableHeader(g: Group): (b: seq<Byte>)
    ensures |b| == SizesOf(g).Sum()
  {
    (if SizesOf(g).id == 1 then [g.id] else [])
    + (if SizesOf(g).total == 2 then Be16(TotalField(g)) else [])
    + (if SizesOf(g).protocol == 2 then Be16(ProtocolField(g)) else [])
    + LabelBytes(g)
  }

  function HeaderBytes(headers: seq<OptHeader>): (b: seq<Byte>)
    ensures |b| == HeadersSize(headers)
  {
    if |headers| == 0 then [] else headers[0].value + Be16(headers[0].next) + HeaderBytes(headers[1..])
  }

  /** The packet as it is written into a frame. */
  function Encode(g: Group): seq<Byte> {
    Be16(FixedHeader(g)) + VariableHeader(g) + HeaderBytes(g.headers) + g.data
    + (if g.fragmented && g.part.End? then Crc.Be32(g.crc) else [])
  }

  // ----- reading ---------------------------------------------------------------------------

  predicate Regular(kind: U16) {
    kind == PDU_CONCAT || kind == TIME_STAMP || kind == FRAG_SEQUENCE
  }

  /** Where the parser stands among the extension headers: `size` is that of the last one only. */
  datatype Extension = Extension(at: nat, next: U16, last: U16, size: U16, stampSeq: U16)

  /** The size of an extension header and the type that follows it; the concatenation header is read unswapped. */
  function HeaderInfo(b: seq<Byte>, at: nat, kind: U16): (r: (nat, U16))
    requires Regular(kind)
    ensures r.0 >= 2
  {
    var hLen := kind / 256;
    if hLen == 0 then (2, At(b, at) + At(b, at + 1) * 256)
    else (2 * (hLen - 1) + 2, Read16(b, at + 2 * (hLen - 1)))
  }

  function Extensions(b: seq<Byte>, e: Extension): (r: Extension)
    ensures !Regular(r.next)
    decreases if Regular(e.next) then (if e.at <= |b| then |b| - e.at + 3 else 1) else 0
  {
    if !Regular(e.next) then e
    else
      var (size, next) := HeaderInfo(b, e.at, e.next);
      Extensions(b, Extension(e.at + size, next, e.next, size,
                              if e.next == FRAG_SEQUENCE then Read16(b, e.at) else e.stampSeq))
  }

  /** What the parser makes of one GSE packet. */
  datatype Parsed = Parsed(
    start: bool, end: bool, address: nat, id: Byte, total: U16, headerLength: Byte,
    stampSeq: U16, last: U16, next: U16, data: seq<Byte>, size: nat)

  /** `n` bytes from `at` on. */
  function Slice(b: seq<Byte>, at: nat, n: nat): (s: seq<Byte>)
    ensures |s| == n
  {
    (b + Zeros(at + n))[at..at + n]
  }

  /** The header proper, in front of extension headers and payload. */
  datatype Head = Head(start: bool, end: bool, address: nat, length: nat, id: Byte, total: U16, kind: U16)
  {
    function IdSize(): nat { if start && end then 0 else 1 }

    function TotalSize(): nat { if start && !end then 2 else 0 }

    function AddressSize(): nat { if address == 0 then 6 else if address == 1 then 3 else 0 }

    function Size(): nat { IdSize() + TotalSize() + 2 + AddressSize() }
  }

  function ReadHead(b: seq<Byte>, at: nat): Head {
    var fixed := Read16(b, at);
    var h := Head(fixed / 32768 == 1, fixed / 16384 % 2 == 1, fixed / 4096 % 4, fixed % 4096, 0, 0, 0);
    h.(id := if h.IdSize() == 1 then At(b, at + 2) else 0,
       total := if h.TotalSize() == 2 then Read16(b, at + 2 + h.IdSize()) else 0,
       kind := Read16(b, at + 2 + h.IdSize() + h.TotalSize()))
  }

  /** One packet at `at`; `stampSeq` is the sequence value seen last. */
  function Parse(b: seq<Byte>, at: nat, stampSeq: U16): (p: Parsed)
    ensures p.size >= 2
  {
    var h := ReadHead(b, at);
    Rest(b, h, Extensions(b, Extension(at + 2 + h.Size(), h.kind, 0, 0, stampSeq)))
  }

  function Rest(b: seq<Byte>, h: Head, ext: Extension): Parsed {
    var headerSize := ext.size + h.Size();
    Parsed(h.start, h.end, h.address, h.id, h.total, (headerSize - (h.IdSize() + h.TotalSize())) % 256,
           ext.stampSeq, ext.last, ext.next, Slice(b, ext.at, ToU16(h.length - headerSize)), 2 + h.length)
  }

  // ----- the round trip --------------------------------------------------------------------

  /** At most one extension header, the fragment sequence; the payload's own type is no extension type. */
  predicate Sendable(g: Group) {
    && (g.headers == [] || (|g.headers| == 1 && g.headers[0].kind == FRAG_SEQUENCE && |g.headers[0].value| == 2))
    && !Regular(Following(g))
    && Fitting(g)
  }

  /** There is something to send, and the length field takes it. */
  predicate Fitting(g: Group) {
    && 0 < Payload(g) + HeadersSize(g.headers)
    && FieldBytes(g) + Payload(g) + HeadersSize(g.headers) <= 4095
  }

  function Following(g: Group): U16 {
    if |g.headers| > 0 then g.headers[|g.headers| - 1].next else g.protocol
  }

  /** Header fields other than the first two bytes. */
  function FieldBytes(g: Group): nat {
    (if g.fragmented then 1 else 0) + (if g.fragmented && g.part.Start? then 2 else 0) + 2 + LabelSize(g.address)
  }

  function Payload(g: Group): nat {
    |g.data| + (if g.fragmented && g.part.End? then 4 else 0)
  }

  /** The lengths the packer computes ahead are those of the bytes written later. */
  lemma Measured(g: Group)
    requires Sendable(g)
    ensures |Encode(g)| == TotalLength(g) == 2 + GseLength(g)
    ensures GseLength(g) == FieldBytes(g) + Payload(g) + HeadersSize(g.headers)
  {
    hide Regular, Following;
    Lengths(g);
  }

  /** No field width cuts anything off a length that fits 16 bits. */
  lemma Lengths(g: Group)
    requires 0 < Payload(g) + HeadersSize(g.headers)
    requires FieldBytes(g) + Payload(g) + HeadersSize(g.headers) + 2 < 0x1_0000
    ensures var n := FieldBytes(g) + Payload(g) + HeadersSize(g.headers);
      GseLength(g) == n && TotalLength(g) == 2 + n == |Encode(g)|
  {
    hide ToU16, HeadersSize, FixedHeader, HeaderBytes, Be16, Crc.Be32;
    Fits(Payload(g) + HeadersSize(g.headers));
    assert DataLength(g) == Payload(g) + HeadersSize(g.headers);
    hide DataLength;
    assert SizesOf(g).Sum() == FieldBytes(g);
    Fits(FieldBytes(g) + Payload(g) + HeadersSize(g.headers));
    Fits(2 + FieldBytes(g) + Payload(g) + HeadersSize(g.headers));
    assert |Encode(g)| == 2 + |VariableHeader(g)| + HeadersSize(g.headers) + Payload(g);
  }

  /** Everything behind the extension headers. */
  function Body(g: Group): seq<Byte> {
    g.data + (if g.fragmented && g.part.End? then Crc.Be32(g.crc) else [])
  }

  /** What must come out of the parser. */
  function Expected(g: Group, stampSeq: U16): Parsed {
    var sizes := SizesOf(g);
    Parsed(!g.fragmented || g.part.Start?, !g.fragmented || g.part.End?, LabelCode(g.address),
           if g.fragmented then g.id else 0, if g.fragmented && g.part.Start? then TotalField(g) else 0,
           2 + LabelSize(g.address) + (if g.headers == [] then 0 else 4),
           if g.headers == [] then stampSeq else Read16(g.headers[0].value, 0),
           if g.headers == [] then 0 else FRAG_SEQUENCE,
           Following(g),
           Body(g),
           TotalLength(g))
  }

  predicate Holds(b: seq<Byte>, at: nat, e: seq<Byte>) {
    at + |e| <= |b| && b[at..at + |e|] == e
  }

  lemma HoldsAt(b: seq<Byte>, at: nat, e: seq<Byte>)
    requires Holds(b, at, e)
    ensures forall k {:trigger e[k]} :: 0 <= k < |e| ==> At(b, at + k) == e[k]
  {
    forall k | 0 <= k < |e| ensures At(b, at + k) == e[k] {
      assert b[at..at + |e|][k] == b[at + k];
    }
  }

  lemma HoldsParts(b: seq<Byte>, at: nat, x: seq<Byte>, y: seq<Byte>)
    requires Holds(b, at, x + y)
    ensures Holds(b, at, x) && Holds(b, at + |x|, y)
  {
    assert (x + y)[..|x|] == x && (x + y)[|x|..] == y;
    var w := b[at..at + |x + y|];
    assert b[at..at + |x|] == w[..|x|];
    assert b[at + |x|..at + |x| + |y|] == w[|x|..];
  }

  lemma Holds16(b: seq<Byte>, at: nat, x: U16)
    requires Holds(b, at, Be16(x))
    ensures Read16(b, at) == x
  {
    Be16RoundTrip(b, at, x);
  }

  lemma HoldsSlice(b: seq<Byte>, at: nat, e: seq<Byte>)
    requires Holds(b, at, e)
    ensures Slice(b, at, |e|) == e
  {
  }

  /** Where each field of the header ends up. */
  lemma FieldsHold(b: seq<Byte>, at: nat, g: Group)
    requires Fitting(g) && Holds(b, at, Encode(g))
    ensures var sizes := SizesOf(g); var v := at + 2;
      && Holds(b, at, Be16(FixedHeader(g)))
      && sizes.protocol == 2
      && (sizes.id == 1 ==> Holds(b, v, [g.id]))
      && (sizes.total == 2 ==> Holds(b, v + sizes.id, Be16(TotalField(g))))
      && Holds(b, v + sizes.id + sizes.total, Be16(ProtocolField(g)))
      && Holds(b, v + sizes.id + sizes.total + 2, LabelBytes(g))
      && Holds(b, v + sizes.Sum(), HeaderBytes(g.headers))
      && Holds(b, v + sizes.Sum() + HeadersSize(g.headers), Body(g))
  {
    hide Holds, TotalField, ProtocolField, HeaderBytes, FixedHeader, VariableHeader, GseLength, TotalLength;
    Lengths(g);
    PayloadCounted(g);
    var v, h := VariableHeader(g), HeaderBytes(g.headers);
    var front := Be16(FixedHeader(g));
    assert Encode(g) == front + v + h + Body(g);
    HoldsParts(b, at, front + v + h, Body(g));
    HoldsParts(b, at, front + v, h);
    HoldsParts(b, at, front, v);
    VariableFieldsHold(b, at + 2, g);
  }

  lemma VariableFieldsHold(b: seq<Byte>, at: nat, g: Group)
    requires SizesOf(g).protocol == 2 && Holds(b, at, VariableHeader(g))
    ensures var sizes := SizesOf(g);
      && (sizes.id == 1 ==> Holds(b, at, [g.id]))
      && (sizes.total == 2 ==> Holds(b, at + sizes.id, Be16(TotalField(g))))
      && Holds(b, at + sizes.id + sizes.total, Be16(ProtocolField(g)))
      && Holds(b, at + sizes.id + sizes.total + 2, LabelBytes(g))
  {
    hide Holds, TotalField, ProtocolField, DataLength;
    var id := if SizesOf(g).id == 1 then [g.id] else [];
    var total := if SizesOf(g).total == 2 then Be16(TotalField(g)) else [];
    var protocol := Be16(ProtocolField(g));
    HoldsParts(b, at, id + total + protocol, LabelBytes(g));
    HoldsParts(b, at, id + total, protocol);
    HoldsParts(b, at, id, total);
  }

  /** Start and end indicator, label type and length, from the high bit down. */
  lemma FixedFields(g: Group)
    requires Fitting(g)
    ensures var fixed := FixedHeader(g);
      && (fixed / 32768 == 1 <==> !g.fragmented || g.part.Start?)
      && (fixed / 16384 % 2 == 1 <==> !g.fragmented || g.part.End?)
      && fixed / 4096 % 4 == (match g.address
                              case SixBytes => 0 case ThreeBytes => 1 case Broadcast => 2 case Reuse => 3)
      && fixed % 4096 == GseLength(g)
  {
    hide GseLength, Fitting;
    LengthFits(g);
    Unpack(if !g.fragmented || g.part.Start? then 1 else 0, if !g.fragmented || g.part.End? then 1 else 0,
           LabelCode(g.address), GseLength(g));
  }

  lemma LengthFits(g: Group)
    requires Fitting(g)
    ensures GseLength(g) <= 4095
  {
    hide GseLength, TotalLength, Encode, FieldBytes, Payload, HeadersSize;
    Lengths(g);
  }

  lemma Unpack(s: nat, e: nat, a: nat, n: nat)
    requires s < 2 && e < 2 && a < 4 && n < 4096
    ensures var x := s * 32768 + e * 16384 + a * 4096 + n;
      x / 32768 == s && x / 16384 % 2 == e && x / 4096 % 4 == a && x % 4096 == n
  {
  }

  /** The extension headers behind a header, once read. */
  function ExtensionOf(g: Group, at: nat, stampSeq: U16): Extension
    requires Sendable(g)
  {
    if g.headers == [] then Extension(at, g.protocol, 0, 0, stampSeq)
    else Extension(at + 4, Following(g), FRAG_SEQUENCE, 4, Read16(g.headers[0].value, 0))
  }

  /** The extension headers are read as they were written. */
  lemma HeadersRead(b: seq<Byte>, at: nat, g: Group, stampSeq: U16)
    requires Sendable(g) && Holds(b, at, HeaderBytes(g.headers))
    ensures Extensions(b, Extension(at, ProtocolField(g), 0, 0, stampSeq)) == ExtensionOf(g, at, stampSeq)
  {
    if g.headers != [] {
      var h := g.headers[0];
      assert HeaderBytes(g.headers) == h.value + Be16(h.next);
      HoldsParts(b, at, h.value, Be16(h.next));
      HoldsAt(b, at, h.value);
      assert At(b, at + 0) == h.value[0] && At(b, at + 1) == h.value[1];
      Holds16(b, at + 2, h.next);
    }
  }

  /** The header as the parser should see it. */
  function HeadOf(g: Group): Head {
    Head(!g.fragmented || g.part.Start?, !g.fragmented || g.part.End?, LabelCode(g.address), GseLength(g),
         if g.fragmented then g.id else 0, if g.fragmented && g.part.Start? then TotalField(g) else 0,
         ProtocolField(g))
  }

  lemma HeadRead(b: seq<Byte>, at: nat, g: Group)
    requires Fitting(g) && Holds(b, at, Encode(g))
    ensures ReadHead(b, at) == HeadOf(g)
  {
    FieldsHold(b, at, g);
    FixedFields(g);
    var sizes := SizesOf(g);
    hide Holds, FixedHeader, TotalField, ProtocolField, Encode, GseLength, DataLength, Fitting;
    Holds16(b, at, FixedHeader(g));
    if sizes.id == 1 { HoldsAt(b, at + 2, [g.id]); assert At(b, at + 2 + 0) == [g.id][0]; }
    if sizes.total == 2 { Holds16(b, at + 2 + sizes.id, TotalField(g)); }
    Holds16(b, at + 2 + sizes.id + sizes.total, ProtocolField(g));
  }

  lemma SizesAdd(g: Group)
    requires Sendable(g)
    ensures var h, size := HeadOf(g), if g.headers == [] then 0 else 4;
      && h.Size() - (h.IdSize() + h.TotalSize()) == 2 + LabelSize(g.address)
      && ToU16(h.length - (size + h.Size())) == |Body(g)|
      && 2 + h.length == TotalLength(g)
  {
    hide GseLength, Encode, TotalLength, Regular, Following;
    Measured(g);
    assert HeadersSize(g.headers) == if g.headers == [] then 0 else 4;
  }

  lemma RestExpected(b: seq<Byte>, g: Group, at: nat, stampSeq: U16)
    requires Sendable(g) && Slice(b, ExtensionOf(g, at, stampSeq).at, |Body(g)|) == Body(g)
    ensures Rest(b, HeadOf(g), ExtensionOf(g, at, stampSeq)) == Expected(g, stampSeq)
  {
    var h, ext := HeadOf(g), ExtensionOf(g, at, stampSeq);
    SizesAdd(g);
    hide Slice, TotalField, GseLength, DataLength, Encode, Body, HeadersSize, Sendable, Following, FieldBytes, ToU16;
    assert ext.size == if g.headers == [] then 0 else 4;
    var r := Rest(b, h, ext);
    assert r.headerLength == 2 + LabelSize(g.address) + ext.size;
    assert r.data == Body(g);
  }

  lemma HeaderEnds(g: Group, behind: nat, stampSeq: U16)
    requires Sendable(g)
    ensures SizesOf(g).Sum() == HeadOf(g).Size() && HeadOf(g).kind == ProtocolField(g)
    ensures ExtensionOf(g, behind, stampSeq).at == behind + HeadersSize(g.headers)
  {
    Measured(g);
    hide Encode, GseLength;
  }

  lemma SendableFits(g: Group)
    requires Sendable(g)
    ensures Fitting(g)
  {
  }

  /**
   Whatever stands before and behind it, a GSE packet that was written is read
   back: indicators, label type, fragment ID, total length, sequence value,
   payload type and payload, and the parser finds its end.
   */
  lemma RoundTrip(b: seq<Byte>, at: nat, g: Group, stampSeq: U16)
    requires Sendable(g) && Holds(b, at, Encode(g))
    ensures Parse(b, at, stampSeq) == Expected(g, stampSeq)
  {
    hide Holds, TotalField, Extensions, Slice, Encode, ReadHead, Expected, Rest, Body, Sendable, GseLength, DataLength,
      HeaderBytes, HeadOf, SizesOf, FieldBytes, ExtensionOf, HeadersSize, ProtocolField, FixedHeader, Fitting;
    var behind := at + 2 + HeadOf(g).Size();
    HeaderEnds(g, behind, stampSeq);
    SendableFits(g);
    FieldsHold(b, at, g);
    HeadRead(b, at, g);
    HeadersRead(b, behind, g, stampSeq);
    HoldsSlice(b, behind + HeadersSize(g.headers), Body(g));
    RestExpected(b, g, behind, stampSeq);
  }

  /** In a start packet the packet's own length is what the total length leaves behind the headers. */
  lemma LengthRecovered(g: Group, stampSeq: U16)
    requires Sendable(g) && g.fragmented && g.part.Start? && g.wholeLength + 12 < 0x1_0000
    ensures var p := Expected(g, stampSeq); p.total - p.headerLength == g.wholeLength
  {
    hide ToU16, Regular, Encode, GseLength, TotalLength, Body;
    Measured(g);
    assert HeadersSize(g.headers) == if g.headers == [] then 0 else 4;
    assert SizesOf(g).protocol == 2 by { PayloadCounted(g); }
    Fits(SizesOf(g).protocol + SizesOf(g).address + g.wholeLength + HeadersSize(g.headers));
  }

  lemma PayloadCounted(g: Group)
    requires Fitting(g)
    ensures DataLength(g) > 0
  {
    hide ToU16, Regular, HeadersSize;
    Fits(Payload(g) + HeadersSize(g.headers));
  }

  // ----- exactly when the round trip works --------------------------------------------------

  /** A payload type that is itself an extension type is taken for a header, and no other is. */
  lemma TypeRecoveredExactly(b: seq<Byte>, at: nat, g: Group, stampSeq: U16)
    requires Regular(Following(g)) || Sendable(g)
    requires Holds(b, at, Encode(g))
    ensures Parse(b, at, stampSeq).next == Following(g) <==> !Regular(Following(g))
  {
    if !Regular(Following(g)) {
      RoundTrip(b, at, g, stampSeq);
    }
  }

  /** The parser finds the end of a packet exactly if its length fits the 12 bits of the length field. */
  lemma EndFoundExactly(b: seq<Byte>, at: nat, g: Group, stampSeq: U16)
    requires Holds(b, at, Encode(g)) && 0 < Payload(g) + HeadersSize(g.headers)
    requires FieldBytes(g) + Payload(g) + HeadersSize(g.headers) + 2 < 0x1_0000
    ensures Parse(b, at, stampSeq).size == |Encode(g)|
       <==> FieldBytes(g) + Payload(g) + HeadersSize(g.headers) <= 4095
  {
    hide Encode, FixedHeader, GseLength, FieldBytes, Payload, HeadersSize, Parse, Holds;
    Widths(g);
    FirstWord(b, at, g);
    SizeRead(b, at, stampSeq);
  }

  lemma FirstWord(b: seq<Byte>, at: nat, g: Group)
    requires Holds(b, at, Encode(g))
    ensures Read16(b, at) == FixedHeader(g)
  {
    hide FixedHeader, VariableHeader, Holds, HeaderBytes, Be16, Crc.Be32;
    var front := Be16(FixedHeader(g));
    var behind := VariableHeader(g) + HeaderBytes(g.headers) + Body(g);
    assert Encode(g) == front + behind;
    hide Encode, Body;
    HoldsParts(b, at, front, behind);
    Holds16(b, at, FixedHeader(g));
  }

  lemma SizeRead(b: seq<Byte>, at: nat, stampSeq: U16)
    ensures Parse(b, at, stampSeq).size == 2 + Read16(b, at) % 4096
  {
    hide Extensions, Slice;
  }

  lemma Widths(g: Group)
    requires 0 < Payload(g) + HeadersSize(g.headers)
    requires FieldBytes(g) + Payload(g) + HeadersSize(g.headers) + 2 < 0x1_0000
    ensures var n := FieldBytes(g) + Payload(g) + HeadersSize(g.headers);
      |Encode(g)| == 2 + n && FixedHeader(g) % 4096 == n % 4096
  {
    hide HeadersSize, DataLength, GseLength, Encode, FieldBytes, Payload, TotalLength;
    var n := FieldBytes(g) + Payload(g) + HeadersSize(g.headers);
    Lengths(g);
    Unpack(if !g.fragmented || g.part.Start? then 1 else 0, if !g.fragmented || g.part.End? then 1 else 0,
           LabelCode(g.address), n % 4096);
  }
}
