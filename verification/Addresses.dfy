/** The address filter of the receiver: which GSE packets are for this station. */
module Addresses {
  import opened Bytes
  import opened GseFormat

  // Label types (ETSI TS 102 606, clause 4.2.1).
  const LABEL_6B: nat := 0
  const LABEL_3B: nat := 1
  const LABEL_BROADCAST: nat := 2
  const LABEL_REUSE: nat := 3

  type Address = m: seq<Byte> | |m| <= 6 witness []

  /** The type of the label seen last, and the last address seen, of three or six bytes. */
  datatype Previous = Previous(code: nat, mac: Address)

  /** The station's address, and what the filter goes by; `first` until a packet of the frame has passed. */
  datatype Screen = Screen(local: Mac, first: bool, previous: Previous)

  /** What the filter makes of the next label, and how it goes on. */
  function Screened(s: Screen, code: nat, mac: Address): (r: (bool, Screen)) {
    if s.first && code == LABEL_REUSE then (false, s)
    else if code == LABEL_BROADCAST then (true, s.(first := false, previous := s.previous.(code := code)))
    else if code == LABEL_REUSE then
      var pass := s.previous.code == LABEL_BROADCAST || s.previous.mac <= s.local;
      (pass, s.(first := s.first && !pass))
    else
      var pass := mac <= s.local;
      (pass, s.(first := s.first && !pass, previous := Previous(code, mac)))
  }

  /** The label as it lies in the packet. */
  function LabelAt(b: seq<Byte>, at: nat): Address {
    var h := ReadHead(b, at);
    Slice(b, at + 2 + h.IdSize() + h.TotalSize() + 2, h.AddressSize())
  }

  /** Two addresses agree in their first bytes. */
  method EqualMac(mac1: seq<Byte>, mac2: seq<Byte>, len: nat) returns (same: bool)
    requires len <= |mac1| && len <= |mac2|
    ensures same <==> mac1[..len] == mac2[..len]
  {
    same := true;
    for i := 0 to len
      invariant same && mac1[..i] == mac2[..i]
    {
      if mac1[i] != mac2[i] {
        assert mac1[..len][i] != mac2[..len][i];
        return false;
      }
    }
  }

  // ----- in terms of what was sent -----------------------------------------------------------

  /**
   A packet is for this station if its own address says so, or if it has none
   and the packet before it in the frame is.
   */
  predicate Ours(local: Mac, g: Group, before: bool) {
    match g.address
    case SixBytes => g.mac == local
    case ThreeBytes => g.mac[..3] == local[..3]
    case Broadcast => true
    case Reuse => before
  }

  /** The filter knows whether the packet before was for this station; at the beginning of a frame there is none. */
  predicate Tracks(s: Screen, before: bool) {
    if s.first then !before
    else before <==> s.previous.code == LABEL_BROADCAST || s.previous.mac <= s.local
  }

  /**
   Whatever the filter remembers from earlier frames, it lets a packet pass
   exactly if it is for this station.
   */
  lemma ScreenedExactly(s: Screen, b: seq<Byte>, at: nat, g: Group, before: bool)
    requires Sendable(g) && Holds(b, at, Encode(g)) && Tracks(s, before)
    ensures var (pass, next) := Screened(s, ReadHead(b, at).address, LabelAt(b, at));
      && (pass <==> Ours(s.local, g, before))
      && Tracks(next, pass) && next.local == s.local
  {
    LabelRead(b, at, g);
    hide ReadHead, LabelAt, Encode, Sendable, Holds;
    var mac := LabelBytes(g);
    match g.address {
      case SixBytes => assert mac == g.mac;
      case ThreeBytes => assert mac == g.mac[..3];
      case Broadcast =>
      case Reuse =>
    }
  }

  /** A broadcast packet passes always, as the first one of a frame too. */
  lemma BroadcastPasses(s: Screen, b: seq<Byte>, at: nat, g: Group)
    requires Sendable(g) && Holds(b, at, Encode(g)) && g.address.Broadcast?
    ensures Screened(s, ReadHead(b, at).address, LabelAt(b, at)).0
  {
    LabelRead(b, at, g);
    hide ReadHead, LabelAt, Encode, Sendable, Holds;
  }

  /** Label type and address are read as they were written. */
  lemma LabelRead(b: seq<Byte>, at: nat, g: Group)
    requires Sendable(g) && Holds(b, at, Encode(g))
    ensures LabelAt(b, at) == LabelBytes(g)
    ensures ReadHead(b, at).address == match g.address
      case SixBytes => LABEL_6B
      case ThreeBytes => LABEL_3B
      case Broadcast => LABEL_BROADCAST
      case Reuse => LABEL_REUSE
  {
    hide ReadHead, Encode, Holds, Slice, GseLength, Sendable, Fitting, LabelBytes, TotalField, ProtocolField, SizesOf;
    SendableFits(g);
    HeadRead(b, at, g);
    SameSizes(g);
    FieldsHold(b, at, g);
    HoldsSlice(b, at + 2 + SizesOf(g).id + SizesOf(g).total + 2, LabelBytes(g));
  }

  /** The parser computes the sizes of the optional fields as the packer does. */
  lemma SameSizes(g: Group)
    ensures var h := HeadOf(g);
      h.IdSize() == SizesOf(g).id && h.TotalSize() == SizesOf(g).total && h.AddressSize() == LabelSize(g.address)
  {
    hide GseLength, TotalField, ProtocolField, DataLength;
  }
}
