/**
 Reassembly on the receiving side, as functions on the state kept for one
 fragment ID: two slots and the order in which they are handed out.
 */
module Reassembly {
  import opened Options
  import opened Bytes
  import Crc

  const FRAG_MAX_NUM: nat := 6
  const FRAG_MAX_LENGTH: nat := 1518
  const TAILROOM: nat := 8064
  const PROTOCOL_IPV4: U16 := 0x0800
  const PROTOCOL_IPV6: U16 := 0x86DD
  const PROTOCOL_CTRL: U16 := 0x00C9

  /** What the source keeps of a partly received packet; `stored` says that a buffer for the whole is allocated. */
  datatype Slot = Slot(
    timeStamp: U16, maxSeq: U16, recvLen: U16, recvNum: U16, recvEnd: bool,
    fragLen: seq<U16>, data: seq<seq<Byte>>, pduType: nat, protocol: U16, pduLength: U16, stored: bool)

  /** The slots of one fragment ID; `order` lists them, the one to be taken next first. */
  datatype Buffers = Buffers(slots: seq<Slot>, order: seq<nat>)

  datatype Fragment =
    | First(stampSeq: U16, totalLength: U16, headerLength: U16, protocol: U16, data: seq<Byte>)
    | Later(end: bool, stampSeq: U16, data: seq<Byte>)

  datatype Verdict = Refused | Waiting | Complete

  predicate Shaped(s: Slot) {
    |s.fragLen| == FRAG_MAX_NUM == |s.data|
  }

  predicate WellFormed(fb: Buffers) {
    && |fb.slots| == 2 && Shaped(fb.slots[0]) && Shaped(fb.slots[1])
    && (fb.order == [0, 1] || fb.order == [1, 0])
  }

  function Seq(stampSeq: U16): (s: nat)
    ensures s < 8
  {
    stampSeq % 8
  }

  function Stamp(stampSeq: U16): (t: nat)
    ensures t < 8192
  {
    stampSeq / 8
  }

  function Max(a: U16, b: U16): U16 { if a > b then a else b }

  function Reset(s: Slot): Slot {
    s.(timeStamp := 0, maxSeq := 0, recvLen := 0, recvNum := 0, recvEnd := false,
       fragLen := seq(FRAG_MAX_NUM, i => 0), pduLength := 0, stored := false)
  }

  /** The slot that carries the stamp, the first one if both do; else the one whose turn it is, which then goes last. */
  function Choose(fb: Buffers, stamp: nat): (r: (Buffers, nat))
    requires WellFormed(fb)
    ensures WellFormed(r.0) && r.1 < 2 && r.0.slots == fb.slots
  {
    if fb.slots[0].timeStamp == stamp then (fb, 0)
    else if fb.slots[1].timeStamp == stamp then (fb, 1)
    else (fb.(order := fb.order[1..] + [fb.order[0]]), fb.order[0])
  }

  function PduType(protocol: U16, data: seq<Byte>, before: nat): nat {
    if protocol == PROTOCOL_IPV4 || protocol == PROTOCOL_IPV6 then 0
    else if protocol == PROTOCOL_CTRL then (if At(data, 1) / 64 % 2 == 0 then 1 else 2)
    else before
  }

  predicate AllReceived(s: Slot) {
    s.recvEnd && s.recvNum == s.maxSeq + 1
  }

  /** A slot in which a start fragment arrives: another packet's pieces go; a start already there leaves its trace. */
  function Cleared(s: Slot, stamp: nat): (r: Slot)
    requires Shaped(s)
    ensures Shaped(r)
  {
    if s.recvNum == 0 then s
    else if s.timeStamp != stamp then Reset(s)
    else if s.fragLen[0] > 0 then Reset(s).(recvNum := ToU16(-1))
    else s
  }

  /** The slot with a start fragment in it. */
  function Begun(s: Slot, f: Fragment): (r: Slot)
    requires Shaped(s) && f.First?
    ensures Shaped(r)
  {
    var len := ToU16(|f.data|);
    s.(maxSeq := Max(s.maxSeq, 0), recvLen := ToU16(s.recvLen + len), recvNum := ToU16(s.recvNum + 1),
       fragLen := s.fragLen[0 := len], data := s.data[0 := f.data],
       pduLength := ToU16(f.totalLength - f.headerLength), timeStamp := Stamp(f.stampSeq),
       protocol := f.protocol, pduType := PduType(f.protocol, f.data, s.pduType))
  }

  function StoreFirst(s: Slot, f: Fragment): (r: (Slot, Verdict))
    requires Shaped(s) && f.First?
    ensures Shaped(r.0)
  {
    var s1 := Begun(Cleared(s, Stamp(f.stampSeq)), f);
    if TAILROOM < s1.pduLength + 4 then (Reset(s1), Refused)
    else (s1.(stored := true), if AllReceived(s1) then Complete else Waiting)
  }

  /** A piece with the same number that was there before no longer counts. */
  function Superseded(s: Slot, n: nat): (r: Slot)
    requires Shaped(s) && n < FRAG_MAX_NUM
    ensures Shaped(r)
  {
    if s.fragLen[n] > 0 && s.recvNum > 0
    then s.(recvNum := s.recvNum - 1, recvLen := ToU16(s.recvLen - s.fragLen[n]))
    else s
  }

  /** The four checksum bytes of the last piece do not count. */
  function Weighed(s: Slot, f: Fragment): (r: Slot)
    requires Shaped(s) && f.Later?
    ensures Shaped(r)
  {
    var len: int := ToU16(|f.data|);
    s.(recvLen := ToU16(s.recvLen + (if f.end then len - 4 else len)), recvEnd := s.recvEnd || f.end)
  }

  /** The slot with a middle or end fragment in it. */
  function Continued(s: Slot, f: Fragment): (r: Slot)
    requires Shaped(s) && f.Later? && Seq(f.stampSeq) < FRAG_MAX_NUM
    ensures Shaped(r)
  {
    var n := Seq(f.stampSeq);
    s.(maxSeq := Max(s.maxSeq, n), recvNum := ToU16(s.recvNum + 1),
       fragLen := s.fragLen[n := ToU16(|f.data|)], data := s.data[n := f.data], timeStamp := Stamp(f.stampSeq))
  }

  function StoreLater(s: Slot, f: Fragment): (r: (Slot, Verdict))
    requires Shaped(s) && f.Later? && Seq(f.stampSeq) < FRAG_MAX_NUM
    ensures Shaped(r.0)
  {
    var s1 := Weighed(Superseded(s, Seq(f.stampSeq)), f);
    if 0 < s1.pduLength < s1.recvLen then (Reset(s1), Refused)
    else
      var s2 := Continued(s1, f);
      (s2, if AllReceived(s2) then Complete else Waiting)
  }

  function Take(b: seq<Byte>, n: int): seq<Byte> {
    if n <= 0 then [] else if n <= |b| then b[..n] else b
  }

  /** The first `n` stored pieces, one after the other. */
  function Joined(s: Slot, n: nat): seq<Byte>
    requires Shaped(s) && n <= FRAG_MAX_NUM
  {
    if n == 0 then [] else Joined(s, n - 1) + Take(s.data[n - 1], s.fragLen[n - 1])
  }

  /** Where the checksum begins in the last piece. */
  function LastEnd(s: Slot): int
    requires Shaped(s) && 0 < s.recvNum <= FRAG_MAX_NUM
  {
    var len: int := s.fragLen[s.recvNum - 1];
    len - 4
  }

  /** The packet in a complete slot: all pieces but the four checksum bytes at the end of the last one. */
  function Assembled(s: Slot): seq<Byte>
    requires Shaped(s) && 0 < s.recvNum <= FRAG_MAX_NUM
  {
    Joined(s, s.recvNum - 1) + Take(s.data[s.recvNum - 1], LastEnd(s))
  }

  function ReceivedCrc(s: Slot): bv32
    requires Shaped(s) && 0 < s.recvNum <= FRAG_MAX_NUM
  {
    var last, at := s.data[s.recvNum - 1], LastEnd(s);
    Crc.Read32([At(last, at), At(last, at + 1), At(last, at + 2), At(last, at + 3)])
  }

  /** What a complete slot yields; the slot is free again afterwards in every case. */
  function Finish(s: Slot): Option<Pdu>
    requires Shaped(s)
  {
    if !s.stored || s.pduLength < s.recvLen || s.pduType > 2 || !(0 < s.recvNum <= FRAG_MAX_NUM) then None
    else
      var bytes := Assembled(s);
      if |bytes| == s.pduLength && Crc.Crc32(bytes) == ReceivedCrc(s) then Some(Pdu(s.protocol, bytes)) else None
  }

  /**
   What the buffers can take: at most six pieces a packet, each of at most 1518 bytes.
   A refused one is not stored.
   */
  predicate Acceptable(f: Fragment) {
    (f.First? && Seq(f.stampSeq) > 0) || (Seq(f.stampSeq) < FRAG_MAX_NUM && |f.data| <= FRAG_MAX_LENGTH)
  }

  /** One fragment: it is stored, and if it was the last one missing, the packet is finished. */
  function Receive(fb: Buffers, f: Fragment): (r: (Buffers, Option<Pdu>))
    requires WellFormed(fb) && Acceptable(f)
    ensures WellFormed(r.0)
  {
    if f.First? && Seq(f.stampSeq) > 0 then (fb, None)
    else
      var (fb1, index) := Choose(fb, Stamp(f.stampSeq));
      var (s, verdict) := if f.First? then StoreFirst(fb1.slots[index], f) else StoreLater(fb1.slots[index], f);
      if verdict.Complete?
      then (fb1.(slots := fb1.slots[index := Reset(s)]), Finish(s))
      else (fb1.(slots := fb1.slots[index := s]), None)
  }

  function AsSeq(out: Option<Pdu>): seq<Pdu> {
    match out case Some(pdu) => [pdu] case None => []
  }

  // ----- the packet being received --------------------------------------------------------

  /** A packet in fragments: body and claimed checksum, cut into pieces. */
  datatype Sent = Sent(protocol: U16, stamp: nat, body: seq<Byte>, crc: bv32, pieces: seq<seq<Byte>>)

  function Flatten(pieces: seq<seq<Byte>>): seq<Byte> {
    if |pieces| == 0 then [] else Flatten(pieces[..|pieces| - 1]) + pieces[|pieces| - 1]
  }

  ghost predicate Proper(p: Sent) {
    Sized(p) && Flatten(p.pieces) == p.body + Crc.Be32(p.crc)
  }

  predicate Sized(p: Sent) {
    && 2 <= |p.pieces| <= FRAG_MAX_NUM
    && p.stamp < 8192
    && |p.pieces[|p.pieces| - 1]| >= 4
    && (forall i :: 0 <= i < |p.pieces| ==> |p.pieces[i]| <= FRAG_MAX_LENGTH)
    && |p.body| + 4 <= TAILROOM
  }

  /** Fragment number `i` as the parser hands it over; `header` bytes of the total length are headers. */
  function Piece(p: Sent, i: nat): (f: Fragment)
    requires i < |p.pieces| <= FRAG_MAX_NUM && p.stamp < 8192
    ensures Seq(f.stampSeq) == i && Stamp(f.stampSeq) == p.stamp
  {
    var stampSeq: U16 := p.stamp * 8 + i;
    if i == 0 then First(stampSeq, ToU16(|p.body| + 6), 6, p.protocol, p.pieces[0])
    else Later(i == |p.pieces| - 1, stampSeq, p.pieces[i])
  }

  /** What must come out once every piece has arrived. */
  function Yield(p: Sent): Option<Pdu> {
    if Crc.Crc32(p.body) == p.crc then Some(Pdu(p.protocol, p.body)) else None
  }

  // ----- bookkeeping over the set of pieces received --------------------------------------

  function Count(got: seq<bool>): nat {
    if |got| == 0 then 0 else Count(got[..|got| - 1]) + (if got[|got| - 1] then 1 else 0)
  }

  /** The highest number received, 0 if none. */
  function Highest(got: seq<bool>): nat {
    if |got| == 0 then 0 else if got[|got| - 1] then |got| - 1 else Highest(got[..|got| - 1])
  }

  /** Packet bytes received; the last piece carries four bytes that are not the packet's. */
  function Weight(pieces: seq<seq<Byte>>, got: seq<bool>): int
    requires |got| <= |pieces|
  {
    if |got| == 0 then 0
    else Weight(pieces, got[..|got| - 1]) + (if got[|got| - 1] then Carried(pieces, |got| - 1) else 0)
  }

  function Carried(pieces: seq<seq<Byte>>, i: nat): int
    requires i < |pieces|
  {
    if i == |pieces| - 1 then |pieces[i]| - 4 else |pieces[i]|
  }

  lemma {:induction false} Update(pieces: seq<seq<Byte>>, got: seq<bool>, i: nat)
    requires i < |got| <= |pieces| && !got[i]
    ensures Count(got[i := true]) == Count(got) + 1
    ensures Highest(got[i := true]) == if i > Highest(got) then i else Highest(got)
    ensures Weight(pieces, got[i := true]) == Weight(pieces, got) + Carried(pieces, i)
    decreases |got|
  {
    var n := |got| - 1;
    if i < n {
      Update(pieces, got[..n], i);
      assert got[i := true][..n] == got[..n][i := true];
    } else {
      assert got[i := true][..n] == got[..n];
      HighestBelow(got[..n]);
    }
  }

  lemma HighestBelow(got: seq<bool>)
    ensures Highest(got) <= |got|
    ensures |got| > 0 ==> Highest(got) < |got|
  {
  }

  lemma {:induction false} Counts(got: seq<bool>)
    ensures Count(got) <= |got|
    ensures Count(got) == |got| <==> forall i :: 0 <= i < |got| ==> got[i]
    ensures (exists i :: 0 <= i < |got| && got[i]) <==> Count(got) > 0
    decreases |got|
  {
    if |got| > 0 {
      var n := |got| - 1;
      Counts(got[..n]);
      assert forall i :: 0 <= i < n ==> got[i] == got[..n][i];
    }
  }

  /** A part never weighs more than the whole. */
  lemma {:induction false} WeightBelow(pieces: seq<seq<Byte>>, got: seq<bool>, all: seq<bool>)
    requires |got| == |all| <= |pieces| && |pieces| > 0 && |pieces[|pieces| - 1]| >= 4
    requires forall i :: 0 <= i < |all| ==> all[i]
    ensures 0 <= Weight(pieces, got) <= Weight(pieces, all)
    decreases |got|
  {
    if |got| > 0 {
      WeightBelow(pieces, got[..|got| - 1], all[..|got| - 1]);
    }
  }

  lemma {:induction false} WeightOfAll(pieces: seq<seq<Byte>>, n: nat, all: seq<bool>)
    requires n == |all| <= |pieces| && forall i :: 0 <= i < |all| ==> all[i]
    ensures Weight(pieces, all) == |Flatten(pieces[..n])| - (if n == |pieces| && n > 0 then 4 else 0)
    decreases n
  {
    if n > 0 {
      WeightOfAll(pieces, n - 1, all[..n - 1]);
      assert pieces[..n][..n - 1] == pieces[..n - 1];
    }
  }

  // ----- what a slot knows ----------------------------------------------------------------

  predicate Free(s: Slot) {
    && Shaped(s)
    && s.timeStamp == 0 && s.maxSeq == 0 && s.recvLen == 0 && s.recvNum == 0 && !s.recvEnd
    && s.pduLength == 0 && !s.stored && s.pduType <= 2
    && (forall i :: 0 <= i < FRAG_MAX_NUM ==> s.fragLen[i] == 0)
  }

  /** The slot holds exactly the pieces of `p` marked in `got`. */
  ghost predicate Holds(s: Slot, p: Sent, got: seq<bool>)
    requires Proper(p)
  {
    && Shaped(s) && |got| == |p.pieces|
    && s.recvNum == Count(got) && s.maxSeq == Highest(got) && s.recvLen == Weight(p.pieces, got)
    && s.recvEnd == got[|got| - 1]
    && s.pduLength == (if got[0] then |p.body| else 0)
    && s.stored == got[0] && s.pduType <= 2
    && (got[0] ==> s.protocol == p.protocol)
    && (forall i :: 0 <= i < FRAG_MAX_NUM ==> s.fragLen[i] == if i < |got| && got[i] then |p.pieces[i]| else 0)
    && (forall i :: 0 <= i < |got| && got[i] ==> s.data[i] == p.pieces[i])
  }

  function Nothing(p: Sent): (got: seq<bool>) { seq(|p.pieces|, i => false) }

  lemma {:induction false} NothingCounts(pieces: seq<seq<Byte>>, got: seq<bool>)
    requires |got| <= |pieces| && forall i :: 0 <= i < |got| ==> !got[i]
    ensures Count(got) == 0 && Highest(got) == 0 && Weight(pieces, got) == 0
    decreases |got|
  {
    if |got| > 0 {
      NothingCounts(pieces, got[..|got| - 1]);
    }
  }

  lemma FreeHoldsNothing(s: Slot, p: Sent)
    requires Proper(p) && Free(s)
    ensures Holds(s, p, Nothing(p))
  {
    NothingCounts(p.pieces, Nothing(p));
  }

  lemma ResetIsFree(s: Slot)
    requires Shaped(s) && s.pduType <= 2
    ensures Free(Reset(s))
  {
  }

  ghost predicate Full(got: seq<bool>) { forall i :: 0 <= i < |got| ==> got[i] }

  lemma BodyLength(p: Sent, got: seq<bool>)
    requires Proper(p) && |got| == |p.pieces|
    ensures 0 <= Weight(p.pieces, got) <= |p.body|
    ensures Full(got) ==> Weight(p.pieces, got) == |p.body|
    ensures Count(got) <= |got| && (Full(got) <==> Count(got) == |got|)
    ensures Highest(got) < |got|
  {
    var all := seq(|got|, i => true);
    WeightOfAll(p.pieces, |all|, all);
    assert p.pieces[..|all|] == p.pieces;
    WeightBelow(p.pieces, got, all);
    if Full(got) { assert got == all; }
    Counts(got);
    HighestBelow(got);
  }

  lemma Completeness(p: Sent, got: seq<bool>)
    requires Proper(p) && |got| == |p.pieces|
    ensures Full(got) <==> got[|got| - 1] && Count(got) == Highest(got) + 1
  {
    Counts(got);
  }

  /** The slot after piece `i` went in, field by field. */
  function Added(s: Slot, p: Sent, i: nat, weight: U16): Slot
    requires Shaped(s) && i < |p.pieces| <= FRAG_MAX_NUM && |p.pieces[i]| < 0x1_0000
    requires s.recvNum < 0xFFFF && p.stamp < 8192 && |p.body| < 0x1_0000
  {
    var s1 := s.(maxSeq := Max(s.maxSeq, i), recvNum := s.recvNum + 1, recvLen := weight,
                 fragLen := s.fragLen[i := |p.pieces[i]|], data := s.data[i := p.pieces[i]],
                 timeStamp := p.stamp, recvEnd := s.recvEnd || i == |p.pieces| - 1);
    if i == 0 then
      s1.(pduLength := |p.body|, stored := true, protocol := p.protocol,
          pduType := PduType(p.protocol, p.pieces[0], s.pduType))
    else s1
  }

  lemma AddedHolds(s: Slot, p: Sent, got: seq<bool>, i: nat)
    requires Proper(p) && |got| == |p.pieces| && i < |got| && !got[i] && Holds(s, p, got)
    requires 0 <= Weight(p.pieces, got[i := true]) < 0x1_0000
    requires Count(got[i := true]) == Count(got) + 1 <= FRAG_MAX_NUM
    requires Highest(got[i := true]) == if i > Highest(got) then i else Highest(got)
    ensures Holds(Added(s, p, i, Weight(p.pieces, got[i := true])), p, got[i := true])
  {
  }

  lemma StoreFirstAdds(s: Slot, p: Sent)
    requires Sized(p) && Shaped(s) && s.recvNum < FRAG_MAX_NUM && s.fragLen[0] == 0
    requires s.recvNum > 0 ==> s.timeStamp == p.stamp
    requires s.recvLen + |p.pieces[0]| < 0x1_0000
    ensures var (r, v) := StoreFirst(s, Piece(p, 0));
      r == Added(s, p, 0, s.recvLen + |p.pieces[0]|) && v == if AllReceived(r) then Complete else Waiting
  {
    hide PduType, ToU16;
    Fits(|p.pieces[0]|);
    Fits(s.recvLen + |p.pieces[0]|);
    Fits(s.recvNum + 1);
    Fits(|p.body| + 6);
    Fits(|p.body|);
    assert Cleared(s, p.stamp) == s;
  }

  lemma StoreLaterAdds(s: Slot, p: Sent, i: nat)
    requires Sized(p) && Shaped(s) && 0 < i < |p.pieces| && s.recvNum < FRAG_MAX_NUM && s.fragLen[i] == 0
    requires 0 <= s.recvLen + Carried(p.pieces, i) <= |p.body|
    requires s.pduLength == 0 || s.pduLength == |p.body|
    ensures var (r, v) := StoreLater(s, Piece(p, i));
      r == Added(s, p, i, s.recvLen + Carried(p.pieces, i)) && v == if AllReceived(r) then Complete else Waiting
  {
    hide AllReceived, ToU16;
    var f := Piece(p, i);
    Fits(|f.data|);
    Fits(s.recvLen + Carried(p.pieces, i));
    Fits(s.recvNum + 1);
    assert Superseded(s, i) == s;
  }

  /** A new piece goes in, and the slot is complete exactly when it was the last one missing. */
  lemma StoreKeepsHolds(s: Slot, p: Sent, got: seq<bool>, i: nat)
    requires Proper(p) && |got| == |p.pieces| && i < |got| && !got[i]
    requires Holds(s, p, got)
    requires Count(got) > 0 ==> s.timeStamp == p.stamp
    ensures var (s', v) := if i == 0 then StoreFirst(s, Piece(p, 0)) else StoreLater(s, Piece(p, i));
      && Holds(s', p, got[i := true]) && s'.timeStamp == p.stamp
      && v == if Full(got[i := true]) then Complete else Waiting
  {
    hide Weight, Flatten, Full, Count, Highest, Holds, StoreFirst, StoreLater, Added, AllReceived, Piece;
    var got' := got[i := true];
    Update(p.pieces, got, i);
    BodyLength(p, got);
    BodyLength(p, got');
    Missing(s, p, got, i);
    AddedHolds(s, p, got, i);
    Stamps(s, p, i, Weight(p.pieces, got'));
    HeldComplete(Added(s, p, i, Weight(p.pieces, got')), p, got');
    if i == 0 { StoreFirstAdds(s, p); } else { StoreLaterAdds(s, p, i); }
  }

  /** What a slot knows of a piece that has not come yet. */
  lemma Missing(s: Slot, p: Sent, got: seq<bool>, i: nat)
    requires Proper(p) && Holds(s, p, got) && i < |p.pieces| == |got| && !got[i]
    ensures Shaped(s) && s.fragLen[i] == 0 && (s.pduLength == 0 || s.pduLength == |p.body|)
    ensures s.recvNum == Count(got) && s.recvLen == Weight(p.pieces, got)
  {
    hide Weight, Count, Highest;
  }

  lemma HeldComplete(s: Slot, p: Sent, got: seq<bool>)
    requires Proper(p) && Holds(s, p, got)
    ensures AllReceived(s) <==> Full(got)
  {
    hide Weight, Count, Highest, Full;
    Completeness(p, got);
  }

  lemma Stamps(s: Slot, p: Sent, i: nat, weight: U16)
    requires Shaped(s) && i < |p.pieces| <= FRAG_MAX_NUM && |p.pieces[i]| < 0x1_0000
    requires s.recvNum < 0xFFFF && p.stamp < 8192 && |p.body| < 0x1_0000
    ensures Added(s, p, i, weight).timeStamp == p.stamp
  {
  }

  // ----- finishing ------------------------------------------------------------------------

  /** A piece that has come lies in the slot as it was sent. */
  lemma HeldPiece(s: Slot, p: Sent, got: seq<bool>, i: nat)
    requires Proper(p) && Holds(s, p, got) && i < |p.pieces| == |got| && got[i]
    ensures Shaped(s) && s.data[i] == p.pieces[i] && s.fragLen[i] == |p.pieces[i]|
    ensures Take(s.data[i], s.fragLen[i]) == p.pieces[i]
  {
    hide Weight, Count, Highest;
  }

  lemma {:induction false} JoinedPieces(s: Slot, p: Sent, got: seq<bool>, n: nat)
    requires Proper(p) && Holds(s, p, got) && Full(got) && n <= |p.pieces| == |got|
    ensures Joined(s, n) == Flatten(p.pieces[..n])
    decreases n
  {
    hide Holds, Take;
    if n > 0 {
      JoinedPieces(s, p, got, n - 1);
      assert p.pieces[..n][..n - 1] == p.pieces[..n - 1];
      HeldPiece(s, p, got, n - 1);
    }
  }

  /** A full slot yields its body exactly when the checksum it came with is the body's. */
  lemma FinishYields(s: Slot, p: Sent, got: seq<bool>)
    requires Proper(p) && Holds(s, p, got) && Full(got)
    ensures Finish(s) == Yield(p)
  {
    BodyLength(p, got);
    BodyAssembled(s, p, got);
    hide Assembled, ReceivedCrc, Weight, Flatten, Highest, Crc.Crc32, Crc.Be32;
  }

  lemma BodyAssembled(s: Slot, p: Sent, got: seq<bool>)
    requires Proper(p) && Holds(s, p, got) && Full(got)
    ensures 0 < s.recvNum <= FRAG_MAX_NUM && Assembled(s) == p.body && ReceivedCrc(s) == p.crc
  {
    hide Holds, Weight, Highest, Count, Crc.Crc32, Crc.Be32, Crc.Read32;
    var n := |p.pieces|;
    var last := p.pieces[n - 1];
    CountOfAll(s, p, got);
    JoinedPieces(s, p, got, n - 1);
    HeldPiece(s, p, got, n - 1);
    FlattenLast(p.pieces);
    Tail(p.body, Crc.Be32(p.crc), Flatten(p.pieces[..n - 1]), last);
    Crc.Be32RoundTrip(p.crc);
    var at := |last| - 4;
    assert [last[at], last[at + 1], last[at + 2], last[at + 3]] == last[at..];
  }

  lemma CountOfAll(s: Slot, p: Sent, got: seq<bool>)
    requires Proper(p) && Holds(s, p, got) && Full(got)
    ensures Shaped(s) && |got| == |p.pieces| == s.recvNum
  {
    hide Weight, Highest, Count;
    BodyLength(p, got);
  }

  lemma FlattenLast(pieces: seq<seq<Byte>>)
    requires |pieces| > 0
    ensures Flatten(pieces) == Flatten(pieces[..|pieces| - 1]) + pieces[|pieces| - 1]
  {
  }

  lemma Tail(body: seq<Byte>, tail: seq<Byte>, front: seq<Byte>, last: seq<Byte>)
    requires front + last == body + tail && |tail| == 4 <= |last|
    ensures front + last[..|last| - 4] == body
    ensures last[|last| - 4..] == tail
  {
    var n := |last| - 4;
    assert front + last[..n] == (front + last)[..|body|];
    assert last[n..] == (front + last)[|body|..];
  }
}
