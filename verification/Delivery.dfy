/** What the packer sends for a packet is what the receiver needs to hand that packet out. */
module Delivery {
  import opened Bytes
  import opened GseFormat
  import opened Addresses
  import opened Framing
  import opened Fragments
  import opened Packing
  import opened Reassembly
  import opened ReassemblyRuns
  import opened Receiver
  import Crc

  const MAX_RECEIVABLE: nat := 1517

  /** A packet that the receiver's buffers can take in whatever way it is cut. */
  predicate Deliverable(p: Packet) {
    GoodPacket(p) && |p.pdu.bytes| <= MAX_RECEIVABLE && p.pdu.protocol != PROTOCOL_CTRL
  }

  /** All slots of all fragment IDs are free. */
  ghost predicate Idle(state: seq<Buffers>) {
    |state| == MAX_FRAG_ID && forall i :: 0 <= i < |state| ==> AllFree(state[i])
  }

  // ----- the pieces of a cut packet, as the receiver sees them -------------------------------

  function PieceBytes(p: Packet, split: Split, t: nat): seq<Byte> {
    Slice(p.pdu.bytes, OffsetOf(split, t), SizeOf(split, t))
    + (if t == split.total - 1 then Crc.Be32(Crc.Crc32(p.pdu.bytes)) else [])
  }

  function SentOf(p: Packet, plan: Plan): (s: Sent)
    requires plan.Cut?
    ensures |s.pieces| == plan.split.total
  {
    Sent(p.pdu.protocol, plan.stamp, p.pdu.bytes, Crc.Crc32(p.pdu.bytes),
         seq(plan.split.total, t requires 0 <= t => PieceBytes(p, plan.split, t)))
  }

  /** Exact cutting, seen from the other side: the pieces are the packet and its checksum. */
  lemma {:induction false} PiecesJoin(p: Packet, plan: Plan, t: nat)
    requires plan.Cut? && Exact(plan.split, |p.pdu.bytes|) && t < plan.split.total
    ensures OffsetOf(plan.split, t) <= |p.pdu.bytes|
    ensures Flatten(SentOf(p, plan).pieces[..t]) == p.pdu.bytes[..OffsetOf(plan.split, t)]
    decreases t
  {
    hide Exact, OffsetOf, SizeOf, Crc.Crc32, Crc.Be32, Slice;
    OffsetsBelow(plan.split, |p.pdu.bytes|, t);
    if t == 0 {
      NoOffset(plan.split);
    } else {
      PiecesJoin(p, plan, t - 1);
      var pieces := SentOf(p, plan).pieces;
      assert pieces[..t][..t - 1] == pieces[..t - 1];
      assert pieces[t - 1] == Slice(p.pdu.bytes, OffsetOf(plan.split, t - 1), SizeOf(plan.split, t - 1));
      JoinOne(p.pdu.bytes, plan.split, t - 1);
    }
  }

  lemma NoOffset(split: Split)
    ensures OffsetOf(split, 0) == 0
  {
  }

  lemma JoinOne(bytes: seq<Byte>, split: Split, t: nat)
    requires Exact(split, |bytes|) && t < split.total
    ensures var from, size := OffsetOf(split, t), SizeOf(split, t);
      && from + size == (if t == split.total - 1 then |bytes| else OffsetOf(split, t + 1))
      && from + size <= |bytes|
      && bytes[..from] + Slice(bytes, from, size) == bytes[..from + size]
  {
    OffsetsBelow(split, |bytes|, t);
    assert Joins(split, |bytes|, t);
    if t < split.total - 1 { OffsetsBelow(split, |bytes|, t + 1); }
    hide OffsetOf, SizeOf, Exact;
  }

  lemma {:induction false} OffsetsBelow(split: Split, size: nat, t: nat)
    requires Exact(split, size) && t < split.total
    ensures OffsetOf(split, t) <= size
    decreases split.total - t
  {
    hide OffsetOf, SizeOf;
    assert Joins(split, size, t);
    if t < split.total - 1 {
      OffsetsBelow(split, size, t + 1);
    }
  }

  lemma AllPiecesJoin(p: Packet, plan: Plan)
    requires plan.Cut? && Exact(plan.split, |p.pdu.bytes|)
    ensures Flatten(SentOf(p, plan).pieces) == p.pdu.bytes + Crc.Be32(Crc.Crc32(p.pdu.bytes))
  {
    hide Crc.Crc32, Crc.Be32, OffsetOf, SizeOf, Exact, Flatten, Slice;
    var last, pieces, body := plan.split.total - 1, SentOf(p, plan).pieces, p.pdu.bytes;
    var crc := Crc.Be32(Crc.Crc32(body));
    TotalAboveOne(plan.split, |body|);
    PiecesJoin(p, plan, last);
    JoinOne(body, plan.split, last);
    assert pieces[..last] == pieces[..|pieces| - 1];
    assert pieces[last] == PieceBytes(p, plan.split, last);
    var front := body[..OffsetOf(plan.split, last)];
    var tail := Slice(body, OffsetOf(plan.split, last), SizeOf(plan.split, last));
    assert front + (tail + crc) == (front + tail) + crc;
    assert body[..|body|] == body;
    LastPiece(pieces);
  }

  lemma TotalAboveOne(split: Split, size: nat)
    requires Exact(split, size)
    ensures split.total >= 2
  {
  }

  lemma LastPiece(pieces: seq<seq<Byte>>)
    requires |pieces| > 0
    ensures Flatten(pieces) == Flatten(pieces[..|pieces| - 1]) + pieces[|pieces| - 1]
  {
  }

  /** A packet of at most 1517 bytes is cut in two, and both pieces fit the receive buffers. */
  lemma TwoPieces(p: Packet, plan: Plan, payload: nat)
    requires Deliverable(p) && plan.Cut? && GoodPlan(p, plan, payload) && payload >= 1991
      && (payload > 4095 ==> payload >= 4826)
    ensures Proper(SentOf(p, plan)) && plan.split.total == 2
  {
    var s, n := plan.split, |p.pdu.bytes|;
    assert s.total == 2 by {
      if s.total > 2 {
        OffsetsBelow(s, n, 2);
        assert false;
      }
    }
    assert Joins(s, n, 0) && Joins(s, n, 1);
    AllPiecesJoin(p, plan);
    hide Flatten, Crc.Crc32, Exact;
    var sent := SentOf(p, plan);
    assert sent.pieces[0] == PieceBytes(p, s, 0) && sent.pieces[1] == PieceBytes(p, s, 1);
  }

  /** Piece `t` as it comes out of the parser. */
  lemma PieceParsed(p: Packet, plan: Plan, payload: nat, t: nat, stampSeq: U16)
    requires Deliverable(p) && plan.Cut? && GoodPlan(p, plan, payload) && t < plan.split.total <= 6
    requires 1991 <= payload <= 7264 && (payload > 4095 ==> payload >= 4826)
    ensures var parsed := Expected(PieceGroup(p, plan, t), stampSeq);
      && !(parsed.start && parsed.end) && parsed.id == plan.id
      && AsFragment(parsed) == Piece(SentOf(p, plan), t)
  {
    hide Exact, OffsetOf, SizeOf, Crc.Crc32, Crc.Be32, Slice, Sendable, TotalField, TotalLength, Body;
    var g := PieceGroup(p, plan, t);
    PieceLength(p, plan, payload, t);
    BodyIsPiece(p, plan, t);
    StampReads(StampSeq(plan.stamp, t));
    if t == 0 { TotalOfStart(g); }
  }

  lemma BodyIsPiece(p: Packet, plan: Plan, t: nat)
    requires plan.Cut? && plan.stamp < 8192 && 2 <= plan.split.total && t < plan.split.total <= 6
    ensures Body(PieceGroup(p, plan, t)) == SentOf(p, plan).pieces[t]
  {
    hide OffsetOf, SizeOf, Crc.Crc32, Crc.Be32, Slice;
  }

  lemma StampReads(x: U16)
    ensures Read16(Be16(x), 0) == x
  {
    assert Be16(x)[0..2] == Be16(x);
    Be16RoundTrip(Be16(x), 0, x);
  }

  lemma TotalOfStart(g: Group)
    requires Sendable(g) && |g.headers| == 1 && g.address.Broadcast?
    ensures TotalField(g) == ToU16(g.wholeLength + 6)
  {
    assert HeadersSize(g.headers) == 4;
    hide HeadersSize;
    Measured(g);
  }

  // ----- the sequence value carried over from packet to packet does not matter ------------------

  /** Equal but for the sequence value of a whole packet. */
  predicate Alike(p: Parsed, q: Parsed) {
    p == q || (p.start && p.end && q == p.(stampSeq := q.stampSeq))
  }

  predicate AllAlike(a: seq<Parsed>, b: seq<Parsed>) {
    |a| == |b| && forall i :: 0 <= i < |a| ==> Alike(a[i], b[i])
  }

  lemma AlikeHandled(state: seq<Buffers>, p: Parsed, q: Parsed)
    requires AllWellFormed(state) && Alike(p, q)
    ensures Receivable(p) <==> Receivable(q)
    ensures Receivable(p) ==> Handle(state, p) == Handle(state, q)
  {
  }

  lemma {:induction false} AllAlikeHandled(state: seq<Buffers>, a: seq<Parsed>, b: seq<Parsed>)
    requires AllWellFormed(state) && AllAlike(a, b) && AllReceivable(a)
    ensures AllReceivable(b) && HandleAll(state, a) == HandleAll(state, b)
    decreases |a|
  {
    hide Handle, AllWellFormed, Receivable;
    if |a| > 0 {
      var n := |a| - 1;
      assert forall p :: p in a[..n] ==> p in a;
      AllAlikeHandled(state, a[..n], b[..n]);
      AlikeHandled(HandleAll(state, a[..n]).0, a[n], b[n]);
      forall p | p in b ensures Receivable(p) {
        assert b == b[..n] + [b[n]];
      }
    }
  }

  /** The packets as a parser sees them that starts afresh with each. */
  function Shown(gses: seq<Group>): (ps: seq<Parsed>)
    ensures |ps| == |gses|
  {
    seq(|gses|, i requires 0 <= i < |gses| => Expected(gses[i], 0))
  }

  /** As the packer makes them: broadcast, and fragments carry their own sequence value. */
  predicate AsSent(gses: seq<Group>) {
    forall g :: g in gses ==> g.address.Broadcast? && (g.fragmented ==> g.headers != [])
  }

  lemma {:induction false} ShownAlike(gses: seq<Group>, stampSeq: U16)
    requires AsSent(gses)
    ensures AllAlike(Shown(gses), ExpectedAll(gses, stampSeq))
    decreases |gses|
  {
    if |gses| > 0 {
      var p, rest := Expected(gses[0], stampSeq), gses[1..];
      assert forall g :: g in rest ==> g in gses;
      ShownAlike(rest, p.stampSeq);
      var shown, all := Shown(gses), ExpectedAll(gses, stampSeq);
      assert gses[0] in gses;
      assert Alike(shown[0], p);
      hide Expected;
      assert all == [p] + ExpectedAll(rest, p.stampSeq);
      forall i | 0 <= i < |gses| ensures Alike(shown[i], all[i]) {
        if i > 0 { assert shown[i] == Shown(rest)[i - 1] && all[i] == ExpectedAll(rest, p.stampSeq)[i - 1]; }
      }
    }
  }

  // ----- one packet ----------------------------------------------------------------------------

  /** The packet's GSE packets, shown to an idle receiver, make it hand out the packet and be idle again. */
  lemma OneDelivered(state: seq<Buffers>, p: Packet, plan: Plan, payload: nat)
    requires Idle(state) && AllWellFormed(state) && Deliverable(p) && GoodPlan(p, plan, payload)
    requires 1991 <= payload <= 7264 && (payload > 4095 ==> payload >= 4826)
    ensures AllReceivable(Shown(GroupsOf(p, plan))) && AsSent(GroupsOf(p, plan))
    ensures var (after, out) := HandleAll(state, Shown(GroupsOf(p, plan))); Idle(after) && out == [p.pdu]
  {
    match plan {
      case Plain => WholeDelivered(state, p);
      case Cut(_, _, _) => CutDelivered(state, p, plan, payload);
    }
  }

  /** A packet sent whole is handed out as it is, exactly if it is no control message; no slot is touched. */
  lemma WholeExactly(state: seq<Buffers>, g: Group, stampSeq: U16)
    requires AllWellFormed(state) && Sendable(g) && !g.fragmented
    ensures Receivable(Expected(g, stampSeq))
    ensures Handle(state, Expected(g, stampSeq))
         == (state, if Following(g) == 0x00C9 then [] else [Pdu(Following(g), g.data)])
  {
    hide Receive, AllWellFormed, HeadersSize, TotalLength, TotalField;
    assert Body(g) == g.data;
  }

  lemma WholeDelivered(state: seq<Buffers>, p: Packet)
    requires AllWellFormed(state) && Deliverable(p)
    ensures AllReceivable(Shown([WholeGroup(p)]))
    ensures HandleAll(state, Shown([WholeGroup(p)])) == (state, [p.pdu])
  {
    var g := WholeGroup(p);
    var parsed := Expected(g, 0);
    assert Shown([g]) == [parsed];
    assert parsed.data == p.pdu.bytes + [] == p.pdu.bytes;
    assert SinglePdu(parsed) == [p.pdu];
    hide AllWellFormed, Expected;
    HandleOne(state, parsed);
  }

  lemma HandleOne(state: seq<Buffers>, p: Parsed)
    requires AllWellFormed(state) && Receivable(p)
    ensures AllReceivable([p]) && HandleAll(state, [p]) == Handle(state, p)
  {
    hide Handle, AllWellFormed;
    assert [p][..0] == [];
    assert HandleAll(state, []) == (state, []);
    assert [] + Handle(state, p).1 == Handle(state, p).1;
  }

  lemma HandleTwo(state: seq<Buffers>, p: Parsed, q: Parsed)
    requires AllWellFormed(state) && Receivable(p) && Receivable(q)
    ensures AllReceivable([p, q])
    ensures var (s1, out1) := Handle(state, p); var (s2, out2) := Handle(s1, q);
      HandleAll(state, [p, q]) == (s2, out1 + out2)
  {
    hide Handle, AllWellFormed;
    assert [p, q][..1] == [p];
    HandleOne(state, p);
  }

  lemma PiecesStamped(p: Packet, plan: Plan)
    requires plan.Cut? && plan.stamp < 8192 && plan.split.total <= 8
    ensures AsSent(GroupsOf(p, plan))
  {
  }

  lemma SentIs(p: Packet, plan: Plan)
    requires plan.Cut?
    ensures var s := SentOf(p, plan);
      s.protocol == p.pdu.protocol && s.body == p.pdu.bytes && s.crc == Crc.Crc32(s.body)
        && |s.pieces| == plan.split.total
  {
  }

  lemma CutDelivered(state: seq<Buffers>, p: Packet, plan: Plan, payload: nat)
    requires Idle(state) && AllWellFormed(state) && Deliverable(p) && plan.Cut? && GoodPlan(p, plan, payload)
    requires 1991 <= payload <= 7264 && (payload > 4095 ==> payload >= 4826)
    ensures AllReceivable(Shown(GroupsOf(p, plan))) && AsSent(GroupsOf(p, plan))
    ensures var (after, out) := HandleAll(state, Shown(GroupsOf(p, plan))); Idle(after) && out == [p.pdu]
  {
    hide Exact, Receive, Expected, AllWellFormed, Proper, AllFree, PieceGroup, SentOf, Deliverable, AsFragment, Piece;
    PiecesStamped(p, plan);
    TwoPieces(p, plan, payload);
    var sent, fb := SentOf(p, plan), state[plan.id];
    SentIs(p, plan);
    var first, second := Expected(PieceGroup(p, plan, 0), 0), Expected(PieceGroup(p, plan, 1), 0);
    PieceParsed(p, plan, payload, 0, 0);
    PieceParsed(p, plan, payload, 1, 0);
    assert Shown(GroupsOf(p, plan)) == [first, second];
    BothArrive(fb, sent);
    HandleTwo(state, first, second);
  }

  /** The two pieces one after the other. */
  lemma BothArrive(fb: Buffers, p: Sent)
    requires AllFree(fb) && Proper(p) && |p.pieces| == 2 && Crc.Crc32(p.body) == p.crc
    ensures Acceptable(Piece(p, 0)) && Acceptable(Piece(p, 1))
    ensures var (fb1, out1) := Receive(fb, Piece(p, 0)); var (fb2, out2) := Receive(fb1, Piece(p, 1));
      AllFree(fb2) && AsSeq(out1) + AsSeq(out2) == [Pdu(p.protocol, p.body)]
  {
    hide Receive, Free, Crc.Crc32, Flatten;
    var none, order := Nothing(p), [0, 1];
    assert order[1..] == [1] && [1][1..] == [];
    assert Arrivals(none, order) by {
      assert !none[0] && !none[0 := true][1];
      assert Arrivals(none[0 := true], [1]);
    }
    AnyPermutationDelivers(fb, p, order);
    hide Proper;
    var (fb1, out1) := Receive(fb, Piece(p, 0));
    var (fb2, out2) := Receive(fb1, Piece(p, 1));
    assert Run(fb1, p, none[0 := true], [1]) == (fb2, AsSeq(out2) + []);
    assert Run(fb, p, none, order) == (fb2, AsSeq(out1) + (AsSeq(out2) + []));
  }

  // ----- all packets -----------------------------------------------------------------------------

  ghost predicate AllDeliverable(packets: seq<Packet>) { forall p :: p in packets ==> Deliverable(p) }

  function Pdus(packets: seq<Packet>): seq<Pdu> {
    if |packets| == 0 then [] else Pdus(packets[..|packets| - 1]) + [packets[|packets| - 1].pdu]
  }

  lemma ShownAppend(a: seq<Group>, b: seq<Group>)
    ensures Shown(a + b) == Shown(a) + Shown(b)
  {
  }

  /** Packets sent one behind the other come out one behind the other. */
  lemma {:induction false} AllDelivered(state: seq<Buffers>, packets: seq<Packet>, plans: seq<Plan>, payload: nat)
    requires Idle(state) && AllWellFormed(state) && GoodPlans(packets, plans, payload) && AllDeliverable(packets)
    requires 1991 <= payload <= 7264 && (payload > 4095 ==> payload >= 4826)
    ensures AllReceivable(Shown(AllGroups(packets, plans, payload))) && AsSent(AllGroups(packets, plans, payload))
    ensures var (after, out) := HandleAll(state, Shown(AllGroups(packets, plans, payload)));
      Idle(after) && out == Pdus(packets)
    decreases |packets|
  {
    hide Handle, AllWellFormed, Idle, Receivable, Deliverable, GoodPacket, Exact, GroupsOf, Shown;
    if |packets| == 0 {
      assert Shown([]) == [];
    } else {
      var n := |packets| - 1;
      AllDelivered(state, packets[..n], plans[..n], payload);
      var before, last := AllGroups(packets[..n], plans[..n], payload), GroupsOf(packets[n], plans[n]);
      assert packets[n] in packets;
      var s1 := HandleAll(state, Shown(before)).0;
      OneDelivered(s1, packets[n], plans[n], payload);
      HandleAppend(state, Shown(before), Shown(last));
      ShownAppend(before, last);
    }
  }

  // ----- frame by frame --------------------------------------------------------------------------

  /** Everything the station `local` sees that is given these frames. */
  function Incoming(frames: seq<seq<Byte>>, local: Mac, previous: Previous): Seen
    requires forall f :: f in frames ==> |f| >= GSE_OFFSET
  {
    if |frames| == 0 then Seen([], previous)
    else
      var before := Incoming(frames[..|frames| - 1], local, previous);
      var last := Packets(frames[|frames| - 1], local, before.previous);
      Seen(before.packets + last.packets, last.previous)
  }
}
