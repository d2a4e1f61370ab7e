/** What the packer has to send for a packet, and the room it takes. */
module Packing {
  import opened Options
  import opened Bytes
  import opened GseFormat
  import opened Framing
  import opened Fragments
  import Crc

  const BROADCAST_MAC: Mac := [0xFF, 0xFF, 0xFF, 0xFF, 0xFF, 0xFF]
  const MIN_PACKET: nat := 25
  const MAX_WHOLE: nat := 4093
  const MAX_PACKET: nat := 8064

  /** A packet from the ring, and the buffer it lies in. */
  datatype Packet = Packet(pdu: Pdu, mbuf: nat)

  /** How a packet goes out: in one piece, or cut. */
  datatype Plan = Plain | Cut(id: Byte, stamp: nat, split: Split)

  function StampSeq(count: nat, number: nat): U16
    requires count < 8192 && number < 8
  {
    count * 8 + number
  }

  function WholeGroup(p: Packet): Group {
    Group(p.pdu.protocol, false, Start, 0, 0, 0, p.pdu.bytes, p.mbuf, [], Broadcast, BROADCAST_MAC)
  }

  /** Piece `t` of a cut packet; only the start carries the packet's type. */
  function PieceGroup(p: Packet, plan: Plan, t: nat): Group
    requires plan.Cut? && plan.stamp < 8192 && t < 8
  {
    var protocol := if t == 0 then p.pdu.protocol else 0;
    Group(protocol, true, PartOf(plan.split, t), plan.id, ToU16(|p.pdu.bytes|), Crc.Crc32(p.pdu.bytes),
          Slice(p.pdu.bytes, OffsetOf(plan.split, t), SizeOf(plan.split, t)), p.mbuf,
          [OptHeader(FRAG_SEQUENCE, Be16(StampSeq(plan.stamp, t)), protocol)], Broadcast, BROADCAST_MAC)
  }

  /** A packet buffer holds at most 8064 bytes. */
  predicate GoodPacket(p: Packet) {
    MIN_PACKET <= |p.pdu.bytes| <= MAX_PACKET && !Regular(p.pdu.protocol)
  }

  ghost predicate GoodPlan(p: Packet, plan: Plan, payload: nat) {
    match plan
    case Plain => |p.pdu.bytes| <= MAX_WHOLE
    case Cut(_, stamp, split) => stamp < 8192 && GoodSplit(p, split, payload)
  }

  /** A packet that is cut cleanly wherever it has to be cut. */
  predicate ShortPacket(p: Packet) { GoodPacket(p) && |p.pdu.bytes| <= 1974 }

  /** The packets among what the ring delivered, poll by poll. */
  function Present(arrivals: seq<Option<Packet>>): seq<Packet> {
    if |arrivals| == 0 then []
    else Present(arrivals[..|arrivals| - 1]) + (match arrivals[|arrivals| - 1] case Some(p) => [p] case None => [])
  }

  /** The cut covers the packet exactly, in at most eight pieces, none of them too long for a GSE packet or a frame. */
  ghost predicate GoodSplit(p: Packet, split: Split, payload: nat) {
    && 2 <= split.total <= 8
    && Exact(split, |p.pdu.bytes|)
    && 3 <= split.start && split.start + 9 <= 4095
    && split.middle + 15 == (if payload <= 4095 then payload else payload / 2)
    && split.end + 4 < split.middle
  }

  function GroupsOf(p: Packet, plan: Plan): (gs: seq<Group>)
    requires plan.Cut? ==> plan.stamp < 8192 && plan.split.total <= 8
    ensures |gs| == if plan.Cut? then plan.split.total else 1
  {
    if plan.Plain? then [WholeGroup(p)]
    else seq(plan.split.total, t requires 0 <= t < plan.split.total => PieceGroup(p, plan, t))
  }

  ghost predicate GoodPlans(packets: seq<Packet>, plans: seq<Plan>, payload: nat) {
    && |packets| == |plans|
    && forall i :: 0 <= i < |packets| ==> GoodPacket(packets[i]) && GoodPlan(packets[i], plans[i], payload)
  }

  /** Everything that has to be sent for these packets, in order. */
  ghost function AllGroups(packets: seq<Packet>, plans: seq<Plan>, payload: nat): seq<Group>
    requires GoodPlans(packets, plans, payload)
  {
    if |packets| == 0 then []
    else
      var n := |packets| - 1;
      AllGroups(packets[..n], plans[..n], payload) + GroupsOf(packets[n], plans[n])
  }

  function Flat(frames: seq<seq<Group>>): seq<Group> {
    if |frames| == 0 then [] else Flat(frames[..|frames| - 1]) + frames[|frames| - 1]
  }

  /**
   One cut in three: on an empty frame of MODCOD 1, a packet of 4000 bytes leaves a
   start, a middle and an end piece.
   */
  lemma ThreePieces(p: Packet)
    requires GoodPacket(p) && |p.pdu.bytes| == 4000
    ensures RunsThrough(1991, 0, 1991, 14, [Some(p)])
    ensures MiddleSize(1991) > 0 && SplitOf(1991, 1991, 4000).total == 3
  {
    hide RoomAfter;
    MiddleIs(1991);
    RemainingIs(1991, 4000);
    assert 2024 / 1976 == 1 && 2024 % 1976 == 48;
  }

  // ----- lengths -----------------------------------------------------------------------------

  lemma WholeLength(p: Packet)
    requires GoodPacket(p)
    ensures TotalLength(WholeGroup(p)) == |p.pdu.bytes| + 4
    ensures Sendable(WholeGroup(p)) <==> |p.pdu.bytes| <= MAX_WHOLE
  {
    var g := WholeGroup(p);
    assert FieldBytes(g) == 2 && HeadersSize(g.headers) == 0 && Payload(g) == |p.pdu.bytes|;
    hide HeadersSize, FieldBytes, Payload, TotalLength;
    Lengths(g);
  }

  lemma PieceLength(p: Packet, plan: Plan, payload: nat, t: nat)
    requires GoodPacket(p) && plan.Cut? && GoodPlan(p, plan, payload) && t < plan.split.total && payload <= 7264
    ensures var g := PieceGroup(p, plan, t);
      && Sendable(g)
      && TotalLength(g) == (match PartOf(plan.split, t)
                            case Start => plan.split.start + 11
                            case Middle => plan.split.middle + 9
                            case End => plan.split.end + 13)
  {
    var g := PieceGroup(p, plan, t);
    hide Slice, OffsetOf, Exact, Crc.Crc32;
    assert |g.data| == SizeOf(plan.split, t) && HeadersSize(g.headers) == 4;
    assert Sendable(g);
    hide Sendable;
    Measured(g);
  }

  /** What is left of a frame while the pieces of a cut packet follow: nothing was put in, or one middle piece. */
  predicate FrameOpen(payload: nat, used: nat) {
    used == 0 || (payload > 4095 && used == payload / 2 - 6)
  }

  /**
   A continuation piece always fits, so it is never cut again; the start's rest
   of a frame apart, a frame takes one middle piece, or two above 4095 bytes,
   and then less than the threshold is left.
   */
  lemma ContinuationFits(p: Packet, plan: Plan, payload: nat, t: nat, used: nat, threshold: nat)
    requires GoodPacket(p) && plan.Cut? && GoodPlan(p, plan, payload) && 0 < t < plan.split.total
    requires 1991 <= payload <= 7264 && 14 <= threshold <= payload && FrameOpen(payload, used)
    ensures var n := TotalLength(PieceGroup(p, plan, t));
      && used + n <= payload
      && 13 <= n
      && (PartOf(plan.split, t).Middle? && payload - (used + n) >= threshold ==> used == 0 && FrameOpen(payload, n))
  {
    PieceLength(p, plan, payload, t);
    hide Exact, TotalLength, PieceGroup;
  }

  /**
   A packet of this size can be carried from here on: if it fits what is left of
   the frame, the 12-bit length field must take it whole; if it has to be cut,
   the field must take the start, and the cut must leave the checksum in one
   piece.
   */
  predicate Placeable(room: nat, payload: U16, size: nat) {
    MiddleSize(payload) > 0 &&
    if size + 4 <= room then size <= MAX_WHOLE
    else room <= MAX_WHOLE + 4 && (size + 15 - room) % MiddleSize(payload) >= 4
  }

  /** Every Ethernet payload can be carried wherever it comes, and is cut in two if it is cut. */
  lemma ShortPacketsPlaceable(room: nat, payload: U16, size: nat)
    requires 1991 <= payload <= 7264 && (payload > 4095 ==> 4826 <= payload)
    requires 14 <= room && size <= 1974
    ensures Placeable(room, payload, size)
  {
    hide MiddleSize;
    MiddleIs(payload);
    if size + 4 > room { Remainder(size + 15 - room, MiddleSize(payload)); }
  }

  lemma Remainder(n: nat, d: nat)
    requires n < d
    ensures n % d == n
  {
  }

  /**
   A packet cut because it does not fit gets a plan that the rest of the machinery can
   carry out, exactly if it is placeable.
   */
  lemma CutIsGood(room: U16, payload: U16, p: Packet)
    requires GoodPacket(p)
    requires 1991 <= payload <= 7264 && (payload > 4095 ==> 4826 <= payload)
    requires 14 <= room <= payload && room < |p.pdu.bytes| + 4
    ensures MiddleSize(payload) > 0
    ensures var split := SplitOf(room, payload, |p.pdu.bytes|);
      split.start + 11 == room && (GoodSplit(p, split, payload) <==> Placeable(room, payload, |p.pdu.bytes|))
  {
    var size := |p.pdu.bytes|;
    hide Exact, StartSize, Remaining, MiddleSize;
    MiddleIs(payload);
    RemainingIs(room, size);
    FewPieces(Remaining(room, size), MiddleSize(payload));
    CutIsExact(room, payload, size);
    SixPiecesSuffice(room, payload, size);
    if (size + 15 - room) % MiddleSize(payload) >= 4 { EndIs(room, payload, size); }
  }

  lemma EndIs(room: U16, payload: U16, size: U16)
    requires MiddleSize(payload) > 0 && 11 < room < size + 4 < 0x1_0000
    requires (size + 15 - room) % MiddleSize(payload) >= 4
    ensures SplitOf(room, payload, size).end + 4 < MiddleSize(payload)
  {
    hide MiddleSize, Remaining, StartSize, ToU16;
    RemainingIs(room, size);
    var rem, middle := Remaining(room, size), MiddleSize(payload);
    Divided(rem, middle);
    Fits(rem % middle - 4);
  }

  /** What comes next from the packet fits its length field and covers the packet, exactly if it is placeable. */
  lemma PlaceableExactly(room: U16, payload: U16, p: Packet)
    requires GoodPacket(p)
    requires 1991 <= payload <= 7264 && (payload > 4095 ==> 4826 <= payload)
    requires 14 <= room <= payload
    ensures MiddleSize(payload) > 0
    ensures Placeable(room, payload, |p.pdu.bytes|)
       <==> if |p.pdu.bytes| + 4 <= room then Sendable(WholeGroup(p))
            else GoodSplit(p, SplitOf(room, payload, |p.pdu.bytes|), payload)
  {
    hide GoodSplit, SplitOf, MiddleSize, Sendable, TotalLength;
    MiddleIs(payload);
    WholeLength(p);
    if |p.pdu.bytes| + 4 > room { CutIsGood(room, payload, p); }
  }

  lemma FewPieces(rem: nat, middle: nat)
    requires rem < 8192 && middle >= 1976
    ensures rem / middle < 254
  {
    if rem / middle >= 254 {
      Divided(rem, middle);
      Times(middle, rem / middle);
      assert false;
    }
  }

  lemma Times(middle: nat, k: nat)
    requires middle >= 1976 && k >= 254
    ensures middle * k >= 8192
  {
  }

  // ----- fragment IDs and stamps ------------------------------------------------------------------

  /** How many of these packets are cut. */
  function Cuts(plans: seq<Plan>): (n: nat)
    ensures n <= |plans|
  {
    if |plans| == 0 then 0 else Cuts(plans[..|plans| - 1]) + (if plans[|plans| - 1].Cut? then 1 else 0)
  }

  /** The IDs go round, beginning with 1. */
  function IdOfCut(n: nat): Byte { (n + 1) % 256 }

  /** The stamps go up by one with every round; ID 1, the first one used, is one behind the others. */
  function StampOfCut(n: nat): (stamp: nat)
    ensures stamp < 8192
  {
    (n + 255) / 256 % 8192
  }

  /** The cut packets carry IDs and stamps by their place among the cut packets. */
  ghost predicate Numbered(plans: seq<Plan>) {
    forall i :: 0 <= i < |plans| && plans[i].Cut? ==>
      plans[i].id == IdOfCut(Cuts(plans[..i])) && plans[i].stamp == StampOfCut(Cuts(plans[..i]))
  }

  lemma NumberedAppend(plans: seq<Plan>, plan: Plan)
    requires Numbered(plans)
    requires plan.Cut? ==> plan.id == IdOfCut(Cuts(plans)) && plan.stamp == StampOfCut(Cuts(plans))
    ensures Numbered(plans + [plan]) && Cuts(plans + [plan]) == Cuts(plans) + if plan.Cut? then 1 else 0
  {
    hide IdOfCut, StampOfCut, Cuts;
    var longer := plans + [plan];
    CutsAppend(plans, plan);
    forall i | 0 <= i < |longer| && longer[i].Cut?
      ensures longer[i].id == IdOfCut(Cuts(longer[..i])) && longer[i].stamp == StampOfCut(Cuts(longer[..i]))
    {
      assert longer[..i] == plans[..i];
      assert plans[..|plans|] == plans;
    }
  }

  lemma CutsAppend(plans: seq<Plan>, plan: Plan)
    ensures Cuts(plans + [plan]) == Cuts(plans) + if plan.Cut? then 1 else 0
  {
    assert (plans + [plan])[..|plans|] == plans;
  }

  /** How often an ID has been used for the first `n` cut packets. */
  function Uses(id: nat, n: nat): nat {
    if id == 0 then n / 256 else if id < 256 then (n + 256 - id) / 256 else 0
  }

  /** How often it has been taken up again after another ID, as the sender counts. */
  function TakenUp(id: nat, n: nat): (count: nat)
    ensures count < 8192
  {
    (if id == 1 && Uses(id, n) > 0 then Uses(id, n) - 1 else Uses(id, n)) % 8192
  }

  /** One more cut packet: its ID is counted once more, unless it is the very first, and no other ID is. */
  lemma TakenUpNext(n: nat, id: nat)
    requires id < 256
    ensures
      if id == IdOfCut(n) then
        TakenUp(id, n + 1) == StampOfCut(n) == if n == 0 then TakenUp(id, n) else (TakenUp(id, n) + 1) % 8192
      else TakenUp(id, n + 1) == TakenUp(id, n)
  {
    hide Uses;
    UsesNext(n, id);
    if id == IdOfCut(n) {
      RoundOf(n);
      AddsOne(Uses(id, n));
      AddsOne(Uses(id, n) - 1);
    }
  }

  lemma UsesNext(n: nat, id: nat)
    requires id < 256
    ensures Uses(id, n + 1) == Uses(id, n) + if id == IdOfCut(n) then 1 else 0
  {
    hide Uses;
    var k, r := n / 256, n % 256;
    assert n == 256 * k + r;
    UsesAt(id, k, r);
    if r < 255 { UsesAt(id, k, r + 1); } else { UsesAt(id, k + 1, 0); }
  }

  lemma RoundOf(n: nat)
    ensures var id := IdOfCut(n); (n + 255) / 256 == if id == 1 then Uses(id, n) else Uses(id, n) + 1
    ensures IdOfCut(n) == 1 ==> (Uses(1, n) == 0 <==> n == 0)
    ensures n == 0 ==> IdOfCut(n) == 1
  {
    hide Uses;
    var k, r := n / 256, n % 256;
    assert n == 256 * k + r;
    UsesAt(IdOfCut(n), k, r);
    Carries(k, r);
  }

  lemma UsesAt(id: nat, k: nat, r: nat)
    requires id < 256 && r < 256
    ensures Uses(id, 256 * k + r) == if id != 0 && r >= id then k + 1 else k
  {
  }

  lemma Carries(k: nat, r: nat)
    requires r < 256
    ensures (256 * k + r + 255) / 256 == if r == 0 then k else k + 1
  {
  }

  lemma AddsOne(x: int)
    ensures (x % 8192 + 1) % 8192 == (x + 1) % 8192
  {
  }

  /**
   Two cut packets of one ID lie a multiple of 256 cut packets apart, and their
   stamps differ by that multiple modulo 8192: consecutive ones by 1, and any two
   with fewer than 8192 uses of the ID from one to the other are told apart.
   */
  lemma StampsTellApart(plans: seq<Plan>, i: nat, j: nat)
    requires Numbered(plans) && i < j < |plans| && plans[i].Cut? && plans[j].Cut? && plans[i].id == plans[j].id
    ensures
      var between := Cuts(plans[..j]) - Cuts(plans[..i]);
      && 0 < between && between % 256 == 0
      && plans[j].stamp == (plans[i].stamp + between / 256) % 8192
      && (between / 256 < 8192 ==> plans[j].stamp != plans[i].stamp)
  {
    CutsGrow(plans, i, j);
    hide Cuts, Numbered;
    assert Numbered(plans);
    NumberOf(plans, i);
    NumberOf(plans, j);
    RoundsApart(Cuts(plans[..i]), Cuts(plans[..j]));
  }

  lemma NumberOf(plans: seq<Plan>, i: nat)
    requires Numbered(plans) && i < |plans| && plans[i].Cut?
    ensures plans[i].id == IdOfCut(Cuts(plans[..i])) && plans[i].stamp == StampOfCut(Cuts(plans[..i]))
  {
  }

  lemma {:induction false} CutsGrow(plans: seq<Plan>, i: nat, j: nat)
    requires i < j <= |plans| && plans[i].Cut?
    ensures Cuts(plans[..i]) < Cuts(plans[..j])
    decreases j
  {
    assert plans[..j][..j - 1] == plans[..j - 1];
    if i < j - 1 { CutsGrow(plans, i, j - 1); }
  }

  lemma RoundsApart(a: nat, b: nat)
    requires a < b && IdOfCut(a) == IdOfCut(b)
    ensures (b - a) % 256 == 0
    ensures StampOfCut(b) == (StampOfCut(a) + (b - a) / 256) % 8192
    ensures (b - a) / 256 < 8192 ==> StampOfCut(b) != StampOfCut(a)
  {
    var k := (b - a) / 256;
    assert b == a + 256 * k;
    assert (b + 255) / 256 == (a + 255) / 256 + k;
  }

  // ----- what is left of the frame -----------------------------------------------------------------

  /** Room for the next GSE packet after one of `n` bytes: a frame with less than the threshold left goes out. */
  function Placed(room: nat, payload: nat, threshold: nat, n: nat): nat {
    if room < n + threshold then payload else room - n
  }

  /** Room after all of these. */
  function RoomLeft(room: nat, payload: nat, threshold: nat, gses: seq<Group>): nat
    decreases |gses|
  {
    if |gses| == 0 then room
    else RoomLeft(Placed(room, payload, threshold, TotalLength(gses[0])), payload, threshold, gses[1..])
  }

  function PieceTotal(split: Split, t: nat): nat {
    match PartOf(split, t)
    case Start => split.start + 11
    case Middle => split.middle + 9
    case End => split.end + 13
  }

  /** Room after the pieces from `t` on. */
  function RoomAfterPieces(room: nat, payload: nat, threshold: nat, split: Split, t: nat): nat
    decreases split.total - t
  {
    if t >= split.total then room
    else RoomAfterPieces(Placed(room, payload, threshold, PieceTotal(split, t)), payload, threshold, split, t + 1)
  }

  /** Room after a packet, and after all its pieces if it is cut: what a caller can know ahead. */
  function RoomAfter(room: nat, payload: U16, threshold: nat, size: nat): nat {
    if size + 4 <= room then Placed(room, payload, threshold, size + 4)
    else if MiddleSize(payload) > 0 && size < 0x1_0000
    then RoomAfterPieces(payload, payload, threshold, SplitOf(ToU16(room), payload, size), 1)
    else room
  }

  lemma {:induction false} PiecesLeave(p: Packet, plan: Plan, room: nat, payload: nat, threshold: nat, t: nat)
    requires GoodPacket(p) && plan.Cut? && GoodPlan(p, plan, payload) && t <= plan.split.total && payload <= 7264
    ensures RoomLeft(room, payload, threshold, GroupsOf(p, plan)[t..])
         == RoomAfterPieces(room, payload, threshold, plan.split, t)
    decreases plan.split.total - t
  {
    hide Exact, PieceGroup, TotalLength, GoodPacket, Placed;
    if t < plan.split.total {
      PieceLength(p, plan, payload, t);
      PiecesLeave(p, plan, Placed(room, payload, threshold, PieceTotal(plan.split, t)), payload, threshold, t + 1);
      var rest := GroupsOf(p, plan)[t..];
      assert rest[0] == PieceGroup(p, plan, t) && rest[1..] == GroupsOf(p, plan)[t + 1..];
    }
  }

  lemma PlacedBounds(room: nat, payload: nat, threshold: nat, n: nat)
    requires threshold <= room <= payload
    ensures threshold <= Placed(room, payload, threshold, n) <= payload
  {
  }

  lemma {:induction false} PiecesBounds(room: nat, payload: nat, threshold: nat, split: Split, t: nat)
    requires threshold <= room <= payload
    ensures threshold <= RoomAfterPieces(room, payload, threshold, split, t) <= payload
    decreases split.total - t
  {
    hide Placed;
    if t < split.total {
      PlacedBounds(room, payload, threshold, PieceTotal(split, t));
      PiecesBounds(Placed(room, payload, threshold, PieceTotal(split, t)), payload, threshold, split, t + 1);
    }
  }

  // ----- runs -----------------------------------------------------------------------------------------

  const IDLE_ROUNDS: nat := 100

  function NextIdle(idle: nat, arrived: Option<Packet>): nat {
    if arrived.Some? then 0 else (idle + 1) % IDLE_ROUNDS
  }

  /** Polls without a packet since the last one. */
  function IdlePolls(idle: nat, arrivals: seq<Option<Packet>>): nat {
    if |arrivals| == 0 then idle
    else if arrivals[|arrivals| - 1].Some? then 0
    else IdlePolls(idle, arrivals[..|arrivals| - 1]) + 1
  }

  lemma OneMorePoll(idle: nat, arrivals: seq<Option<Packet>>, arrived: Option<Packet>)
    ensures IdlePolls(idle, arrivals + [arrived]) == if arrived.Some? then 0 else IdlePolls(idle, arrivals) + 1
    ensures IdlePolls(idle, arrivals + [arrived]) % 100 == NextIdle(IdlePolls(idle, arrivals) % 100, arrived)
  {
    assert (arrivals + [arrived])[..|arrivals|] == arrivals;
    if arrived.None? { CountsOn(IdlePolls(idle, arrivals)); }
  }

  lemma CountsOn(n: nat)
    ensures (n + 1) % 100 == (n % 100 + 1) % 100
  {
  }

  /** Room after one round of the thread: after a packet, or after so many idle rounds that the frame goes out. */
  function NextRoom(room: nat, idle: nat, payload: U16, threshold: nat, arrived: Option<Packet>): nat {
    match arrived
    case Some(p) => RoomAfter(room, payload, threshold, |p.pdu.bytes|)
    case None => if idle + 1 == IDLE_ROUNDS then payload else room
  }

  /** Every packet is placeable when it arrives; sizes and polls alone decide that. */
  predicate RunsThrough(room: nat, idle: nat, payload: U16, threshold: nat, arrivals: seq<Option<Packet>>)
    decreases |arrivals|
  {
    |arrivals| == 0 ||
    var arrived := arrivals[0];
    && (arrived.Some? ==> GoodPacket(arrived.value) && Placeable(room, payload, |arrived.value.pdu.bytes|))
    && RunsThrough(NextRoom(room, idle, payload, threshold, arrived), NextIdle(idle, arrived), payload, threshold,
                   arrivals[1..])
  }

  /** Packets up to 1974 bytes always run through. */
  lemma {:induction false} ShortRunsThrough(
    room: nat, idle: nat, payload: U16, threshold: nat, arrivals: seq<Option<Packet>>)
    requires 1991 <= payload <= 7264 && (payload > 4095 ==> 4826 <= payload)
    requires 14 <= threshold <= room <= payload
    requires forall a :: a in arrivals && a.Some? ==> ShortPacket(a.value)
    ensures RunsThrough(room, idle, payload, threshold, arrivals)
    decreases |arrivals|
  {
    hide Placeable, MiddleSize, SplitOf, RoomAfterPieces, Placed, ToU16;
    if |arrivals| > 0 {
      var arrived := arrivals[0];
      MiddleIs(payload);
      if arrived.Some? {
        assert arrived in arrivals;
        var size := |arrived.value.pdu.bytes|;
        ShortPacketsPlaceable(room, payload, size);
        Fits(room);
        PlacedBounds(room, payload, threshold, size + 4);
        PiecesBounds(payload, payload, threshold, SplitOf(room, payload, size), 1);
      }
      ShortRunsThrough(NextRoom(room, idle, payload, threshold, arrived), NextIdle(idle, arrived), payload, threshold,
                       arrivals[1..]);
    }
  }

  /** After two middle pieces a frame is flushed at every MODCOD exactly if the threshold is at least 14. */
  lemma TwoMiddlesFlushExactly(threshold: nat)
    ensures (forall modcod :: 1 <= modcod <= 28 && MapPayload(modcod) > 4095 ==>
               MapPayload(modcod) - 2 * (MiddleSize(MapPayload(modcod)) + 9) < threshold)
       <==> threshold >= 14
  {
    forall modcod | 1 <= modcod <= 28 && MapPayload(modcod) > 4095
      ensures 12 <= MapPayload(modcod) - 2 * (MiddleSize(MapPayload(modcod)) + 9) <= 13
    {
      MiddleIs(MapPayload(modcod));
    }
    assert MapPayload(7) == 6041 && MapPayload(7) - 2 * (MiddleSize(MapPayload(7)) + 9) == 13;
  }

  /** An 8-bit count holds the GSE packets of every frame exactly if the packets have at least 25 bytes. */
  lemma CountFitsExactly(size: nat)
    ensures (forall modcod, k: nat {:trigger MapPayload(modcod), k * (size + 4)} ::
               1 <= modcod <= 28 && k * (size + 4) <= MapPayload(modcod) ==> k <= 255)
       <==> size >= MIN_PACKET
  {
    if size >= MIN_PACKET {
      forall modcod, k: nat {:trigger MapPayload(modcod), k * (size + 4)} |
        1 <= modcod <= 28 && k * (size + 4) <= MapPayload(modcod)
        ensures k <= 255
      {
        if k > 255 { AtLeast(k, 256, size + 4, 29); }
      }
    } else {
      AtLeast(256, 256, 28, size + 4);
      assert MapPayload(28) == 7264 && 256 * (size + 4) <= MapPayload(28);
    }
  }

  lemma AtLeast(k: nat, low: nat, n: nat, m: nat)
    requires k >= low && n >= m
    ensures k * n >= low * m
  {
    assert k * n >= low * n;
  }

  lemma {:induction false} TotalSizeAppend(gses: seq<Group>, g: Group)
    ensures TotalSize(gses + [g]) == TotalSize(gses) + TotalLength(g)
  {
    hide TotalLength;
    if gses != [] {
      assert (gses + [g])[1..] == gses[1..] + [g];
      TotalSizeAppend(gses[1..], g);
    } else {
      assert ([] + [g]) == [g] && [g][1..] == [];
    }
  }

  lemma FlatAppend(frames: seq<seq<Group>>, gses: seq<Group>)
    ensures Flat(frames + [gses]) == Flat(frames) + gses
  {
    assert (frames + [gses])[..|frames|] == frames;
  }

  /** One more packet, its plan still open. */
  lemma AllGroupsAppend(packets: seq<Packet>, plans: seq<Plan>, payload: nat, p: Packet, plan: Plan)
    requires GoodPlans(packets, plans, payload) && GoodPacket(p) && GoodPlan(p, plan, payload)
    ensures GoodPlans(packets + [p], plans + [plan], payload)
    ensures AllGroups(packets + [p], plans + [plan], payload) == AllGroups(packets, plans, payload) + GroupsOf(p, plan)
  {
    assert (packets + [p])[..|packets|] == packets && (plans + [plan])[..|packets|] == plans;
  }
}
