/** The packer: packets in, base-band frames out. */
module Packer {
  import opened Options
  import opened Bytes
  import opened GseFormat
  import opened Framing
  import opened Fragments
  import opened FrameWriter
  import opened Packing
  import Crc

  datatype ReadOk = FetchedFragment | FetchedPacket | FetchFailed

  // ----- what the packer keeps between calls ---------------------------------------------------

  /** The frame under construction is either untouched or accounts for every byte, with the threshold left. */
  ghost predicate FrameCounts(
    payload: nat, threshold: nat, max: nat, used: nat, usable: nat, gses: seq<Group>, gseNum: nat, total: nat)
  {
    && |gses| == gseNum && total == used == TotalSize(gses) && AllSendable(gses)
    && (if gses == [] then max == 0 && used == 0 && usable == 0
        else max == payload && used + usable == payload && usable >= threshold)
  }

  /** Packets of at least 25 bytes: few enough GSE packets in a frame for an 8-bit count. */
  predicate CountBounded(used: nat, gseNum: nat) { 29 * gseNum <= used + 16 }

  /**
   Everything accepted is in a frame sent, in the frame under construction, in hand, or
   still to be fetched, in order.
   */
  ghost predicate History(
    sent: seq<seq<Group>>, gses: seq<Group>, inHand: seq<Group>, pending: seq<Group>,
    packets: seq<Packet>, plans: seq<Plan>, payload: nat)
  {
    GoodPlans(packets, plans, payload)
    && Flat(sent) + gses + inHand + pending == AllGroups(packets, plans, payload)
  }

  ghost predicate SentFrame(c: HeaderParams, payload: nat, b: seq<Byte>, gses: seq<Group>)
    requires ValidParams(c)
  {
    |gses| > 0 && AllSendable(gses) && TotalSize(gses) <= payload && b == Message(c, payload, TotalSize(gses), gses)
  }

  ghost predicate SentFrames(c: HeaderParams, payload: nat, frames: seq<seq<Byte>>, sent: seq<seq<Group>>)
    requires ValidParams(c)
  {
    |frames| == |sent| && forall i :: 0 <= i < |sent| ==> SentFrame(c, payload, frames[i], sent[i])
  }

  /** The table entry of the packet that is being sent in pieces. */
  ghost predicate Serves(e: Entry, p: Packet, plan: Plan) {
    && plan.Cut? && e.split == plan.split && 0 < e.transferred <= e.split.total
    && e.node.data == p.pdu.bytes && e.node.wholeLength == |p.pdu.bytes| && e.node.mbuf == p.mbuf
    && e.crc == Crc.Crc32(p.pdu.bytes)
  }

  /** A packet node on its way into a GSE packet. */
  function GroupFor(node: PduNode, stamp: nat): Group
    requires node.fragmented ==> stamp < 8192 && node.number < 8
  {
    Group(node.protocol, node.fragmented, node.part, node.id, if node.fragmented then node.wholeLength else 0, node.crc,
          node.data, node.mbuf,
          if node.fragmented then [OptHeader(FRAG_SEQUENCE, Be16(StampSeq(stamp, node.number)), node.protocol)] else [],
          Broadcast, BROADCAST_MAC)
  }

  /** The packet that lies in a node. */
  function PacketOf(node: PduNode): Packet { Packet(Pdu(node.protocol, node.data), node.mbuf) }

  function WholeNode(p: Packet): PduNode {
    PduNode(p.pdu.bytes, p.pdu.protocol, false, 0, Start, 0, ToU16(|p.pdu.bytes|), 0, p.mbuf)
  }

  /** A fetch hands out the next piece of the first entry, counts it, and frees the ID behind the last one. */
  ghost predicate AfterFetch(ids0: seq<int>, entries0: seq<Entry>, ids: seq<int>, entries: seq<Entry>, node: PduNode) {
    && |ids0| > 0 && |entries0| == FRAGMENT_MAX_NUM && ValidId(ids0[0])
    && var e := entries0[ids0[0]];
    && node == NextPiece(e, ids0[0])
    && entries == entries0[ids0[0] := Advanced(e)]
    && ids == if Advanced(e).used then ids0 else ids0[1..]
  }

  /** How often an ID has been taken up again, modulo 8192; a packet keeps its count through all its pieces. */
  function NextStamp(count: nat, same: bool): nat
    requires count < 8192
  {
    if same then count else if count + 1 >= 8192 then 0 else count + 1
  }

  ghost predicate Small(counts: seq<nat>) { |counts| == 256 && forall i :: 0 <= i < |counts| ==> counts[i] < 8192 }

  // ----- how the history moves ------------------------------------------------------------------

  lemma IntoFrame(sent: seq<seq<Group>>, gses: seq<Group>, g: Group, pending: seq<Group>,
                  packets: seq<Packet>, plans: seq<Plan>, payload: nat)
    requires History(sent, gses, [g], pending, packets, plans, payload)
    ensures History(sent, gses + [g], [], pending, packets, plans, payload)
  {
    hide Flat, AllGroups, GoodPlans;
    assert Flat(sent) + (gses + [g]) + [] + pending == Flat(sent) + gses + [g] + pending;
  }

  lemma OutOfFrame(sent: seq<seq<Group>>, gses: seq<Group>, pending: seq<Group>,
                   packets: seq<Packet>, plans: seq<Plan>, payload: nat)
    requires History(sent, gses, [], pending, packets, plans, payload)
    ensures History(sent + [gses], [], [], pending, packets, plans, payload)
  {
    hide Flat, AllGroups, GoodPlans;
    FlatAppend(sent, gses);
    assert Flat(sent) + gses + [] + [] + pending == Flat(sent) + gses + [] + pending;
  }

  lemma IntoHand(sent: seq<seq<Group>>, gses: seq<Group>, g: Group, pending: seq<Group>,
                 packets: seq<Packet>, plans: seq<Plan>, payload: nat)
    requires History(sent, gses, [], [g] + pending, packets, plans, payload)
    ensures History(sent, gses, [g], pending, packets, plans, payload)
  {
    hide Flat, AllGroups, GoodPlans;
    assert Flat(sent) + gses + [] + ([g] + pending) == Flat(sent) + gses + [g] + pending;
  }

  /** A packet joins those accepted: whole, or with its first piece in hand and the others still to be fetched. */
  lemma AcceptWhole(sent: seq<seq<Group>>, gses: seq<Group>, packets: seq<Packet>, plans: seq<Plan>, payload: nat,
      p: Packet)
    requires History(sent, gses, [], [], packets, plans, payload) && GoodPacket(p) && GoodPlan(p, Plain, payload)
    ensures History(sent, gses, [WholeGroup(p)], [], packets + [p], plans + [Plain], payload)
  {
    hide Flat, AllGroups, GoodPlans, WholeGroup, GoodPlan;
    AllGroupsAppend(packets, plans, payload, p, Plain);
    assert Flat(sent) + gses + [WholeGroup(p)] + [] == Flat(sent) + gses + [] + [] + [WholeGroup(p)];
  }

  lemma AcceptCut(sent: seq<seq<Group>>, gses: seq<Group>, packets: seq<Packet>, plans: seq<Plan>, payload: nat,
                  p: Packet, plan: Plan)
    requires History(sent, gses, [], [], packets, plans, payload)
    requires GoodPacket(p) && plan.Cut? && GoodPlan(p, plan, payload)
    ensures History(sent, gses, [PieceGroup(p, plan, 0)], GroupsOf(p, plan)[1..], packets + [p], plans + [plan],
      payload)
  {
    hide PieceGroup, Flat, AllGroups, GoodPlans, Exact, GoodPacket;
    AllGroupsAppend(packets, plans, payload, p, plan);
    var front := Flat(sent) + gses;
    assert GroupsOf(p, plan) == [PieceGroup(p, plan, 0)] + GroupsOf(p, plan)[1..];
    assert front + [PieceGroup(p, plan, 0)] + GroupsOf(p, plan)[1..] == front + [] + [] + GroupsOf(p, plan);
  }

  class Packer {
    const modcod: nat
    const threshold: U16
    const params: HeaderParams
    const table: FragmentTable
    const counts: array<nat>

    // the frame under construction, and the GSE packets queued for it
    var maxPayload: U16
    var usedPayload: U16
    var usablePayload: U16
    var gses: seq<Group>
    var gseNum: Byte
    var totalLength: nat

    // the packet in hand, and the GSE packet made of it
    var using: PduNode
    var group: Option<Group>
    var groupTotal: U16

    // the ID stamped last
    var stampId: Byte
    var entered: bool

    var idle: nat

    // frames handed to the send ring, and buffers given back
    var frames: seq<seq<Byte>>
    var freed: seq<nat>

    ghost var sent: seq<seq<Group>>
    ghost var accepted: seq<Packet>
    ghost var plans: seq<Plan>
    ghost var inHand: seq<Group>
    ghost var pending: seq<Group>
    ghost var ids: seq<int>
    ghost var entries: seq<Entry>
    ghost var stamps: seq<nat>

    ghost predicate Configured() {
      1 <= modcod <= 28 && 14 <= threshold <= MapPayload(modcod) && ValidParams(params) && counts.Length == 256
    }

    ghost function Payload(): (n: U16)
      requires Configured()
      ensures 1991 <= n <= 7264 && (n > 4095 ==> n >= 4826)
    {
      MapPayload(modcod)
    }

    /** Frame, frames sent and history agree. */
    ghost predicate Accounted()
      requires Configured()
      reads `maxPayload, `usedPayload, `usablePayload, `gses, `gseNum, `totalLength,
        `frames, `freed, `sent, `inHand, `pending, `accepted, `plans
    {
      && FrameCounts(Payload(), threshold, maxPayload, usedPayload, usablePayload, gses, gseNum, totalLength)
      && CountBounded(usedPayload, gseNum)
      && SentFrames(params, Payload(), frames, sent)
      && freed == Closers(Flat(sent))
      && History(sent, gses, inHand, pending, accepted, plans, Payload())
    }

    /** The ghost fields show the table and the counts as they are. */
    ghost predicate Mirrored()
      reads `ids, `entries, `stamps, counts, table, table.entries, table.queue, table.queue.slots
    {
      && counts.Length == 256 && counts[..] == stamps && Small(stamps)
      && table.Valid() && table.Ids() == ids && table.entries[..] == entries && |entries| == FRAGMENT_MAX_NUM
    }

    /** At most one packet is being sent in pieces: the last one accepted, and its stamp stays the same. */
    ghost predicate Continues()
      requires Configured()
      reads `ids, `entries, `stamps, `pending, `accepted, `plans, `entered, `stampId, `usedPayload, `gseNum
    {
      ContinuesWith(ids, entries)
    }

    ghost predicate ContinuesWith(ids: seq<int>, entries: seq<Entry>)
      requires Configured()
      reads `stamps, `pending, `accepted, `plans, `entered, `stampId, `usedPayload, `gseNum
    {
      if ids == [] then pending == []
      else LastIsCut(ids, entries) && FrameOpen(Payload(), usedPayload) && gseNum <= 1
    }

    /** The entry in use holds the last packet, and its pieces not fetched yet are the pending ones. */
    ghost predicate LastIsCut(ids: seq<int>, entries: seq<Entry>)
      reads `stamps, `pending, `accepted, `plans, `entered, `stampId
    {
      && |ids| == 1 && ValidId(ids[0]) && |entries| == FRAGMENT_MAX_NUM && HasLast()
      && var e, p, plan := entries[ids[0]], LastPacket(), LastPlan();
      && Serves(e, p, plan) && plan.id == ids[0]
      && plan.stamp < 8192 && e.transferred < plan.split.total <= 8
      && Stamped(ids[0], plan.stamp)
      && pending == GroupsOf(p, plan)[e.transferred..]
    }

    ghost predicate Stamped(id: int, stamp: nat)
      reads `entered, `stampId, `stamps
    {
      entered && stampId == id && |stamps| == 256 && stamps[stampId] == stamp
    }

    /** The last accepted packet and its plan. */
    ghost predicate HasLast()
      reads `accepted, `plans
    {
      |accepted| > 0 && |plans| == |accepted|
    }

    ghost function LastPacket(): Packet
      requires HasLast()
      reads `accepted, `plans
    {
      accepted[|accepted| - 1]
    }

    ghost function LastPlan(): Plan
      requires HasLast()
      reads `accepted, `plans
    {
      plans[|plans| - 1]
    }

    /** IDs and stamps of the cut packets go by their number; the counts are those after `n` of them. */
    ghost predicate Numbering()
      reads `plans, `stamps, `entered, `stampId, table`lastId
    {
      Numbered(plans) && table.lastId == Cuts(plans) % 256 && Counting(Cuts(plans))
    }

    ghost predicate Counting(n: nat)
      reads `stamps, `entered, `stampId
    {
      && (entered <==> n > 0) && (entered ==> stampId == n % 256)
      && |stamps| == 256 && forall id :: 0 <= id < 256 ==> stamps[id] == TakenUp(id, n)
    }

    /** What holds between any two steps of the packing loop. */
    ghost predicate Valid()
      reads this, counts, table, table.entries, table.queue, table.queue.slots
    {
      && Configured() && Mirrored() && Numbering()
      && group == None && groupTotal == 0
      && Accounted() && Continues()
    }

    constructor (modcod: nat, threshold: U16, params: HeaderParams)
      requires 1 <= modcod <= 28 && 14 <= threshold <= MapPayload(modcod) && ValidParams(params)
      ensures Valid() && this.modcod == modcod && this.threshold == threshold && this.params == params
      ensures accepted == [] && inHand == [] && ids == [] && frames == [] && idle == 0 && RoomAhead() == Payload()
      ensures fresh(counts) && fresh(table) && fresh(table.entries) && fresh(table.queue) && fresh(table.queue.slots)
    {
      this.modcod, this.threshold, this.params := modcod, threshold, params;
      var t := new FragmentTable();
      table := t;
      counts := new nat[256](i => 0);
      maxPayload, usedPayload, usablePayload := 0, 0, 0;
      gses, gseNum, totalLength := [], 0, 0;
      using := PduNode([], 0, false, 0, Start, 0, 0, 0, 0);
      group, groupTotal := None, 0;
      stampId, entered, idle := 0, false, 0;
      frames, freed := [], [];
      sent, accepted, plans, inHand, pending := [], [], [], [], [];
      ids, entries, stamps := [], t.entries[..], seq(256, i => 0);
      new;
      hide History, SentFrames, FrameCounts, Closers, Flat, AllGroups, CountBounded, MapPayload, Numbering;
      StartsEmpty();
      NothingCounted();
    }

    lemma StartsEmpty()
      requires Configured()
      ensures FrameCounts(Payload(), threshold, 0, 0, 0, [], 0, 0)
      ensures SentFrames(params, Payload(), [], []) && Closers(Flat([])) == []
      ensures History([], [], [], [], [], [], Payload()) && CountBounded(0, 0)
    {
    }

    lemma AllSmall(n: nat)
      requires Counting(n)
      ensures Small(stamps)
    {
      hide TakenUp;
    }

    lemma NothingCounted()
      requires plans == [] && stamps == seq(256, i => 0) && !entered && table.lastId == 0
      ensures Numbering()
    {
    }

    /**
     Makes a GSE packet of the packet in hand.  A fragment gets a sequence
     header: how often its ID has been taken up, and its number.
     */
    method UpdatePduGroup()
      requires group == None && Small(counts[..]) && counts.Length == 256
      requires using.fragmented ==> using.number < 8
      modifies this`group, this`groupTotal, this`stampId, this`entered, counts
      ensures Small(counts[..])
      ensures using.fragmented ==>
        && entered && stampId == using.id
        && counts[..] == old(counts[..])[using.id :=
             NextStamp(old(counts[..])[using.id], !old(entered) || old(stampId) == using.id)]
      ensures !using.fragmented ==> entered == old(entered) && stampId == old(stampId) && counts[..] == old(counts[..])
      ensures group == Some(GroupFor(using, counts[using.id])) && groupTotal == TotalLength(group.value)
    {
      hide TotalLength;
      var g := Group(using.protocol, using.fragmented, using.part, using.id,
                     if using.fragmented then using.wholeLength else 0, using.crc,
                     using.data, using.mbuf, [], Broadcast, BROADCAST_MAC);
      if using.fragmented {
        if !entered {
          stampId, entered := using.id, true;
        }
        if stampId != using.id {
          stampId := using.id;
          counts[stampId] := counts[stampId] + 1;
        }
        if counts[stampId] >= 8192 {
          counts[stampId] := 0;
        }
        g := g.(headers := [OptHeader(FRAG_SEQUENCE, Be16(StampSeq(counts[stampId], using.number)), g.protocol)]);
      }
      group, groupTotal := Some(g), TotalLength(g);
    }

    /** Queues the GSE packet for the frame; without one nothing changes. */
    method UpdateGseGroup()
      requires group.Some? ==> gseNum < 255
      requires group == None ==> groupTotal == 0
      modifies this`usablePayload, this`usedPayload, this`group, this`groupTotal, this`gses, this`gseNum,
        this`totalLength
      ensures group == None && groupTotal == 0
      ensures usablePayload == ToU16(old(usablePayload) - old(groupTotal))
      ensures usedPayload == ToU16(old(usedPayload) + old(groupTotal))
      ensures totalLength == old(totalLength) + old(groupTotal)
      ensures old(group) == None ==> gses == old(gses) && gseNum == old(gseNum)
      ensures old(group).Some? ==> gses == old(gses) + [old(group).value] && gseNum == old(gseNum) + 1
    {
      usablePayload := ToU16(usablePayload - groupTotal);
      usedPayload := ToU16(usedPayload + groupTotal);
      if group.Some? {
        totalLength := totalLength + groupTotal;
        gseNum := (gseNum + 1) % 256;
        gses := gses + [group.value];
        group, groupTotal := None, 0;
      }
    }

    /** Sends the frame; the next one starts untouched. */
    method MakeFrame()
      requires Configured() && AllSendable(gses) && gseNum == |gses|
      requires |gses| > 0 ==> maxPayload == Payload()
      requires usedPayload == TotalSize(gses) <= Payload()
      requires SentFrames(params, Payload(), frames, sent) && freed == Closers(Flat(sent))
      modifies this`maxPayload, this`usedPayload, this`usablePayload, this`gses, this`gseNum, this`totalLength,
        this`frames, this`freed, this`sent
      ensures maxPayload == usedPayload == usablePayload == 0 && gses == [] && gseNum == 0 && totalLength == 0
      ensures SentFrames(params, Payload(), frames, sent) && freed == Closers(Flat(sent))
      ensures old(gses) == [] ==> frames == old(frames) && sent == old(sent)
      ensures old(gses) != [] ==>
        sent == old(sent) + [old(gses)] && |frames| == |old(frames)| + 1 && frames[..|old(frames)|] == old(frames)
    {
      hide AllSendable, TotalSize, Message, Closers, SentFrames, Flat;
      if gseNum > 0 {
        var message, back := WriteFrame(params, maxPayload, usedPayload, gses);
        ClosersAppend(Flat(sent), gses);
        FlatAppend(sent, gses);
        SentAppend(params, Payload(), frames, sent, message, gses);
        frames := frames + [message];
        freed := freed + back;
        sent := sent + [gses];
      }
      maxPayload, usedPayload, usablePayload := 0, 0, 0;
      gses, gseNum, totalLength := [], 0, 0;
    }

    /** A frame is being filled. */
    ghost predicate Building()
      requires Configured()
      reads `maxPayload, `usedPayload, `usablePayload, `gses, `gseNum, `totalLength,
        `frames, `freed, `sent, `inHand, `pending, `accepted, `plans
    {
      Begun() && CountBounded(usedPayload, gseNum)
    }

    /** Everything in the frame is accounted for, with however little left. */
    ghost predicate Begun()
      requires Configured()
      reads `maxPayload, `usedPayload, `usablePayload, `gses, `gseNum, `totalLength,
        `frames, `freed, `sent, `inHand, `pending, `accepted, `plans
    {
      && maxPayload == Payload() && usedPayload + usablePayload == Payload()
      && usedPayload == TotalSize(gses) == totalLength && gseNum == |gses| && AllSendable(gses)
      && SentFrames(params, Payload(), frames, sent) && freed == Closers(Flat(sent))
      && History(sent, gses, inHand, pending, accepted, plans, Payload())
    }

    /** The GSE packet fits and is queued. */
    method Queue()
      requires Configured() && Begun() && groupTotal <= usablePayload && gseNum < 255
      requires group.Some? && groupTotal == TotalLength(group.value) && Sendable(group.value) && inHand == [group.value]
      modifies this`usedPayload, this`usablePayload, this`group, this`groupTotal,
        this`gses, this`gseNum, this`totalLength, this`inHand
      ensures Begun() && group == None && groupTotal == 0 && inHand == []
      ensures gses == old(gses) + old(inHand) && gseNum == old(gseNum) + 1
      ensures usedPayload == old(usedPayload) + old(groupTotal)
      ensures usablePayload == old(usablePayload) - old(groupTotal)
    {
      hide Sendable, TotalSize, TotalLength, AllSendable, Closers, SentFrames, History, Flat;
      IntoFrame(sent, gses, group.value, pending, accepted, plans, Payload());
      TotalSizeAppend(gses, group.value);
      OneMoreSendable(gses, group.value);
      inHand := [];
      UpdateGseGroup();
    }

    /** The frame goes out. */
    method SendBegun()
      requires Configured() && Begun() && gses != [] && inHand == []
      modifies this`maxPayload, this`usedPayload, this`usablePayload,
        this`gses, this`gseNum, this`totalLength, this`frames, this`freed, this`sent
      ensures Accounted() && maxPayload == usedPayload == gseNum == 0
      ensures gses == [] && sent == old(sent) + [old(gses)]
    {
      hide TotalSize, AllSendable, FrameCounts, Closers, SentFrames, History, Flat;
      OutOfFrame(sent, gses, pending, accepted, plans, Payload());
      MakeFrame();
      StartsEmpty();
    }

    /**
     The GSE packet fits: it is queued, and if less than the threshold remains
     the frame goes out.
     */
    method Fill()
      requires Configured() && Building() && groupTotal <= usablePayload
      requires group.Some? && groupTotal == TotalLength(group.value) && Sendable(group.value) && inHand == [group.value]
      requires CountBounded(usedPayload + groupTotal, gseNum + 1)
      modifies this`maxPayload, this`usedPayload, this`usablePayload, this`group, this`groupTotal,
        this`gses, this`gseNum, this`totalLength, this`frames, this`freed, this`sent, this`inHand
      ensures group == None && groupTotal == 0 && inHand == [] && Accounted()
      ensures usedPayload == gseNum == 0
           || (usedPayload == old(usedPayload) + old(groupTotal) && gseNum == old(gseNum) + 1
               && Payload() - usedPayload >= threshold)
      ensures SentOrKept(old(usablePayload) - old(groupTotal) < threshold, old(sent), old(gses) + old(inHand))
      ensures Room() == Placed(old(usablePayload), Payload(), threshold, old(groupTotal))
    {
      hide Sendable, TotalLength, Begun, Accounted;
      BuildingCounts();
      BuildingIsBegun();
      Queue();
      BuildingRoom();
      if usablePayload < threshold {
        SendBegun();
      } else {
        StillFilling();
      }
    }

    lemma BuildingRoom()
      requires Configured() && Begun()
      ensures maxPayload == Payload() && usedPayload + usablePayload == Payload()
    {
    }

    /** A whole packet is in hand; it is accepted when it is placed. */
    ghost predicate HoldsPacket()
      reads `using, `inHand
    {
      using == WholeNode(PacketOf(using)) && inHand == []
    }

    /** A continuation piece of the packet accepted last is in hand, and the frame is open for it. */
    ghost predicate HoldsPiece()
      requires Configured()
      reads `accepted, `plans, `using, `inHand, `ids, `entered, `stampId, `stamps, `usedPayload, `gseNum
    {
      PieceHeld() && FrameOpen(Payload(), usedPayload) && gseNum <= 1
    }

    ghost predicate PieceHeld()
      reads `accepted, `plans, `using, `inHand, `ids, `entered, `stampId, `stamps
    {
      && HasLast() && LastPlan().Cut? && LastPlan().stamp < 8192
      && using.fragmented && 0 < using.number < LastPlan().split.total <= 8
      && inHand == [PieceGroup(LastPacket(), LastPlan(), using.number)]
      && Stamped(using.id, LastPlan().stamp)
      && GroupFor(using, LastPlan().stamp) == inHand[0]
      && (ids != [] ==> using.number + 1 < LastPlan().split.total)
    }

    /** Takes the next piece of the packet that is being sent, if there is one. */
    method GetFragPkt() returns (r: ReadOk)
      requires Valid() && inHand == []
      modifies this`using, this`inHand, this`pending, this`ids, this`entries,
        table, table.entries, table.queue, table.queue.slots
      ensures Valid() && r != FetchedPacket
      ensures r.FetchedFragment? <==> old(ids) != []
      ensures r.FetchFailed? ==> ids == [] && inHand == [] && pending == old(pending) == []
      ensures r.FetchedFragment? ==>
        HoldsPiece() && using.fragmented && |inHand| == 1 && old(pending) == inHand + pending
    {
      hide Accounted, ContinuesWith, HoldsPiece, AfterFetch, Mirrored, Configured;
      using := PduNode([], 0, false, 0, Start, 0, 0, 0, 0);
      NothingPending();
      ghost var ids0, entries0 := ids, entries;
      var fetched := FetchPiece();
      match fetched {
        case NoPiece =>
          r := FetchFailed;
        case OnePiece(id, node) =>
          r := FetchedFragment;
          using := node;
          NotePiece(ids0, entries0);
      }
    }

    method FetchPiece() returns (r: Fetched)
      requires Mirrored()
      modifies this`ids, this`entries, table, table.entries, table.queue, table.queue.slots
      ensures Mirrored() && table.lastId == old(table.lastId)
      ensures old(ids) == [] ==> r == NoPiece && ids == [] && entries == old(entries)
      ensures old(ids) != [] ==> r.OnePiece? && AfterFetch(old(ids), old(entries), ids, entries, r.node)
    {
      hide NextPiece, Advanced, FragmentTable.Valid, Small;
      r := table.Fetch();
      ids, entries := table.Ids(), table.entries[..];
    }

    lemma NothingPending()
      requires Configured() && Continues()
      ensures ids == [] ==> pending == []
    {
    }

    /** The piece fetched goes from the pending ones into hand. */
    ghost method NotePiece(ids0: seq<int>, entries0: seq<Entry>)
      requires Configured() && Accounted() && inHand == [] && ids0 != []
      requires ContinuesWith(ids0, entries0) && AfterFetch(ids0, entries0, ids, entries, using)
      modifies this`inHand, this`pending
      ensures Accounted() && Continues() && HoldsPiece() && using.fragmented && |inHand| == 1
        && old(pending) == inHand + pending
    {
      hide SentFrames, FrameCounts, Closers, Flat, Exact, GroupFor, PieceGroup, NextPiece, GroupsOf, History, FrameOpen;
      LastIsGood();
      PieceMatches(entries0[ids0[0]], ids0[0], LastPacket(), LastPlan());
      IntoHand(sent, gses, pending[0], pending[1..], accepted, plans, Payload());
      inHand, pending := [pending[0]], pending[1..];
    }

    lemma LastIsGood()
      requires Configured() && Accounted() && HasLast()
      ensures GoodPacket(LastPacket()) && GoodPlan(LastPacket(), LastPlan(), Payload())
    {
      hide SentFrames, FrameCounts, Closers, Flat, Exact;
    }

    /** The frame with these GSE packets has gone out, or it is still under construction. */
    ghost predicate SentOrKept(out: bool, sentBefore: seq<seq<Group>>, filled: seq<Group>)
      reads `sent, `gses
    {
      if out then sent == sentBefore + [filled] && gses == [] else sent == sentBefore && gses == filled
    }

    /** A frame with these GSE packets and one more has gone out, filled to the last byte. */
    ghost predicate FullFrameSent(sentBefore: seq<seq<Group>>, before: seq<Group>)
      requires Configured()
      reads `sent, `gses
    {
      && gses == [] && |sent| == |sentBefore| + 1 && sent[..|sentBefore|] == sentBefore
      && |sent[|sentBefore|]| == |before| + 1 && before <= sent[|sentBefore|]
      && TotalSize(sent[|sentBefore|]) == Payload()
    }

    lemma StillFilling()
      requires Configured() && Building() && gses != [] && usablePayload >= threshold
      ensures Accounted()
    {
    }

    /** Room for the next GSE packet. */
    ghost function Room(): nat
      requires Configured()
      reads `maxPayload, `usablePayload
    {
      if maxPayload == 0 then Payload() else usablePayload
    }

    /** Room for the next packet, once the pieces still to be sent are. */
    ghost function RoomAhead(): nat
      requires Configured()
      reads `maxPayload, `usablePayload, `pending
    {
      RoomLeft(Room(), Payload(), threshold, pending)
    }

    /** A frame is begun if none is under way. */
    method BeginFrame() returns (nullFrame: bool)
      requires Configured() && Accounted()
      modifies this`maxPayload, this`usedPayload, this`usablePayload
      ensures Building() && usedPayload == old(usedPayload) && usablePayload == old(Room()) >= threshold
      ensures nullFrame ==> usablePayload == maxPayload
    {
      hide FrameCounts, SentFrames, History, Closers, Flat, TotalSize, AllSendable;
      FrameBegun();
      nullFrame := maxPayload == 0;
      if nullFrame {
        maxPayload, usedPayload := MapPayload(modcod), 0;
        usablePayload := maxPayload;
      }
    }

    /** The GSE packet made of what is in hand is the one that has to be sent. */
    method MakeGroup()
      requires Configured() && Mirrored() && group == None
      requires if using.fragmented then PieceHeld() else HoldsPacket()
      modifies this`group, this`groupTotal, this`stampId, this`entered, counts
      ensures Mirrored() && stampId == old(stampId) && entered == old(entered)
      ensures group.Some? && groupTotal == TotalLength(group.value)
      ensures [group.value] == if using.fragmented then inHand else [WholeGroup(PacketOf(using))]
    {
      hide TotalLength, GroupFor, WholeGroup, WholeNode, PieceGroup, FragmentTable.Valid, FrameOpen;
      if !using.fragmented { WholeNodeGroup(PacketOf(using), stamps[using.id]); }
      UpdatePduGroup();
      assert counts[..] == stamps;
    }

    lemma FrameBegun()
      requires Configured() && Accounted()
      ensures usedPayload == TotalSize(gses) == totalLength && gseNum == |gses| && AllSendable(gses)
      ensures maxPayload == 0 <==> gses == []
      ensures if maxPayload == 0 then usedPayload == 0
              else maxPayload == Payload() && usedPayload + usablePayload == Payload() && usablePayload >= threshold
    {
    }

    /** Cuts the packet in hand and fetches the first piece. */
    method CutAndFetch(nullFrame: bool) returns (node: PduNode)
      requires Mirrored() && ids == [] && |using.data| + 4 < 0x1_0000 && MiddleSize(maxPayload) > 0
      requires SplitOf(if nullFrame then maxPayload else usablePayload, maxPayload, |using.data|).total >= 2
      modifies this`ids, this`entries, table, table.entries, table.queue, table.queue.slots
      ensures Mirrored() && |ids| == 1 && ValidId(ids[0]) && |entries| == FRAGMENT_MAX_NUM
      ensures ids[0] == table.lastId == (old(table.lastId) + 1) % 256
      ensures
        var split := SplitOf(if nullFrame then maxPayload else usablePayload, maxPayload, |using.data|);
        var e := Entry(true, split, 0, Crc.Crc32(using.data), using);
        node == NextPiece(e, ids[0]) && entries[ids[0]] == Advanced(e)
    {
      hide SplitOf, MiddleSize, NextPiece, Mirrored;
      FileCut(nullFrame);
      var fetched := FetchPiece();
      node := fetched.node;
    }

    method FileCut(nullFrame: bool)
      requires Mirrored() && ids == [] && |using.data| + 4 < 0x1_0000 && MiddleSize(maxPayload) > 0
      requires SplitOf(if nullFrame then maxPayload else usablePayload, maxPayload, |using.data|).total >= 2
      modifies this`ids, this`entries, table, table.entries, table.queue, table.queue.slots
      ensures Mirrored() && |ids| == 1 && ValidId(ids[0]) && |entries| == FRAGMENT_MAX_NUM
      ensures ids[0] == table.lastId == (old(table.lastId) + 1) % 256
      ensures
        var split := SplitOf(if nullFrame then maxPayload else usablePayload, maxPayload, |using.data|);
        entries[ids[0]] == Entry(true, split, 0, Crc.Crc32(using.data), using)
    {
      hide SplitOf, MiddleSize, FragmentTable.Valid, Small;
      table.NoneUsed();
      assert !table.entries[0].used;
      var id := table.DoFragment(nullFrame, maxPayload, usablePayload, using);
      ids, entries := table.Ids(), table.entries[..];
    }

    /**
     The packet in hand is cut, its first piece fills the frame to the last
     byte, and the frame goes out.
     */
    method FragmentProcess(nullFrame: bool)
      requires Configured() && Mirrored() && Numbering() && Building() && HoldsPacket()
      requires ids == [] && pending == [] && GoodPacket(PacketOf(using))
      requires nullFrame ==> usablePayload == maxPayload
      requires threshold <= usablePayload < |using.data| + 4
      requires Placeable(usablePayload, Payload(), |using.data|)
      modifies this`maxPayload, this`usedPayload, this`usablePayload, this`group, this`groupTotal,
        this`gses, this`gseNum, this`totalLength, this`frames, this`freed, this`sent,
        this`inHand, this`pending, this`accepted, this`plans, this`using,
        this`ids, this`entries, this`stamps, this`stampId, this`entered,
        counts, table, table.entries, table.queue, table.queue.slots
      ensures Valid() && inHand == [] && ids != []
      ensures accepted == old(accepted) + [old(PacketOf(using))] && HasLast() && LastPlan().Cut?
      ensures FullFrameSent(old(sent), old(gses))
      ensures Room() == Payload() && pending == GroupsOf(LastPacket(), LastPlan())[1..]
      ensures LastPlan().split == SplitOf(old(usablePayload), Payload(), |old(using).data|)
      ensures GoodPlan(LastPacket(), LastPlan(), Payload())
    {
      hide Building, Valid, Mirrored, Numbering, LastIsCut, Sendable, TotalLength, FullFrameSent, GroupsOf, GoodPlan,
        SplitOf;
      group, groupTotal := None, 0;
      CutPacket(nullFrame);
      SendStart();
    }

    /** The start piece goes into the frame, and the frame goes out. */
    method SendStart()
      requires Configured() && Mirrored() && Numbering() && Building() && LastIsCut(ids, entries) && ids != []
      requires groupTotal == usablePayload && group.Some? && inHand == [group.value] && Sendable(group.value)
      requires groupTotal == TotalLength(group.value)
      modifies this`maxPayload, this`usedPayload, this`usablePayload, this`group, this`groupTotal,
        this`gses, this`gseNum, this`totalLength, this`frames, this`freed, this`sent, this`inHand
      ensures Valid() && inHand == [] && FullFrameSent(old(sent), old(gses)) && Room() == Payload()
    {
      hide Building, Begun, Accounted, Mirrored, Numbering, LastIsCut, Sendable, TotalLength, FullFrameSent;
      BuildingCounts();
      BuildingIsBegun();
      SendFull();
    }

    lemma BuildingCounts()
      requires Configured() && Building()
      ensures gseNum < 255 && CountBounded(usedPayload, gseNum)
      ensures maxPayload == Payload() && usedPayload + usablePayload == Payload()
    {
    }

    /** Everything up to the GSE packet made of the first piece. */
    method CutPacket(nullFrame: bool)
      requires Configured() && Mirrored() && Numbering() && Building() && HoldsPacket() && group == None
      requires ids == [] && pending == [] && GoodPacket(PacketOf(using))
      requires nullFrame ==> usablePayload == maxPayload
      requires threshold <= usablePayload < |using.data| + 4
      requires Placeable(usablePayload, Payload(), |using.data|)
      modifies this`group, this`groupTotal, this`inHand, this`pending, this`accepted, this`plans, this`using,
        this`ids, this`entries, this`stamps, this`stampId, this`entered,
        counts, table, table.entries, table.queue, table.queue.slots
      ensures Mirrored() && Numbering() && Building() && LastIsCut(ids, entries) && ids != []
      ensures accepted == old(accepted) + [old(PacketOf(using))] && HasLast() && LastPlan().Cut?
      ensures group.Some? && inHand == [group.value] && Sendable(group.value)
      ensures groupTotal == TotalLength(group.value) == usablePayload
      ensures GoodPlan(LastPacket(), LastPlan(), Payload()) && pending == GroupsOf(LastPacket(), LastPlan())[1..]
      ensures LastPlan().split == SplitOf(usablePayload, Payload(), |old(using).data|)
    {
      hide Building, Mirrored, Placeable, SplitOf, MiddleSize, GroupFor, TotalLength, PieceGroup, Serves, Sendable,
        LastIsCut, GoodSplit, GroupsOf, GoodPlan, Numbering, Numbered, Counting, Cuts, IdOfCut, Exact, GoodPacket;
      ghost var p := PacketOf(using);
      RoomBelow();
      GoodSize(p);
      CutIsGood(usablePayload, Payload(), p);
      ghost var split := SplitOf(usablePayload, Payload(), |p.pdu.bytes|);
      SplitCounts(p, split, Payload());
      NextId();
      FetchStart(nullFrame, p, split);
      StampStart(p, split);
    }

    lemma NextId()
      requires Numbering()
      ensures IdOfCut(Cuts(plans)) == (table.lastId + 1) % 256 && Numbered(plans) && Counting(Cuts(plans))
    {
      hide Cuts, Numbered, Counting;
    }

    lemma RoomBelow()
      requires Configured() && Building()
      ensures maxPayload == Payload() && usablePayload <= Payload()
    {
    }

    /** The start piece fetched becomes a GSE packet, and the packet is accepted with the plan that is fixed now. */
    method StampStart(ghost p: Packet, ghost split: Split)
      requires Configured() && Mirrored() && Building() && inHand == [] && pending == []
      requires Numbered(plans) && Counting(Cuts(plans)) && using.id == table.lastId == IdOfCut(Cuts(plans))
      requires GoodPacket(p) && GoodSplit(p, split, Payload())
      requires ids == [using.id] && |entries| == FRAGMENT_MAX_NUM && entries[using.id].transferred == 1
      requires using.fragmented && using.number == 0 && group == None
      requires forall stamp: nat :: stamp < 8192 ==>
        GroupFor(using, stamp) == PieceGroup(p, Cut(using.id, stamp, split), 0)
      requires forall stamp: nat :: Serves(entries[using.id], p, Cut(using.id, stamp, split))
      modifies this`group, this`groupTotal, this`inHand, this`pending, this`accepted, this`plans,
        this`stamps, this`stampId, this`entered, counts
      ensures Mirrored() && Numbering() && Building() && LastIsCut(ids, entries)
      ensures accepted == old(accepted) + [p] && HasLast() && LastPlan().Cut? && LastPlan().split == split
      ensures GoodPlan(p, LastPlan(), Payload()) && pending == GroupsOf(p, LastPlan())[1..]
      ensures group.Some? && inHand == [group.value] && Sendable(group.value)
      ensures groupTotal == TotalLength(group.value) == split.start + 11
    {
      hide Building, Mirrored, Exact, GroupFor, TotalLength, PieceGroup, Serves, Sendable, GroupsOf, GoodPacket,
        GoodSplit, Numbered, Cuts, StampOfCut, Counting;
      SplitCounts(p, split, Payload());
      StampNext();
      ghost var plan := Cut(using.id, stamps[using.id], split);
      PieceLength(p, plan, Payload(), 0);
      NoteNumbered(p, plan);
    }

    /** The group is made, and its stamp is that of the next cut packet. */
    method StampNext()
      requires Mirrored() && group == None && using.fragmented && using.number == 0
      requires Counting(Cuts(plans)) && using.id == IdOfCut(Cuts(plans))
      modifies this`group, this`groupTotal, this`stampId, this`entered, this`stamps, counts
      ensures Mirrored() && Stamped(using.id, stamps[using.id]) && stamps[using.id] == StampOfCut(Cuts(plans))
      ensures Counting(Cuts(plans) + 1) && stamps[using.id] < 8192
      ensures group == Some(GroupFor(using, stamps[using.id])) && groupTotal == TotalLength(group.value)
    {
      hide TotalLength, GroupFor, Mirrored, Cuts, TakenUp, StampOfCut, Small;
      ghost var n, before, same := Cuts(plans), stamps, !entered || stampId == using.id;
      AllSmall(n);
      StampGroup();
      CountedOn(before, stamps, n, using.id, same);
    }

    /** The packet is accepted, and the plans go on with the number it carries. */
    ghost method NoteNumbered(p: Packet, plan: Plan)
      requires Configured() && Building() && inHand == [] && pending == []
      requires GoodPacket(p) && plan.Cut? && GoodPlan(p, plan, Payload())
      requires Numbered(plans) && plan.id == IdOfCut(Cuts(plans)) && plan.stamp == StampOfCut(Cuts(plans))
      modifies this`accepted, this`plans, this`inHand, this`pending
      ensures Building() && accepted == old(accepted) + [p] && HasLast() && LastPlan() == plan
      ensures Numbered(plans) && Cuts(plans) == Cuts(old(plans)) + 1
      ensures inHand == [PieceGroup(p, plan, 0)] && pending == GroupsOf(p, plan)[1..]
    {
      hide Building, GoodPlan, PieceGroup, GroupsOf, GoodPacket, Numbered, Cuts, IdOfCut, StampOfCut;
      NumberedAppend(plans, plan);
      NoteCut(p, plan);
    }

    method FetchStart(nullFrame: bool, ghost p: Packet, ghost split: Split)
      requires Mirrored() && ids == [] && using == WholeNode(p) && GoodPacket(p)
      requires MiddleSize(maxPayload) > 0 && 2 <= split.total <= 8
      requires split == SplitOf(if nullFrame then maxPayload else usablePayload, maxPayload, |p.pdu.bytes|)
      modifies this`using, this`ids, this`entries, table, table.entries, table.queue, table.queue.slots
      ensures Mirrored() && ids == [using.id] && |entries| == FRAGMENT_MAX_NUM && entries[using.id].transferred == 1
      ensures using.id == table.lastId == (old(table.lastId) + 1) % 256
      ensures using.fragmented && using.number == 0
      ensures forall stamp: nat :: stamp < 8192 ==>
        GroupFor(using, stamp) == PieceGroup(p, Cut(using.id, stamp, split), 0)
      ensures forall stamp: nat :: Serves(entries[using.id], p, Cut(using.id, stamp, split))
    {
      hide SplitOf, MiddleSize, GroupFor, PieceGroup, NextPiece, Serves, Mirrored;
      var node := CutAndFetch(nullFrame);
      using := node.(protocol := using.protocol);
      FirstMatches(p, ids[0], split);
    }

    /** The group made of the first fragment; its ID is taken up anew. */
    method StampGroup()
      requires Mirrored() && group == None && using.fragmented && using.number == 0
      modifies this`group, this`groupTotal, this`stampId, this`entered, this`stamps, counts
      ensures Mirrored() && Small(stamps) && Stamped(using.id, stamps[using.id])
      ensures group == Some(GroupFor(using, stamps[using.id])) && groupTotal == TotalLength(group.value)
      ensures stamps
        == old(stamps)[using.id := NextStamp(old(stamps)[using.id], !old(entered) || old(stampId) == using.id)]
    {
      hide TotalLength, GroupFor, FragmentTable.Valid;
      UpdatePduGroup();
      stamps := counts[..];
    }

    /** Queues the GSE packet that fills the frame, and sends the frame. */
    method SendFull()
      requires Configured() && Begun() && groupTotal == usablePayload && gseNum < 255
      requires group.Some? && groupTotal == TotalLength(group.value) && Sendable(group.value) && inHand == [group.value]
      modifies this`maxPayload, this`usedPayload, this`usablePayload, this`group, this`groupTotal,
        this`gses, this`gseNum, this`totalLength, this`frames, this`freed, this`sent, this`inHand
      ensures group == None && groupTotal == 0 && inHand == [] && Accounted() && usedPayload == gseNum == 0
      ensures FullFrameSent(old(sent), old(gses)) && Room() == Payload()
    {
      hide Sendable, TotalLength, Begun, Accounted, TotalSize;
      Queue();
      FullFrame();
      SendBegun();
    }

    lemma FullFrame()
      requires Configured() && Begun() && usablePayload == 0
      ensures TotalSize(gses) == Payload()
    {
    }

    /** The packet is accepted: its first piece is in hand, the others are pending. */
    ghost method NoteCut(p: Packet, plan: Plan)
      requires Configured() && Building() && inHand == [] && pending == []
      requires GoodPacket(p) && plan.Cut? && GoodPlan(p, plan, Payload())
      modifies this`accepted, this`plans, this`inHand, this`pending
      ensures Building() && accepted == old(accepted) + [p] && HasLast() && plans == old(plans) + [plan]
      ensures inHand == [PieceGroup(p, plan, 0)] && pending == GroupsOf(p, plan)[1..]
    {
      hide History, SentFrames, Closers, Flat, TotalSize, AllSendable, Exact, PieceGroup, GroupsOf;
      PlansMatch();
      AcceptCut(sent, gses, accepted, plans, Payload(), p, plan);
      inHand, pending := [PieceGroup(p, plan, 0)], GroupsOf(p, plan)[1..];
      accepted, plans := accepted + [p], plans + [plan];
    }

    lemma PlansMatch()
      requires Configured() && Building()
      ensures |plans| == |accepted|
    {
      hide SentFrames, Closers, Flat, AllGroups;
    }

    /** The packet is accepted as it is. */
    ghost method NoteWhole(p: Packet)
      requires Configured() && Numbering() && Building() && inHand == [] && pending == []
      requires GoodPacket(p) && GoodPlan(p, Plain, Payload())
      modifies this`accepted, this`plans, this`inHand
      ensures Numbering() && Building() && accepted == old(accepted) + [p] && HasLast() && LastPlan() == Plain
      ensures inHand == [WholeGroup(p)]
    {
      hide History, SentFrames, Closers, Flat, TotalSize, AllSendable, WholeGroup, Numbered, Cuts;
      PlansMatch();
      NumberedAppend(plans, Plain);
      AcceptWhole(sent, gses, accepted, plans, Payload(), p);
      accepted, plans, inHand := accepted + [p], plans + [Plain], [WholeGroup(p)];
    }

    /**
     One step of the packing loop: what is in hand goes into the frame, cut if
     it does not fit; the frame goes out when it is full enough.  With nothing
     in hand, a frame under construction goes out as it is.
     */
    method EncapsulateIslBb(readOk: ReadOk)
      requires Valid()
      requires match readOk
               case FetchFailed => inHand == []
               case FetchedFragment => HoldsPiece() && using.fragmented
               case FetchedPacket => HoldsPacket() && ids == [] && GoodPacket(PacketOf(using))
                                     && Placeable(Room(), Payload(), |using.data|)
      modifies this`maxPayload, this`usedPayload, this`usablePayload, this`group, this`groupTotal,
        this`gses, this`gseNum, this`totalLength, this`frames, this`freed, this`sent,
        this`inHand, this`pending, this`accepted, this`plans, this`using,
        this`ids, this`entries, this`stamps, this`stampId, this`entered,
        counts, table, table.entries, table.queue, table.queue.slots
      ensures Valid() && inHand == []
      ensures accepted == old(accepted) + if readOk.FetchedPacket? then [old(PacketOf(using))] else []
      ensures !readOk.FetchedPacket? ==> ids == old(ids) && pending == old(pending)
      ensures match readOk
              case FetchFailed => SentOrKept(old(gses) != [], old(sent), old(gses)) && gses == [] && Room() == Payload()
              case FetchedFragment =>
                && SentOrKept(old(Room()) - TotalLength(old(inHand)[0]) < threshold, old(sent), old(gses) + old(inHand))
                && Room() == Placed(old(Room()), Payload(), threshold, TotalLength(old(inHand)[0]))
              case FetchedPacket =>
                && PacketPlaced(old(Room()), old(sent), old(gses))
                && RoomAhead() == RoomAfter(old(Room()), Payload(), threshold, |old(using).data|)
    {
      hide Mirrored, Numbering, Accounted, ContinuesWith, HoldsPacket, HoldsPiece, Placeable, GoodPacket, SentOrKept,
        PacketPlaced,
        RoomAfter, RoomLeft, Placed;
      match readOk {
        case FetchFailed => ForceSend();
        case FetchedFragment => EncapsulatePiece();
        case FetchedPacket => EncapsulatePacket();
      }
    }

    method ForceSend()
      requires Valid() && inHand == []
      modifies this`maxPayload, this`usedPayload, this`usablePayload, this`group, this`groupTotal,
        this`gses, this`gseNum, this`totalLength, this`frames, this`freed, this`sent
      ensures Valid() && gses == [] && Room() == Payload()
      ensures SentOrKept(old(gses) != [], old(sent), old(gses))
    {
      hide Mirrored, Numbering, LastIsCut, Accounted, FrameOpen, SentOrKept;
      OpenAtFirst();
      SendAnyway();
    }

    /** The frame goes out if there is anything in it. */
    method SendAnyway()
      requires Configured() && Accounted() && inHand == [] && group == None && groupTotal == 0
      modifies this`maxPayload, this`usedPayload, this`usablePayload, this`group, this`groupTotal,
        this`gses, this`gseNum, this`totalLength, this`frames, this`freed, this`sent
      ensures Accounted() && group == None && groupTotal == 0
      ensures maxPayload == usedPayload == gseNum == 0 && gses == []
      ensures SentOrKept(old(gses) != [], old(sent), old(gses))
    {
      hide Accounted, Begun, TotalSize, AllSendable;
      FrameBegun();
      if gseNum > 0 {
        StillBegun();
        UpdateGseGroup();
        SendBegun();
      }
    }

    lemma BuildingIsBegun()
      requires Configured() && Building()
      ensures Begun()
    {
    }

    lemma StillBegun()
      requires Configured() && Accounted() && gses != []
      ensures Begun()
    {
    }

    /**
     A packet that fits stays whole, and the frame goes out with it if less than
     the threshold is left; one that does not fit is cut, and its start fills the
     frame that goes out to the last byte.
     */
    ghost predicate PacketPlaced(room: nat, sentBefore: seq<seq<Group>>, before: seq<Group>)
      requires Configured()
      reads `accepted, `plans, `sent, `gses
    {
      HasLast() &&
      var n := |LastPacket().pdu.bytes| + 4;
      if n <= room then
        LastPlan().Plain? && SentOrKept(room - n < threshold, sentBefore, before + [WholeGroup(LastPacket())])
      else LastPlan().Cut? && FullFrameSent(sentBefore, before)
    }

    method EncapsulatePacket()
      requires Valid() && HoldsPacket() && ids == [] && GoodPacket(PacketOf(using))
      requires Placeable(Room(), Payload(), |using.data|)
      modifies this`maxPayload, this`usedPayload, this`usablePayload, this`group, this`groupTotal,
        this`gses, this`gseNum, this`totalLength, this`frames, this`freed, this`sent,
        this`inHand, this`pending, this`accepted, this`plans, this`using,
        this`ids, this`entries, this`stamps, this`stampId, this`entered,
        counts, table, table.entries, table.queue, table.queue.slots
      ensures Valid() && inHand == [] && accepted == old(accepted) + [old(PacketOf(using))]
      ensures PacketPlaced(old(Room()), old(sent), old(gses))
      ensures RoomAhead() == RoomAfter(old(Room()), Payload(), threshold, |old(using).data|)
    {
      hide Mirrored, Numbering, Accounted, Building, LastIsCut, Placeable, SentOrKept, FullFrameSent, TotalLength,
        WholeGroup,
        RoomAfter, RoomLeft;
      var nullFrame := BeginFrame();
      MakeGroup();
      PlaceGroup(nullFrame);
    }

    /** The GSE packet of a whole packet goes into the frame, or the packet is cut. */
    method PlaceGroup(nullFrame: bool)
      requires Configured() && Mirrored() && Numbering() && Building()
      requires HoldsPacket() && ids == [] && pending == []
      requires GoodPacket(PacketOf(using))
      requires group == Some(WholeGroup(PacketOf(using))) && groupTotal == TotalLength(group.value)
      requires nullFrame ==> usablePayload == maxPayload
      requires threshold <= usablePayload && Placeable(usablePayload, Payload(), |using.data|)
      modifies this`maxPayload, this`usedPayload, this`usablePayload, this`group, this`groupTotal,
        this`gses, this`gseNum, this`totalLength, this`frames, this`freed, this`sent,
        this`inHand, this`pending, this`accepted, this`plans, this`using,
        this`ids, this`entries, this`stamps, this`stampId, this`entered,
        counts, table, table.entries, table.queue, table.queue.slots
      ensures Valid() && inHand == [] && accepted == old(accepted) + [old(PacketOf(using))]
      ensures PacketPlaced(old(usablePayload), old(sent), old(gses))
      ensures RoomAhead() == RoomAfter(old(usablePayload), Payload(), threshold, |old(using).data|)
    {
      hide Mirrored, Numbering, Accounted, Building, LastIsCut, Sendable, TotalLength, WholeGroup, SentOrKept,
        FullFrameSent,
        RoomAfterPieces, SplitOf, Placed, GoodPacket, GroupsOf, MiddleSize, ToU16, PacketPlaced;
      ghost var p := PacketOf(using);
      WholeLength(p);
      BuildingCounts();
      GoodSize(p);
      Fits(usablePayload);
      if usablePayload >= groupTotal {
        PlaceWhole(p);
      } else if usablePayload < threshold {
        assert false;
      } else {
        FragmentProcess(nullFrame);
        CutPlaced(old(usablePayload), old(sent), old(gses));
        PiecesLeave(p, LastPlan(), Payload(), Payload(), threshold, 1);
      }
    }

    /** The packet in hand is accepted whole and goes into the frame. */
    method PlaceWhole(ghost p: Packet)
      requires Configured() && Mirrored() && Numbering() && Building() && inHand == [] && ids == [] && pending == []
      requires GoodPacket(p) && GoodPlan(p, Plain, Payload()) && Sendable(WholeGroup(p))
      requires group == Some(WholeGroup(p))
        && groupTotal == TotalLength(group.value) == |p.pdu.bytes| + 4 <= usablePayload
      modifies this`maxPayload, this`usedPayload, this`usablePayload, this`group, this`groupTotal,
        this`gses, this`gseNum, this`totalLength, this`frames, this`freed, this`sent,
        this`inHand, this`accepted, this`plans
      ensures Valid() && inHand == [] && accepted == old(accepted) + [p]
      ensures PacketPlaced(old(usablePayload), old(sent), old(gses))
      ensures Room() == Placed(old(usablePayload), Payload(), threshold, |p.pdu.bytes| + 4)
    {
      hide Mirrored, Numbering, Accounted, Building, Sendable, TotalLength, WholeGroup, SentOrKept, PacketPlaced,
        Placed,
        GoodPacket;
      ghost var room := usablePayload;
      BuildingCounts();
      OneMoreCounts(p, usedPayload, gseNum);
      NoteWhole(p);
      Fill();
      WholePlaced(room, old(sent), old(gses));
    }

    lemma WholePlaced(room: nat, sentBefore: seq<seq<Group>>, before: seq<Group>)
      requires Configured() && HasLast() && LastPlan().Plain? && |LastPacket().pdu.bytes| + 4 <= room
      requires SentOrKept(room - (|LastPacket().pdu.bytes| + 4) < threshold, sentBefore,
        before + [WholeGroup(LastPacket())])
      ensures PacketPlaced(room, sentBefore, before)
    {
    }

    lemma CutPlaced(room: nat, sentBefore: seq<seq<Group>>, before: seq<Group>)
      requires Configured() && HasLast() && LastPlan().Cut? && |LastPacket().pdu.bytes| + 4 > room
      requires FullFrameSent(sentBefore, before)
      ensures PacketPlaced(room, sentBefore, before)
    {
    }

    method EncapsulatePiece()
      requires Valid() && HoldsPiece() && using.fragmented
      modifies this`maxPayload, this`usedPayload, this`usablePayload, this`group, this`groupTotal, this`gses,
        this`gseNum, this`totalLength, this`frames, this`freed, this`sent, this`inHand, this`stampId, this`entered,
        counts
      ensures Valid() && inHand == []
      ensures SentOrKept(old(Room()) - TotalLength(old(inHand)[0]) < threshold, old(sent), old(gses) + old(inHand))
      ensures Room() == Placed(old(Room()), Payload(), threshold, TotalLength(old(inHand)[0]))
    {
      hide Mirrored, Numbering, Accounted, Building, LastIsCut, Sendable, TotalLength, PieceHeld, FrameOpen, SentOrKept,
        CountBounded, Placed;
      PieceFits();
      BeginPiece();
      BuildingCounts();
      PlacePiece();
    }

    /** A frame is under way, and the GSE packet of the piece is made. */
    method BeginPiece()
      requires Valid() && HoldsPiece() && using.fragmented
      modifies this`maxPayload, this`usedPayload, this`usablePayload, this`group, this`groupTotal,
        this`stampId, this`entered, counts
      ensures Mirrored() && Numbering() && Building() && ContinuesWith(ids, entries)
      ensures group.Some? && inHand == [group.value] && groupTotal == TotalLength(group.value)
      ensures usedPayload == old(usedPayload) && usablePayload == old(Room())
    {
      hide Mirrored, Numbering, Accounted, Building, LastIsCut, TotalLength, PieceHeld, FrameOpen;
      var nullFrame := BeginFrame();
      MakeGroup();
    }

    /** The GSE packet of a continuation piece goes into the frame; it always fits. */
    method PlacePiece()
      requires Configured() && Mirrored() && Numbering() && Building() && ContinuesWith(ids, entries)
      requires group.Some? && groupTotal == TotalLength(group.value) && Sendable(group.value) && inHand == [group.value]
      requires groupTotal <= usablePayload && CountBounded(usedPayload + groupTotal, gseNum + 1)
      requires ids != [] && Payload() - (usedPayload + groupTotal) >= threshold ==>
        FrameOpen(Payload(), usedPayload + groupTotal) && gseNum == 0
      modifies this`maxPayload, this`usedPayload, this`usablePayload, this`group, this`groupTotal, this`gses,
        this`gseNum, this`totalLength, this`frames, this`freed, this`sent, this`inHand
      ensures Valid() && inHand == []
      ensures SentOrKept(old(usablePayload) - old(groupTotal) < threshold, old(sent), old(gses) + old(inHand))
      ensures Room() == Placed(old(usablePayload), Payload(), threshold, old(groupTotal))
    {
      hide Mirrored, Numbering, Accounted, Building, LastIsCut, Sendable, TotalLength, FrameOpen, SentOrKept,
        CountBounded, Placed;
      OpenAtFirst();
      if usablePayload >= groupTotal {
        Fill();
      } else {
        assert false;
      }
    }

    lemma OpenAtFirst()
      requires Configured()
      ensures FrameOpen(Payload(), 0)
    {
    }

    lemma PieceFits()
      requires Configured() && Accounted() && HoldsPiece()
      ensures var g, n := inHand[0], TotalLength(inHand[0]);
        && |inHand| == 1 && Sendable(g) && 13 <= n && usedPayload + n <= Payload()
        && CountBounded(usedPayload + n, gseNum + 1)
        && (ids != [] && Payload() - (usedPayload + n) >= threshold ==>
          FrameOpen(Payload(), usedPayload + n) && gseNum == 0)
    {
      hide SentFrames, FrameCounts, History, Closers, Flat, PieceGroup, GroupFor;
      LastIsGood();
      PieceLength(LastPacket(), LastPlan(), Payload(), using.number);
      ContinuationFits(LastPacket(), LastPlan(), Payload(), using.number, usedPayload, threshold);
    }

    /** Takes a packet from the ring. */
    method GetWholePkt(p: Packet) returns (r: ReadOk)
      requires Valid() && inHand == []
      modifies this`using
      ensures Valid() && r == FetchedPacket && HoldsPacket() && PacketOf(using) == p
    {
      hide Mirrored, Numbering, Accounted, ContinuesWith;
      using := WholeNode(p);
      r := FetchedPacket;
    }

    /** Sends the remaining pieces of the packet that was cut, one after the other. */
    method Drain()
      requires Valid() && inHand == []
      modifies this`maxPayload, this`usedPayload, this`usablePayload, this`group, this`groupTotal,
        this`gses, this`gseNum, this`totalLength, this`frames, this`freed, this`sent,
        this`inHand, this`pending, this`accepted, this`plans, this`using,
        this`ids, this`entries, this`stamps, this`stampId, this`entered,
        counts, table, table.entries, table.queue, table.queue.slots
      ensures Valid() && inHand == [] && ids == [] && pending == [] && accepted == old(accepted)
      ensures Room() == old(RoomAhead())
      ensures old(ids) == [] ==> gses == old(gses) && sent == old(sent)
    {
      hide Mirrored, Numbering, Accounted, ContinuesWith, HoldsPiece, HoldsPacket, TotalLength, Placed;
      ghost var ahead := RoomAhead();
      var r := GetFragPkt();
      while r.FetchedFragment?
        invariant Valid() && r != FetchedPacket && accepted == old(accepted)
        invariant if r.FetchedFragment? then HoldsPiece() && using.fragmented && |inHand| == 1
                  else inHand == [] && ids == [] && pending == []
        invariant RoomLeft(Room(), Payload(), threshold, inHand + pending) == ahead
        invariant old(ids) == [] ==> r.FetchFailed? && gses == old(gses) && sent == old(sent)
        decreases |pending|, if r.FetchedFragment? then 1 else 0
      {
        ghost var g := inHand[0];
        assert (inHand + pending)[1..] == pending;
        EncapsulateIslBb(r);
        assert RoomAhead() == ahead;
        r := GetFragPkt();
        assert [] + pending == pending;
      }
    }

    /**
     One round: what is left of the packet before, then a packet if the ring has one; a
     hundred idle rounds send the frame.
     */
    method Round(arrived: Option<Packet>)
      requires Valid() && inHand == [] && idle < IDLE_ROUNDS
      requires arrived.Some? ==>
        GoodPacket(arrived.value) && Placeable(RoomAhead(), Payload(), |arrived.value.pdu.bytes|)
      modifies this, counts, table, table.entries, table.queue, table.queue.slots
      ensures Valid() && inHand == [] && idle == NextIdle(old(idle), arrived) < IDLE_ROUNDS
      ensures accepted == old(accepted) + match arrived case Some(p) => [p] case None => []
      ensures RoomAhead() == NextRoom(old(RoomAhead()), old(idle), Payload(), threshold, arrived)
      ensures arrived.None? ==> ids == [] && (idle == 0 || (old(ids) == [] && old(gses) == []) ==> gses == [])
      ensures arrived.None? && idle != 0 && old(ids) == [] ==> gses == old(gses) && sent == old(sent)
    {
      hide Mirrored, Numbering, Accounted, ContinuesWith, HoldsPacket, HoldsPiece, Placeable, PacketPlaced,
        SentOrKept, RoomAfter,
        MiddleSize, GoodPacket, Placed;
      Drain();
      match arrived {
        case Some(p) =>
          idle := 0;
          var r := GetWholePkt(p);
          EncapsulateIslBb(r);
        case None =>
          idle := idle + 1;
          if idle == IDLE_ROUNDS {
            idle := 0;
            EncapsulateIslBb(FetchFailed);
          }
      }
    }

    lemma IsConfigured()
      requires Valid()
      ensures Configured()
    {
    }

    /**
     What tells cut packets of one ID apart, over everything accepted so far:
     IDs go round beginning with 1, and from one packet of an ID to the next
     the stamp goes up by 1 modulo 8192.
     */
    lemma StampsOfRun(i: nat, j: nat)
      requires Valid() && i < j < |plans| && plans[i].Cut? && plans[j].Cut?
      ensures plans[i].id == (Cuts(plans[..i]) + 1) % 256
      ensures plans[i].id == plans[j].id ==>
        var rounds := (Cuts(plans[..j]) - Cuts(plans[..i])) / 256;
        && plans[j].stamp == (plans[i].stamp + rounds) % 8192
        && (rounds < 8192 ==> plans[j].stamp != plans[i].stamp)
    {
      hide Mirrored, Accounted, ContinuesWith, Numbered, Cuts, Counting;
      NumberOf(plans, i);
      if plans[i].id == plans[j].id { StampsTellApart(plans, i, j); }
    }

    /**
     The packing thread over what the ring delivers, poll by poll.  However little
     is in the frame, nothing waits longer than a hundred polls without a packet.
     */
    method EncapsulateThread(arrivals: seq<Option<Packet>>)
      requires Valid() && inHand == [] && idle < IDLE_ROUNDS
      requires RunsThrough(RoomAhead(), idle, Payload(), threshold, arrivals)
      modifies this, counts, table, table.entries, table.queue, table.queue.slots
      ensures Valid() && inHand == [] && idle == IdlePolls(old(idle), arrivals) % 100
      ensures accepted == old(accepted) + Present(arrivals)
      ensures IdlePolls(old(idle), arrivals) >= 100 ==>
        GoodPlans(accepted, plans, Payload()) && Flat(sent) == AllGroups(accepted, plans, Payload())
    {
      hide Valid, Placeable, NextRoom, NextIdle, RoomAhead, GoodPacket, Configured, AllGroups, Flat, GoodPlans;
      IsConfigured();
      for i := 0 to |arrivals|
        invariant Valid() && inHand == [] && idle == IdlePolls(old(idle), arrivals[..i]) % 100
        invariant RunsThrough(RoomAhead(), idle, Payload(), threshold, arrivals[i..])
        invariant accepted == old(accepted) + Present(arrivals[..i])
        invariant IdlePolls(old(idle), arrivals[..i]) >= 100 ==> ids == [] && gses == []
      {
        assert arrivals[i..][0] == arrivals[i] && arrivals[i..][1..] == arrivals[i + 1..];
        assert arrivals[..i + 1][..i] == arrivals[..i];
        OneMorePoll(old(idle), arrivals[..i], arrivals[i]);
        Round(arrivals[i]);
      }
      assert arrivals[..|arrivals|] == arrivals;
      if ids == [] && gses == [] { AllSent(); }
    }

    /** With an untouched frame and no piece left everything accepted has been sent. */
    lemma AllSent()
      requires Valid() && ids == [] && gses == [] && inHand == []
      ensures GoodPlans(accepted, plans, Payload()) && Flat(sent) == AllGroups(accepted, plans, Payload())
    {
      hide Mirrored, Numbering, LastIsCut, FrameCounts, SentFrames, Closers, Flat, AllGroups, GoodPlans;
      assert Flat(sent) + [] + [] + [] == Flat(sent);
    }

    /** The last pieces and the last frame go out: everything accepted has been sent, in order. */
    method Flush()
      requires Valid() && inHand == []
      modifies this, counts, table, table.entries, table.queue, table.queue.slots
      ensures Valid() && accepted == old(accepted)
      ensures SentFrames(params, Payload(), frames, sent) && freed == Closers(Flat(sent))
      ensures GoodPlans(accepted, plans, Payload()) && Flat(sent) == AllGroups(accepted, plans, Payload())
      ensures freed == Mbufs(accepted)
    {
      hide Mirrored, Numbering, ContinuesWith, SentFrames, FrameCounts, Closers, Flat, AllGroups, GoodPlans, Mbufs;
      Drain();
      EncapsulateIslBb(FetchFailed);
      assert Flat(sent) + [] + [] + [] == Flat(sent);
      ClosersOfAll(accepted, plans, Payload());
    }

    /**
     At any moment the buffers given back are those of the first packets, in
     order and once each: of those packets every piece is in a frame sent, and
     of the next packet not yet every piece.
     */
    lemma BuffersOwned() returns (k: nat)
      requires Valid()
      ensures GoodPlans(accepted, plans, Payload()) && GivenBackUpTo(k, Flat(sent), accepted, plans, Payload())
      ensures freed == Mbufs(accepted[..k])
    {
      hide Mirrored, Numbering, Continues, FrameCounts, SentFrames, Closers, Flat, AllGroups, GoodPlans, Mbufs,
        GivenBackUpTo;
      assert Flat(sent) + gses + inHand + pending == Flat(sent) + (gses + inHand + pending);
      k := ClosersOfPrefix(Flat(sent), gses + inHand + pending, accepted, plans, Payload());
      UpToAll(k, Flat(sent), accepted, plans, Payload());
    }
  }

  /** The counts after one more cut packet, and its stamp. */
  lemma CountedOn(counts: seq<nat>, after: seq<nat>, n: nat, id: nat, same: bool)
    requires |counts| == 256 && (forall i :: 0 <= i < 256 ==> counts[i] == TakenUp(i, n))
    requires id == IdOfCut(n) && (same <==> n == 0)
    requires Small(counts) && after == counts[id := NextStamp(counts[id], same)]
    ensures after[id] == StampOfCut(n) && forall i :: 0 <= i < 256 ==> after[i] == TakenUp(i, n + 1)
  {
    hide TakenUp, StampOfCut;
    TakenUpNext(n, id);
    forall i | 0 <= i < 256 && i != id ensures TakenUp(i, n + 1) == TakenUp(i, n) {
      TakenUpNext(n, i);
    }
  }

  lemma OneMoreCounts(p: Packet, used: nat, gseNum: nat)
    requires GoodPacket(p) && CountBounded(used, gseNum)
    ensures CountBounded(used + |p.pdu.bytes| + 4, gseNum + 1)
  {
  }

  lemma GoodSize(p: Packet)
    requires GoodPacket(p)
    ensures |p.pdu.bytes| < 0x1_0000
  {
  }

  lemma SplitCounts(p: Packet, split: Split, payload: nat)
    requires GoodSplit(p, split, payload)
    ensures 2 <= split.total <= 8
  {
  }

  /** The first fragment fetched is the start piece of the plan. */
  lemma FirstMatches(p: Packet, id: Byte, split: Split)
    requires |p.pdu.bytes| < 0x1_0000 && 2 <= split.total <= 8
    ensures
      var e := Entry(true, split, 0, Crc.Crc32(p.pdu.bytes), WholeNode(p));
      var node := NextPiece(e, id).(protocol := p.pdu.protocol);
      && node.fragmented && node.number == 0 && node.id == id
      && (forall stamp: nat :: stamp < 8192 ==> GroupFor(node, stamp) == PieceGroup(p, Cut(id, stamp, split), 0))
      && (forall stamp: nat :: Serves(Advanced(e), p, Cut(id, stamp, split)))
      && Advanced(e).transferred == 1
  {
    hide Slice, OffsetOf, SizeOf;
  }

  lemma WholeNodeGroup(p: Packet, stamp: nat)
    ensures !WholeNode(p).fragmented && GroupFor(WholeNode(p), stamp) == WholeGroup(p)
  {
  }

  lemma PieceMatches(e: Entry, id: Byte, p: Packet, plan: Plan)
    requires Serves(e, p, plan) && plan.id == id && plan.stamp < 8192 && e.transferred < e.split.total <= 8
    requires |p.pdu.bytes| < 0x1_0000
    ensures var node := NextPiece(e, id);
      && node.fragmented && node.number == e.transferred && node.id == id
      && GroupFor(node, plan.stamp) == PieceGroup(p, plan, e.transferred)
    ensures GroupsOf(p, plan)[e.transferred..]
      == [PieceGroup(p, plan, e.transferred)] + GroupsOf(p, plan)[e.transferred + 1..]
  {
    hide Slice, OffsetOf, SizeOf;
  }

  lemma OneMoreSendable(gses: seq<Group>, g: Group)
    requires AllSendable(gses) && Sendable(g)
    ensures AllSendable(gses + [g])
  {
  }

  lemma SentAppend(c: HeaderParams, payload: nat, frames: seq<seq<Byte>>, sent: seq<seq<Group>>, b: seq<Byte>,
      gses: seq<Group>)
    requires ValidParams(c) && SentFrames(c, payload, frames, sent) && SentFrame(c, payload, b, gses)
    ensures SentFrames(c, payload, frames + [b], sent + [gses])
  {
    hide SentFrame;
  }

  lemma {:induction false} ClosersAppend(a: seq<Group>, b: seq<Group>)
    ensures Closers(a + b) == Closers(a) + Closers(b)
    decreases |b|
  {
    if b == [] {
      assert a + b == a;
    } else {
      var n := |b| - 1;
      assert (a + b)[..|a| + n] == a + b[..n];
      ClosersAppend(a, b[..n]);
    }
  }

  // ----- buffers -------------------------------------------------------------------------------

  function Mbufs(packets: seq<Packet>): seq<nat> {
    if |packets| == 0 then [] else Mbufs(packets[..|packets| - 1]) + [packets[|packets| - 1].mbuf]
  }

  /** A packet's buffer is given back with its last piece. */
  lemma {:induction false} ClosersOfPieces(p: Packet, plan: Plan, payload: nat, n: nat)
    requires GoodPlan(p, plan, payload) && n <= |GroupsOf(p, plan)|
    ensures Closers(GroupsOf(p, plan)[..n]) == if n == |GroupsOf(p, plan)| then [p.mbuf] else []
    decreases n
  {
    var gs := GroupsOf(p, plan);
    hide GoodSplit, PieceGroup, WholeGroup, Closing;
    if n > 0 {
      ClosersOfPieces(p, plan, payload, n - 1);
      assert gs[..n][..n - 1] == gs[..n - 1];
      ClosingPiece(p, plan, payload, n - 1);
    }
  }

  lemma ClosingPiece(p: Packet, plan: Plan, payload: nat, t: nat)
    requires GoodPlan(p, plan, payload) && t < |GroupsOf(p, plan)|
    ensures Closing(GroupsOf(p, plan)[t]) <==> t + 1 == |GroupsOf(p, plan)|
    ensures GroupsOf(p, plan)[t].mbuf == p.mbuf
  {
    hide Exact, Slice, OffsetOf, SizeOf, Crc.Crc32;
  }

  /** The first `k` packets have been sent to the last piece, the next one has not. */
  ghost predicate GivenBackUpTo(k: nat, front: seq<Group>, packets: seq<Packet>, plans: seq<Plan>, payload: nat)
    requires GoodPlans(packets, plans, payload)
  {
    && k <= |packets|
    && AllGroups(packets[..k], plans[..k], payload) <= front
    && (k < |packets| ==> |front| < |AllGroups(packets[..k + 1], plans[..k + 1], payload)|)
  }

  lemma UpToAll(k: nat, front: seq<Group>, packets: seq<Packet>, plans: seq<Plan>, payload: nat)
    requires GoodPlans(packets, plans, payload) && GivenBackUpTo(k, front, packets, plans, payload)
    ensures k <= |packets| == |plans|
  {
    hide AllGroups;
  }

  lemma {:induction false} ClosersOfPrefix(front: seq<Group>, rest: seq<Group>, packets: seq<Packet>,
      plans: seq<Plan>, payload: nat)
    returns (k: nat)
    requires GoodPlans(packets, plans, payload) && front + rest == AllGroups(packets, plans, payload)
    ensures k <= |packets| && Closers(front) == Mbufs(packets[..k])
    ensures GivenBackUpTo(k, front, packets, plans, payload)
    decreases |packets|
  {
    hide GoodPacket, Exact, GroupsOf, Closers, Mbufs, GivenBackUpTo;
    if |packets| == 0 {
      k := 0;
      NothingGivenBack(front, packets, plans, payload);
    } else {
      var n := |packets| - 1;
      var before, last := AllGroups(packets[..n], plans[..n], payload), GroupsOf(packets[n], plans[n]);
      if |front| < |before| {
        assert front == (before + last)[..|front|] == before[..|front|];
        k := ClosersOfPrefix(front, before[|front|..], packets[..n], plans[..n], payload);
        GivenBackLonger(k, front, packets, plans, payload);
      } else {
        var m := |front| - |before|;
        assert front == (before + last)[..|front|] == before + last[..m];
        k := GivenBackWithin(front, m, packets, plans, payload);
      }
    }
  }

  lemma NothingGivenBack(front: seq<Group>, packets: seq<Packet>, plans: seq<Plan>, payload: nat)
    requires packets == [] && plans == [] && front == []
    ensures GivenBackUpTo(0, front, packets, plans, payload) && Closers(front) == Mbufs(packets[..0])
  {
  }

  lemma GivenBackLonger(k: nat, front: seq<Group>, packets: seq<Packet>, plans: seq<Plan>, payload: nat)
    requires |packets| > 0 && GoodPlans(packets, plans, payload)
    requires |front| < |AllGroups(packets[..|packets| - 1], plans[..|packets| - 1], payload)|
    requires GivenBackUpTo(k, front, packets[..|packets| - 1], plans[..|packets| - 1], payload)
    ensures GivenBackUpTo(k, front, packets, plans, payload) && packets[..|packets| - 1][..k] == packets[..k]
  {
    hide GoodPacket, Exact, GoodPlan, AllGroups;
    var n := |packets| - 1;
    assert packets[..n][..n] == packets[..n] && plans[..n][..n] == plans[..n];
    assert packets[..n][..k] == packets[..k] && plans[..n][..k] == plans[..k];
    if k < n {
      assert packets[..n][..k + 1] == packets[..k + 1] && plans[..n][..k + 1] == plans[..k + 1];
    }
  }

  lemma GivenBackWithin(front: seq<Group>, m: nat, packets: seq<Packet>, plans: seq<Plan>, payload: nat)
    returns (k: nat)
    requires |packets| > 0 && GoodPlans(packets, plans, payload)
    requires var n := |packets| - 1;
      && m <= |GroupsOf(packets[n], plans[n])|
      && front == AllGroups(packets[..n], plans[..n], payload) + GroupsOf(packets[n], plans[n])[..m]
    ensures k <= |packets| && GivenBackUpTo(k, front, packets, plans, payload) && Closers(front) == Mbufs(packets[..k])
  {
    hide GoodPacket, Exact, GroupsOf, Closers;
    var n := |packets| - 1;
    var before, last := AllGroups(packets[..n], plans[..n], payload), GroupsOf(packets[n], plans[n]);
    ClosersOfAll(packets[..n], plans[..n], payload);
    ClosersOfPieces(packets[n], plans[n], payload, m);
    ClosersAppend(before, last[..m]);
    k := if m == |last| then n + 1 else n;
    assert last[..|last|] == last;
    assert packets[..n + 1] == packets && plans[..n + 1] == plans;
  }

  /** Over a finished run every buffer is given back, once, in order. */
  lemma {:induction false} ClosersOfAll(packets: seq<Packet>, plans: seq<Plan>, payload: nat)
    requires GoodPlans(packets, plans, payload)
    ensures Closers(AllGroups(packets, plans, payload)) == Mbufs(packets)
    decreases |packets|
  {
    hide GoodPacket, Exact, GroupsOf, Closing;
    if |packets| > 0 {
      var n := |packets| - 1;
      var before, last := AllGroups(packets[..n], plans[..n], payload), GroupsOf(packets[n], plans[n]);
      ClosersOfAll(packets[..n], plans[..n], payload);
      ClosersOfPieces(packets[n], plans[n], payload, |last|);
      assert last[..|last|] == last;
      ClosersAppend(before, last);
    }
  }
}
