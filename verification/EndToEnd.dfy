/** From the packets taken off the ring to the packets handed out at the other end. */
module EndToEnd {
  import opened Options
  import opened Bytes
  import opened GseFormat
  import opened Addresses
  import opened Framing
  import opened Packing
  import opened Packer
  import opened Reassembly
  import opened ReassemblyRuns
  import opened Receiver
  import opened Delivery
  import opened Decapsulator

  ghost predicate LongEnough(frames: seq<seq<Byte>>) { forall f :: f in frames ==> |f| >= GSE_OFFSET }

  /** The frames show every station the GSE packets that were queued, up to carried-over sequence values. */
  lemma {:induction false} FramesShow(c: HeaderParams, payload: nat, frames: seq<seq<Byte>>, sent: seq<seq<Group>>,
                                      local: Mac, previous: Previous)
    requires ValidParams(c) && payload <= 7264 && SentFrames(c, payload, frames, sent) && AsSent(Flat(sent))
    ensures LongEnough(frames) && AllAlike(Shown(Flat(sent)), Incoming(frames, local, previous).packets)
    decreases |sent|
  {
    hide Shown, Packets, Message, Expected, TotalSize, AllSendable, Alike;
    if |sent| > 0 {
      var n := |sent| - 1;
      var before, last := Flat(sent[..n]), sent[n];
      StampsSplit(before, last);
      FramesShow(c, payload, frames[..n], sent[..n], local, previous);
      var seen := Incoming(frames[..n], local, previous);
      OneFrameShows(c, payload, frames[n], last, local, seen.previous);
      assert frames == frames[..n] + [frames[n]];
      ShownAppend(before, last);
      AlikeAppend(Shown(before), seen.packets, Shown(last), Packets(frames[n], local, seen.previous).packets);
    } else {
      assert Shown([]) == [];
    }
  }

  lemma StampsSplit(a: seq<Group>, b: seq<Group>)
    requires AsSent(a + b)
    ensures AsSent(a) && AsSent(b)
  {
    assert forall g :: g in a ==> g in a + b;
    assert forall g :: g in b ==> g in a + b;
  }

  lemma AlikeAppend(a: seq<Parsed>, b: seq<Parsed>, c: seq<Parsed>, d: seq<Parsed>)
    requires AllAlike(a, b) && AllAlike(c, d)
    ensures AllAlike(a + c, b + d)
  {
    hide Alike;
  }

  lemma OneFrameShows(c: HeaderParams, payload: nat, b: seq<Byte>, gses: seq<Group>, local: Mac, previous: Previous)
    requires ValidParams(c) && payload <= 7264 && SentFrame(c, payload, b, gses) && AsSent(gses)
    ensures |b| >= GSE_OFFSET && AllAlike(Shown(gses), Packets(b, local, previous).packets)
  {
    Broadcasts(gses);
    hide Shown, Packets, TotalSize, AllSendable, AsSent, AllAlike, AllBroadcast;
    MessageReadBack(c, payload, gses, local, previous);
    ForEveryStation(local, gses, 0, false);
    ShownAlike(gses, 0);
  }

  lemma Broadcasts(gses: seq<Group>)
    requires AsSent(gses)
    ensures AllBroadcast(gses)
  {
  }

  /**
   Whatever a run of the packing thread has sent, the parser meets exactly the
   GSE packets that the accepted packets require, all pieces included, in order.
   */
  lemma RunShown(c: HeaderParams, payload: nat, frames: seq<seq<Byte>>, sent: seq<seq<Group>>,
                 packets: seq<Packet>, plans: seq<Plan>, local: Mac, previous: Previous)
    requires SentFor(c, payload, frames, sent, packets, plans) && payload <= 7264
    ensures LongEnough(frames)
    ensures AllAlike(Shown(AllGroups(packets, plans, payload)), Incoming(frames, local, previous).packets)
  {
    hide SentFrames, GoodPlans, AllGroups, Shown, Incoming, AllAlike, AsSent;
    GroupsStamped(packets, plans, payload);
    FramesShow(c, payload, frames, sent, local, previous);
  }

  lemma {:induction false} GroupsStamped(packets: seq<Packet>, plans: seq<Plan>, payload: nat)
    requires GoodPlans(packets, plans, payload)
    ensures AsSent(AllGroups(packets, plans, payload))
    decreases |packets|
  {
    hide GoodPacket, GoodSplit;
    if |packets| > 0 {
      var n := |packets| - 1;
      GroupsStamped(packets[..n], plans[..n], payload);
      OnePacketStamped(packets[n], plans[n], payload);
    }
  }

  lemma OnePacketStamped(p: Packet, plan: Plan, payload: nat)
    requires GoodPlan(p, plan, payload)
    ensures AsSent(GroupsOf(p, plan))
  {
    if plan.Cut? {
      SplitCounts(p, plan.split, payload);
      PiecesStamped(p, plan);
    }
  }

  /**
   Whatever frames the packer has sent for these packets, an idle receiver hands
   out exactly these packets, in order, and is idle again.
   */
  lemma FramesDeliver(c: HeaderParams, payload: nat, frames: seq<seq<Byte>>, sent: seq<seq<Group>>,
                      packets: seq<Packet>, plans: seq<Plan>, state: seq<Buffers>, local: Mac, previous: Previous)
    requires ValidParams(c) && 1991 <= payload <= 7264 && (payload > 4095 ==> payload >= 4826)
    requires SentFrames(c, payload, frames, sent) && GoodPlans(packets, plans, payload) && AllDeliverable(packets)
    requires Flat(sent) == AllGroups(packets, plans, payload) && Idle(state) && AllWellFormed(state)
    ensures LongEnough(frames) && AllReceivable(Incoming(frames, local, previous).packets)
    ensures var (after, out) := HandleAll(state, Incoming(frames, local, previous).packets);
      Idle(after) && out == Pdus(packets)
  {
    hide SentFrames, GoodPlans, AllDeliverable, AllWellFormed, Idle, AllGroups, HandleAll, Shown, Incoming, AllAlike,
      AllReceivable, AsSent;
    AllDelivered(state, packets, plans, payload);
    FramesShow(c, payload, frames, sent, local, previous);
    AllAlikeHandled(state, Shown(Flat(sent)), Incoming(frames, local, previous).packets);
  }

  /** The receiver over a sequence of frames. */
  method ReceiveFrames(receiver: Receiving, frames: seq<seq<Byte>>)
    requires receiver.Valid() && LongEnough(frames)
    requires AllReceivable(Incoming(frames, receiver.local, receiver.previous).packets)
    modifies receiver`delivered, receiver`previous, receiver.Lists(), receiver.slots
    ensures receiver.Valid()
    ensures var seen := old(Incoming(frames, receiver.local, receiver.previous));
      && receiver.delivered == old(receiver.delivered) + old(HandleAll(receiver.State(), seen.packets)).1
      && receiver.previous == seen.previous
  {
    hide Receiving.Valid, HandleAll, Packets, Receivable;
    ghost var before, local, start := receiver.State(), receiver.local, receiver.previous;
    NothingHandled(before);
    assert receiver.delivered + [] == receiver.delivered;
    for i := 0 to |frames|
      invariant receiver.Valid() && LongEnough(frames[..i])
      invariant AllReceivable(Incoming(frames[..i], local, start).packets)
      invariant receiver.previous == Incoming(frames[..i], local, start).previous
      invariant receiver.State() == HandleAll(before, Incoming(frames[..i], local, start).packets).0
      invariant receiver.delivered
        == old(receiver.delivered) + HandleAll(before, Incoming(frames[..i], local, start).packets).1
    {
      IncomingSplit(frames, i, local, start);
      assert |frames[i]| >= GSE_OFFSET;
      HandleAppend(before, Incoming(frames[..i], local, start).packets,
                   Packets(frames[i], local, receiver.previous).packets);
      receiver.Decapsulate(frames[i]);
    }
    assert frames[..|frames|] == frames;
  }

  lemma ReceivableParts(a: seq<Parsed>, b: seq<Parsed>)
    requires AllReceivable(a + b)
    ensures AllReceivable(a) && AllReceivable(b)
  {
    hide Receivable;
    assert forall p :: p in a ==> p in a + b;
    assert forall p :: p in b ==> p in a + b;
  }

  lemma {:induction false} IncomingSplit(frames: seq<seq<Byte>>, i: nat, local: Mac, previous: Previous)
    requires LongEnough(frames) && i < |frames| && AllReceivable(Incoming(frames, local, previous).packets)
    ensures LongEnough(frames[..i + 1]) && LongEnough(frames[..i])
    ensures var before := Incoming(frames[..i], local, previous);
      var last := Packets(frames[i], local, before.previous);
      && Incoming(frames[..i + 1], local, previous) == Seen(before.packets + last.packets, last.previous)
      && AllReceivable(last.packets)
    decreases |frames|
  {
    hide Packets, Receivable, AllReceivable;
    assert frames[..i + 1][..i] == frames[..i];
    var n := |frames| - 1;
    var front := Incoming(frames[..n], local, previous);
    ReceivableParts(front.packets, Packets(frames[n], local, front.previous).packets);
    if i < n {
      IncomingSplit(frames[..n], i, local, previous);
      assert frames[..n][..i] == frames[..i] && frames[..n][..i + 1] == frames[..i + 1] && frames[..n][i] == frames[i];
    }
  }

  /**
   The whole way: for everything the ring delivers, at every MODCOD and every
   threshold, the packing thread's frames make the receiver of any station hand
   out exactly the packets that came in, in their order; every packet's buffer
   has been given back, once.
   */
  method Gateway(modcod: nat, threshold: U16, params: HeaderParams, arrivals: seq<Option<Packet>>, local: Mac)
    returns (delivered: seq<Pdu>, freed: seq<nat>)
    requires 1 <= modcod <= 28 && 14 <= threshold <= MapPayload(modcod) && ValidParams(params)
    requires forall a :: a in arrivals && a.Some? ==> Deliverable(a.value)
    ensures delivered == Pdus(Present(arrivals)) && freed == Mbufs(Present(arrivals))
  {
    var frames;
    DeliverableIsShort(arrivals);
    ShortRunsThrough(MapPayload(modcod), 0, MapPayload(modcod), threshold, arrivals);
    frames, freed := SendAll(modcod, threshold, params, arrivals);
    var receiver := new Receiving(local);
    IdleAtFirst(receiver);
    ghost var payload := MapPayload(modcod);
    ghost var sent, plans :| SentFor(params, payload, frames, sent, Present(arrivals), plans);
    PresentDeliverable(arrivals);
    FramesDeliver(params, payload, frames, sent, Present(arrivals), plans, receiver.State(), local, receiver.previous);
    ReceiveFrames(receiver, frames);
    delivered := receiver.delivered;
  }

  lemma DeliverableIsShort(arrivals: seq<Option<Packet>>)
    requires forall a :: a in arrivals && a.Some? ==> Deliverable(a.value)
    ensures forall a :: a in arrivals && a.Some? ==> ShortPacket(a.value)
  {
  }

  lemma IdleAtFirst(receiver: Receiving)
    requires receiver.Valid()
    requires forall id :: 0 <= id < MAX_FRAG_ID ==>
      Free(receiver.Value(id).slots[0]) && Free(receiver.Value(id).slots[1])
    ensures Idle(receiver.State())
  {
    hide Free, WellFormed, InRange;
    var state := receiver.State();
    forall id | 0 <= id < |state| ensures AllFree(state[id]) {
      assert state[id] == receiver.Value(id);
    }
  }

  ghost predicate SentFor(c: HeaderParams, payload: nat, frames: seq<seq<Byte>>, sent: seq<seq<Group>>,
                          packets: seq<Packet>, plans: seq<Plan>)
  {
    && ValidParams(c) && SentFrames(c, payload, frames, sent) && GoodPlans(packets, plans, payload)
    && Flat(sent) == AllGroups(packets, plans, payload)
  }

  /**
   The packing thread over any input of which every packet is placeable when it
   arrives, and the last frame: the frames sent carry all GSE packets that these
   packets require, in order, and every buffer has been given back, once.
   */
  method SendAll(modcod: nat, threshold: U16, params: HeaderParams, arrivals: seq<Option<Packet>>)
    returns (frames: seq<seq<Byte>>, freed: seq<nat>)
    requires 1 <= modcod <= 28 && 14 <= threshold <= MapPayload(modcod) && ValidParams(params)
    requires RunsThrough(MapPayload(modcod), 0, MapPayload(modcod), threshold, arrivals)
    ensures freed == Mbufs(Present(arrivals))
    ensures exists sent, plans :: SentFor(params, MapPayload(modcod), frames, sent, Present(arrivals), plans)
  {
    hide SentFrames, GoodPlans, AllGroups, Flat;
    var packer := new Packer(modcod, threshold, params);
    packer.EncapsulateThread(arrivals);
    packer.Flush();
    frames, freed := packer.frames, packer.freed;
    assert packer.accepted == Present(arrivals);
    assert SentFor(params, MapPayload(modcod), frames, packer.sent, Present(arrivals), packer.plans);
  }

  lemma {:induction false} PresentDeliverable(arrivals: seq<Option<Packet>>)
    requires forall a :: a in arrivals && a.Some? ==> Deliverable(a.value)
    ensures AllDeliverable(Present(arrivals))
    decreases |arrivals|
  {
    hide Deliverable;
    if |arrivals| > 0 {
      PresentDeliverable(arrivals[..|arrivals| - 1]);
    }
  }
}
