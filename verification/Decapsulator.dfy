/** The receiver with its state updated in place: slots, their order, and the packets handed out. */
module Decapsulator {
  import opened Options
  import opened Bytes
  import opened GseFormat
  import opened Addresses
  import opened Framing
  import opened Reassembly
  import opened Receiver
  import Crc
  import L = LinkedList

  /** Return codes of the two storing functions. */
  const REFUSED: int := -1
  const WAITING: int := 0
  const COMPLETE: int := 1

  function CodeOf(v: Verdict): int {
    match v case Refused => REFUSED case Waiting => WAITING case Complete => COMPLETE
  }

  /** Another packet's pieces are dropped, and so is a start that is there already. */
  method DropOthers(slot: Slot, stamp: nat) returns (s: Slot)
    requires Shaped(slot) && slot.maxSeq < FRAG_MAX_NUM
    ensures s == Cleared(slot, stamp) && s.maxSeq < FRAG_MAX_NUM
  {
    s := slot;
    if s.recvNum > 0 {
      if stamp != s.timeStamp {
        s := Reset(s);
      } else if s.fragLen[0] > 0 {
        s := Reset(s);
        s := s.(recvNum := ToU16(s.recvNum - 1), recvLen := ToU16(s.recvLen - s.fragLen[0]));
      }
    }
  }

  /** The steps of storing a start fragment in its slot. */
  method FillFirst(slot: Slot, f: Fragment) returns (s: Slot, ret: int)
    requires Shaped(slot) && slot.maxSeq < FRAG_MAX_NUM && f.First?
    ensures var (r, v) := StoreFirst(slot, f); s == r && ret == CodeOf(v)
    ensures s.maxSeq < FRAG_MAX_NUM && (ret == COMPLETE ==> 0 < s.recvNum <= FRAG_MAX_NUM)
  {
    var stamp, len := Stamp(f.stampSeq), ToU16(|f.data|);
    hide Cleared;
    s := DropOthers(slot, stamp);
    ghost var cleared := s;
    s := s.(maxSeq := Max(s.maxSeq, 0), recvLen := ToU16(s.recvLen + len), recvNum := ToU16(s.recvNum + 1));
    s := s.(fragLen := s.fragLen[0 := len], data := s.data[0 := f.data]);
    s := s.(pduLength := ToU16(f.totalLength - f.headerLength), timeStamp := stamp, protocol := f.protocol);
    s := s.(pduType := PduType(f.protocol, f.data, s.pduType));
    assert s == Begun(cleared, f) && s.maxSeq < FRAG_MAX_NUM;
    hide Begun, PduType;
    if TAILROOM < s.pduLength + 4 {
      s := Reset(s);
      return s, REFUSED;
    }
    s := s.(stored := true);
    ret := if s.recvEnd && s.recvNum == s.maxSeq + 1 then COMPLETE else WAITING;
  }

  /** An earlier piece with this number no longer counts, and this one does. */
  method CountPiece(slot: Slot, f: Fragment) returns (s: Slot)
    requires Shaped(slot) && f.Later? && Seq(f.stampSeq) < FRAG_MAX_NUM
    ensures s == Weighed(Superseded(slot, Seq(f.stampSeq)), f) && s.maxSeq == slot.maxSeq
  {
    var n := Seq(f.stampSeq);
    var len: int := ToU16(|f.data|);
    s := slot;
    if s.fragLen[n] > 0 && s.recvNum > 0 {
      s := s.(recvNum := s.recvNum - 1, recvLen := ToU16(s.recvLen - s.fragLen[n]));
    }
    if f.end {
      s := s.(recvLen := ToU16(s.recvLen + (len - 4)), recvEnd := true);
    } else {
      s := s.(recvLen := ToU16(s.recvLen + len));
    }
  }

  /** The steps of storing a middle or end fragment in its slot. */
  method FillLater(slot: Slot, f: Fragment) returns (s: Slot, ret: int)
    requires Shaped(slot) && slot.maxSeq < FRAG_MAX_NUM && f.Later? && Seq(f.stampSeq) < FRAG_MAX_NUM
    ensures var (r, v) := StoreLater(slot, f); s == r && ret == CodeOf(v)
    ensures s.maxSeq < FRAG_MAX_NUM && (ret == COMPLETE ==> 0 < s.recvNum <= FRAG_MAX_NUM)
  {
    var n := Seq(f.stampSeq);
    var len: int := ToU16(|f.data|);
    hide Superseded, Weighed;
    s := CountPiece(slot, f);
    ghost var weighed := s;
    if 0 < s.pduLength < s.recvLen {
      s := Reset(s);
      return s, REFUSED;
    }
    s := s.(maxSeq := Max(s.maxSeq, n), recvNum := ToU16(s.recvNum + 1));
    s := s.(fragLen := s.fragLen[n := len], data := s.data[n := f.data], timeStamp := Stamp(f.stampSeq));
    assert s == Continued(weighed, f) && s.maxSeq < FRAG_MAX_NUM;
    hide Continued, Max;
    ret := if s.recvEnd && s.recvNum == s.maxSeq + 1 then COMPLETE else WAITING;
  }

  /** A list of the two slots of one fragment ID, slot 0 in front, and the nodes it is made of. */
  method NewOrder() returns (l: L.List, ghost own: set<L.Node>)
    ensures fresh(l) && fresh(own) && Ordered(own, l) && L.Slots(l.nodes) == [0, 1]
  {
    hide L.Linked, L.Bytes;
    l := new L.List();
    var first := new L.Node(0, 0);
    l.Push(first);
    var second := new L.Node(1, 0);
    l.Push(second);
    own := {l.head, first, second};
  }

  /** The list is in order, and made of these nodes only. */
  ghost predicate Ordered(own: set<L.Node>, l: L.List)
    reads l, own
  {
    l.head in own && (forall n :: n in l.nodes ==> n in own) && l.Valid()
  }

  const EMPTY: Slot := Slot(0, 0, 0, 0, false, seq(FRAG_MAX_NUM, k => 0), seq(FRAG_MAX_NUM, k => []), 0, 0, 0, false)

  const UNUSED: Buffers := Buffers([EMPTY, EMPTY], [0, 1])

  lemma EmptyIsFree()
    ensures WellFormed(UNUSED) && InRange(UNUSED) && Free(UNUSED.slots[0]) && Free(UNUSED.slots[1])
  {
  }

  /** A list for each fragment ID, all made of different nodes. */
  method NewLists() returns (ls: seq<L.List>, ghost own: seq<set<L.Node>>)
    ensures |ls| == |own| == MAX_FRAG_ID
    ensures forall k :: 0 <= k < MAX_FRAG_ID ==> fresh(ls[k]) && fresh(own[k])
    ensures forall k :: 0 <= k < MAX_FRAG_ID ==> Ordered(own[k], ls[k]) && L.Slots(ls[k].nodes) == [0, 1]
    ensures forall k, m :: 0 <= k < MAX_FRAG_ID && 0 <= m < MAX_FRAG_ID && k != m ==> ls[k] != ls[m] && own[k] !! own[m]
  {
    ls, own := [], [];
    for i := 0 to MAX_FRAG_ID
      invariant i == |ls| == |own|
      invariant forall k :: 0 <= k < i ==> fresh(ls[k]) && fresh(own[k])
      invariant forall k :: 0 <= k < i ==> Ordered(own[k], ls[k]) && L.Slots(ls[k].nodes) == [0, 1]
      invariant forall k, m :: 0 <= k < i && 0 <= m < i && k != m ==> ls[k] != ls[m] && own[k] !! own[m]
    {
      hide L.List.Valid;
      var l;
      ghost var o;
      l, o := NewOrder();
      ls, own := ls + [l], own + [o];
    }
  }

  class Receiving {
    const local: Mac
    const slots: array2<Slot>
    const lists: seq<L.List>
    ghost const owned: seq<set<L.Node>>
    var delivered: seq<Pdu>

    // the label received last
    var previous: Previous

    /** Each fragment ID has two slots and a list of its own. */
    ghost predicate Arranged() {
      && slots.Length0 == MAX_FRAG_ID == |lists| == |owned| && slots.Length1 == 2
      && (forall i, j :: 0 <= i < MAX_FRAG_ID && 0 <= j < MAX_FRAG_ID && i != j ==>
            lists[i] != lists[j] && owned[i] !! owned[j])
    }

    /** The lists and their nodes. */
    ghost function Lists(): set<object> {
      (set i, n | 0 <= i < |owned| && n in owned[i] :: n) + (set l | l in lists)
    }

    ghost predicate Valid()
      reads slots, Lists()
    {
      && Arranged()
      && (forall id :: 0 <= id < MAX_FRAG_ID ==> Ordered(owned[id], lists[id]))
      && (forall id :: 0 <= id < MAX_FRAG_ID ==> WellFormed(Value(id)) && InRange(Value(id)))
    }

    ghost predicate ValidAt(id: nat)
      requires Arranged() && id < MAX_FRAG_ID
      reads slots, lists[id], owned[id]
    {
      Ordered(owned[id], lists[id]) && WellFormed(Value(id)) && InRange(Value(id))
    }

    /** What is kept for one fragment ID, as the reassembly functions see it. */
    ghost function Value(id: nat): Buffers
      requires Arranged() && id < MAX_FRAG_ID
      reads slots, lists[id], owned[id]
    {
      Buffers([slots[id, 0], slots[id, 1]], L.Slots(lists[id].nodes))
    }

    ghost function State(): (state: seq<Buffers>)
      requires Valid()
      reads slots, Lists()
      ensures AllWellFormed(state) && forall id :: 0 <= id < MAX_FRAG_ID ==> state[id] == Value(id)
    {
      seq(MAX_FRAG_ID, id requires 0 <= id < MAX_FRAG_ID && Valid() reads slots, Lists() => Value(id))
    }

    /** Nothing but what is kept for `id` has changed. */
    twostate predicate OnlyAt(id: nat)
      requires Arranged()
      reads slots, Lists()
    {
      forall i :: 0 <= i < MAX_FRAG_ID && i != id ==> Value(i) == old(Value(i))
    }

    constructor (local: Mac)
      ensures Valid() && this.local == local && delivered == [] && fresh(slots) && fresh(Lists())
      ensures forall id :: 0 <= id < MAX_FRAG_ID ==> Free(Value(id).slots[0]) && Free(Value(id).slots[1])
    {
      var ls;
      ghost var own;
      ls, own := NewLists();
      lists, owned, delivered := ls, own, [];
      this.local, previous := local, Previous(LABEL_6B, []);
      slots := new Slot[MAX_FRAG_ID, 2]((i, j) => EMPTY);
      new;
      hide WellFormed, Free, InRange, L.List.Valid;
      EmptyIsFree();
      assert Arranged();
      assert forall id :: 0 <= id < MAX_FRAG_ID ==> Value(id) == UNUSED;
    }

    /** The first slot that carries the stamp, -1 if there is none. */
    method SearchStamp(id: nat, stamp: nat) returns (index: int)
      requires Valid() && id < MAX_FRAG_ID
      ensures index == if slots[id, 0].timeStamp == stamp then 0 else if slots[id, 1].timeStamp == stamp then 1 else -1
    {
      index := -1;
      for i := 0 to 2
        invariant index == -1
        invariant forall j :: 0 <= j < i ==> slots[id, j].timeStamp != stamp
      {
        if stamp == slots[id, i].timeStamp {
          return i;
        }
      }
    }

    /** Without a match the slot at the front is taken and goes to the back. */
    method FindSlot(id: nat, stamp: nat) returns (index: nat)
      requires Valid() && id < MAX_FRAG_ID
      modifies lists[id], owned[id]
      ensures Valid() && index < 2 && OnlyAt(id)
      ensures (Value(id), index) == old(Choose(Value(id), stamp))
    {
      hide L.Linked, L.Bytes;
      var found := SearchStamp(id, stamp);
      if found < 0 {
        assert Ordered(owned[id], lists[id]) && Value(id).order == L.Slots(lists[id].nodes);
        index := lists[id].TakeAndRequeue();
        Elsewhere(id);
      } else {
        index := found;
      }
    }

    /** What is kept for the other fragment IDs is made of other objects. */
    twostate lemma Elsewhere(id: nat)
      requires old(Valid()) && id < MAX_FRAG_ID
      requires forall i :: 0 <= i < MAX_FRAG_ID && i != id ==> unchanged(lists[i]) && unchanged(owned[i])
      requires forall i, j :: 0 <= i < MAX_FRAG_ID && 0 <= j < 2 && i != id ==> slots[i, j] == old(slots[i, j])
      requires ValidAt(id)
      ensures Valid() && OnlyAt(id)
    {
      hide WellFormed, InRange, L.List.Valid;
      forall i | 0 <= i < MAX_FRAG_ID && i != id
        ensures Value(i) == old(Value(i)) && Ordered(owned[i], lists[i])
      {
        assert unchanged(lists[i]) && unchanged(owned[i]);
        assert old(Ordered(owned[i], lists[i]));
      }
    }

    /** A start fragment; one that is not numbered 0 is refused. */
    method StartReassemble(id: nat, f: Fragment) returns (ret: int, index: nat)
      requires Valid() && id < MAX_FRAG_ID && f.First?
      modifies lists[id], owned[id], slots
      ensures Valid() && index < 2 && OnlyAt(id)
      ensures Seq(f.stampSeq) > 0 ==> ret == REFUSED && Value(id) == old(Value(id))
      ensures Seq(f.stampSeq) == 0 ==>
        var (fb, i) := old(Choose(Value(id), Stamp(f.stampSeq))); var (s, v) := StoreFirst(fb.slots[i], f);
        index == i && Value(id) == fb.(slots := fb.slots[i := s]) && ret == CodeOf(v)
      ensures ret == COMPLETE ==> 0 < Value(id).slots[index].recvNum <= FRAG_MAX_NUM
    {
      hide StoreFirst, Choose;
      if Seq(f.stampSeq) > 0 {
        return REFUSED, 0;
      }
      index := FindSlot(id, Stamp(f.stampSeq));
      var s;
      s, ret := FillFirst(slots[id, index], f);
      PutSlot(id, index, s);
    }

    /** One slot is rewritten. */
    method PutSlot(id: nat, index: nat, s: Slot)
      requires Valid() && id < MAX_FRAG_ID && index < 2 && Shaped(s) && s.maxSeq < FRAG_MAX_NUM
      modifies slots
      ensures Valid() && OnlyAt(id) && Value(id) == old(Value(id)).(slots := old(Value(id)).slots[index := s])
    {
      hide L.List.Valid, InRange;
      assert Ordered(owned[id], lists[id]) && WellFormed(Value(id)) && InRange(Value(id));
      slots[id, index] := s;
      assert Ordered(owned[id], lists[id]);
      StillInRange(old(Value(id)), index, s);
      assert Value(id) == old(Value(id)).(slots := old(Value(id)).slots[index := s]);
      Elsewhere(id);
    }

    /** A middle or end fragment. */
    method KeepReassemble(id: nat, f: Fragment) returns (ret: int, index: nat)
      requires Valid() && id < MAX_FRAG_ID && f.Later? && Seq(f.stampSeq) < FRAG_MAX_NUM
      modifies lists[id], owned[id], slots
      ensures Valid() && index < 2 && OnlyAt(id)
      ensures var (fb, i) := old(Choose(Value(id), Stamp(f.stampSeq))); var (s, v) := StoreLater(fb.slots[i], f);
        index == i && Value(id) == fb.(slots := fb.slots[i := s]) && ret == CodeOf(v)
      ensures ret == COMPLETE ==> 0 < Value(id).slots[index].recvNum <= FRAG_MAX_NUM
    {
      hide StoreLater, Choose;
      index := FindSlot(id, Stamp(f.stampSeq));
      var s;
      s, ret := FillLater(slots[id, index], f);
      PutSlot(id, index, s);
    }

    /** Puts the pieces of a complete slot together; the slot is free again, whatever comes of it. */
    method FinishReassemble(id: nat, index: nat) returns (out: Option<Pdu>)
      requires Valid() && id < MAX_FRAG_ID && index < 2 && 0 < slots[id, index].recvNum <= FRAG_MAX_NUM
      modifies slots
      ensures Valid() && OnlyAt(id)
      ensures Value(id) == old(Value(id).(slots := Value(id).slots[index := Reset(slots[id, index])]))
      ensures out == old(Finish(slots[id, index]))
    {
      hide Finish;
      assert ValidAt(id);
      var s := slots[id, index];
      out := Assemble(s);
      PutSlot(id, index, Reset(s));
    }

    /** One fragment, stored; the last one missing brings out the packet. */
    method ReceiveFragment(id: nat, f: Fragment) returns (out: Option<Pdu>)
      requires Valid() && id < MAX_FRAG_ID && Acceptable(f)
      modifies lists[id], owned[id], slots
      ensures Valid() && OnlyAt(id) && (Value(id), out) == old(Receive(Value(id), f))
    {
      hide StoreFirst, StoreLater, Choose, Finish, Reset;
      var ret, index;
      if f.First? {
        ret, index := StartReassemble(id, f);
      } else {
        ret, index := KeepReassemble(id, f);
      }
      out := None;
      if ret == COMPLETE {
        ghost var before := Value(id).slots;
        ghost var fb := old(Choose(Value(id), Stamp(f.stampSeq))).0;
        out := FinishReassemble(id, index);
        assert Value(id).slots == before[index := Reset(before[index])] == fb.slots[index := Reset(before[index])];
      }
    }

    /** A single packet is passed on unless it is a control message or does not fit a buffer. */
    method GetSinglePdu(p: Parsed)
      requires Valid()
      modifies this`delivered
      ensures delivered == old(delivered) + if p.last == PDU_CONCAT then [] else SinglePdu(p)
    {
      if p.last != PDU_CONCAT {
        if p.next == PROTOCOL_CTRL {
          return;
        }
        if TAILROOM < |p.data| {
          return;
        }
        delivered := delivered + [Pdu(p.next, p.data)];
      }
    }

    /** One GSE packet, by its start and end indicators. */
    method HandlePacket(p: Parsed)
      requires Valid() && Receivable(p)
      modifies this`delivered, Lists(), slots
      ensures Valid()
      ensures (State(), delivered) == (old(Handle(State(), p)).0, old(delivered) + old(Handle(State(), p)).1)
    {
      hide Receive;
      if p.start && p.end {
        GetSinglePdu(p);
      } else {
        var out := ReceiveFragment(p.id, AsFragment(p));
        match out {
          case Some(pdu) => delivered := delivered + [pdu];
          case None =>
        }
        assert delivered == old(delivered) + AsSeq(out);
        assert old(State())[p.id] == old(Value(p.id));
        assert State() == old(State())[p.id := Value(p.id)];
      }
    }

    /** Whether a packet is for this station, by its label and by the labels before it. */
    method FilterAddress(code: nat, mac: Address, first: bool) returns (pass: bool)
      requires code < 4 && (code == LABEL_6B ==> |mac| == 6) && (code == LABEL_3B ==> |mac| == 3)
      modifies this`previous
      ensures (pass, Screen(local, first && !pass, previous))
        == Screened(Screen(local, first, old(previous)), code, mac)
    {
      if first && code == LABEL_REUSE {
        return false;
      }
      if code == LABEL_BROADCAST {
        previous := previous.(code := code);
        return true;
      }
      if code == LABEL_6B || code == LABEL_3B {
        var size := if code == LABEL_6B then 6 else 3;
        pass := EqualMac(mac, local, size);
        assert mac[..size] == mac;
        previous := Previous(code, mac);
      } else if previous.code == LABEL_BROADCAST {
        pass := true;
      } else {
        pass := EqualMac(local, previous.mac, |previous.mac|);
        assert previous.mac[..|previous.mac|] == previous.mac;
      }
    }

    /** A frame whose header passes the check is taken apart. */
    method Decapsulate(b: seq<Byte>)
      requires Valid() && |b| >= GSE_OFFSET && AllReceivable(Packets(b, local, previous).packets)
      modifies this`delivered, this`previous, Lists(), slots
      ensures Valid()
      ensures var seen := old(Packets(b, local, previous));
        && (State(), delivered)
          == (old(HandleAll(State(), seen.packets)).0, old(delivered) + old(HandleAll(State(), seen.packets)).1)
        && previous == seen.previous
    {
      hide Walk, Receivable, ProcessHeader, Valid;
      var header := ProcessHeader(b);
      if header.Rejected? {
        assert delivered + [] == delivered;
      } else {
        WalkFrame(b, header.frameSize, header.padding);
      }
    }

    /** The GSE packets of a frame, one by one, until only padding is left. */
    method WalkFrame(b: seq<Byte>, frameSize: U16, padding: int)
      requires Valid()
      requires AllReceivable(
        Walk(b, GSE_OFFSET, 0, Screen(local, true, previous), BBHEADER_SIZE + padding, frameSize).packets)
      modifies this`delivered, this`previous, Lists(), slots
      ensures Valid()
      ensures var seen := old(
        Walk(b, GSE_OFFSET, 0, Screen(local, true, previous), BBHEADER_SIZE + padding, frameSize));
        && State() == old(HandleAll(State(), seen.packets)).0
        && delivered == old(delivered) + old(HandleAll(State(), seen.packets)).1
        && previous == seen.previous
    {
      hide Handle, HandleAll, Walk, Parse, Receivable, AllReceivable, Valid, AllWellFormed, LabelAt, Screened, ReadHead;
      var at: nat, stampSeq, handled, more, first := GSE_OFFSET, 0, 0, true, true;
      ghost var seen: seq<Parsed>, before := [], State();
      ghost var all := Walk(b, GSE_OFFSET, 0, Screen(local, true, previous), BBHEADER_SIZE + padding, frameSize);
      NothingHandled(before);
      assert delivered + [] == delivered && [] + all.packets == all.packets;
      while more
        invariant Valid() && AllReceivable(seen)
        invariant all == Onwards(
          b, at, stampSeq, Screen(local, first, previous), BBHEADER_SIZE + handled + padding, frameSize, seen, more)
        invariant State() == HandleAll(before, seen).0 && delivered == old(delivered) + HandleAll(before, seen).1
        decreases more, frameSize - (BBHEADER_SIZE + handled + padding)
      {
        var p := Parse(b, at, stampSeq);
        WalkNext(b, at, stampSeq, Screen(local, first, previous), BBHEADER_SIZE + handled + padding, frameSize, seen,
          all);
        LabelFits(b, at, stampSeq);
        var pass := FilterAddress(p.address, LabelAt(b, at), first);
        if pass {
          first := false;
          HandleNext(before, seen, p);
          HandlePacket(p);
          seen := seen + [p];
          stampSeq := p.stampSeq;
        }
        at, handled := at + p.size, handled + p.size;
        more := 0 <= BBHEADER_SIZE + handled + padding < frameSize;
      }
      assert seen + [] == seen;
    }
  }

  lemma StillInRange(fb: Buffers, index: nat, s: Slot)
    requires WellFormed(fb) && InRange(fb) && index < 2 && Shaped(s) && s.maxSeq < FRAG_MAX_NUM
    ensures WellFormed(fb.(slots := fb.slots[index := s])) && InRange(fb.(slots := fb.slots[index := s]))
  {
  }

  lemma NothingHandled(state: seq<Buffers>)
    requires AllWellFormed(state)
    ensures AllReceivable([]) && HandleAll(state, []) == (state, [])
  {
  }

  /** The packets seen so far, and those of the rest of the frame if there is more. */
  ghost function Onwards(b: seq<Byte>, at: nat, stampSeq: U16, screen: Screen, sum: int, frameSize: U16,
                         seen: seq<Parsed>, more: bool): Seen
  {
    if !more then Seen(seen, screen.previous)
    else
      var rest := Walk(b, at, stampSeq, screen, sum, frameSize);
      Seen(seen + rest.packets, rest.previous)
  }

  lemma WalkNext(b: seq<Byte>, at: nat, stampSeq: U16, screen: Screen, sum: int, frameSize: U16, seen: seq<Parsed>,
                 all: Seen)
    requires all == Onwards(b, at, stampSeq, screen, sum, frameSize, seen, true) && AllReceivable(all.packets)
    ensures var p := Parse(b, at, stampSeq);
      var (pass, next) := Screened(screen, p.address, LabelAt(b, at));
      && (pass ==> Receivable(p))
      && all == Onwards(b, at + p.size, if pass then p.stampSeq else stampSeq, next, sum + p.size, frameSize,
                        if pass then seen + [p] else seen, 0 <= sum + p.size < frameSize)
  {
    hide Parse, Receivable, Screened, LabelAt;
    var p := Parse(b, at, stampSeq);
    if Screened(screen, p.address, LabelAt(b, at)).0 {
      assert all.packets[|seen|] == p && p in all.packets;
    }
  }

  /** The label is as long as its type says. */
  lemma LabelFits(b: seq<Byte>, at: nat, stampSeq: U16)
    ensures var code, mac := Parse(b, at, stampSeq).address, LabelAt(b, at);
      code < 4 && (code == LABEL_6B ==> |mac| == 6) && (code == LABEL_3B ==> |mac| == 3)
  {
    hide Extensions, Slice;
  }

  lemma HandleNext(state: seq<Buffers>, seen: seq<Parsed>, p: Parsed)
    requires AllWellFormed(state) && AllReceivable(seen) && Receivable(p)
    ensures AllReceivable(seen + [p])
    ensures var (s1, out1) := HandleAll(state, seen); var (s2, out2) := Handle(s1, p);
      HandleAll(state, seen + [p]) == (s2, out1 + out2)
  {
    hide Handle, AllWellFormed, Receivable;
    assert (seen + [p])[..|seen|] == seen;
  }

  predicate InRange(fb: Buffers)
    requires WellFormed(fb)
  {
    fb.slots[0].maxSeq < FRAG_MAX_NUM && fb.slots[1].maxSeq < FRAG_MAX_NUM
  }

  /** The pieces of a slot put together, with the checks in front and behind. */
  method Assemble(s: Slot) returns (out: Option<Pdu>)
    requires Shaped(s) && 0 < s.recvNum <= FRAG_MAX_NUM
    ensures out == Finish(s)
  {
    if !s.stored || s.pduLength < s.recvLen || s.pduType > 2 {
      return None;
    }
    var bytes, i := [], 0;
    while i < s.recvNum - 1
      invariant 0 <= i <= s.recvNum - 1 && bytes == Joined(s, i)
    {
      bytes := bytes + Take(s.data[i], s.fragLen[i]);
      i := i + 1;
    }
    bytes := bytes + Take(s.data[i], LastEnd(s));
    if |bytes| == s.pduLength && Crc.Crc32(bytes) == ReceivedCrc(s) {
      return Some(Pdu(s.protocol, bytes));
    }
    return None;
  }
}
