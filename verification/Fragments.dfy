/** Cutting a packet into fragments, and the table of fragment IDs in use. */
module Fragments {
  import opened Bytes
  import opened GseFormat
  import Crc
  import Q = CircularQueue

  const FRAGMENT_MAX_NUM: nat := 256
  const HEADER_S2: nat := 7
  const HEADER_M1: nat := 11
  const SERIAL_HEADER: nat := 4
  const GSE_MAX_SIZE: nat := 4095

  // ----- the arithmetic of the cut ------------------------------------------------------------

  /** `total` pieces: one of `start` bytes, then `middle` bytes each, then `end` bytes. */
  datatype Split = Split(total: Byte, start: U16, middle: U16, end: U16)

  function Uint32(x: int): nat { x % 0x1_0000_0000 }

  function MiddleSize(max: U16): U16 {
    ToU16(if max <= GSE_MAX_SIZE then max - HEADER_M1 - SERIAL_HEADER else max / 2 - HEADER_M1 - SERIAL_HEADER)
  }

  function StartSize(room: U16): U16 { ToU16(ToU16(room - HEADER_S2) - SERIAL_HEADER) }

  /** What remains behind the start, the four checksum bytes counted in. */
  function Remaining(room: U16, size: U16): nat { Uint32(ToU16(size + 4) - StartSize(room)) }

  function SplitOf(room: U16, max: U16, size: U16): Split
    requires MiddleSize(max) > 0
  {
    var remaining, middle := Remaining(room, size), MiddleSize(max);
    var end := remaining % middle;
    Split((remaining / middle + (if end > 0 then 1 else 0) + 1) % 256, StartSize(room), middle, ToU16(end - 4))
  }

  function PartOf(s: Split, t: nat): Part
  {
    if t == 0 then Start else if t == s.total - 1 then End else Middle
  }

  function SizeOf(s: Split, t: nat): U16 {
    match PartOf(s, t) case Start => s.start case End => s.end case Middle => s.middle
  }

  function OffsetOf(s: Split, t: nat): nat {
    if t <= 1 then s.start * t else s.start + s.middle * (t - 1)
  }

  /** The pieces follow each other without gap or overlap from the first byte of the packet to the last. */
  ghost predicate Exact(s: Split, size: nat) {
    s.total >= 2 && forall t :: 0 <= t < s.total ==> Joins(s, size, t)
  }

  ghost predicate Joins(s: Split, size: nat, t: nat) {
    OffsetOf(s, t) + SizeOf(s, t) == if t == s.total - 1 then size else OffsetOf(s, t + 1)
  }

  lemma Offsets(s: Split, t: nat)
    requires t < s.total
    ensures t < s.total - 1 ==> OffsetOf(s, t) + SizeOf(s, t) == OffsetOf(s, t + 1)
  {
    if 1 < t < s.total - 1 {
      assert s.middle * (t - 1) + s.middle == s.middle * t;
    }
  }

  /**
   A packet that does not fit the room left in a frame is cut exactly if what
   remains behind the start leaves at least four bytes for the last piece: the
   checksum must not be torn.
   */
  lemma CutIsExact(room: U16, max: U16, size: U16)
    requires MiddleSize(max) > 0 && 11 < room < size + 4 < 0x1_0000
    requires Remaining(room, size) / MiddleSize(max) < 254
    ensures Exact(SplitOf(room, max, size), size) <==> (size + 15 - room) % MiddleSize(max) >= 4
  {
    hide OffsetOf, SizeOf, MiddleSize, Remaining, Exact, StartSize;
    RemainingIs(room, size);
    var s, rem, middle := SplitOf(room, max, size), Remaining(room, size), MiddleSize(max);
    var k, end := rem / middle, rem % middle;
    Divided(rem, middle);
    LastOffset(s, k, end, size);
    OnlyTheLast(s, size);
  }

  lemma RemainingIs(room: U16, size: U16)
    requires 11 < room < size + 4 < 0x1_0000
    ensures Remaining(room, size) == size + 15 - room && StartSize(room) == room - 11
  {
    hide ToU16, Uint32;
    Fits(room - 7);
    Fits(room - 11);
    Fits(size + 4);
    Fits32(size + 15 - room);
  }

  lemma Fits32(n: nat)
    requires n < 0x1_0000_0000
    ensures Uint32(n) == n
  {
  }

  lemma Divided(n: nat, d: nat)
    requires d > 0
    ensures n == d * (n / d) + n % d && 0 <= n / d && 0 <= n % d < d
    ensures n > 0 && n / d == 0 ==> n % d > 0
  {
  }

  lemma OnlyTheLast(s: Split, size: nat)
    requires s.total >= 2
    ensures Exact(s, size) <==> OffsetOf(s, s.total - 1) + SizeOf(s, s.total - 1) == size
  {
    hide OffsetOf, SizeOf;
    forall t | 0 <= t < s.total - 1 ensures Joins(s, size, t) {
      Offsets(s, t);
    }
    assert Joins(s, size, s.total - 1) <==> OffsetOf(s, s.total - 1) + SizeOf(s, s.total - 1) == size;
  }

  lemma LastOffset(s: Split, k: nat, end: nat, size: nat)
    requires s.middle > 0 && k < 254 && end < s.middle
    requires s.total == k + (if end > 0 then 1 else 0) + 1 && s.end == ToU16(end - 4)
    requires size + 4 == s.start + s.middle * k + end && (k == 0 ==> end > 0)
    ensures s.total >= 2
    ensures OffsetOf(s, s.total - 1) + SizeOf(s, s.total - 1) == size <==> end >= 4
  {
    var t := s.total - 1;
    if end > 0 {
      assert OffsetOf(s, t) == s.start + s.middle * k by {
        if k == 0 { assert s.middle * 0 == 0; }
      }
    } else {
      assert s.middle * (k - 1) + s.middle == s.middle * k;
      assert OffsetOf(s, t) == s.start + s.middle * (k - 1) by {
        if k == 1 { assert s.middle * 0 == 0; }
      }
    }
  }

  /** Six pieces are enough for every packet that a receive buffer holds, at every MODCOD. */
  lemma SixPiecesSuffice(room: U16, max: U16, size: U16)
    requires 1991 <= max <= 7264 && (max > 4095 ==> 4826 <= max)
    requires 14 <= room < size + 4 && size <= 8064
    ensures MiddleSize(max) > 0 && 2 <= SplitOf(room, max, size).total <= 6
  {
    hide Remaining, MiddleSize, StartSize;
    RemainingIs(room, size);
    MiddleIs(max);
    Quotient(Remaining(room, size), MiddleSize(max));
  }

  lemma MiddleIs(max: U16)
    requires 1991 <= max <= 7264 && (max > 4095 ==> 4826 <= max)
    ensures MiddleSize(max) == (if max <= 4095 then max else max / 2) - 15 >= 1976
  {
  }

  lemma Quotient(rem: nat, middle: nat)
    requires 12 <= rem <= 8065 && middle >= 1976
    ensures 2 <= (rem / middle + (if rem % middle > 0 then 1 else 0) + 1) % 256 <= 6
  {
    var k := rem / middle;
    Divided(rem, middle);
    if k >= 5 {
      Monotone(middle, k);
      assert false;
    }
  }

  lemma Monotone(middle: nat, k: nat)
    requires middle >= 1976 && k >= 5
    ensures middle * k >= 9880
  {
  }

  /** With 1000 bytes left in a frame of MODCOD 1, a packet of 2961 bytes leaves nothing for the last piece. */
  lemma TornPacket()
    ensures MiddleSize(1991) > 0 && !Exact(SplitOf(1000, 1991, 2961), 2961)
  {
    hide MiddleSize, Remaining, StartSize, SplitOf, Exact;
    MiddleIs(1991);
    RemainingIs(1000, 2961);
    Cleanly(1976);
    CutIsExact(1000, 1991, 2961);
  }

  lemma Cleanly(n: nat)
    requires n > 0
    ensures n / n == 1 && n % n == 0
  {
  }

  // ----- the table ---------------------------------------------------------------------------

  /** A packet or a fragment of one, as the packer looks at it. */
  datatype PduNode = PduNode(
    data: seq<Byte>, protocol: U16, fragmented: bool, id: Byte, part: Part, number: nat,
    wholeLength: U16, crc: bv32, mbuf: nat)

  datatype Entry = Entry(used: bool, split: Split, transferred: nat, crc: bv32, node: PduNode)

  /** The fragment handed out next; its protocol type is not filled in. */
  function NextPiece(e: Entry, id: Byte): PduNode {
    PduNode(Slice(e.node.data, OffsetOf(e.split, e.transferred), SizeOf(e.split, e.transferred)), 0, true, id,
            PartOf(e.split, e.transferred), e.transferred, e.node.wholeLength, e.crc, e.node.mbuf)
  }

  function Advanced(e: Entry): Entry {
    e.(transferred := e.transferred + 1, used := e.transferred + 1 < e.split.total)
  }

  datatype Fetched = NoPiece | OnePiece(id: Byte, node: PduNode)

  predicate Distinct(ids: seq<int>) { forall i, j :: 0 <= i < j < |ids| ==> ids[i] != ids[j] }

  predicate ValidId(id: int) { 0 <= id < FRAGMENT_MAX_NUM }

  function AllIds(n: nat): (ids: set<int>)
    ensures |ids| == n && forall id :: id in ids <==> 0 <= id < n
  {
    if n == 0 then {} else AllIds(n - 1) + {n - 1}
  }

  function Members(ids: seq<int>): (s: set<int>)
    ensures forall id :: id in s <==> id in ids
    ensures |s| <= |ids| && (Distinct(ids) ==> |s| == |ids|)
  {
    if ids == [] then {} else Members(ids[..|ids| - 1]) + {ids[|ids| - 1]}
  }

  /** Distinct IDs that leave one out are fewer than all. */
  lemma RoomForOneMore(ids: seq<int>, free: int)
    requires Distinct(ids) && ValidId(free) && free !in ids && forall id :: id in ids ==> ValidId(id)
    ensures |ids| < FRAGMENT_MAX_NUM
  {
    hide AllIds, Members;
    var all, some := AllIds(FRAGMENT_MAX_NUM), Members(ids) + {free};
    assert some <= all;
    assert all == some + (all - some);
    assert |all| == |some| + |all - some|;
  }

  /** Exactly the queued IDs are in use, each is queued once, and a used entry has pieces left. */
  ghost predicate Coherent(es: seq<Entry>, ids: seq<int>) {
    && |es| == FRAGMENT_MAX_NUM
    && Distinct(ids)
    && (forall id :: id in ids ==> ValidId(id))
    && (forall id :: 0 <= id < |es| ==> (es[id].used <==> id in ids))
    && (forall id :: 0 <= id < |es| && es[id].used ==> es[id].transferred < es[id].split.total)
  }

  /** The first free ID behind the last one given out, going round. */
  ghost predicate NextFree(es: seq<Entry>, last: Byte, id: nat)
    requires |es| == FRAGMENT_MAX_NUM
  {
    && id < |es| && !es[id].used
    && (id > last ==> forall i :: last < i < id ==> es[i].used)
    && (id <= last ==> forall i :: 0 <= i < id || last < i < |es| ==> es[i].used)
  }

  lemma FollowingFree(es: seq<Entry>, last: Byte, id: nat)
    requires |es| == FRAGMENT_MAX_NUM && (forall i :: 0 <= i < |es| ==> !es[i].used) && NextFree(es, last, id)
    ensures id == (last + 1) % FRAGMENT_MAX_NUM
  {
    var next := (last + 1) % FRAGMENT_MAX_NUM;
    assert !es[next].used;
  }

  lemma Filed(es: seq<Entry>, ids: seq<int>, id: nat, e: Entry)
    requires Coherent(es, ids) && id < |es| && !es[id].used && e.used && e.transferred < e.split.total
    ensures Coherent(es[id := e], ids + [id]) && |ids| < FRAGMENT_MAX_NUM
  {
    RoomForOneMore(ids, id);
  }

  lemma Idle(es: seq<Entry>, id: int)
    requires Coherent(es, [])
    ensures |es| == FRAGMENT_MAX_NUM && (ValidId(id) ==> !es[id].used)
  {
  }

  lemma Served(es: seq<Entry>, ids: seq<int>)
    requires Coherent(es, ids) && ids != []
    ensures 0 <= ids[0] < |es| && es[ids[0]].used && es[ids[0]].transferred < es[ids[0]].split.total
    ensures var e := Advanced(es[ids[0]]);
      Coherent(es[ids[0] := e], if e.used then ids else ids[1..])
  {
    assert ids[0] in ids;
    assert forall id :: id in ids[1..] ==> id in ids && id != ids[0];
    assert forall id :: id in ids && id != ids[0] ==> id in ids[1..];
  }

  class FragmentTable {
    const entries: array<Entry>
    const queue: Q.Queue
    var lastId: Byte

    /** The IDs in use, the one to be served next first. */
    ghost function Ids(): seq<int>
      requires queue.Valid()
      reads queue, queue.slots
    {
      queue.Contents()
    }

    ghost predicate Valid()
      reads this, entries, queue, queue.slots
      ensures Valid() ==> queue.Valid() && entries.Length == FRAGMENT_MAX_NUM
    {
      && entries.Length == FRAGMENT_MAX_NUM == queue.slots.Length
      && queue.Valid()
      && Coherent(entries[..], Ids())
      && QueueInRange()
    }

    constructor ()
      ensures Valid() && Ids() == [] && lastId == 0
      ensures fresh(entries) && fresh(queue) && fresh(queue.slots)
    {
      queue := new Q.Queue(FRAGMENT_MAX_NUM);
      entries := new Entry[FRAGMENT_MAX_NUM](
        i => Entry(false, Split(0, 0, 0, 0), 0, 0, PduNode([], 0, false, 0, Start, 0, 0, 0, 0)));
      lastId := 0;
    }

    /** None is found exactly if all are in use. */
    method AllocateId(last: Byte) returns (found: bool, id: Byte)
      requires Valid()
      ensures found ==> NextFree(entries[..], last, id)
      ensures !found <==> forall i :: 0 <= i < FRAGMENT_MAX_NUM ==> entries[i].used
    {
      found, id := false, 0;
      var i: nat := last + 1;
      while i < FRAGMENT_MAX_NUM
        invariant last < i <= FRAGMENT_MAX_NUM
        invariant forall j :: last < j < i ==> entries[j].used
      {
        if !entries[i].used {
          return true, i;
        }
        i := i + 1;
      }
      i := 0;
      while i < last + 1
        invariant 0 <= i <= last + 1
        invariant forall j :: 0 <= j < i ==> entries[j].used
      {
        if !entries[i].used {
          return true, i;
        }
        i := i + 1;
      }
    }

    /** With no packet being sent all IDs are free, and the next one is simply the following. */
    lemma NoneUsed()
      requires Valid() && Ids() == []
      ensures forall i :: 0 <= i < entries.Length ==> !entries[i].used
      ensures forall id: nat :: NextFree(entries[..], lastId, id) ==> id == (lastId + 1) % FRAGMENT_MAX_NUM
    {
      hide NextFree;
      var es := entries[..];
      forall i | 0 <= i < entries.Length ensures !entries[i].used {
        assert es[i] == entries[i];
      }
      forall id: nat | NextFree(es, lastId, id) ensures id == (lastId + 1) % FRAGMENT_MAX_NUM {
        FollowingFree(es, lastId, id);
      }
    }

    /** Cuts a packet and files it under a free ID; the whole packet's checksum goes with it. */
    method DoFragment(newFrame: bool, max: U16, usable: U16, node: PduNode) returns (id: int)
      requires Valid() && MiddleSize(max) > 0 && |node.data| + 4 < 0x1_0000
      requires SplitOf(if newFrame then max else usable, max, |node.data|).total > 0
      modifies this, entries, queue, queue.slots
      ensures Valid()
      ensures id == -1 <==> forall i :: 0 <= i < FRAGMENT_MAX_NUM ==> old(entries[i].used)
      ensures id == -1 ==> entries[..] == old(entries[..]) && Ids() == old(Ids()) && lastId == old(lastId)
      ensures id != -1 ==>
        && 0 <= id && NextFree(old(entries[..]), old(lastId), id) && lastId == id
        && Ids() == old(Ids()) + [id]
        && var split := SplitOf(if newFrame then max else usable, max, |node.data|);
        && entries[..] == old(entries[..])[id := Entry(true, split, 0, Crc.Crc32(node.data), node)]
    {
      hide Coherent, SplitOf, MiddleSize, Q.Queue.Valid, Q.Laid;
      var found, free := AllocateId(lastId);
      if !found {
        return -1;
      }
      lastId := free;
      var e := Entry(true, SplitOf(if newFrame then max else usable, max, |node.data|), 0, Crc.Crc32(node.data), node);
      ghost var before := entries[..];
      Filed(before, Ids(), free, e);
      entries[free] := e;
      Elsewhere(before, free, e);
      queue.Push(free);
      id := free;
    }

    /**
     The next piece of the packet served now.  An empty queue is read too, at
     its last slot, and that never leads to a piece.
     */
    method Fetch() returns (r: Fetched)
      requires Valid()
      modifies this, entries, queue, queue.slots
      ensures Valid() && lastId == old(lastId)
      ensures old(Ids()) == [] ==> r == NoPiece && entries[..] == old(entries[..]) && Ids() == []
      ensures old(Ids()) != [] ==>
        var id := old(Ids())[0];
        && 0 <= id < FRAGMENT_MAX_NUM
        && var e := old(entries[..])[id];
        && r == OnePiece(id, NextPiece(e, id))
        && entries[..] == old(entries[..])[id := Advanced(e)]
        && Ids() == if Advanced(e).used then old(Ids()) else old(Ids())[1..]
    {
      hide Coherent, NextPiece;
      var id := queue.GetElement(0);
      if Ids() == [] {
        Idle(entries[..], id);
      } else {
        Served(entries[..], Ids());
      }
      if id < 0 {
        return NoPiece;
      }
      if !entries[id].used {
        return NoPiece;
      }
      var e := entries[id];
      r := OnePiece(id, NextPiece(e, id));
      Serve(id);
    }

    /** Counts a piece as handed out; after the last one the ID is free again. */
    method Serve(id: nat)
      requires Valid() && Ids() != [] && id == Ids()[0] && id < FRAGMENT_MAX_NUM
      modifies entries, queue, queue.slots
      ensures Valid()
      ensures var e := Advanced(old(entries[..])[id]);
        entries[..] == old(entries[..])[id := e] && Ids() == if e.used then old(Ids()) else old(Ids())[1..]
    {
      hide Coherent, Distinct, QueueInRange, Q.Queue.Valid, Q.Laid;
      ghost var before := entries[..];
      Served(before, Ids());
      var e := entries[id];
      assert e.used == Advanced(e).used || e.transferred + 1 == e.split.total;
      entries[id] := e.(transferred := e.transferred + 1);
      if e.transferred + 1 >= e.split.total {
        entries[id] := entries[id].(used := false);
        Release();
      }
      assert entries[id] == Advanced(e);
      Elsewhere(before, id, Advanced(e));
    }

    /** One entry differs from what was there before. */
    lemma Elsewhere(before: seq<Entry>, id: nat, e: Entry)
      requires entries.Length == |before| && id < |before| && entries[id] == e
      requires forall i :: 0 <= i < |before| && i != id ==> entries[i] == before[i]
      ensures entries[..] == before[id := e]
    {
    }

    method Release()
      requires queue.Valid() && Ids() != [] && QueueInRange()
      modifies queue, queue.slots
      ensures queue.Valid() && Ids() == old(Ids())[1..] && QueueInRange()
    {
      hide Q.Queue.Valid, Q.Laid;
      queue.SetElement(0, -1);
      queue.Pop();
    }

    ghost predicate QueueInRange()
      reads queue.slots
    {
      forall i :: 0 <= i < queue.slots.Length ==> -1 <= queue.slots[i] < FRAGMENT_MAX_NUM
    }
  }
}
