/** The ring's memory as one thread at a time uses it: the copy loops and the calls that contain them. */
module RingBuffer {
  import opened RingArith
  import opened RingMachine

  /** How many slots after `idx`, going round, slot `j` comes. */
  function Distance(size: nat, idx: nat, j: nat): (d: nat)
    requires idx < size && j < size
    ensures d < size
  {
    if j >= idx then j - idx else j + size - idx
  }

  /** `s` with the block `xs` laid down from slot `idx` on, going round at the end. */
  function Stored<T>(s: seq<T>, idx: nat, xs: seq<T>): (r: seq<T>)
    requires idx < |s| && |xs| <= |s|
    ensures |r| == |s|
  {
    seq(|s|, j requires 0 <= j < |s| => if Distance(|s|, idx, j) < |xs| then xs[Distance(|s|, idx, j)] else s[j])
  }

  lemma LaidDown<T>(s: seq<T>, idx: nat, xs: seq<T>, r: seq<T>)
    requires idx < |s| == |r| && |xs| <= |s|
    requires forall j :: 0 <= j < |s| ==>
      r[j] == if Distance(|s|, idx, j) < |xs| then xs[Distance(|s|, idx, j)] else s[j]
    ensures r == Stored(s, idx, xs)
  {
  }

  /** The block of `n` elements that starts at slot `idx`, going round at the end. */
  function Block<T>(s: seq<T>, idx: nat, n: nat): (r: seq<T>)
    requires idx < |s| && n <= |s|
    ensures |r| == n
  {
    seq(n, k requires 0 <= k < n => s[if idx + k < |s| then idx + k else idx + k - |s|])
  }

  /** Queue contents: positions c up to p, each in its slot. */
  function Queue<T>(s: seq<T>, c: nat, p: nat): (q: seq<T>)
    requires 0 < |s| && c <= p
    ensures |q| == p - c
  {
    seq(p - c, i requires 0 <= i < p - c => s[(c + i) % |s|])
  }

  /** Storing a block behind the queue appends it, as long as everything still fits. */
  lemma StoreAppends<T>(s: seq<T>, c: nat, p: nat, xs: seq<T>)
    requires 0 < |s| && c <= p && p + |xs| <= c + |s|
    ensures Queue(Stored(s, p % |s|, xs), c, p + |xs|) == Queue(s, c, p) + xs
  {
    var size := |s|;
    var s' := Stored(s, p % size, xs);
    var q := Queue(s', c, p + |xs|);
    forall i | 0 <= i < |q| ensures q[i] == (Queue(s, c, p) + xs)[i] {
      StoredAt(s, p, xs, c + i);
    }
  }

  lemma StoredAt<T>(s: seq<T>, p: nat, xs: seq<T>, pos: nat)
    requires 0 < |s| && |xs| <= |s| && pos < p + |xs| <= pos + |s|
    ensures Stored(s, p % |s|, xs)[pos % |s|] == if pos < p then s[pos % |s|] else xs[pos - p]
  {
    var size := |s|;
    DistanceIsDifference(size, p, pos);
    if pos < p {
      ModPlus(size, pos - p, 1);
      ModSmall(size, pos - p + size);
    } else {
      ModSmall(size, pos - p);
    }
  }

  lemma DistanceIsDifference(size: nat, p: nat, pos: nat)
    requires 0 < size
    ensures Distance(size, p % size, pos % size) == (pos - p) % size
  {
    var idx, j := p % size, pos % size;
    Differ(size, p / size, pos / size);
    assert pos - p == (j - idx) + size * (pos / size - p / size);
    ModPlus(size, j - idx, pos / size - p / size);
    if j >= idx {
      ModSmall(size, j - idx);
    } else {
      ModPlus(size, j - idx, 1);
      ModSmall(size, j - idx + size);
    }
  }

  lemma Differ(size: nat, a: int, b: int)
    ensures size * b - size * a == size * (b - a)
  {
  }

  lemma BlockIsQueuePrefix<T>(s: seq<T>, c: nat, p: nat, n: nat)
    requires 0 < |s| && c <= p <= c + |s| && n <= p - c
    ensures Block(s, c % |s|, n) == Queue(s, c, p)[..n]
    ensures Queue(s, c + n, p) == Queue(s, c, p)[n..]
  {
    forall k | 0 <= k < n ensures Block(s, c % |s|, n)[k] == Queue(s, c, p)[k] {
      ModSplit(|s|, c, c % |s| + k);
      if c % |s| + k < |s| {
        ModSmall(|s|, c % |s| + k);
      } else {
        ModPlus(|s|, c % |s| + k - |s|, 1);
        ModSmall(|s|, c % |s| + k - |s|);
      }
    }
    forall k | 0 <= k < p - c - n ensures Queue(s, c + n, p)[k] == Queue(s, c, p)[n..][k] {
      assert c + n + k == c + (n + k);
    }
  }

  /** `n` elements one by one. */
  method CopyRun<T>(src: array<T>, from: nat, dst: array<T>, to: nat, n: nat)
    requires src != dst && from + n <= src.Length && to + n <= dst.Length
    modifies dst
    ensures forall j :: 0 <= j < dst.Length ==> dst[j] == if to <= j < to + n then src[from + j - to] else old(dst[j])
  {
    for i := 0 to n
      invariant forall j :: 0 <= j < dst.Length ==>
        dst[j] == if to <= j < to + i then src[from + j - to] else old(dst[j])
    {
      dst[to + i] := src[from + i];
    }
  }

  /** As many groups of four as fit into `n`; at most three elements are left. */
  method CopyByFours<T>(src: array<T>, from: nat, dst: array<T>, to: nat, n: nat) returns (i: nat)
    requires src != dst && from + n <= src.Length && to + n <= dst.Length
    modifies dst
    ensures i <= n < i + 4
    ensures forall j :: 0 <= j < dst.Length ==> dst[j] == if to <= j < to + i then src[from + j - to] else old(dst[j])
  {
    i := 0;
    while i < n - n % 4
      invariant i <= n - n % 4 && i % 4 == 0
      invariant forall j :: 0 <= j < dst.Length ==>
        dst[j] == if to <= j < to + i then src[from + j - to] else old(dst[j])
    {
      dst[to + i] := src[from + i];
      dst[to + i + 1] := src[from + i + 1];
      dst[to + i + 2] := src[from + i + 2];
      dst[to + i + 3] := src[from + i + 3];
      i := i + 4;
    }
  }

  class Ring<T(0)> {
    const size: nat
    const capacity: nat
    var prodHead: U32
    var prodTail: U32
    var consHead: U32
    var consTail: U32
    const slots: array<T>
    ghost var p: nat
    ghost var c: nat

    /** Between calls of a single thread both heads have met their tails. */
    ghost predicate Valid()
      reads this, slots
    {
      && 0 < capacity < size <= MODULUS && MODULUS % size == 0 && slots.Length == size
      && prodHead == prodTail == Wrap(p)
      && consHead == consTail == Wrap(c)
      && c <= p <= c + capacity
    }

    ghost function Contents(): seq<T>
      requires Valid()
      reads this, slots
    {
      Queue(slots[..], c, p)
    }

    constructor (count: nat)
      requires 1 < count <= MODULUS && MODULUS % count == 0
      ensures Valid() && Contents() == [] && fresh(slots)
      ensures size == count && capacity == count - 1
    {
      size, capacity := count, count - 1;
      prodHead, prodTail, consHead, consTail := 0, 0, 0, 0;
      slots := new T[count];
      p, c := 0, 0;
    }

    /** The store loop: four at a time when the block does not reach the end, else in two stretches. */
    method EnqueuePtrs(head: U32, objs: array<T>, n: nat)
      requires 0 < size == slots.Length && n <= size && n <= objs.Length && objs != slots
      modifies slots
      ensures slots[..] == Stored(old(slots[..]), head % size, objs[..n])
    {
      hide Stored;
      var idx := head % size;
      ghost var before := slots[..];
      if idx + n < size {
        var i := CopyByFours(objs, 0, slots, idx, n);
        CopyRun(objs, i, slots, idx + i, n - i);
        assert forall j :: 0 <= j < size ==> slots[j] == if idx <= j < idx + n then objs[j - idx] else before[j];
      } else {
        CopyRun(objs, 0, slots, idx, size - idx);
        CopyRun(objs, size - idx, slots, 0, n - (size - idx));
        assert forall j :: 0 <= j < size ==>
          slots[j] == if j >= idx then objs[j - idx]
                      else if j < n - (size - idx) then objs[j + size - idx] else before[j];
      }
      LaidDown(before, idx, objs[..n], slots[..]);
    }

    /** The load loop, of the same shape. */
    method DequeuePtrs(head: U32, objs: array<T>, n: nat)
      requires 0 < size == slots.Length && n <= size && n <= objs.Length && objs != slots
      modifies objs
      ensures objs[..n] == Block(slots[..], head % size, n)
      ensures objs[n..] == old(objs[n..])
    {
      var idx := head % size;
      if idx + n < size {
        var i := CopyByFours(slots, idx, objs, 0, n);
        CopyRun(slots, idx + i, objs, i, n - i);
      } else {
        CopyRun(slots, idx, objs, 0, size - idx);
        CopyRun(slots, 0, objs, size - idx, n - (size - idx));
      }
    }

    method MoveProdHead(max: nat, behavior: Behavior)
      returns (n: nat, oldHead: U32, newHead: U32, freeEntries: U32)
      requires Valid()
      modifies this`prodHead
      ensures oldHead == old(prodHead) && newHead == prodHead == Wrap(p + n)
      ensures freeEntries == capacity - (p - c) && n == Fetched(behavior, max, freeEntries)
    {
      hide Wrap, Fetched;
      oldHead := prodHead;
      newHead := oldHead;
      WrapShift(c, capacity - Wrap(p));
      WrapShift(p, capacity + c);
      WrapSmall(capacity + c - p);
      freeEntries := Wrap(capacity + consTail - oldHead);
      n := Fetched(behavior, max, freeEntries);
      if n > 0 {
        WrapShift(p, n);
        newHead := Wrap(oldHead + n);
        prodHead := newHead;
      }
    }

    method MoveConsHead(max: nat, behavior: Behavior)
      returns (n: nat, oldHead: U32, newHead: U32, entries: U32)
      requires Valid()
      modifies this`consHead
      ensures oldHead == old(consHead) && newHead == consHead == Wrap(c + n)
      ensures entries == p - c && n == Fetched(behavior, max, entries)
    {
      hide Wrap, Fetched;
      oldHead := consHead;
      newHead := oldHead;
      WrapShift(p, 0 - Wrap(c) as int);
      WrapShift(c, p);
      WrapSmall(p - c);
      entries := Wrap(prodTail - oldHead);
      n := Fetched(behavior, max, entries);
      if n > 0 {
        WrapShift(c, n);
        newHead := Wrap(oldHead + n);
        consHead := newHead;
      }
    }

    /** All of the block, none of it, or as much as fits; what went in is behind everything that was there. */
    method DoEnqueue(objs: array<T>, max: nat, behavior: Behavior) returns (n: nat, freeSpace: nat)
      requires Valid() && max <= objs.Length && objs != slots
      modifies this, slots
      ensures Valid()
      ensures n <= max && Contents() == old(Contents()) + objs[..n]
      ensures freeSpace == capacity - |Contents()|
      ensures max <= capacity - |old(Contents())| ==> n == max
      ensures max > capacity - |old(Contents())| ==>
                n == if behavior.Fixed? then 0 else capacity - |old(Contents())|
    {
      hide Wrap, Stored, Queue;
      var oldHead, newHead, freeEntries;
      n, oldHead, newHead, freeEntries := MoveProdHead(max, behavior);
      if n > 0 {
        EnqueuePtrs(oldHead, objs, n);
        prodTail := newHead;
        WrapSlot(size, p);
        StoreAppends(old(slots[..]), c, p, objs[..n]);
        p := p + n;
      }
      freeSpace := freeEntries - n;
    }

    method DoDequeue(objs: array<T>, max: nat, behavior: Behavior) returns (n: nat, available: nat)
      requires Valid() && max <= objs.Length && objs != slots
      modifies this, objs
      ensures Valid()
      ensures n <= max && n <= |old(Contents())|
      ensures objs[..n] == old(Contents())[..n] && objs[n..] == old(objs[n..])
      ensures Contents() == old(Contents())[n..]
      ensures available == |Contents()|
      ensures max <= |old(Contents())| ==> n == max
      ensures max > |old(Contents())| ==> n == if behavior.Fixed? then 0 else |old(Contents())|
    {
      hide Wrap, Block, Queue;
      var oldHead, newHead, entries;
      n, oldHead, newHead, entries := MoveConsHead(max, behavior);
      if n > 0 {
        DequeuePtrs(oldHead, objs, n);
        consTail := newHead;
        WrapSlot(size, c);
        BlockIsQueuePrefix(slots[..], c, p, n);
        c := c + n;
      }
      available := entries - n;
    }

    /** The count from the masked difference of the tails; never above the capacity. */
    function Count(): (n: nat)
      requires Valid()
      reads this, slots
    {
      var count := Wrap(prodTail - consTail) % size;
      if count > capacity then capacity else count
    }

    lemma CountIsLength()
      requires Valid()
      ensures Count() == |Contents()|
      ensures Count() == 0 <==> Contents() == []
    {
      WrapShift(p, 0 - Wrap(c) as int);
      WrapShift(c, p);
      WrapSmall(p - c);
      ModSmall(size, p - c);
    }
  }
}
