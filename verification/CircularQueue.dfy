/** The ring queue of fragment IDs. */
module CircularQueue {

  const UINT32: nat := 0x1_0000_0000

  /** A conversion from `int` to `unsigned int`. */
  function Unsigned(x: int): nat { x % UINT32 }

  class Queue {
    var queueSize: nat
    var head: int
    var tail: int
    const slots: array<int>

    ghost predicate Valid()
      reads this, slots
    {
      && 0 < slots.Length < 0x8000_0000
      && queueSize <= slots.Length
      && (queueSize == 0 ==> head == -1 && tail == -1)
      && (queueSize > 0 ==> 0 <= head < slots.Length && 0 <= tail < slots.Length)
      && (queueSize > 0 ==> tail == Position(head, queueSize - 1, slots.Length))
    }

    ghost function Contents(): (s: seq<int>)
      requires Valid()
      reads this, slots
      ensures |s| == queueSize
    {
      Laid(slots[..], head, queueSize)
    }

    constructor (size: nat)
      requires 0 < size < 0x8000_0000
      ensures Valid() && Contents() == [] && fresh(slots) && slots.Length == size
      ensures forall i :: 0 <= i < slots.Length ==> slots[i] == 0
    {
      queueSize, head, tail := 0, -1, -1;
      slots := new int[size](i => 0);
    }

    method IsFull() returns (full: bool)
      requires Valid()
      modifies this`queueSize
      ensures queueSize == old(queueSize)
      ensures full <==> |Contents()| == slots.Length
    {
      full := false;
      if queueSize >= slots.Length {
        queueSize := slots.Length;
        full := true;
      }
    }

    method IsEmpty() returns (empty: bool)
      requires Valid()
      ensures empty <==> Contents() == []
    {
      empty := queueSize == 0;
    }

    method Push(data: int)
      requires Valid() && |Contents()| < slots.Length
      modifies this, slots
      ensures Valid() && Contents() == old(Contents()) + [data]
      ensures forall i :: 0 <= i < slots.Length ==> slots[i] == old(slots[i]) || slots[i] == data
    {
      hide Position, Laid;
      ghost var before, size := slots[..], queueSize;
      Empty(before, head, 0);
      var full := IsFull();
      if !full {
        MoveTail();
      }
      slots[tail] := data;
      Pushed(before, slots[..], head, size, data);
    }

    /** Makes room for one more element at the tail. */
    method MoveTail()
      requires Valid() && queueSize < slots.Length
      modifies this
      ensures queueSize == old(queueSize) + 1 && 0 <= head < slots.Length && 0 <= tail < slots.Length
      ensures head == (if old(head) == -1 then 0 else old(head)) && tail == Position(head, old(queueSize), slots.Length)
    {
      hide Position, Laid;
      ghost var size := queueSize;
      if head == -1 {
        head := (head + 1) % slots.Length;
      }
      Following(head, size, slots.Length);
      tail := tail + 1;
      if tail >= slots.Length {
        tail := 0;
      }
      queueSize := queueSize + 1;
    }

    method Pop()
      requires Valid()
      modifies this
      ensures Valid() && Contents() == if old(Contents()) == [] then [] else old(Contents())[1..]
    {
      hide Position, Laid;
      var empty := IsEmpty();
      if !empty {
        queueSize := queueSize - 1;
        if queueSize > 0 {
          head := head + 1;
          if head >= slots.Length {
            head := 0;
          }
          Popped(slots[..], old(head), old(queueSize));
        } else {
          head, tail := -1, -1;
        }
      } else {
        head, tail := -1, -1;
      }
    }

    /** Behind `Head`, in unsigned arithmetic; the empty queue has `Head` -1. */
    method GetElement(pos: nat) returns (value: int)
      requires Valid() && pos <= slots.Length
      ensures pos < |Contents()| ==> value == Contents()[pos]
      ensures Contents() == [] ==> value == slots[Unsigned(pos - 1) % slots.Length]
    {
      hide Unsigned, Position;
      if queueSize > 0 { Addressed(head, pos, slots.Length); }
      value := slots[Unsigned(head + pos) % slots.Length];
    }

    /** Behind `Head` too: a position past the contents reaches no element, but for the one that is once round. */
    method SetElement(pos: nat, data: int)
      requires Valid() && pos <= slots.Length
      modifies slots
      ensures Valid()
      ensures pos < |old(Contents())| ==> Contents() == old(Contents())[pos := data]
      ensures pos == slots.Length && old(Contents()) != [] ==> Contents() == old(Contents())[0 := data]
      ensures |old(Contents())| <= pos < slots.Length || old(Contents()) == [] ==> Contents() == old(Contents())
      ensures forall i :: 0 <= i < slots.Length ==> slots[i] == old(slots[i]) || slots[i] == data
    {
      hide Laid, Unsigned, Position;
      ghost var before := slots[..];
      slots[Unsigned(head + pos) % slots.Length] := data;
      if queueSize > 0 {
        Addressed(head, pos, slots.Length);
        if pos < slots.Length {
          Replaced(before, slots[..], head, queueSize, pos, data);
        } else {
          OnceRound(head, slots.Length);
          Replaced(before, slots[..], head, queueSize, 0, data);
        }
      }
    }
  }

  // ----- positions --------------------------------------------------------------------------

  function Position(head: int, i: nat, max: nat): (p: nat)
    requires max > 0
    ensures p < max
  {
    (head + i) % max
  }

  lemma Wraps(head: nat, i: nat, max: nat)
    requires head < max && i < max
    ensures Position(head, i, max) == if head + i < max then head + i else head + i - max
  {
    Remainder(head + i, max);
  }

  lemma Remainder(x: nat, max: nat)
    requires 0 < max && x < 2 * max
    ensures x % max == if x < max then x else x - max
  {
    var q := x / max;
    assert x == max * q + x % max;
    if q >= 2 {
      AtLeastTwice(max, q);
      assert false;
    }
    assert q == 0 ==> max * q == 0;
    assert q == 1 ==> max * q == max;
  }

  lemma AtLeastTwice(max: nat, q: nat)
    requires q >= 2
    ensures max * q >= 2 * max
  {
  }

  lemma OnceRound(head: nat, max: nat)
    requires head < max
    ensures Position(head, max, max) == Position(head, 0, max)
  {
    Remainder(head + max, max);
    Remainder(head, max);
  }

  /** The unsigned sum addresses the slot of the position. */
  lemma Addressed(head: nat, pos: nat, max: nat)
    requires head < max < 0x8000_0000 && pos <= max
    ensures Unsigned(head + pos) % max == Position(head, pos, max)
  {
    Below(head + pos);
  }

  lemma Below(x: nat)
    requires x < UINT32
    ensures Unsigned(x) == x
  {
  }

  /** No two elements of a queue share a slot. */
  lemma Apart(head: nat, size: nat, pos: nat, max: nat)
    requires head < max && pos < size <= max
    ensures forall i :: 0 <= i < size && i != pos ==> Position(head, i, max) != Position(head, pos, max)
  {
    forall i | 0 <= i < size && i != pos ensures Position(head, i, max) != Position(head, pos, max) {
      Wraps(head, i, max);
      Wraps(head, pos, max);
    }
  }

  /** The `size` elements from slot `head` on, around the end. */
  function Laid(a: seq<int>, head: int, size: nat): (s: seq<int>)
    requires |a| > 0
    ensures |s| == size && forall i :: 0 <= i < size ==> s[i] == a[Position(head, i, |a|)]
  {
    seq(size, i requires 0 <= i => a[Position(head, i, |a|)])
  }

  lemma Empty(a: seq<int>, h: int, k: int)
    requires |a| > 0
    ensures Laid(a, h, 0) == Laid(a, k, 0)
  {
  }

  lemma Following(head: nat, size: nat, max: nat)
    requires head < max && size < max
    ensures Position(head, size, max) ==
      if size == 0 then head
      else if Position(head, size - 1, max) + 1 < max then Position(head, size - 1, max) + 1
      else 0
  {
    Wraps(head, size, max);
    if size > 0 { Wraps(head, size - 1, max); }
  }

  lemma Pushed(a: seq<int>, b: seq<int>, head: nat, size: nat, data: int)
    requires head < |a| && size < |a| && b == a[Position(head, size, |a|) := data]
    ensures Laid(b, head, size + 1) == Laid(a, head, size) + [data]
  {
    Apart(head, size + 1, size, |a|);
    hide Position;
  }

  lemma Popped(a: seq<int>, head: nat, size: nat)
    requires head < |a| && 1 < size <= |a|
    ensures var next := if head + 1 < |a| then head + 1 else 0;
      && Laid(a, next, size - 1) == Laid(a, head, size)[1..]
      && Position(next, size - 2, |a|) == Position(head, size - 1, |a|)
  {
    var next := if head + 1 < |a| then head + 1 else 0;
    forall i {:trigger Position(next, i, |a|)} | 0 <= i < size - 1
      ensures Position(next, i, |a|) == Position(head, i + 1, |a|)
    {
      Wraps(next, i, |a|);
      Wraps(head, i + 1, |a|);
    }
    hide Position;
  }

  /** Writing at a position changes the element there, if there is one, and no other. */
  lemma Replaced(a: seq<int>, b: seq<int>, head: nat, size: nat, pos: nat, data: int)
    requires head < |a| && size <= |a| && pos < |a| && b == a[Position(head, pos, |a|) := data]
    ensures Laid(b, head, size) == if pos < size then Laid(a, head, size)[pos := data] else Laid(a, head, size)
  {
    Apart(head, |a|, pos, |a|);
    hide Position;
  }
}
