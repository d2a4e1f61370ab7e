/** The intrusive list that says in which order reassembly slots are taken: a sentinel in front, `tail` at the end. */
module LinkedList {

  class Node {
    var pre: Node?
    var next: Node?
    const data: nat
    const dataBytes: nat

    constructor (data: nat, dataBytes: nat)
      ensures this.data == data && this.dataBytes == dataBytes
    {
      this.data, this.dataBytes := data, dataBytes;
    }
  }

  function Bytes(nodes: seq<Node>): nat {
    if |nodes| == 0 then 0 else nodes[0].dataBytes + Bytes(nodes[1..])
  }

  /** The slot numbers along the list. */
  function Slots(nodes: seq<Node>): (s: seq<nat>)
    ensures |s| == |nodes|
  {
    seq(|nodes|, i requires 0 <= i < |nodes| => nodes[i].data)
  }

  lemma {:induction false} BytesAppend(a: seq<Node>, b: seq<Node>)
    ensures Bytes(a + b) == Bytes(a) + Bytes(b)
    decreases |a|
  {
    if a == [] {
      assert a + b == b;
    } else {
      assert (a + b)[1..] == a[1..] + b;
      BytesAppend(a[1..], b);
    }
  }

  lemma BytesWithout(nodes: seq<Node>, k: nat)
    requires k < |nodes|
    ensures Bytes(nodes) == Bytes(nodes[..k] + nodes[k + 1..]) + nodes[k].dataBytes
  {
    BytesAppend(nodes[..k], nodes[k..]);
    BytesAppend(nodes[..k], nodes[k + 1..]);
    assert nodes == nodes[..k] + nodes[k..];
    assert nodes[k..][1..] == nodes[k + 1..];
  }

  /** The last node once node `k` is gone. */
  lemma LastWithout(nodes: seq<Node>, k: nat)
    requires k < |nodes|
    ensures var rest := nodes[..k] + nodes[k + 1..];
      && |rest| == |nodes| - 1
      && (rest != [] ==> rest[|rest| - 1] == if k + 1 == |nodes| then nodes[k - 1] else nodes[|nodes| - 1])
  {
  }

  predicate Distinct(nodes: seq<Node>) { forall i, j :: 0 <= i < j < |nodes| ==> nodes[i] != nodes[j] }

  lemma DistinctWithout(nodes: seq<Node>, k: nat)
    requires Distinct(nodes) && k < |nodes|
    ensures Distinct(nodes[..k] + nodes[k + 1..]) && nodes[k] !in nodes[..k] + nodes[k + 1..]
  {
  }

  lemma DistinctAppend(a: seq<Node>, b: seq<Node>)
    requires Distinct(a) && Distinct(b) && forall n :: n in a ==> n !in b
    ensures Distinct(a + b)
  {
    forall i, j | 0 <= i < j < |a + b| ensures (a + b)[i] != (a + b)[j] {
      if i < |a| <= j { assert a[i] in a && b[j - |a|] in b; }
    }
  }

  /** Both links of node `i`; the sentinel stands in front of node 0. */
  ghost predicate Link(head: Node, nodes: seq<Node>, i: nat)
    requires i < |nodes|
    reads nodes
  {
    && nodes[i].pre == (if i == 0 then head else nodes[i - 1])
    && nodes[i].next == (if i + 1 == |nodes| then null else nodes[i + 1])
  }

  /** The links between the sentinel and these nodes, both ways, ending in null. */
  ghost predicate Linked(head: Node, nodes: seq<Node>)
    reads head, nodes
  {
    && head !in nodes && Distinct(nodes)
    && head.next == (if |nodes| == 0 then null else nodes[0])
    && forall i :: 0 <= i < |nodes| ==> Link(head, nodes, i)
  }

  lemma Rotated(nodes: seq<Node>)
    requires nodes != []
    ensures nodes[..0] + nodes[1..] == nodes[1..]
    ensures Slots(nodes[1..] + [nodes[0]]) == Slots(nodes)[1..] + [nodes[0].data]
    ensures Bytes(nodes[1..] + [nodes[0]]) == Bytes(nodes)
  {
    BytesAppend(nodes[1..], [nodes[0]]);
  }

  class List {
    const head: Node
    var tail: Node?
    var size: nat
    var dataBytes: nat
    ghost var nodes: seq<Node>

    /** An empty list has no tail, or the sentinel for one once its last node has been removed. */
    ghost predicate Valid()
      reads this, head, nodes
    {
      && Linked(head, nodes)
      && (if |nodes| == 0 then tail == null || tail == head else tail == nodes[|nodes| - 1])
      && size == |nodes| && dataBytes == Bytes(nodes)
    }

    constructor ()
      ensures Valid() && nodes == [] && fresh(head)
    {
      var sentinel := new Node(0, 0);
      sentinel.pre, sentinel.next := null, null;
      head, tail, size, dataBytes, nodes := sentinel, null, 0, 0, [];
    }

    /** The first node. */
    method GetHeaderData() returns (node: Node?)
      requires Valid()
      ensures node == if nodes == [] then null else nodes[0]
    {
      node := head.next;
    }

    /** Appends a node. */
    method Push(node: Node)
      requires Valid() && node != head && node !in nodes
      modifies this, head, nodes, node
      ensures Valid() && nodes == old(nodes) + [node]
    {
      BytesAppend(nodes, [node]);
      if tail == null {
        head.next := node;
        node.pre := head;
      } else {
        node.pre := tail;
        tail.next := node;
      }
      node.next := null;
      tail := node;
      size := size + 1;
      dataBytes := dataBytes + node.dataBytes;
      nodes := nodes + [node];
      forall i | 0 <= i < |nodes| ensures Link(head, nodes, i) {
        assert i + 1 < |nodes| ==> old(Link(head, nodes, i));
      }
    }

    /** Takes a node out of the list, wherever it is. */
    method Remove(node: Node, ghost k: nat)
      requires Valid() && k < |nodes| && node == nodes[k]
      modifies this, head, nodes
      ensures Valid() && nodes == old(nodes)[..k] + old(nodes)[k + 1..]
      ensures node.next == null
    {
      hide Linked, Distinct;
      BytesWithout(nodes, k);
      LastWithout(nodes, k);
      size := size - 1;
      dataBytes := dataBytes - node.dataBytes;
      Unlink(node, k);
      nodes := nodes[..k] + nodes[k + 1..];
    }

    /** The pointers around the node, and its own. */
    method Unlink(node: Node, ghost k: nat)
      requires Linked(head, nodes) && k < |nodes| && node == nodes[k]
      modifies this`tail, head, nodes
      ensures tail == if k + 1 == |nodes| then (if k == 0 then head else nodes[k - 1]) else old(tail)
      ensures Linked(head, nodes[..k] + nodes[k + 1..]) && node.next == null
    {
      assert Link(head, nodes, k);
      var pNext, pPre := node.next, node.pre;
      if pNext != null {
        pNext.pre := pPre;
      } else {
        pPre.next := null;
        tail := pPre;
      }
      pPre.next := pNext;
      node.next := null;
      ghost var rest := nodes[..k] + nodes[k + 1..];
      DistinctWithout(nodes, k);
      forall i | 0 <= i < |rest| ensures Link(head, rest, i) {
        ghost var was := if i < k then i else i + 1;
        assert rest[i] == nodes[was] && old(Link(head, nodes, was));
        assert rest[i].pre == if was == k + 1 then pPre else old(nodes[was].pre);
        assert rest[i].next == if was + 1 == k then pNext else old(nodes[was].next);
      }
    }

    /** The list lets go of its nodes; the last one ends what it belongs to now. */
    method Abandon()
      requires tail != null && tail != head
      modifies this, head`next, tail`next
      ensures Valid() && nodes == [] && old(tail).next == null
    {
      hide Linked, Bytes;
      tail.next := null;
      size, dataBytes := 0, 0;
      tail := null;
      head.next := null;
      nodes := [];
      NoLinks(head);
    }

    /** Takes the first slot and puts it at the end: rotation, also of a list with one node. */
    method TakeAndRequeue() returns (slot: nat)
      requires Valid() && nodes != []
      modifies this, head, nodes
      ensures Valid() && nodes == old(nodes)[1..] + [old(nodes)[0]]
      ensures slot == old(Slots(nodes))[0] && Slots(nodes) == old(Slots(nodes))[1..] + [slot]
      ensures size == old(size) && dataBytes == old(dataBytes)
    {
      hide Linked, Bytes, Distinct;
      FirstIsApart();
      Rotated(nodes);
      var node := GetHeaderData();
      slot := node.data;
      Remove(node, 0);
      Push(node);
    }

    lemma FirstIsApart()
      requires Valid() && nodes != []
      ensures nodes[0] !in nodes[..0] + nodes[1..] && nodes[0] != head
    {
      DistinctWithout(nodes, 0);
    }
  }

  /** Moves all nodes of one list to the end of another; an empty source list is refused. */
  method Append(dest: List, src: List) returns (ok: bool)
    requires dest.Valid() && src.Valid() && Separate(dest, src)
    modifies dest, dest.head, dest.nodes, src, src.head, src.nodes
    ensures dest.Valid() && src.Valid()
    ensures ok <==> old(src.nodes) != []
    ensures dest.nodes == old(dest.nodes) + old(src.nodes) && src.nodes == []
  {
    hide Linked, Bytes;
    if src.size == 0 {
      assert dest.nodes + [] == dest.nodes;
      return false;
    }
    Join(dest, src);
    src.Abandon();
    ok := true;
  }

  ghost predicate Separate(a: List, b: List)
    reads a, b
  {
    && a != b && a.head != b.head && a.head !in b.nodes && b.head !in a.nodes
    && forall n :: n in a.nodes ==> n !in b.nodes
  }

  lemma EndsInNull(head: Node, nodes: seq<Node>)
    requires Linked(head, nodes) && nodes != []
    ensures nodes[|nodes| - 1].next == null && head !in nodes
  {
    assert Link(head, nodes, |nodes| - 1);
  }

  lemma NoLinks(head: Node)
    ensures Linked(head, []) <==> head.next == null
    ensures Bytes([]) == 0
  {
  }

  /** All nodes of the source become the destination's too. */
  method Join(dest: List, src: List)
    requires dest.Valid() && src.Valid() && Separate(dest, src) && src.nodes != []
    modifies dest, dest.head, dest.nodes, src.nodes
    ensures dest.Valid() && dest.nodes == old(dest.nodes) + src.nodes
    ensures src.tail == src.nodes[|src.nodes| - 1] && src.tail.next == null && src.tail in dest.nodes
    ensures src.head !in dest.nodes
  {
    hide Linked, Bytes;
    BytesAppend(dest.nodes, src.nodes);
    NoLinks(dest.head);
    EndsInNull(src.head, src.nodes);
    LinkUp(dest, src);
    EndsInNull(dest.head, dest.nodes + src.nodes);
    dest.tail := src.tail;
    dest.size := dest.size + src.size;
    dest.dataBytes := dest.dataBytes + src.dataBytes;
    dest.nodes := dest.nodes + src.nodes;
  }

  /** The first node of the source is linked behind the last one of the destination. */
  method LinkUp(dest: List, src: List)
    requires dest.Valid() && src.Valid() && Separate(dest, src) && src.nodes != []
    modifies dest`size, dest`dataBytes, dest.head, dest.nodes, src.nodes
    ensures dest.size == old(dest.size) && dest.dataBytes == old(dest.dataBytes)
    ensures Linked(dest.head, dest.nodes + src.nodes)
  {
    var first := src.head.next;
    if dest.tail == null {
      dest.size, dest.dataBytes := 0, 0;
      first.pre := dest.head;
      dest.head.next := first;
    } else {
      first.pre := dest.tail;
      dest.tail.next := first;
    }
    ghost var a, b := dest.nodes, src.nodes;
    DistinctAppend(a, b);
    forall i | 0 <= i < |a + b| ensures Link(dest.head, a + b, i) {
      if i < |a| {
        assert old(Link(dest.head, a, i)) && a[i] in a;
      } else {
        assert old(Link(src.head, b, i - |a|)) && b[i - |a|] in b;
      }
    }
  }
}
