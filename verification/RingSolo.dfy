/** A call whose thread is left alone finishes, with everything it is granted. */
module RingSolo {
  import opened Options
  import opened RingArith
  import opened RingMachine
  import opened RingRuns
  import opened RingSafety
  import opened RingCalls

  /** No block is reserved and unpublished. */
  predicate Quiet<T>(s: State<T>) { s.p.head == s.p.tail && s.c.head == s.c.tail }

  function SideOf<T>(call: Call<T>): Side { if call.Enqueue? then Prod else Cons }

  /** What the call is granted on a quiet ring. */
  function Share<T>(cfg: Config, s: State<T>, call: Call<T>): nat {
    var room := Room(cfg, s, SideOf(call));
    if room < 0 then 0 else Granted(Wanted(call), call.behavior, room)
  }

  function Times<T>(t: nat, k: nat): (acts: seq<Action<T>>)
    ensures |acts| == k
  {
    seq(k, i => Run(t))
  }

  /** The call begun, and as many memory accesses as it takes. */
  function Alone<T>(t: nat, call: Call<T>, n: nat): seq<Action<T>> {
    [Begin(t, call)] + Times(t, if n == 0 then 2 else n + 6)
  }

  ghost predicate Leads<T>(cfg: Config, s: State<T>, acts: seq<Action<T>>, s': State<T>) {
    Inv(cfg, s) && LegalRun(cfg, s, acts) && After(cfg, s, acts) == s'
  }

  lemma One<T>(cfg: Config, s: State<T>, a: Action<T>)
    requires Inv(cfg, s) && Legal(s, a)
    ensures Leads(cfg, s, [a], Next(cfg, s, a))
    ensures CopyDefined(cfg, s.threads[a.t]) && Shaped(cfg, s) && Next(cfg, s, a) == Apply(cfg, s, a)
  {
    hide Inv, Apply;
    StepDefined(cfg, s, a.t);
    Prepend(cfg, s, a, []);
    assert [a] + [] == [a];
  }

  lemma {:induction false} Join<T>(cfg: Config, s: State<T>, a: seq<Action<T>>, m: State<T>, b: seq<Action<T>>,
      e: State<T>)
    requires Leads(cfg, s, a, m) && Leads(cfg, m, b, e)
    ensures Leads(cfg, s, a + b, e)
    decreases |a|
  {
    hide Inv, Legal, Next;
    if a == [] {
      assert a + b == b;
    } else {
      Join(cfg, Next(cfg, s, a[0]), a[1..], m, b, e);
      assert (a + b)[1..] == a[1..] + b;
    }
  }

  /** Nothing but the slots, what was taken and thread `t` has changed. */
  ghost predicate OnlyCopied<T>(s: State<T>, s': State<T>, t: nat) {
    && |s'.threads| == |s.threads| && (forall u :: 0 <= u < |s.threads| && u != t ==> s'.threads[u] == s.threads[u])
    && s'.p == s.p && s'.c == s.c && s'.prod == s.prod && s'.cons == s.cons && s'.log == s.log
  }

  /** Head and tail are loaded. */
  lemma Asks<T>(cfg: Config, s: State<T>, t: nat, call: Call<T>) returns (m: State<T>)
    requires Inv(cfg, s) && t < |s.threads| && Resting(s.threads[t]) && Quiet(s)
    ensures Leads(cfg, s, [Begin(t, call), Run(t), Run(t)], m) && Inv(cfg, m)
    ensures |m.threads| == |s.threads| && m == Put(s, t, m.threads[t])
    ensures
      var th := m.threads[t];
      && th.n == Share(cfg, s, call) && th.pc == (if th.n == 0 then Done else CasHead)
      && th.side == SideOf(call) && th.start == MyPos(s, th.side).head && th.table == Start(call).table
  {
    hide Inv;
    One(cfg, s, Begin(t, call));
    var s1 := Next(cfg, s, Begin(t, call));
    One(cfg, s1, Run(t));
    var s2 := Next(cfg, s1, Run(t));
    One(cfg, s2, Run(t));
    m := Next(cfg, s2, Run(t));
    Join(cfg, s, [Begin(t, call)], s1, [Run(t)], s2);
    Join(cfg, s, [Begin(t, call)] + [Run(t)], s2, [Run(t)], m);
    assert [Begin(t, call)] + [Run(t)] + [Run(t)] == [Begin(t, call), Run(t), Run(t)];
    AskedFor(cfg, s, s1, s2, m, t, call);
  }

  lemma AskedFor<T>(cfg: Config, s: State<T>, s1: State<T>, s2: State<T>, m: State<T>, t: nat, call: Call<T>)
    requires Inv(cfg, s) && Inv(cfg, s2) && t < |s.threads| && Quiet(s)
    requires s1 == Put(s, t, Start(call)) && s2 == Put(s1, t, StepLoadHead(s1, s1.threads[t]))
    requires m == Put(s2, t, StepLoadTail(cfg, s2, s2.threads[t]))
    ensures |m.threads| == |s.threads| && m == Put(s, t, m.threads[t])
    ensures
      var th := m.threads[t];
      && th.n == Share(cfg, s, call) && th.pc == (if th.n == 0 then Done else CasHead)
      && th.side == SideOf(call) && th.start == MyPos(s, th.side).head && th.table == Start(call).table
  {
    hide Contents, Apart, Wrap, OwnedOk;
    assert ThreadOk(cfg, s2, s2.threads[t]);
    RoomBounds(cfg, s, SideOf(call));
    FoundRoom(cfg, s2, s2.threads[t]);
  }

  lemma RoomBounds<T>(cfg: Config, s: State<T>, side: Side)
    requires ValidConfig(cfg) && Indices(cfg, s)
    ensures 0 <= Room(cfg, s, side) <= cfg.capacity < MODULUS
  {
    hide Wrap;
  }

  /** The block is reserved at once: nobody has moved the head. */
  lemma Reserves<T>(cfg: Config, s: State<T>, t: nat) returns (m: State<T>)
    requires Inv(cfg, s) && t < |s.threads| && s.threads[t].pc.CasHead?
    requires s.threads[t].start == MyPos(s, s.threads[t].side).head
    ensures Leads(cfg, s, [Run(t)], m) && Inv(cfg, m)
    ensures |m.threads| == |s.threads| && m == Put(Reserve(s, s.threads[t]), t, s.threads[t].(pc := Copy, k := 0))
  {
    hide Contents, Apart, OwnedOk, Wrap;
    var th := s.threads[t];
    assert ThreadOk(cfg, s, th);
    CasSucceedsExactly(cfg, s, th);
    hide Inv, Indices, LoadedOk;
    One(cfg, s, Run(t));
    m := Next(cfg, s, Run(t));
  }

  /** The copy loop, to its end. */
  lemma {:induction false} Copies<T>(cfg: Config, s: State<T>, t: nat) returns (m: State<T>)
    requires Inv(cfg, s) && t < |s.threads| && s.threads[t].pc.Copy? && s.threads[t].k <= s.threads[t].n
    ensures Leads(cfg, s, Times(t, s.threads[t].n - s.threads[t].k), m) && Inv(cfg, m)
    ensures OnlyCopied(s, m, t)
    ensures m.threads[t] == s.threads[t].(k := s.threads[t].n, table := m.threads[t].table)
    decreases s.threads[t].n - s.threads[t].k
  {
    hide Inv;
    var th := s.threads[t];
    if th.k == th.n {
      m := s;
      assert Times<T>(t, 0) == [];
    } else {
      One(cfg, s, Run(t));
      var s1 := Next(cfg, s, Run(t));
      m := Copies(cfg, s1, t);
      Join(cfg, s, [Run(t)], s1, Times(t, th.n - th.k - 1), m);
      assert [Run(t)] + Times<T>(t, th.n - th.k - 1) == Times<T>(t, th.n - th.k);
    }
  }

  /** The block at the tail is published. */
  lemma Publishes<T>(cfg: Config, s: State<T>, t: nat) returns (m: State<T>)
    requires Inv(cfg, s) && t < |s.threads| && s.threads[t].pc.Copy? && s.threads[t].k == s.threads[t].n
    requires s.threads[t].start == MyPos(s, s.threads[t].side).tail
    ensures Leads(cfg, s, [Run(t), Run(t), Run(t)], m) && Inv(cfg, m)
    ensures |m.threads| == |s.threads| && m == Put(SetTail(s, s.threads[t]), t, s.threads[t].(pc := Done))
  {
    hide Inv, Leads, LegalRun, After;
    var w := Waits(cfg, s, t);
    One(cfg, w, Run(t));
    m := Next(cfg, w, Run(t));
    Join(cfg, s, [Run(t), Run(t)], w, [Run(t)], m);
    var run: seq<Action<T>> := [Run(t)];
    assert [Run(t), Run(t)] + run == [Run(t), Run(t), Run(t)];
  }

  /** The copy loop is left, and the wait is over at once. */
  lemma Waits<T>(cfg: Config, s: State<T>, t: nat) returns (m: State<T>)
    requires Inv(cfg, s) && t < |s.threads| && s.threads[t].pc.Copy? && s.threads[t].k == s.threads[t].n
    requires s.threads[t].start == MyPos(s, s.threads[t].side).tail
    ensures Leads(cfg, s, [Run(t), Run(t)], m) && Inv(cfg, m)
    ensures |m.threads| == |s.threads| && m == Put(s, t, s.threads[t].(pc := Publish))
  {
    AtTail(cfg, s, s.threads[t]);
    hide Inv, Leads, LegalRun, After;
    One(cfg, s, Run(t));
    var s1 := Next(cfg, s, Run(t));
    One(cfg, s1, Run(t));
    m := Next(cfg, s1, Run(t));
    Join(cfg, s, [Run(t)], s1, [Run(t)], m);
    var run: seq<Action<T>> := [Run(t)];
    assert run + run == [Run(t), Run(t)];
  }

  lemma AtTail<T>(cfg: Config, s: State<T>, th: Thread<T>)
    requires Inv(cfg, s) && th in s.threads && th.pc.Copy? && th.start == MyPos(s, th.side).tail
    ensures Mine(s, th.side).tail == th.oldHead
  {
    hide Contents, Apart, Wrap;
    var t :| 0 <= t < |s.threads| && s.threads[t] == th;
    assert ThreadOk(cfg, s, th);
  }

  /**
   On a quiet ring a call whose thread moves alone finishes: everything it is
   granted goes in behind what was enqueued, or comes out from the front of what
   has not been taken, and the ring is quiet again.
   */
  lemma FinishesAlone<T>(cfg: Config, s: State<T>, t: nat, call: Call<T>)
    requires Inv(cfg, s) && t < |s.threads| && Resting(s.threads[t]) && Quiet(s)
    ensures LegalRun(cfg, s, Alone(t, call, Share(cfg, s, call)))
    ensures var n := Share(cfg, s, call); Finished(s, After(cfg, s, Alone(t, call, n)), t, call, n)
  {
    hide Inv, Leads, Share, SetTail;
    var n := Share(cfg, s, call);
    var m := Asks(cfg, s, t, call);
    if n == 0 {
      assert [Begin(t, call), Run(t), Run(t)] == Alone(t, call, 0);
      NothingMoved(cfg, s, m, t, call);
      Reached(cfg, s, Alone(t, call, 0), m);
    } else {
      var r := Reserves(cfg, m, t);
      var c := Copies(cfg, r, t);
      var e := Publishes(cfg, c, t);
      BlockMoved(cfg, s, m, r, c, e, t, call);
      Join(cfg, s, [Begin(t, call), Run(t), Run(t)], m, [Run(t)], r);
      Join(cfg, s, [Begin(t, call), Run(t), Run(t)] + [Run(t)], r, Times(t, n), c);
      Join(cfg, s, [Begin(t, call), Run(t), Run(t)] + [Run(t)] + Times(t, n), c, [Run(t), Run(t), Run(t)], e);
      assert [Begin(t, call), Run(t), Run(t)] + [Run(t)] + Times(t, n) + [Run(t), Run(t), Run(t)] == Alone(t, call, n);
      Reached(cfg, s, Alone(t, call, n), e);
    }
  }

  lemma Reached<T>(cfg: Config, s: State<T>, acts: seq<Action<T>>, e: State<T>)
    requires Leads(cfg, s, acts, e)
    ensures Inv(cfg, s) && LegalRun(cfg, s, acts) && After(cfg, s, acts) == e
  {
  }

  /** What the call has brought about. */
  ghost predicate Finished<T>(s: State<T>, e: State<T>, t: nat, call: Call<T>, n: nat)
    requires t < |e.threads|
  {
    var th := e.threads[t];
    && Quiet(e) && th.pc.Done? && th.n == n && s.c.tail + (if call.Dequeue? then n else 0) <= |s.log|
    && match call
       case Enqueue(objs, _) => n <= |objs| && e.log == s.log + objs[..n] && e.p.tail == s.p.tail + n && e.c == s.c
       case Dequeue(_, _) =>
         && th.table == s.log[s.c.tail..s.c.tail + n]
         && e.log == s.log && e.c.tail == s.c.tail + n && e.p == s.p
  }

  lemma NothingMoved<T>(cfg: Config, s: State<T>, m: State<T>, t: nat, call: Call<T>)
    requires Inv(cfg, s) && t < |s.threads| == |m.threads| && Quiet(s) && m == Put(s, t, m.threads[t])
    requires m.threads[t].pc.Done? && m.threads[t].n == 0 && m.threads[t].table == Start(call).table
    ensures Finished(s, m, t, call, 0)
  {
    hide Contents, Apart, ThreadOk, Wrap;
    if call.Enqueue? { assert s.log + call.objs[..0] == s.log; }
  }

  lemma BlockMoved<T>(cfg: Config, s: State<T>, m: State<T>, r: State<T>, c: State<T>, e: State<T>, t: nat,
      call: Call<T>)
    requires Inv(cfg, s) && Inv(cfg, m) && Inv(cfg, e) && t < |s.threads| == |m.threads| == |c.threads|
    requires Quiet(s) && m == Put(s, t, m.threads[t])
    requires m.threads[t].pc.CasHead? && m.threads[t].side == SideOf(call)
    requires m.threads[t].start == MyPos(s, SideOf(call)).head && m.threads[t].table == Start(call).table
    requires r == Put(Reserve(m, m.threads[t]), t, m.threads[t].(pc := Copy, k := 0))
    requires OnlyCopied(r, c, t) && c.threads[t] == r.threads[t].(k := r.threads[t].n, table := c.threads[t].table)
    requires e == Put(SetTail(c, c.threads[t]), t, c.threads[t].(pc := Done))
    ensures Finished(s, e, t, call, m.threads[t].n)
  {
    hide Contents, Apart, OwnedOk, Wrap;
    assert ThreadOk(cfg, m, m.threads[t]) && ThreadOk(cfg, e, e.threads[t]);
  }
}
