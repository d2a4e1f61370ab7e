/** What holds after any run: any number of threads, any interleaving, either memory-model variant. */
module RingRuns {
  import opened Options
  import opened RingArith
  import opened RingMachine
  import opened RingSafety

  function Initial<T>(slots: seq<T>, threads: nat): State<T> {
    State(HeadTail(0, 0), HeadTail(0, 0), slots,
          seq(threads, i => Thread(Idle, Prod, 0, Fixed, [], 0, 0, 0, 0, 0, 0, 0)),
          Position(0, 0), Position(0, 0), [], [])
  }

  lemma InitialInv<T>(cfg: Config, slots: seq<T>, threads: nat)
    requires ValidConfig(cfg) && |slots| == cfg.size
    ensures Inv(cfg, Initial(slots, threads))
    ensures Covered(Initial(slots, threads))
  {
  }

  /** An action may be taken: it is enabled, and no compare-and-set has waited for 2^32 reservations. */
  predicate Legal<T>(s: State<T>, a: Action<T>) {
    Enabled(s, a) && Timely(s, s.threads[a.t])
  }

  ghost function Next<T>(cfg: Config, s: State<T>, a: Action<T>): (s': State<T>)
    requires Inv(cfg, s) && Legal(s, a)
    ensures Inv(cfg, s') && |s'.threads| == |s.threads|
  {
    StepKeepsInv(cfg, s, a);
    Apply(cfg, s, a)
  }

  ghost predicate LegalRun<T>(cfg: Config, s: State<T>, acts: seq<Action<T>>)
    requires Inv(cfg, s)
    decreases |acts|
  {
    |acts| == 0 || (Legal(s, acts[0]) && LegalRun(cfg, Next(cfg, s, acts[0]), acts[1..]))
  }

  ghost function After<T>(cfg: Config, s: State<T>, acts: seq<Action<T>>): (s': State<T>)
    requires Inv(cfg, s) && LegalRun(cfg, s, acts)
    ensures |s'.threads| == |s.threads|
    decreases |acts|
  {
    if |acts| == 0 then s else After(cfg, Next(cfg, s, acts[0]), acts[1..])
  }

  lemma {:induction false} RunKeepsInv<T>(cfg: Config, s: State<T>, acts: seq<Action<T>>)
    requires Inv(cfg, s) && LegalRun(cfg, s, acts)
    ensures Inv(cfg, After(cfg, s, acts))
    decreases |acts|
  {
    hide Inv, Legal, Next;
    if |acts| > 0 {
      RunKeepsInv(cfg, Next(cfg, s, acts[0]), acts[1..]);
    }
  }

  /** What consumers have released, in the order in which they reserved it. */
  ghost function Dequeued<T>(s: State<T>): seq<Option<T>>
    requires s.c.tail <= |s.taken|
  {
    s.taken[..s.c.tail]
  }

  /** Nothing lost, duplicated, reordered, read before it was written or overwritten before it was read. */
  lemma RunIsFifo<T>(cfg: Config, slots: seq<T>, threads: nat, acts: seq<Action<T>>)
    requires ValidConfig(cfg) && |slots| == cfg.size
    requires Inv(cfg, Initial(slots, threads)) && LegalRun(cfg, Initial(slots, threads), acts)
    ensures var s := After(cfg, Initial(slots, threads), acts);
      && s.c.tail <= s.c.head <= s.p.tail <= s.p.head <= s.c.tail + cfg.capacity
      && |s.log| == s.p.head && |s.taken| == s.c.head
      && s.prod == HeadTail(Wrap(s.p.head), Wrap(s.p.tail)) && s.cons == HeadTail(Wrap(s.c.head), Wrap(s.c.tail))
      && Dequeued(s) == seq(s.c.tail, i requires 0 <= i < s.c.tail => Some(s.log[i]))
  {
    RunKeepsInv(cfg, Initial(slots, threads), acts);
    var s := After(cfg, Initial(slots, threads), acts);
    forall i | 0 <= i < s.c.tail ensures Dequeued(s)[i] == Some(s.log[i]) {
      assert s.taken[i].Some?;
    }
  }

  /** History is never rewritten: later states extend the log, and a value once taken stays. */
  ghost predicate Extends<T>(s: State<T>, s': State<T>) {
    && s.log <= s'.log
    && |s.taken| <= |s'.taken|
    && (forall i :: 0 <= i < |s.taken| && s.taken[i].Some? ==> s'.taken[i] == s.taken[i])
  }

  lemma StepExtendsHistory<T>(cfg: Config, s: State<T>, a: Action<T>)
    requires Inv(cfg, s) && Legal(s, a)
    ensures Extends(s, Next(cfg, s, a))
  {
    hide ThreadOk, Contents, Apart, Indices, SlotAt, StepLoadHead, StepLoadTail, StepCas, Timely;
    StepDefined(cfg, s, a.t);
    var th := s.threads[a.t];
    if a.Run? && th.pc.Copy? && th.side.Cons? && th.k < th.n {
      assert ThreadOk(cfg, s, th);
      ReadIsFresh(cfg, s, th);
    }
  }

  lemma {:induction false} RunExtendsHistory<T>(cfg: Config, s: State<T>, acts: seq<Action<T>>)
    requires Inv(cfg, s) && LegalRun(cfg, s, acts)
    ensures Extends(s, After(cfg, s, acts))
    decreases |acts|
  {
    hide Inv, Legal, Next;
    if |acts| > 0 {
      StepExtendsHistory(cfg, s, acts[0]);
      RunExtendsHistory(cfg, Next(cfg, s, acts[0]), acts[1..]);
    }
  }

  // ----- room and failure -----------------------------------------------------------------

  /** Free entries for a producer, entries for a consumer: as they really are. */
  function Room<T>(cfg: Config, s: State<T>, side: Side): int {
    Gap(cfg, side) + OtherPos(s, side).tail - MyPos(s, side).head
  }

  /** How many positions of its side have been reserved since the thread loaded the head. */
  function Overtaken<T>(s: State<T>, th: Thread<T>): int { MyPos(s, th.side).head - th.start }

  lemma FoundRoom<T>(cfg: Config, s: State<T>, th: Thread<T>)
    requires Indices(cfg, s) && th.pc.LoadTail? && LoadedOk(cfg, s, th)
    requires Room(cfg, s, th.side) + Overtaken(s, th) < MODULUS
    ensures StepLoadTail(cfg, s, th).avail == Room(cfg, s, th.side) + Overtaken(s, th)
    ensures 0 <= Room(cfg, s, th.side) <= cfg.capacity && 0 <= Overtaken(s, th)
  {
    hide Wrap;
    FoundWraps(cfg, s, th);
    WrapSmall(Gap(cfg, th.side) + OtherPos(s, th.side).tail - th.start);
  }

  /**
   What a call finds is the room there is and, on top, everything reserved on
   its side since it loaded the head.  The comments in the source promise that
   this is never above the capacity.  It is above exactly if more has been
   reserved since than lies between the room there is and the capacity.
   */
  lemma FoundExactly<T>(cfg: Config, s: State<T>, th: Thread<T>)
    requires ValidConfig(cfg) && Indices(cfg, s) && th.pc.LoadTail? && ThreadOk(cfg, s, th)
    requires Room(cfg, s, th.side) + Overtaken(s, th) < MODULUS
    ensures var found := StepLoadTail(cfg, s, th).avail;
      && found == Room(cfg, s, th.side) + Overtaken(s, th)
      && found >= Room(cfg, s, th.side) >= 0
      && (found > cfg.capacity <==> Overtaken(s, th) > cfg.capacity - Room(cfg, s, th.side))
  {
    hide Room, Overtaken, Wrap;
    FoundRoom(cfg, s, th);
  }

  /** In time, the compare-and-set succeeds exactly if nobody has moved the head since. */
  lemma CasSucceedsExactly<T>(cfg: Config, s: State<T>, th: Thread<T>)
    requires Indices(cfg, s) && th.pc.CasHead? && LoadedOk(cfg, s, th) && Timely(s, th)
    ensures CasSucceeds(s, th) <==> Overtaken(s, th) == 0
  {
    hide Wrap;
    if CasSucceeds(s, th) { WrapInjective(MyPos(s, th.side).head, th.start); }
  }

  /** A call that found more than the capacity fails at its compare-and-set. */
  lemma BeyondCapacityFails<T>(cfg: Config, s: State<T>, th: Thread<T>)
    requires ValidConfig(cfg) && Indices(cfg, s) && th.pc.CasHead? && ThreadOk(cfg, s, th) && Timely(s, th)
    requires th.avail > cfg.capacity
    ensures !CasSucceeds(s, th) && Overtaken(s, th) > 0
  {
    hide Wrap, Indices, CasSucceeds;
    CasSucceedsExactly(cfg, s, th);
    if CasSucceeds(s, th) {
      CasIsCurrent(cfg, s, th);
      assert false;
    }
  }

  /**
   A fixed-count call gives up exactly when the room and what was reserved since
   the head was loaded are too little; then the ring itself lacks room (or
   items) at that moment.
   */
  lemma FixedFailure<T>(cfg: Config, s: State<T>, t: nat)
    requires Inv(cfg, s) && t < |s.threads| && s.threads[t].pc.LoadTail?
    requires s.threads[t].behavior.Fixed? && s.threads[t].want > 0
    requires Room(cfg, s, s.threads[t].side) + Overtaken(s, s.threads[t]) < MODULUS
    ensures var th := s.threads[t]; var th' := Advance(cfg, s, t).threads[t];
      && (th'.pc.Done? && th'.n == 0 <==> th.want > Room(cfg, s, th.side) + Overtaken(s, th))
      && (th'.pc.Done? ==> Room(cfg, s, th.side) < th.want)
  {
    hide Contents, Apart, Indices, Room, Overtaken, Wrap, LoadedOk;
    var th := s.threads[t];
    assert ThreadOk(cfg, s, th);
    FoundRoom(cfg, s, th);
  }

  /**
   A call that ends with nothing moved hands back the room there is and what
   was reserved since it loaded the head; so it may report more free entries
   than the ring has, but never fewer than there are, and a fixed-count call
   always fewer than it asked for.
   */
  lemma FailedReport<T>(cfg: Config, s: State<T>, t: nat)
    requires Inv(cfg, s) && t < |s.threads| && s.threads[t].pc.LoadTail?
    requires Room(cfg, s, s.threads[t].side) + Overtaken(s, s.threads[t]) < MODULUS
    ensures var th := s.threads[t]; var th' := Advance(cfg, s, t).threads[t];
      th'.pc.Done? ==>
        && th'.n == 0
        && Reported(th') == Room(cfg, s, th.side) + Overtaken(s, th)
        && (Reported(th') > cfg.capacity <==> Overtaken(s, th) > cfg.capacity - Room(cfg, s, th.side))
        && (th.behavior.Fixed? && th.want > 0 ==> Reported(th') < th.want)
  {
    hide Contents, Apart, Indices, Room, Overtaken, Wrap, LoadedOk;
    var th := s.threads[t];
    assert ThreadOk(cfg, s, th);
    FoundRoom(cfg, s, th);
  }

  /**
   A call that reserves a block will report no more than the room left behind it, and
   exactly that if nothing was released since.
   */
  lemma SuccessReport<T>(cfg: Config, s: State<T>, th: Thread<T>)
    requires ValidConfig(cfg) && Indices(cfg, s) && th.pc.CasHead? && ThreadOk(cfg, s, th)
    requires Timely(s, th) && CasSucceeds(s, th)
    ensures 0 <= Reported(th) <= Room(cfg, Reserve(s, th), th.side)
    ensures Reported(th) == Room(cfg, Reserve(s, th), th.side) <==> th.seen == OtherPos(s, th.side).tail
  {
    hide Indices, Wrap;
    CasIsCurrent(cfg, s, th);
  }

  /**
   What a finished call that moved something has reported, after any run: room behind
   its block up to a tail reached by then.
   */
  lemma ReportedSpace<T>(cfg: Config, slots: seq<T>, threads: nat, acts: seq<Action<T>>, t: nat)
    requires ValidConfig(cfg) && |slots| == cfg.size && t < threads
    requires Inv(cfg, Initial(slots, threads)) && LegalRun(cfg, Initial(slots, threads), acts)
    ensures var s := After(cfg, Initial(slots, threads), acts); var th := s.threads[t];
      th.pc.Done? && th.n > 0 ==>
        && 0 <= Reported(th) <= cfg.capacity - th.n
        && Reported(th) == Gap(cfg, th.side) + th.seen - (th.start + th.n)
        && th.seen <= OtherPos(s, th.side).tail
  {
    hide OwnedOk, LoadedOk, Contents, Apart, LegalRun, After, Indices;
    RunKeepsInv(cfg, Initial(slots, threads), acts);
    var s := After(cfg, Initial(slots, threads), acts);
    assert ThreadOk(cfg, s, s.threads[t]);
  }

  // ----- nobody waits for a vanished owner ------------------------------------------------

  predicate Holds<T>(th: Thread<T>, side: Side, i: nat) {
    Owns(th) && th.side == side && th.start <= i < th.start + th.n
  }

  ghost predicate Owned<T>(s: State<T>, side: Side, i: nat) {
    exists t :: 0 <= t < |s.threads| && Holds(s.threads[t], side, i)
  }

  /** Every reserved and unpublished position belongs to a thread that is on its way to publish it. */
  ghost predicate Covered<T>(s: State<T>) {
    forall side: Side, i: nat :: MyPos(s, side).tail <= i < MyPos(s, side).head ==> Owned(s, side, i)
  }

  lemma OthersUntouched<T>(cfg: Config, s: State<T>, a: Action<T>, t: nat)
    requires Inv(cfg, s) && Legal(s, a) && t < |s.threads| && t != a.t
    ensures Next(cfg, s, a).threads[t] == s.threads[t]
  {
    hide ThreadOk, Contents, Apart, Indices, SlotAt, Wrap;
    StepDefined(cfg, s, a.t);
  }

  lemma OwnerKeepsBlock<T>(cfg: Config, s: State<T>, a: Action<T>, side: Side, i: nat)
    requires Inv(cfg, s) && Legal(s, a) && Holds(s.threads[a.t], side, i)
    requires MyPos(Next(cfg, s, a), side).tail <= i
    ensures Holds(Next(cfg, s, a).threads[a.t], side, i)
  {
    hide LoadedOk, DoneOk, ProdBlock, ConsBlock, Contents, Apart, Indices, SlotAt, Wrap;
    StepDefined(cfg, s, a.t);
    assert ThreadOk(cfg, s, s.threads[a.t]);
  }

  lemma StillOwned<T>(cfg: Config, s: State<T>, a: Action<T>, side: Side, i: nat)
    requires Inv(cfg, s) && Legal(s, a) && Owned(s, side, i)
    requires MyPos(Next(cfg, s, a), side).tail <= i
    ensures Owned(Next(cfg, s, a), side, i)
  {
    hide Inv, Next, Legal;
    var t :| 0 <= t < |s.threads| && Holds(s.threads[t], side, i);
    if t == a.t { OwnerKeepsBlock(cfg, s, a, side, i); } else { OthersUntouched(cfg, s, a, t); }
    assert Holds(Next(cfg, s, a).threads[t], side, i);
  }

  lemma NewlyOwned<T>(cfg: Config, s: State<T>, a: Action<T>, side: Side, i: nat)
    requires Inv(cfg, s) && Legal(s, a)
    requires MyPos(s, side).head <= i < MyPos(Next(cfg, s, a), side).head
    ensures Owned(Next(cfg, s, a), side, i)
  {
    hide OwnedOk, DoneOk, Contents, Apart, Indices, SlotAt, Wrap;
    StepDefined(cfg, s, a.t);
    var th := s.threads[a.t];
    assert ThreadOk(cfg, s, th);
    assert th.pc.CasHead? && CasSucceeds(s, th);
    CasIsCurrent(cfg, s, th);
    assert Holds(Next(cfg, s, a).threads[a.t], side, i);
  }

  lemma TailsGrow<T>(cfg: Config, s: State<T>, a: Action<T>, side: Side)
    requires Inv(cfg, s) && Legal(s, a)
    ensures MyPos(s, side).tail <= MyPos(Next(cfg, s, a), side).tail
  {
    hide LoadedOk, DoneOk, ProdBlock, ConsBlock, Contents, Apart, Indices, SlotAt, Wrap;
    StepDefined(cfg, s, a.t);
    assert ThreadOk(cfg, s, s.threads[a.t]);
  }

  lemma StepKeepsCovered<T>(cfg: Config, s: State<T>, a: Action<T>)
    requires Inv(cfg, s) && Covered(s) && Legal(s, a)
    ensures Covered(Next(cfg, s, a))
  {
    hide Inv, Legal, Next, Owned;
    var s' := Next(cfg, s, a);
    forall side: Side, i: nat | MyPos(s', side).tail <= i < MyPos(s', side).head ensures Owned(s', side, i) {
      TailsGrow(cfg, s, a, side);
      if i < MyPos(s, side).head { StillOwned(cfg, s, a, side, i); } else { NewlyOwned(cfg, s, a, side, i); }
    }
  }

  lemma {:induction false} RunKeepsCovered<T>(cfg: Config, s: State<T>, acts: seq<Action<T>>)
    requires Inv(cfg, s) && Covered(s) && LegalRun(cfg, s, acts)
    ensures Covered(After(cfg, s, acts))
    decreases |acts|
  {
    hide Inv, Legal, Next, Covered;
    if |acts| > 0 {
      StepKeepsCovered(cfg, s, acts[0]);
      RunKeepsCovered(cfg, Next(cfg, s, acts[0]), acts[1..]);
    }
  }

  /** While a block is unpublished, the thread at the front of its side exists and its wait is over at once. */
  lemma FrontCanPublish<T>(cfg: Config, s: State<T>, side: Side) returns (t: nat)
    requires Inv(cfg, s) && Covered(s) && MyPos(s, side).tail < MyPos(s, side).head
    ensures t < |s.threads| && Owns(s.threads[t]) && s.threads[t].side == side
    ensures s.threads[t].start == MyPos(s, side).tail
    ensures s.threads[t].pc.Await? ==> Advance(cfg, s, t).threads[t].pc.Publish?
  {
    var i := MyPos(s, side).tail;
    assert Owned(s, side, i);
    t :| 0 <= t < |s.threads| && Holds(s.threads[t], side, i);
    assert ThreadOk(cfg, s, s.threads[t]);
  }

  // ----- the two variants -----------------------------------------------------------------

  predicate FailedCas<T>(s: State<T>, a: Action<T>)
    requires a.t < |s.threads|
  {
    s.threads[a.t].pc.CasHead? && !CasSucceeds(s, s.threads[a.t])
  }

  lemma SameApply<T>(cfg: Config, s: State<T>, a: Action<T>)
    requires Shaped(cfg, s) && 0 < cfg.size && Enabled(s, a) && CopyDefined(cfg, s.threads[a.t])
    requires !FailedCas(s, a)
    ensures Apply(cfg.(c11 := false), s, a) == Apply(cfg, s, a)
  {
  }

  lemma FailThenReload<T>(cfg: Config, s: State<T>, a: Action<T>)
    requires cfg.c11 && Shaped(cfg, s) && 0 < cfg.size && Enabled(s, a)
    requires FailedCas(s, a)
    ensures var gen := cfg.(c11 := false); var m := Apply(gen, s, a);
      && Legal(m, a) && Shaped(gen, m)
      && Apply(gen, m, a) == Apply(cfg, s, a)
  {
    var gen := cfg.(c11 := false);
    var m := Apply(gen, s, a);
    assert m == Put(s, a.t, s.threads[a.t].(pc := LoadHead));
    assert Apply(gen, m, a).threads == Apply(cfg, s, a).threads;
  }

  /** A C11 step in steps of the generic variant: a failed exchange is a failed compare-and-set and then a reload. */
  lemma C11Step<T>(cfg: Config, s: State<T>, a: Action<T>)
    requires cfg.c11 && Inv(cfg, s) && Legal(s, a)
    ensures a.t < |s.threads|
    ensures var gen := cfg.(c11 := false);
      && Inv(gen, s)
      && (!FailedCas(s, a) ==> Next(gen, s, a) == Next(cfg, s, a))
      && (FailedCas(s, a) ==> Legal(Next(gen, s, a), a) && Next(gen, Next(gen, s, a), a) == Next(cfg, s, a))
  {
    SameInv(cfg, cfg.(c11 := false), s);
    StepDefined(cfg, s, a.t);
    hide Apply;
    if FailedCas(s, a) { FailThenReload(cfg, s, a); } else { SameApply(cfg, s, a); }
  }

  ghost function Expand<T>(cfg: Config, s: State<T>, acts: seq<Action<T>>): seq<Action<T>>
    requires Inv(cfg, s) && LegalRun(cfg, s, acts)
    decreases |acts|
  {
    if |acts| == 0 then []
    else (if FailedCas(s, acts[0]) then [acts[0]] else []) + [acts[0]] + Expand(cfg, Next(cfg, s, acts[0]), acts[1..])
  }

  /** Every C11 run is a run of the generic variant with the same outcome. */
  lemma {:induction false} C11RefinesGeneric<T>(cfg: Config, s: State<T>, acts: seq<Action<T>>)
    requires cfg.c11 && Inv(cfg, s) && LegalRun(cfg, s, acts)
    ensures var gen := cfg.(c11 := false);
      && Inv(gen, s) && LegalRun(gen, s, Expand(cfg, s, acts))
      && After(gen, s, Expand(cfg, s, acts)) == After(cfg, s, acts)
    decreases |acts|
  {
    hide Inv, Legal, Next, FailedCas, Expand;
    var gen := cfg.(c11 := false);
    SameInv(cfg, gen, s);
    ExpandNext(cfg, s, acts);
    if |acts| > 0 {
      var a := acts[0];
      var s' := Next(cfg, s, a);
      C11Step(cfg, s, a);
      C11RefinesGeneric(cfg, s', acts[1..]);
      var rest := Expand(cfg, s', acts[1..]);
      Prepend(gen, if FailedCas(s, a) then Next(gen, s, a) else s, a, rest);
      if FailedCas(s, a) {
        Prepend(gen, s, a, [a] + rest);
      }
    }
  }

  lemma ExpandNext<T>(cfg: Config, s: State<T>, acts: seq<Action<T>>)
    requires Inv(cfg, s) && LegalRun(cfg, s, acts)
    ensures acts == [] ==> Expand(cfg, s, acts) == []
    ensures acts != [] ==>
      var rest := Expand(cfg, Next(cfg, s, acts[0]), acts[1..]);
      Expand(cfg, s, acts) == if FailedCas(s, acts[0]) then [acts[0]] + ([acts[0]] + rest) else [acts[0]] + rest
  {
    hide Inv, Legal, Next, FailedCas;
  }

  lemma Prepend<T>(cfg: Config, s: State<T>, a: Action<T>, rest: seq<Action<T>>)
    requires Inv(cfg, s) && Legal(s, a) && LegalRun(cfg, Next(cfg, s, a), rest)
    ensures LegalRun(cfg, s, [a] + rest)
    ensures After(cfg, s, [a] + rest) == After(cfg, Next(cfg, s, a), rest)
  {
    hide Inv, Next;
    assert ([a] + rest)[1..] == rest;
  }

  lemma SameInv<T>(cfg: Config, gen: Config, s: State<T>)
    requires Inv(cfg, s) && gen == cfg.(c11 := false)
    ensures Inv(gen, s)
  {
    forall t | 0 <= t < |s.threads| ensures ThreadOk(gen, s, s.threads[t]) {
      SameThread(cfg, gen, s, s.threads[t]);
    }
  }

  lemma SameThread<T>(cfg: Config, gen: Config, s: State<T>, th: Thread<T>)
    requires 0 < cfg.size && Indices(cfg, s) && ThreadOk(cfg, s, th) && gen == cfg.(c11 := false)
    ensures ThreadOk(gen, s, th)
  {
    hide Indices, Wrap;
  }
}
