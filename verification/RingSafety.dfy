/** Every step of the ring machine, in either memory-model variant, keeps the invariant. */
module RingSafety {
  import opened Options
  import opened RingArith
  import opened RingMachine

  /** A step that changes thread `t` alone. */
  lemma QuietStep<T>(cfg: Config, s: State<T>, t: nat, th: Thread<T>)
    requires Inv(cfg, s) && t < |s.threads|
    requires ThreadOk(cfg, s, th)
    requires Owns(th) ==> Owns(s.threads[t]) && th.side == s.threads[t].side
                          && th.start == s.threads[t].start && th.n == s.threads[t].n
    ensures Inv(cfg, Put(s, t, th))
  {
    var s' := Put(s, t, th);
    forall u | 0 <= u < |s'.threads| ensures ThreadOk(cfg, s', s'.threads[u]) {
      SameMemory(cfg, s, s', if u == t then th else s.threads[u]);
    }
    forall u, w | 0 <= u < w < |s'.threads| ensures Apart(s'.threads[u], s'.threads[w]) {
      assert Apart(s.threads[u], s.threads[w]);
    }
  }

  lemma SameMemory<T>(cfg: Config, s: State<T>, s': State<T>, th: Thread<T>)
    requires 0 < cfg.size && Indices(cfg, s) && Indices(cfg, s') && ThreadOk(cfg, s, th)
    requires s' == s.(threads := s'.threads)
    ensures ThreadOk(cfg, s', th)
  {
    hide LoadedOk, DoneOk, BlockOk, ProdBlock, ConsBlock, Indices;
    if Owns(th) {
      SameBlock(cfg, s, s', th);
      if th.side.Prod? { SameSlots(cfg, s, s', th); } else { SameTaken(cfg, s, s', th); }
    }
    StillOk(cfg, s, s', th);
  }

  lemma LoadHeadOk<T>(cfg: Config, s: State<T>, th: Thread<T>)
    requires 0 < cfg.size && Indices(cfg, s)
    requires th.side.Prod? ==> th.want == |th.table|
    requires th.side.Cons? ==> th.table == []
    ensures ThreadOk(cfg, s, StepLoadHead(s, th))
  {
  }

  /** The 32-bit subtraction of the code, on the counters the indices stand for. */
  lemma FoundWraps<T>(cfg: Config, s: State<T>, th: Thread<T>)
    requires Indices(cfg, s) && th.oldHead == Wrap(th.start)
    ensures Wrap(Gap(cfg, th.side) + Other(s, th.side).tail - th.oldHead)
            == Wrap(Gap(cfg, th.side) + OtherPos(s, th.side).tail - th.start)
  {
    var g, o := Gap(cfg, th.side), OtherPos(s, th.side).tail;
    WrapShift(o, g - Wrap(th.start));
    WrapShift(th.start, g + o);
  }

  lemma LoadTailOk<T>(cfg: Config, s: State<T>, th: Thread<T>)
    requires ValidConfig(cfg) && Indices(cfg, s) && th.pc.LoadTail? && ThreadOk(cfg, s, th)
    ensures ThreadOk(cfg, s, StepLoadTail(cfg, s, th))
  {
    hide Wrap, OwnedOk;
    FoundWraps(cfg, s, th);
    var th' := StepLoadTail(cfg, s, th);
    assert FoundOk(cfg, s, th');
    hide FoundOk, Indices;
    WrapShift(th.start, th'.n);
    if th'.n > 0 { assert LoadedOk(cfg, s, th'); }
  }

  /** When the compare-and-set succeeds in time, the head is the one loaded and the room found is real. */
  lemma CasIsCurrent<T>(cfg: Config, s: State<T>, th: Thread<T>)
    requires ValidConfig(cfg) && Indices(cfg, s) && th.pc.CasHead? && ThreadOk(cfg, s, th)
    requires Timely(s, th) && CasSucceeds(s, th)
    ensures th.start == MyPos(s, th.side).head
    ensures th.avail == Gap(cfg, th.side) + th.seen - th.start
    ensures th.avail <= cfg.capacity
    ensures th.start + th.n <= Gap(cfg, th.side) + OtherPos(s, th.side).tail
  {
    WrapInjective(MyPos(s, th.side).head, th.start);
    WrapSmall(Gap(cfg, th.side) + th.seen - th.start);
  }

  /** Positions and histories that only grow disturb no thread whose block stays ahead of its side's tail. */
  lemma Growth<T>(cfg: Config, s: State<T>, s': State<T>, th: Thread<T>)
    requires ValidConfig(cfg) && Indices(cfg, s) && Indices(cfg, s') && ThreadOk(cfg, s, th)
    requires s'.slots == s.slots && s.log <= s'.log && s.taken <= s'.taken
    requires s.p.tail <= s'.p.tail && s.c.tail <= s'.c.tail
    requires Owns(th) ==> MyPos(s', th.side).tail <= th.start
    ensures ThreadOk(cfg, s', th)
  {
    hide OwnedOk, DoneOk, LoadedOk;
    if Owns(th) {
      OwnedGrowth(cfg, s, s', th);
    } else if th.pc.Done? {
      DoneGrowth(cfg, s, s', th);
    } else if th.pc.LoadTail? || th.pc.CasHead? {
      LoadedGrowth(cfg, s, s', th);
    }
  }

  lemma OwnedGrowth<T>(cfg: Config, s: State<T>, s': State<T>, th: Thread<T>)
    requires ValidConfig(cfg) && Indices(cfg, s) && Indices(cfg, s') && OwnedOk(cfg, s, th)
    requires s'.slots == s.slots && s.log <= s'.log && s.taken <= s'.taken
    requires s.p.tail <= s'.p.tail && s.c.tail <= s'.c.tail && MyPos(s', th.side).tail <= th.start
    ensures OwnedOk(cfg, s', th)
  {
    hide ProdBlock, ConsBlock;
    assert BlockOk(cfg, s', th);
    hide BlockOk;
    if th.side.Prod? {
      ProdBlockGrowth(cfg, s, s', th);
    } else {
      ConsBlockGrowth(cfg, s, s', th);
    }
  }

  lemma ProdBlockGrowth<T>(cfg: Config, s: State<T>, s': State<T>, th: Thread<T>)
    requires 0 < cfg.size && Indices(cfg, s) && Indices(cfg, s') && BlockOk(cfg, s, th) && BlockOk(cfg, s', th)
    requires th.side.Prod? && ProdBlock(cfg, s, th) && s'.slots == s.slots && s.log <= s'.log
    ensures ProdBlock(cfg, s', th)
  {
    assert s'.log[th.start..th.start + th.n] == s.log[th.start..th.start + th.n];
  }

  lemma ConsBlockGrowth<T>(cfg: Config, s: State<T>, s': State<T>, th: Thread<T>)
    requires 0 < cfg.size && Indices(cfg, s) && Indices(cfg, s') && BlockOk(cfg, s, th) && BlockOk(cfg, s', th)
    requires th.side.Cons? && ConsBlock(cfg, s, th) && s.taken <= s'.taken && s.log <= s'.log
    ensures ConsBlock(cfg, s', th)
  {
    assert s'.log[th.start..th.start + th.k] == s.log[th.start..th.start + th.k];
  }

  lemma DoneGrowth<T>(cfg: Config, s: State<T>, s': State<T>, th: Thread<T>)
    requires Indices(cfg, s) && Indices(cfg, s') && DoneOk(cfg, s, th)
    requires s.log <= s'.log && s.p.tail <= s'.p.tail && s.c.tail <= s'.c.tail
    ensures DoneOk(cfg, s', th)
  {
    if th.n > 0 {
      assert s'.log[th.start..th.start + th.n] == s.log[th.start..th.start + th.n];
    }
  }

  lemma LoadedGrowth<T>(cfg: Config, s: State<T>, s': State<T>, th: Thread<T>)
    requires Indices(cfg, s) && Indices(cfg, s') && LoadedOk(cfg, s, th)
    requires s.log <= s'.log && s.taken <= s'.taken && s.p.tail <= s'.p.tail && s.c.tail <= s'.c.tail
    ensures LoadedOk(cfg, s', th)
  {
  }

  /** Where the counters and the log stay as they are, only a thread's own block has to be looked at. */
  lemma StillOk<T>(cfg: Config, s: State<T>, s': State<T>, th: Thread<T>)
    requires 0 < cfg.size && Indices(cfg, s) && Indices(cfg, s') && ThreadOk(cfg, s, th)
    requires s'.p == s.p && s'.c == s.c && s'.log == s.log && s'.prod == s.prod && s'.cons == s.cons
    requires Owns(th) ==> OwnedOk(cfg, s', th)
    ensures ThreadOk(cfg, s', th)
  {
    hide OwnedOk, Indices;
  }

  lemma ReserveMemory<T>(cfg: Config, s: State<T>, s': State<T>, th: Thread<T>)
    requires ValidConfig(cfg) && Indices(cfg, s) && Contents(cfg, s)
    requires th.pc.CasHead? && ThreadOk(cfg, s, th) && Timely(s, th) && CasSucceeds(s, th)
    requires s' == Reserve(s, th).(threads := s'.threads)
    ensures Indices(cfg, s') && Contents(cfg, s')
    ensures s'.slots == s.slots && s.log <= s'.log && s.taken <= s'.taken
    ensures s'.p.tail == s.p.tail && s'.c.tail == s.c.tail
  {
    hide Contents;
    CasIsCurrent(cfg, s, th);
    ReserveIndices(cfg, s, s', th);
    ReserveContents(cfg, s, s', th);
  }

  lemma ReserveIndices<T>(cfg: Config, s: State<T>, s': State<T>, th: Thread<T>)
    requires Indices(cfg, s) && LoadedOk(cfg, s, th) && th.pc.CasHead?
    requires th.start == MyPos(s, th.side).head && th.start + th.n <= Gap(cfg, th.side) + OtherPos(s, th.side).tail
    requires s' == Reserve(s, th).(threads := s'.threads)
    ensures Indices(cfg, s')
  {
  }

  lemma ReserveContents<T>(cfg: Config, s: State<T>, s': State<T>, th: Thread<T>)
    requires 0 < cfg.size && Indices(cfg, s) && Indices(cfg, s') && Contents(cfg, s)
    requires s' == Reserve(s, th).(threads := s'.threads)
    ensures Contents(cfg, s')
  {
    if th.side.Cons? {
      assert forall i :: s.c.head <= i < s'.c.head ==> s'.taken[i] == None;
    }
  }

  lemma BlockAheadOfTail<T>(cfg: Config, s: State<T>, th: Thread<T>)
    requires 0 < cfg.size && Indices(cfg, s) && ThreadOk(cfg, s, th)
    ensures Owns(th) ==> MyPos(s, th.side).tail <= th.start
  {
  }

  lemma ReserveStep<T>(cfg: Config, s: State<T>, t: nat)
    requires Inv(cfg, s) && t < |s.threads|
    requires s.threads[t].pc.CasHead? && Timely(s, s.threads[t]) && CasSucceeds(s, s.threads[t])
    ensures Inv(cfg, Advance(cfg, s, t))
  {
    hide ThreadOk, Contents, Indices, Apart, Timely, CasSucceeds;
    StepDefined(cfg, s, t);
    var th := s.threads[t];
    assert ThreadOk(cfg, s, th);
    CasIsCurrent(cfg, s, th);
    var s' := Advance(cfg, s, t);
    ReserveMemory(cfg, s, s', th);
    forall u | 0 <= u < |s'.threads| ensures ThreadOk(cfg, s', s'.threads[u]) {
      if u != t {
        BlockAheadOfTail(cfg, s, s.threads[u]);
        Growth(cfg, s, s', s.threads[u]);
      } else {
        NewBlock(cfg, s, s', t);
      }
    }
    ReserveApart(cfg, s, s', t);
  }

  lemma ReserveApart<T>(cfg: Config, s: State<T>, s': State<T>, t: nat)
    requires Inv(cfg, s) && t < |s.threads|
    requires |s'.threads| == |s.threads|
    requires forall u :: 0 <= u < |s'.threads| && u != t ==> s'.threads[u] == s.threads[u]
    requires s'.threads[t].start == MyPos(s, s'.threads[t].side).head
    ensures forall u, w :: 0 <= u < w < |s'.threads| ==> Apart(s'.threads[u], s'.threads[w])
  {
    forall u, w | 0 <= u < w < |s'.threads| ensures Apart(s'.threads[u], s'.threads[w]) {
      if w == t { AtHead(cfg, s, s.threads[u], s'.threads[t]); }
      else if u == t { AtHead(cfg, s, s.threads[w], s'.threads[t]); }
      else { assert Apart(s.threads[u], s.threads[w]); }
    }
  }

  /** A block reserved at the head lies after every block reserved before. */
  lemma AtHead<T>(cfg: Config, s: State<T>, old_: Thread<T>, new_: Thread<T>)
    requires 0 < cfg.size && Indices(cfg, s) && ThreadOk(cfg, s, old_)
    requires new_.start == MyPos(s, new_.side).head
    ensures Apart(old_, new_) && Apart(new_, old_)
  {
  }

  lemma NewBlock<T>(cfg: Config, s: State<T>, s': State<T>, t: nat)
    requires ValidConfig(cfg) && Indices(cfg, s) && Indices(cfg, s') && t < |s.threads|
    requires s.threads[t].pc.CasHead? && ThreadOk(cfg, s, s.threads[t])
    requires CasSucceeds(s, s.threads[t])
    requires s' == Put(Reserve(s, s.threads[t]), t, StepCas(cfg, s, s.threads[t]))
    requires s.threads[t].start == MyPos(s, s.threads[t].side).head
    requires s.threads[t].avail == Gap(cfg, s.threads[t].side) + s.threads[t].seen - s.threads[t].start <= cfg.capacity
    ensures ThreadOk(cfg, s', s'.threads[t])
  {
    var before, th := s.threads[t], s'.threads[t];
    assert LoadedOk(cfg, s, before);
    hide ProdBlock, ConsBlock;
    assert BlockOk(cfg, s', th);
    hide BlockOk, Indices, LoadedOk;
    NewBlockFilled(cfg, s, s', before, th);
  }

  lemma NewBlockFilled<T>(cfg: Config, s: State<T>, s': State<T>, before: Thread<T>, th: Thread<T>)
    requires 0 < cfg.size && Indices(cfg, s) && Indices(cfg, s') && LoadedOk(cfg, s, before) && before.pc.CasHead?
    requires BlockOk(cfg, s', th) && before.start == MyPos(s, before.side).head
    requires s' == Reserve(s, before).(threads := s'.threads) && th == before.(pc := Copy, k := 0)
    ensures if th.side.Prod? then ProdBlock(cfg, s', th) else ConsBlock(cfg, s', th)
  {
    if th.side.Prod? {
      assert s'.log[th.start..th.start + th.n] == th.table[..th.n];
    } else {
      assert forall i :: th.start <= i < th.start + th.n ==> s'.taken[i] == None;
    }
  }

  /** The invariant after a step of thread `t`, put together from its parts. */
  lemma Assemble<T>(cfg: Config, s: State<T>, s': State<T>, t: nat)
    requires Inv(cfg, s) && t < |s.threads| == |s'.threads|
    requires Indices(cfg, s') && Contents(cfg, s')
    requires forall u :: 0 <= u < |s'.threads| && u != t ==> s'.threads[u] == s.threads[u]
    requires forall u :: 0 <= u < |s'.threads| ==> ThreadOk(cfg, s', s'.threads[u])
    requires Owns(s'.threads[t]) ==> Owns(s.threads[t])
    requires s'.threads[t].side == s.threads[t].side
    requires s'.threads[t].start == s.threads[t].start && s'.threads[t].n == s.threads[t].n
    ensures Inv(cfg, s')
  {
    forall u, w | 0 <= u < w < |s'.threads| ensures Apart(s'.threads[u], s'.threads[w]) {
      assert Apart(s.threads[u], s.threads[w]);
    }
  }

  lemma ApartFrom<T>(cfg: Config, s: State<T>, t: nat, u: nat)
    requires Inv(cfg, s) && t < |s.threads| && u < |s.threads| && u != t
    ensures Apart(s.threads[t], s.threads[u])
  {
    if t < u { assert Apart(s.threads[t], s.threads[u]); } else { assert Apart(s.threads[u], s.threads[t]); }
  }

  // ----- copying --------------------------------------------------------------------------

  /** Writing position `pos` leaves every other position of the live window untouched. */
  lemma WriteElsewhere<T>(cfg: Config, s: State<T>, pos: nat, i: nat, v: T)
    requires 0 < cfg.size && Indices(cfg, s) && cfg.capacity < cfg.size
    requires s.c.tail <= pos < s.p.head && s.c.tail <= i < s.p.head && i != pos
    ensures s.slots[pos % cfg.size := v][i % cfg.size] == s.slots[i % cfg.size]
  {
    SlotsDistinct(cfg.size, pos, i);
  }

  lemma CopyInMemory<T>(cfg: Config, s: State<T>, s': State<T>, th: Thread<T>)
    requires ValidConfig(cfg) && Indices(cfg, s) && Contents(cfg, s) && ThreadOk(cfg, s, th)
    requires th.pc.Copy? && th.side.Prod? && th.k < th.n
    requires s' == s.(slots := s.slots[(th.start + th.k) % cfg.size := th.table[th.k]], threads := s'.threads)
    ensures Indices(cfg, s') && Contents(cfg, s')
  {
    forall i | s.c.tail <= i < s.p.tail ensures s'.slots[i % cfg.size] == s.log[i] {
      WriteElsewhere(cfg, s, th.start + th.k, i, th.table[th.k]);
    }
  }

  lemma CopyIndex<T>(cfg: Config, s: State<T>, th: Thread<T>)
    requires ValidConfig(cfg) && Indices(cfg, s) && ThreadOk(cfg, s, th)
    requires th.pc.Copy? && th.k < th.n
    ensures CopyDefined(cfg, th) && th.n <= cfg.size
    ensures SlotAt(cfg.size, th.oldHead, th.n, th.k) == (th.start + th.k) % cfg.size
  {
    SlotAtPosition(cfg.size, th.start, th.n, th.k);
  }

  lemma CopyInStep<T>(cfg: Config, s: State<T>, t: nat)
    requires Inv(cfg, s) && t < |s.threads|
    requires s.threads[t].pc.Copy? && s.threads[t].side.Prod? && s.threads[t].k < s.threads[t].n
    ensures CopyDefined(cfg, s.threads[t])
    ensures Inv(cfg, Advance(cfg, s, t))
  {
    hide ThreadOk, Contents, Indices, Apart;
    var th := s.threads[t];
    assert ThreadOk(cfg, s, th);
    StepDefined(cfg, s, t);
    CopyIndex(cfg, s, th);
    var s' := Advance(cfg, s, t);
    CopyInMemory(cfg, s, s', th);
    forall u | 0 <= u < |s'.threads| ensures ThreadOk(cfg, s', s'.threads[u]) {
      if u == t {
        OwnWrite(cfg, s, s', th);
      } else {
        ApartFrom(cfg, s, t, u);
        OtherWrite(cfg, s, s', th, s.threads[u]);
      }
    }
    Assemble(cfg, s, s', t);
  }

  lemma OwnWrite<T>(cfg: Config, s: State<T>, s': State<T>, th: Thread<T>)
    requires ValidConfig(cfg) && Indices(cfg, s) && ThreadOk(cfg, s, th) && Indices(cfg, s')
    requires th.pc.Copy? && th.side.Prod? && th.k < th.n
    requires s' == s.(slots := s.slots[(th.start + th.k) % cfg.size := th.table[th.k]], threads := s'.threads)
    ensures ThreadOk(cfg, s', th.(k := th.k + 1))
  {
    hide ProdBlock, Indices, Wrap, LoadedOk, DoneOk;
    assert BlockOk(cfg, s', th.(k := th.k + 1));
    WrittenSoFar(cfg, s, s', th);
  }

  lemma WrittenSoFar<T>(cfg: Config, s: State<T>, s': State<T>, th: Thread<T>)
    requires ValidConfig(cfg) && Indices(cfg, s) && Indices(cfg, s') && BlockOk(cfg, s, th)
    requires th.side.Prod? && ProdBlock(cfg, s, th) && th.k < th.n && BlockOk(cfg, s', th.(k := th.k + 1))
    requires s' == s.(slots := s.slots[(th.start + th.k) % cfg.size := th.table[th.k]], threads := s'.threads)
    ensures ProdBlock(cfg, s', th.(k := th.k + 1))
  {
    var pos := th.start + th.k;
    assert s.log[pos] == th.table[..th.n][th.k];
    forall i | th.start <= i < pos + 1 ensures s'.slots[i % cfg.size] == s'.log[i] {
      if i < pos { WriteElsewhere(cfg, s, pos, i, th.table[th.k]); }
    }
  }

  lemma OtherWrite<T>(cfg: Config, s: State<T>, s': State<T>, w: Thread<T>, th: Thread<T>)
    requires ValidConfig(cfg) && Indices(cfg, s) && ThreadOk(cfg, s, th) && ThreadOk(cfg, s, w) && Indices(cfg, s')
    requires w.pc.Copy? && w.side.Prod? && w.k < w.n
    requires Apart(w, th)
    requires s' == s.(slots := s.slots[(w.start + w.k) % cfg.size := w.table[w.k]], threads := s'.threads)
    ensures ThreadOk(cfg, s', th)
  {
    hide LoadedOk, DoneOk, BlockOk, ProdBlock, ConsBlock;
    if Owns(th) {
      SameBlock(cfg, s, s', th);
      if th.side.Prod? {
        WrittenElsewhere(cfg, s, s', w, th);
      } else {
        SameTaken(cfg, s, s', th);
      }
    }
    StillOk(cfg, s, s', th);
  }

  lemma SameBlock<T>(cfg: Config, s: State<T>, s': State<T>, th: Thread<T>)
    requires BlockOk(cfg, s, th) && s'.p == s.p && s'.c == s.c
    ensures BlockOk(cfg, s', th)
  {
  }

  lemma SameTaken<T>(cfg: Config, s: State<T>, s': State<T>, th: Thread<T>)
    requires 0 < cfg.size && Indices(cfg, s) && Indices(cfg, s') && BlockOk(cfg, s, th) && BlockOk(cfg, s', th)
    requires th.side.Cons? && ConsBlock(cfg, s, th) && s'.taken == s.taken && s'.log == s.log
    ensures ConsBlock(cfg, s', th)
  {
  }

  lemma SameSlots<T>(cfg: Config, s: State<T>, s': State<T>, th: Thread<T>)
    requires 0 < cfg.size && Indices(cfg, s) && Indices(cfg, s') && BlockOk(cfg, s, th) && BlockOk(cfg, s', th)
    requires th.side.Prod? && ProdBlock(cfg, s, th) && s'.slots == s.slots && s'.log == s.log
    ensures ProdBlock(cfg, s', th)
  {
  }

  lemma WrittenElsewhere<T>(cfg: Config, s: State<T>, s': State<T>, w: Thread<T>, th: Thread<T>)
    requires ValidConfig(cfg) && Indices(cfg, s) && Indices(cfg, s') && BlockOk(cfg, s, w) && BlockOk(cfg, s, th)
    requires w.side.Prod? && w.k < w.n && ProdBlock(cfg, s, w)
    requires th.side.Prod? && ProdBlock(cfg, s, th) && BlockOk(cfg, s', th)
    requires w.start + w.n <= th.start || th.start + th.n <= w.start
    requires s' == s.(slots := s.slots[(w.start + w.k) % cfg.size := w.table[w.k]], threads := s'.threads)
    ensures ProdBlock(cfg, s', th)
  {
    forall i | th.start <= i < th.start + th.k ensures s'.slots[i % cfg.size] == s'.log[i] {
      WriteElsewhere(cfg, s, w.start + w.k, i, w.table[w.k]);
    }
  }

  lemma TakeMemory<T>(cfg: Config, s: State<T>, s': State<T>, th: Thread<T>)
    requires ValidConfig(cfg) && Indices(cfg, s) && Contents(cfg, s) && ThreadOk(cfg, s, th)
    requires th.pc.Copy? && th.side.Cons? && th.k < th.n
    requires s' == s.(taken := s.taken[th.start + th.k := Some(s.log[th.start + th.k])], threads := s'.threads)
    ensures Indices(cfg, s') && Contents(cfg, s')
  {
  }

  /** The value a consumer is about to read is the logged one, and nobody took it before. */
  lemma ReadIsFresh<T>(cfg: Config, s: State<T>, th: Thread<T>)
    requires ValidConfig(cfg) && Indices(cfg, s) && Contents(cfg, s) && ThreadOk(cfg, s, th)
    requires th.pc.Copy? && th.side.Cons? && th.k < th.n
    ensures CopyDefined(cfg, th) && th.start + th.k < s.c.head
    ensures s.slots[SlotAt(cfg.size, th.oldHead, th.n, th.k)] == s.log[th.start + th.k]
    ensures s.taken[th.start + th.k].None?
  {
    CopyIndex(cfg, s, th);
    assert ConsBlock(cfg, s, th);
  }

  lemma TakeStep<T>(cfg: Config, s: State<T>, t: nat)
    requires Inv(cfg, s) && t < |s.threads|
    requires s.threads[t].pc.Copy? && s.threads[t].side.Cons? && s.threads[t].k < s.threads[t].n
    ensures CopyDefined(cfg, s.threads[t])
    ensures Inv(cfg, Advance(cfg, s, t))
  {
    hide ThreadOk, Contents, Apart;
    var th := s.threads[t];
    assert ThreadOk(cfg, s, th);
    ReadIsFresh(cfg, s, th);
    var s' := Advance(cfg, s, t);
    TakeMemory(cfg, s, s', th);
    forall u | 0 <= u < |s'.threads| ensures ThreadOk(cfg, s', s'.threads[u]) {
      if u == t {
        OwnTake(cfg, s, s', th);
      } else {
        ApartFrom(cfg, s, t, u);
        OtherTake(cfg, s, s', th, s.threads[u]);
      }
    }
    Assemble(cfg, s, s', t);
  }

  lemma TakeInside<T>(cfg: Config, s: State<T>, th: Thread<T>)
    requires Indices(cfg, s) && BlockOk(cfg, s, th) && th.side.Cons? && th.k < th.n
    ensures th.start + th.k < |s.log| && th.start + th.k < |s.taken|
  {
  }

  lemma OwnTake<T>(cfg: Config, s: State<T>, s': State<T>, th: Thread<T>)
    requires ValidConfig(cfg) && Indices(cfg, s) && ThreadOk(cfg, s, th) && Indices(cfg, s')
    requires th.pc.Copy? && th.side.Cons? && th.k < th.n
    requires s' == s.(taken := s.taken[th.start + th.k := Some(s.log[th.start + th.k])], threads := s'.threads)
    ensures ThreadOk(cfg, s', th.(k := th.k + 1, table := th.table + [s.log[th.start + th.k]]))
  {
    hide ConsBlock, Indices, Wrap, LoadedOk, DoneOk;
    TakeInside(cfg, s, th);
    assert BlockOk(cfg, s', th.(k := th.k + 1, table := th.table + [s.log[th.start + th.k]]));
    TakenSoFar(cfg, s, s', th);
  }

  lemma TakenSoFar<T>(cfg: Config, s: State<T>, s': State<T>, th: Thread<T>)
    requires 0 < cfg.size && Indices(cfg, s) && Indices(cfg, s') && BlockOk(cfg, s, th)
    requires th.side.Cons? && ConsBlock(cfg, s, th) && th.k < th.n
    requires s' == s.(taken := s.taken[th.start + th.k := Some(s.log[th.start + th.k])], threads := s'.threads)
    requires BlockOk(cfg, s', th.(k := th.k + 1, table := th.table + [s.log[th.start + th.k]]))
    ensures ConsBlock(cfg, s', th.(k := th.k + 1, table := th.table + [s.log[th.start + th.k]]))
  {
    assert s.log[th.start..th.start + th.k + 1] == s.log[th.start..th.start + th.k] + [s.log[th.start + th.k]];
  }

  lemma OtherTake<T>(cfg: Config, s: State<T>, s': State<T>, w: Thread<T>, th: Thread<T>)
    requires ValidConfig(cfg) && Indices(cfg, s) && ThreadOk(cfg, s, th) && ThreadOk(cfg, s, w) && Indices(cfg, s')
    requires w.pc.Copy? && w.side.Cons? && w.k < w.n
    requires Apart(w, th)
    requires s' == s.(taken := s.taken[w.start + w.k := Some(s.log[w.start + w.k])], threads := s'.threads)
    ensures ThreadOk(cfg, s', th)
  {
    hide LoadedOk, DoneOk, BlockOk, ProdBlock, ConsBlock;
    if Owns(th) {
      SameBlock(cfg, s, s', th);
      if th.side.Prod? {
        SameSlots(cfg, s, s', th);
      } else {
        TakenElsewhere(cfg, s, s', w, th);
      }
    }
    StillOk(cfg, s, s', th);
  }

  lemma TakenElsewhere<T>(cfg: Config, s: State<T>, s': State<T>, w: Thread<T>, th: Thread<T>)
    requires 0 < cfg.size && Indices(cfg, s) && Indices(cfg, s') && BlockOk(cfg, s, w) && BlockOk(cfg, s, th)
    requires w.side.Cons? && w.k < w.n
    requires th.side.Cons? && ConsBlock(cfg, s, th) && BlockOk(cfg, s', th)
    requires w.start + w.n <= th.start || th.start + th.n <= w.start
    requires s' == s.(taken := s.taken[w.start + w.k := Some(s.log[w.start + w.k])], threads := s'.threads)
    ensures ConsBlock(cfg, s', th)
  {
  }

  // ----- publishing -----------------------------------------------------------------------

  lemma PublishMemory<T>(cfg: Config, s: State<T>, s': State<T>, th: Thread<T>)
    requires ValidConfig(cfg) && Indices(cfg, s) && Contents(cfg, s)
    requires th.pc.Publish? && ThreadOk(cfg, s, th)
    requires s' == SetTail(s, th).(threads := s'.threads)
    ensures Indices(cfg, s') && Contents(cfg, s')
  {
    if th.side.Prod? { assert ProdBlock(cfg, s, th); } else { assert ConsBlock(cfg, s, th); }
  }

  lemma PublishThread<T>(cfg: Config, s: State<T>, s': State<T>, w: Thread<T>, th: Thread<T>)
    requires ValidConfig(cfg) && Indices(cfg, s) && Indices(cfg, s')
    requires w.pc.Publish? && ThreadOk(cfg, s, w) && ThreadOk(cfg, s, th) && Apart(w, th)
    requires s' == SetTail(s, w).(threads := s'.threads)
    ensures ThreadOk(cfg, s', th)
  {
    if Owns(th) && th.side == w.side { BehindTail(cfg, s, w, th); }
    Growth(cfg, s, s', th);
  }

  lemma PublishStep<T>(cfg: Config, s: State<T>, t: nat)
    requires Inv(cfg, s) && t < |s.threads| && s.threads[t].pc.Publish?
    ensures Inv(cfg, Advance(cfg, s, t))
  {
    hide ThreadOk, Contents, Indices, Apart;
    StepDefined(cfg, s, t);
    var th := s.threads[t];
    assert ThreadOk(cfg, s, th);
    var s' := Advance(cfg, s, t);
    PublishMemory(cfg, s, s', th);
    forall u | 0 <= u < |s'.threads| ensures ThreadOk(cfg, s', s'.threads[u]) {
      assert ThreadOk(cfg, s, s.threads[u]);
      if u == t {
        Finished(cfg, s, s', th);
      } else {
        ApartFrom(cfg, s, t, u);
        PublishThread(cfg, s, s', th, s.threads[u]);
      }
    }
    Assemble(cfg, s, s', t);
  }

  lemma Finished<T>(cfg: Config, s: State<T>, s': State<T>, th: Thread<T>)
    requires ValidConfig(cfg) && Indices(cfg, s) && ThreadOk(cfg, s, th) && Indices(cfg, s')
    requires th.pc.Publish? && s' == SetTail(s, th).(threads := s'.threads)
    ensures ThreadOk(cfg, s', th.(pc := Done))
  {
    if th.side.Prod? {
      assert s.log[th.start..th.start + th.n] == th.table[..th.n];
    } else {
      assert s.log[th.start..th.start + th.n] == th.table;
    }
  }

  /** Blocks of one side that do not overlap: the one at the tail is the lowest, so no other starts below its end. */
  lemma BehindTail<T>(cfg: Config, s: State<T>, w: Thread<T>, th: Thread<T>)
    requires ValidConfig(cfg) && Indices(cfg, s) && ThreadOk(cfg, s, w) && ThreadOk(cfg, s, th)
    requires w.pc.Publish? && Apart(w, th) && Owns(th) && w.side == th.side
    ensures w.start + w.n <= th.start
  {
  }

  // ----- all steps ------------------------------------------------------------------------

  lemma AwaitOk<T>(cfg: Config, s: State<T>, th: Thread<T>)
    requires ValidConfig(cfg) && Indices(cfg, s) && ThreadOk(cfg, s, th) && th.pc.Await?
    requires Mine(s, th.side).tail == th.oldHead
    ensures ThreadOk(cfg, s, th.(pc := Publish))
  {
    hide Wrap, LoadedOk, DoneOk;
    WrapInjective(MyPos(s, th.side).tail, th.start);
    hide Indices;
    var th' := th.(pc := Publish);
    if th.side.Prod? { assert ProdBlock(cfg, s, th'); } else { assert ConsBlock(cfg, s, th'); }
  }

  lemma StepKeepsInv<T>(cfg: Config, s: State<T>, a: Action<T>)
    requires Inv(cfg, s) && Enabled(s, a) && Timely(s, s.threads[a.t])
    ensures CopyDefined(cfg, s.threads[a.t])
    ensures Inv(cfg, Apply(cfg, s, a))
  {
    StepDefined(cfg, s, a.t);
    match s.threads[a.t].pc
    case Copy => CopyStep(cfg, s, a.t);
    case CasHead => CasStep(cfg, s, a.t);
    case Publish => PublishStep(cfg, s, a.t);
    case _ => LocalStep(cfg, s, a);
  }

  lemma CasStep<T>(cfg: Config, s: State<T>, t: nat)
    requires Inv(cfg, s) && t < |s.threads| && s.threads[t].pc.CasHead? && Timely(s, s.threads[t])
    ensures Inv(cfg, Advance(cfg, s, t))
  {
    var th := s.threads[t];
    assert ThreadOk(cfg, s, th);
    if CasSucceeds(s, th) {
      ReserveStep(cfg, s, t);
    } else {
      LoadHeadOk(cfg, s, th);
      QuietStep(cfg, s, t, StepCas(cfg, s, th));
    }
  }

  lemma CopyCount<T>(cfg: Config, s: State<T>, th: Thread<T>)
    requires 0 < cfg.size && Indices(cfg, s) && ThreadOk(cfg, s, th) && th.pc.Copy?
    ensures th.k <= th.n
  {
  }

  lemma CopiedOk<T>(cfg: Config, s: State<T>, th: Thread<T>)
    requires 0 < cfg.size && Indices(cfg, s) && ThreadOk(cfg, s, th) && th.pc.Copy? && th.k == th.n
    ensures ThreadOk(cfg, s, th.(pc := Await))
  {
    hide Indices, Wrap;
    var th' := th.(pc := Await);
    if th.side.Prod? { assert ProdBlock(cfg, s, th'); } else { assert ConsBlock(cfg, s, th'); }
  }

  lemma CopyStep<T>(cfg: Config, s: State<T>, t: nat)
    requires Inv(cfg, s) && t < |s.threads| && s.threads[t].pc.Copy?
    ensures CopyDefined(cfg, s.threads[t])
    ensures Inv(cfg, Advance(cfg, s, t))
  {
    hide OwnedOk, Contents, Apart, Indices, SlotAt;
    var th := s.threads[t];
    StepDefined(cfg, s, t);
    assert ThreadOk(cfg, s, th);
    CopyCount(cfg, s, th);
    if th.k == th.n {
      CopiedOk(cfg, s, th);
      QuietStep(cfg, s, t, th.(pc := Await));
    } else if th.side.Prod? {
      CopyInStep(cfg, s, t);
    } else {
      TakeStep(cfg, s, t);
    }
  }

  lemma LocalStep<T>(cfg: Config, s: State<T>, a: Action<T>)
    requires Inv(cfg, s) && Enabled(s, a)
    requires !s.threads[a.t].pc.CasHead? && !s.threads[a.t].pc.Copy? && !s.threads[a.t].pc.Publish?
    ensures Inv(cfg, Apply(cfg, s, a))
  {
    var th := s.threads[a.t];
    assert ThreadOk(cfg, s, th);
    if Resting(th) {
      QuietStep(cfg, s, a.t, Start(a.call));
    } else if th.pc.LoadHead? {
      LoadHeadOk(cfg, s, th);
      QuietStep(cfg, s, a.t, StepLoadHead(s, th));
    } else if th.pc.LoadTail? {
      LoadTailOk(cfg, s, th);
      QuietStep(cfg, s, a.t, StepLoadTail(cfg, s, th));
    } else if Mine(s, th.side).tail == th.oldHead {
      AwaitOk(cfg, s, th);
      QuietStep(cfg, s, a.t, th.(pc := Publish));
    }
  }
}
