/**
 The multi-producer, multi-consumer ring as a step system.  A thread runs
 `__rte_ring_do_enqueue` or `__rte_ring_do_dequeue` one memory access at a time;
 any number of threads interleave.  The machine decides on 32-bit indices only.
 Beside them it records history: unbounded positions, the log of everything
 producers reserved room for, and what consumers have taken from each position.
 */
module RingMachine {
  import opened Options
  import opened RingArith

  datatype Behavior = Fixed | Variable

  datatype Side = Prod | Cons

  /** `c11` selects the variant in which a failed compare-exchange reloads the head by itself. */
  datatype Config = Config(size: nat, capacity: nat, c11: bool)

  datatype HeadTail = HeadTail(head: U32, tail: U32)

  /** Unbounded counters for one side; history only. */
  datatype Position = Position(head: nat, tail: nat)

  datatype Pc = Idle | LoadHead | LoadTail | CasHead | Copy | Await | Publish | Done

  /** Local variables of one call; `start` and `seen` are history. */
  datatype Thread<T> = Thread(
    pc: Pc, side: Side, want: nat, behavior: Behavior, table: seq<T>,
    oldHead: U32, newHead: U32, avail: U32, n: nat, k: nat,
    start: nat, seen: nat)

  datatype State<T> = State(
    prod: HeadTail, cons: HeadTail, slots: seq<T>, threads: seq<Thread<T>>,
    p: Position, c: Position, log: seq<T>, taken: seq<Option<T>>)

  datatype Call<T> = Enqueue(objs: seq<T>, behavior: Behavior) | Dequeue(count: nat, behavior: Behavior)

  datatype Action<T> = Begin(t: nat, call: Call<T>) | Run(t: nat)

  function Mine<T>(s: State<T>, side: Side): HeadTail { if side.Prod? then s.prod else s.cons }
  function Other<T>(s: State<T>, side: Side): HeadTail { if side.Prod? then s.cons else s.prod }
  function MyPos<T>(s: State<T>, side: Side): Position { if side.Prod? then s.p else s.c }
  function OtherPos<T>(s: State<T>, side: Side): Position { if side.Prod? then s.c else s.p }

  /** How far a side's head may run ahead of the other side's tail. */
  function Gap(cfg: Config, side: Side): nat { if side.Prod? then cfg.capacity else 0 }

  function Fetched(behavior: Behavior, want: nat, avail: U32): (n: nat)
    ensures n <= avail && n <= want
    ensures behavior.Fixed? ==> n == 0 || n == want
    ensures behavior.Variable? ==> n == want || n == avail
  {
    if want > avail then (if behavior.Fixed? then 0 else avail) else want
  }

  predicate ValidConfig(cfg: Config) {
    0 < cfg.capacity < cfg.size <= MODULUS && MODULUS % cfg.size == 0
  }

  predicate Shaped<T>(cfg: Config, s: State<T>) {
    |s.slots| == cfg.size
  }

  predicate Resting<T>(th: Thread<T>) { th.pc.Idle? || th.pc.Done? }

  predicate Enabled<T>(s: State<T>, a: Action<T>) {
    a.t < |s.threads| && (a.Begin? <==> Resting(s.threads[a.t]))
  }

  function Start<T>(call: Call<T>): Thread<T> {
    match call
    case Enqueue(objs, b) => Thread(LoadHead, Prod, |objs|, b, objs, 0, 0, 0, 0, 0, 0, 0)
    case Dequeue(count, b) => Thread(LoadHead, Cons, count, b, [], 0, 0, 0, 0, 0, 0, 0)
  }

  // ----- the steps ------------------------------------------------------------------------

  function StepLoadHead<T>(s: State<T>, th: Thread<T>): Thread<T> {
    th.(pc := LoadTail, oldHead := Mine(s, th.side).head, start := MyPos(s, th.side).head)
  }

  function StepLoadTail<T>(cfg: Config, s: State<T>, th: Thread<T>): Thread<T> {
    var avail := Wrap(Gap(cfg, th.side) + Other(s, th.side).tail - th.oldHead);
    var n := Fetched(th.behavior, th.want, avail);
    th.(pc := if n == 0 then Done else CasHead, avail := avail, n := n,
        newHead := Wrap(th.oldHead + n), seen := OtherPos(s, th.side).tail)
  }

  predicate CasSucceeds<T>(s: State<T>, th: Thread<T>) {
    Mine(s, th.side).head == th.oldHead
  }

  function StepCas<T>(cfg: Config, s: State<T>, th: Thread<T>): Thread<T> {
    if CasSucceeds(s, th) then th.(pc := Copy, k := 0)
    else if cfg.c11 then StepLoadHead(s, th)
    else th.(pc := LoadHead)
  }

  /** The shared effect of a successful compare-and-set: the head moves and, as history, the block is reserved. */
  function Reserve<T>(s: State<T>, th: Thread<T>): State<T> {
    if th.side.Prod? then
      s.(prod := s.prod.(head := th.newHead), p := s.p.(head := s.p.head + th.n),
         log := s.log + (if th.n <= |th.table| then th.table[..th.n] else th.table))
    else
      s.(cons := s.cons.(head := th.newHead), c := s.c.(head := s.c.head + th.n),
         taken := s.taken + seq(th.n, i => None))
  }

  function CopyIn<T>(cfg: Config, s: State<T>, th: Thread<T>): State<T>
    requires Shaped(cfg, s) && 0 < cfg.size && th.k < th.n <= cfg.size && th.k < |th.table|
  {
    s.(slots := s.slots[SlotAt(cfg.size, th.oldHead, th.n, th.k) := th.table[th.k]])
  }

  function Note<T>(taken: seq<Option<T>>, i: nat, v: T): (r: seq<Option<T>>)
    ensures |r| == |taken|
  {
    if i < |taken| then taken[i := Some(v)] else taken
  }

  function SetTail<T>(s: State<T>, th: Thread<T>): State<T> {
    if th.side.Prod? then
      s.(prod := s.prod.(tail := th.newHead), p := s.p.(tail := th.start + th.n))
    else
      s.(cons := s.cons.(tail := th.newHead), c := s.c.(tail := th.start + th.n))
  }

  function Put<T>(s: State<T>, t: nat, th: Thread<T>): State<T>
    requires t < |s.threads|
  {
    s.(threads := s.threads[t := th])
  }

  /** What a thread in its copy loop needs for the next access to be defined. */
  predicate CopyDefined<T>(cfg: Config, th: Thread<T>) {
    th.pc.Copy? && th.k < th.n ==> th.n <= cfg.size && (th.side.Prod? ==> th.k < |th.table|)
  }

  function Advance<T>(cfg: Config, s: State<T>, t: nat): State<T>
    requires Shaped(cfg, s) && 0 < cfg.size && t < |s.threads| && CopyDefined(cfg, s.threads[t])
  {
    var th := s.threads[t];
    match th.pc
    case LoadHead => Put(s, t, StepLoadHead(s, th))
    case LoadTail => Put(s, t, StepLoadTail(cfg, s, th))
    case CasHead => Put(if CasSucceeds(s, th) then Reserve(s, th) else s, t, StepCas(cfg, s, th))
    case Copy =>
      if th.k == th.n then Put(s, t, th.(pc := Await))
      else if th.k > th.n then s
      else if th.side.Prod? then Put(CopyIn(cfg, s, th), t, th.(k := th.k + 1))
      else
        var v := s.slots[SlotAt(cfg.size, th.oldHead, th.n, th.k)];
        Put(s.(taken := Note(s.taken, th.start + th.k, v)), t, th.(k := th.k + 1, table := th.table + [v]))
    case Await => if Mine(s, th.side).tail == th.oldHead then Put(s, t, th.(pc := Publish)) else s
    case Publish => Put(SetTail(s, th), t, th.(pc := Done))
    case _ => s
  }

  function Apply<T>(cfg: Config, s: State<T>, a: Action<T>): State<T>
    requires Shaped(cfg, s) && 0 < cfg.size && Enabled(s, a) && CopyDefined(cfg, s.threads[a.t])
  {
    match a
    case Begin(t, call) => Put(s, t, Start(call))
    case Run(t) => Advance(cfg, s, t)
  }

  // ----- the invariant --------------------------------------------------------------------

  predicate Owns<T>(th: Thread<T>) { th.pc.Copy? || th.pc.Await? || th.pc.Publish? }

  predicate Indices<T>(cfg: Config, s: State<T>) {
    && Shaped(cfg, s)
    && s.prod == HeadTail(Wrap(s.p.head), Wrap(s.p.tail))
    && s.cons == HeadTail(Wrap(s.c.head), Wrap(s.c.tail))
    && s.c.tail <= s.c.head <= s.p.tail <= s.p.head <= s.c.tail + cfg.capacity
    && |s.log| == s.p.head && |s.taken| == s.c.head
  }

  /** Published and unreleased positions hold what was logged; whatever was taken is what was logged. */
  ghost predicate Contents<T>(cfg: Config, s: State<T>)
    requires Indices(cfg, s) && 0 < cfg.size
  {
    && (forall i :: s.c.tail <= i < s.p.tail ==> s.slots[i % cfg.size] == s.log[i])
    && (forall i :: 0 <= i < s.c.head ==> s.taken[i].Some? ==> s.taken[i].value == s.log[i])
    && (forall i :: 0 <= i < s.c.tail ==> s.taken[i].Some?)
  }

  /** A loaded head and, after the tail is loaded too, the amount found available. */
  predicate LoadedOk<T>(cfg: Config, s: State<T>, th: Thread<T>) {
    && th.oldHead == Wrap(th.start)
    && th.start <= MyPos(s, th.side).head
    && (th.side.Prod? ==> th.want == |th.table|)
    && (th.side.Cons? ==> th.table == [])
    && (th.pc.CasHead? ==>
          && FoundOk(cfg, s, th)
          && 0 < th.n <= th.avail && th.n <= th.want
          && th.newHead == Wrap(th.start + th.n))
  }

  /**
   What was found available: the distance, in 32 bits, from the loaded head to a tail
   that has really been reached.
   */
  predicate FoundOk<T>(cfg: Config, s: State<T>, th: Thread<T>) {
    && th.seen <= OtherPos(s, th.side).tail
    && th.start <= Gap(cfg, th.side) + th.seen
    && th.avail == Wrap(Gap(cfg, th.side) + th.seen - th.start)
  }

  /** A reserved block: inside the unpublished (unreleased) range, available room never overstated. */
  predicate BlockOk<T>(cfg: Config, s: State<T>, th: Thread<T>) {
    && th.oldHead == Wrap(th.start) && th.newHead == Wrap(th.start + th.n)
    && 0 < th.n <= th.avail <= cfg.capacity
    && th.avail == Gap(cfg, th.side) + th.seen - th.start
    && th.seen <= OtherPos(s, th.side).tail
    && th.k <= th.n
    && MyPos(s, th.side).tail <= th.start
    && th.start + th.n <= MyPos(s, th.side).head
    && (th.pc.Await? || th.pc.Publish? ==> th.k == th.n)
    && (th.pc.Publish? ==> th.start == MyPos(s, th.side).tail)
  }

  ghost predicate ProdBlock<T>(cfg: Config, s: State<T>, th: Thread<T>)
    requires 0 < cfg.size && Indices(cfg, s) && BlockOk(cfg, s, th) && th.side.Prod?
  {
    && th.n <= |th.table|
    && s.log[th.start..th.start + th.n] == th.table[..th.n]
    && (forall i :: th.start <= i < th.start + th.k ==> s.slots[i % cfg.size] == s.log[i])
  }

  ghost predicate ConsBlock<T>(cfg: Config, s: State<T>, th: Thread<T>)
    requires 0 < cfg.size && Indices(cfg, s) && BlockOk(cfg, s, th) && th.side.Cons?
  {
    && th.table == s.log[th.start..th.start + th.k]
    && (forall i :: th.start <= i < th.start + th.k ==> s.taken[i].Some?)
    && (forall i :: th.start + th.k <= i < th.start + th.n ==> s.taken[i].None?)
  }

  ghost predicate OwnedOk<T>(cfg: Config, s: State<T>, th: Thread<T>)
    requires 0 < cfg.size && Indices(cfg, s)
  {
    BlockOk(cfg, s, th) && (if th.side.Prod? then ProdBlock(cfg, s, th) else ConsBlock(cfg, s, th))
  }

  /** The `free_space` or `available` that a finished call hands back. */
  function Reported<T>(th: Thread<T>): int { th.avail - th.n }

  /** A finished call that moved something moved one contiguous block of the log. */
  ghost predicate DoneOk<T>(cfg: Config, s: State<T>, th: Thread<T>) {
    if th.n == 0 then FoundOk(cfg, s, th)
    else
      && th.n <= th.avail <= cfg.capacity
      && th.avail == Gap(cfg, th.side) + th.seen - th.start
      && th.seen <= OtherPos(s, th.side).tail
      && th.start + th.n <= MyPos(s, th.side).tail
      && MyPos(s, th.side).tail <= |s.log|
      && (th.side.Prod? ==> th.n <= |th.table| && s.log[th.start..th.start + th.n] == th.table[..th.n])
      && (th.side.Cons? ==> s.log[th.start..th.start + th.n] == th.table)
  }

  ghost predicate ThreadOk<T>(cfg: Config, s: State<T>, th: Thread<T>)
    requires 0 < cfg.size && Indices(cfg, s)
  {
    match th.pc
    case Idle => true
    case LoadHead => (th.side.Prod? ==> th.want == |th.table|) && (th.side.Cons? ==> th.table == [])
    case LoadTail => LoadedOk(cfg, s, th)
    case CasHead => LoadedOk(cfg, s, th)
    case Done => DoneOk(cfg, s, th)
    case _ => OwnedOk(cfg, s, th)
  }

  predicate Apart<T>(a: Thread<T>, b: Thread<T>) {
    Owns(a) && Owns(b) && a.side == b.side ==> a.start + a.n <= b.start || b.start + b.n <= a.start
  }

  ghost predicate Inv<T>(cfg: Config, s: State<T>) {
    && ValidConfig(cfg)
    && Indices(cfg, s)
    && Contents(cfg, s)
    && (forall t :: 0 <= t < |s.threads| ==> ThreadOk(cfg, s, s.threads[t]))
    && (forall t, u :: 0 <= t < u < |s.threads| ==> Apart(s.threads[t], s.threads[u]))
  }

  /** Fewer than 2^32 positions were reserved since this thread loaded the head it still holds. */
  predicate Timely<T>(s: State<T>, th: Thread<T>) {
    th.pc.CasHead? ==> MyPos(s, th.side).head - th.start < MODULUS
  }

  lemma StepDefined<T>(cfg: Config, s: State<T>, t: nat)
    requires Inv(cfg, s) && t < |s.threads|
    ensures Shaped(cfg, s) && CopyDefined(cfg, s.threads[t])
  {
    assert ThreadOk(cfg, s, s.threads[t]);
  }
}
