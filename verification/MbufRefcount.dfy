/**
 Reference counting of a packet buffer as steps of any number of threads.  The
 reads that pick the fast paths and the updates are separate steps; one atomic
 operation is one step.
 */
module MbufRefcount {

  const UINT16: nat := 0x1_0000

  /** What a thread is in the middle of: an update chosen by the count it read, or giving the buffer back. */
  datatype Pc = Idle | AddFast(value: nat) | AddSlow(value: nat) | FreeFast | FreeSlow | Last

  /** `held` references belong to the thread. */
  datatype Thread = Thread(held: nat, pc: Pc)

  /** `returned` counts the calls that got the buffer to recycle; `chained` stands for `next` and `nb_segs`. */
  datatype State = State(refcnt: nat, threads: seq<Thread>, returned: nat, chained: bool)

  datatype Action =
    | ReadForAdd(t: nat, value: nat)
    | Add(t: nat)
    | HandOver(t: nat, to: nat)
    | ReadForFree(t: nat)
    | Free(t: nat)

  function Total(ths: seq<Thread>): nat {
    if |ths| == 0 then 0 else Total(ths[..|ths| - 1]) + ths[|ths| - 1].held
  }

  function Lasts(ths: seq<Thread>): nat {
    if |ths| == 0 then 0 else Lasts(ths[..|ths| - 1]) + (if ths[|ths| - 1].pc.Last? then 1 else 0)
  }

  /** A thread uses only references that it holds, and the count stays within 16 bits. */
  predicate Legal(s: State, a: Action) {
    && a.t < |s.threads|
    && var th := s.threads[a.t];
    match a
    case ReadForAdd(_, value) => th.pc == Idle && th.held > 0 && value > 0
    case Add(_) => (th.pc.AddFast? && 1 + th.pc.value < UINT16) || (th.pc.AddSlow? && s.refcnt + th.pc.value < UINT16)
    case HandOver(_, to) => th.pc == Idle && th.held > 0 && to < |s.threads| && to != a.t
    case ReadForFree(_) => th.pc == Idle && th.held > 0
    case Free(_) => th.pc.FreeFast? || th.pc.FreeSlow? || th.pc.Last?
  }

  function Next(s: State, a: Action): State
    requires Legal(s, a)
  {
    var th := s.threads[a.t];
    match a
    case ReadForAdd(t, value) =>
      s.(threads := s.threads[t := th.(pc := if s.refcnt == 1 then AddFast(value) else AddSlow(value))])
    case Add(t) =>
      s.(refcnt := if th.pc.AddFast? then (1 + th.pc.value) % UINT16 else (s.refcnt + th.pc.value) % UINT16,
         threads := s.threads[t := Thread(th.held + th.pc.value, Idle)])
    case HandOver(t, to) =>
      var given := s.threads[t := th.(held := th.held - 1)];
      s.(threads := given[to := given[to].(held := given[to].held + 1)])
    case ReadForFree(t) =>
      s.(threads := s.threads[t := th.(pc := if s.refcnt == 1 then FreeFast else FreeSlow)])
    case Free(t) =>
      if th.pc.FreeFast? then
        State(s.refcnt, s.threads[t := Thread(Less(th.held), Idle)], s.returned + 1, false)
      else if th.pc.FreeSlow? then
        var count := (s.refcnt - 1) % UINT16;
        s.(refcnt := count, threads := s.threads[t := Thread(Less(th.held), if count == 0 then Last else Idle)])
      else
        State(1, s.threads[t := th.(pc := Idle)], s.returned + 1, false)
  }

  function Less(n: nat): nat { if n == 0 then 0 else n - 1 }

  /** In the middle of an operation on a reference that is still held. */
  predicate Busy(pc: Pc) { pc.AddFast? || pc.AddSlow? || pc.FreeFast? || pc.FreeSlow? }

  predicate Fast(pc: Pc) { pc.AddFast? || pc.FreeFast? }

  /**
   The count is the number of references held, until the last one is gone: then
   one thread is about to give the buffer back, or has done so, and the count is
   1 again.  Whoever read 1 is the only holder for as long as it matters.
   */
  ghost predicate Inv(s: State) {
    && s.refcnt < UINT16
    && (forall t :: 0 <= t < |s.threads| ==> ThreadOk(s, s.threads[t]))
    && Phase(s)
  }

  predicate ThreadOk(s: State, th: Thread) {
    (Busy(th.pc) ==> th.held > 0) && (Fast(th.pc) ==> s.refcnt == 1)
  }

  ghost predicate Phase(s: State) {
    var total, lasts := Total(s.threads), Lasts(s.threads);
    if s.returned == 0 then
      if lasts == 0 then total == s.refcnt > 0 else lasts == 1 && total == 0 == s.refcnt
    else s.returned == 1 && lasts == 0 && total == 0 && s.refcnt == 1 && !s.chained
  }

  lemma {:induction false} Update(ths: seq<Thread>, t: nat, th: Thread)
    requires t < |ths|
    ensures Total(ths[t := th]) == Total(ths) - ths[t].held + th.held
    ensures Lasts(ths[t := th]) == Lasts(ths) - (if ths[t].pc.Last? then 1 else 0) + (if th.pc.Last? then 1 else 0)
    ensures Total(ths) >= ths[t].held && Lasts(ths) >= (if ths[t].pc.Last? then 1 else 0)
    decreases |ths|
  {
    var n := |ths| - 1;
    if t < n {
      Update(ths[..n], t, th);
      assert ths[t := th][..n] == ths[..n][t := th];
    } else {
      assert ths[t := th][..n] == ths[..n];
    }
  }

  lemma TwoHolders(ths: seq<Thread>, t: nat, u: nat)
    requires t < |ths| && u < |ths| && t != u
    ensures Total(ths) >= ths[t].held + ths[u].held
  {
    var none := Thread(0, Idle);
    Update(ths, t, none);
    Update(ths[t := none], u, none);
  }

  lemma StepKeepsInv(s: State, a: Action)
    requires Inv(s) && Legal(s, a)
    ensures Inv(Next(s, a))
  {
    hide *;
    StepKeepsThreads(s, a);
    StepKeepsPhase(s, a);
    Together(Next(s, a));
  }

  lemma Together(s: State)
    requires s.refcnt < UINT16 && Phase(s) && forall t :: 0 <= t < |s.threads| ==> ThreadOk(s, s.threads[t])
    ensures Inv(s)
  {
  }

  /** A thread that read a count of 1 still finds it so: the only other references are its own. */
  lemma StepKeepsThreads(s: State, a: Action)
    requires Inv(s) && Legal(s, a)
    ensures Next(s, a).refcnt < UINT16
    ensures var s' := Next(s, a); forall t :: 0 <= t < |s'.threads| ==> ThreadOk(s', s'.threads[t])
  {
    hide Total, Lasts, Inv;
    var s', th := Next(s, a), s.threads[a.t];
    Known(s, a.t);
    assert ThreadOk(s', s'.threads[a.t]);
    forall t | 0 <= t < |s'.threads| && t != a.t ensures ThreadOk(s', s'.threads[t]) {
      Known(s, t);
      TwoHolders(s.threads, a.t, t);
    }
  }

  /** What the invariant says about one thread and the count. */
  lemma Known(s: State, t: nat)
    requires Inv(s) && t < |s.threads|
    ensures ThreadOk(s, s.threads[t]) && s.refcnt < UINT16
    ensures s.threads[t].held > 0 ==> s.returned == 0 && Total(s.threads) == s.refcnt
    ensures s.threads[t].pc.Last? ==> s.returned == 0 && Total(s.threads) == 0
  {
    hide Total, Lasts;
    Update(s.threads, t, s.threads[t]);
  }

  lemma StepKeepsPhase(s: State, a: Action)
    requires Inv(s) && Legal(s, a)
    ensures Phase(Next(s, a))
  {
    hide Total, Lasts;
    var s', t, th := Next(s, a), a.t, s.threads[a.t];
    Known(s, t);
    Update(s.threads, t, s'.threads[t]);
    if a.HandOver? {
      var given := s.threads[t := th.(held := th.held - 1)];
      Update(s.threads, t, given[t]);
      Update(given, a.to, s'.threads[a.to]);
    }
  }

  // ----- runs ------------------------------------------------------------------------------------

  predicate LegalRun(s: State, run: seq<Action>)
    decreases |run|
  {
    |run| == 0 || (Legal(s, run[0]) && LegalRun(Next(s, run[0]), run[1..]))
  }

  function After(s: State, run: seq<Action>): State
    requires LegalRun(s, run)
    decreases |run|
  {
    if |run| == 0 then s else After(Next(s, run[0]), run[1..])
  }

  /** A buffer just allocated: one thread holds its one reference. */
  ghost predicate Fresh(s: State) {
    && s.refcnt == 1 && s.returned == 0 && Total(s.threads) == 1
    && forall t :: 0 <= t < |s.threads| ==> s.threads[t].pc == Idle
  }

  lemma {:induction false} NoLasts(ths: seq<Thread>)
    requires forall t :: 0 <= t < |ths| ==> ths[t].pc == Idle
    ensures Lasts(ths) == 0
    decreases |ths|
  {
    if |ths| > 0 { NoLasts(ths[..|ths| - 1]); }
  }

  lemma {:induction false} RunKeepsInv(s: State, run: seq<Action>)
    requires Inv(s) && LegalRun(s, run)
    ensures Inv(After(s, run))
    decreases |run|
  {
    hide Inv;
    if |run| > 0 {
      StepKeepsInv(s, run[0]);
      RunKeepsInv(Next(s, run[0]), run[1..]);
    }
  }

  /**
   In every interleaving at most one call gets the buffer; when one has got it,
   no reference is left, the count is 1 and the buffer is unchained, ready for
   the next user; and once all references are released, one call has got it.
   */
  lemma ReleasedOnce(s: State, run: seq<Action>)
    requires Fresh(s) && LegalRun(s, run)
    ensures var e := After(s, run);
      && e.returned <= 1
      && (e.returned == 1 ==> Total(e.threads) == 0 && e.refcnt == 1 && !e.chained)
      && ((forall t :: 0 <= t < |e.threads| ==> e.threads[t].pc == Idle) ==>
        (e.returned == 1 <==> Total(e.threads) == 0))
  {
    NoLasts(s.threads);
    RunKeepsInv(s, run);
    var e := After(s, run);
    if forall t :: 0 <= t < |e.threads| ==> e.threads[t].pc == Idle {
      NoLasts(e.threads);
    }
  }

  /** The call that gets the buffer makes the last move: nobody holds a reference any more. */
  lemma NothingAfterReturn(s: State, run: seq<Action>, a: Action)
    requires Fresh(s) && LegalRun(s, run) && After(s, run).returned == 1
    ensures !Legal(After(s, run), a)
  {
    NoLasts(s.threads);
    RunKeepsInv(s, run);
    var e := After(s, run);
    if Legal(e, a) {
      Update(e.threads, a.t, e.threads[a.t]);
    }
  }

  // ----- what the operations asked for ---------------------------------------------------------

  /** The references a thread has once the operation it is in the middle of is done. */
  function Owed(th: Thread): int {
    th.held + match th.pc
      case AddFast(value) => value
      case AddSlow(value) => value
      case FreeFast => -1
      case FreeSlow => -1
      case _ => 0
  }

  /** What a thread gains by an operation begun, or by a reference handed over. */
  function Gain(a: Action, t: nat): int {
    match a
    case ReadForAdd(u, value) => if u == t then value else 0
    case HandOver(u, to) => (if to == t then 1 else 0) - (if u == t then 1 else 0)
    case ReadForFree(u) => if u == t then -1 else 0
    case _ => 0
  }

  function Gains(run: seq<Action>, t: nat): int
    decreases |run|
  {
    if |run| == 0 then 0 else Gain(run[0], t) + Gains(run[1..], t)
  }

  lemma StepGains(s: State, a: Action, t: nat)
    requires Inv(s) && Legal(s, a) && t < |s.threads|
    ensures var s' := Next(s, a);
      t < |s'.threads| && Owed(s'.threads[t]) == Owed(s.threads[t]) + Gain(a, t)
  {
    hide Total, Lasts, Phase;
    assert ThreadOk(s, s.threads[a.t]);
  }

  /**
   However the steps are interleaved, a thread with no update under way holds
   exactly what it began with, plus what it added and was handed, less what it
   released and handed on; and while anybody holds a reference, the count is
   the number of references held.
   */
  lemma {:induction false} HeldExactly(s: State, run: seq<Action>, t: nat)
    requires Inv(s) && LegalRun(s, run) && t < |s.threads|
    ensures var e := After(s, run);
      && t < |e.threads| && Owed(e.threads[t]) == Owed(s.threads[t]) + Gains(run, t)
      && (!Busy(s.threads[t].pc) && !Busy(e.threads[t].pc) ==>
            e.threads[t].held == s.threads[t].held + Gains(run, t))
      && (e.threads[t].held > 0 ==> e.refcnt == Total(e.threads))
    decreases |run|
  {
    hide Total, Legal, Inv, Gain;
    if |run| > 0 {
      StepGains(s, run[0], t);
      StepKeepsInv(s, run[0]);
      HeldExactly(Next(s, run[0]), run[1..], t);
    } else {
      Known(s, t);
    }
  }
}
