/** What a call comes to: the count it takes, what it transfers, and that it finishes when nobody else moves. */
module RingCalls {
  import opened Options
  import opened RingArith
  import opened RingMachine
  import opened RingRuns
  import opened RingSafety

  /**
   As many as were asked for; if there are not enough, none with a fixed count and all
   there are with a variable one.
   */
  function Granted(want: nat, behavior: Behavior, found: nat): nat {
    if want <= found then want else match behavior case Fixed => 0 case Variable => found
  }

  /** What a call takes, measured by the room there is and what was reserved since it loaded the head. */
  lemma CountTaken<T>(cfg: Config, s: State<T>, t: nat)
    requires Inv(cfg, s) && t < |s.threads| && s.threads[t].pc.LoadTail?
    requires Room(cfg, s, s.threads[t].side) + Overtaken(s, s.threads[t]) < MODULUS
    ensures
      var th := s.threads[t];
      var th' := Advance(cfg, s, t).threads[t];
      var found := Room(cfg, s, th.side) + Overtaken(s, th);
      && 0 <= found
      && th'.n == Granted(th.want, th.behavior, found)
      && th'.pc == if th'.n == 0 then Done else CasHead
  {
    hide Contents, Apart, Indices, Room, Overtaken, Wrap, LoadedOk;
    var th := s.threads[t];
    assert ThreadOk(cfg, s, th);
    FoundRoom(cfg, s, th);
  }

  // ----- a call and its thread ------------------------------------------------------------------

  function NewCall<T>(before: Option<Call<T>>, a: Action<T>, t: nat): Option<Call<T>> {
    if a.Begin? && a.t == t then Some(a.call) else before
  }

  /** The call that thread `t` works on, or has finished, after these actions. */
  function Called<T>(before: Option<Call<T>>, acts: seq<Action<T>>, t: nat): Option<Call<T>>
    decreases |acts|
  {
    if |acts| == 0 then before else Called(NewCall(before, acts[0], t), acts[1..], t)
  }

  /** The thread still has what the call gave it, and takes what the call is granted. */
  ghost predicate Serves<T>(th: Thread<T>, call: Option<Call<T>>) {
    match call
    case None => th.pc.Idle?
    case Some(Enqueue(objs, behavior)) =>
      && !th.pc.Idle? && th.side.Prod? && th.behavior == behavior
      && th.table == objs && th.want == |objs| && Counted(th)
    case Some(Dequeue(count, behavior)) =>
      && !th.pc.Idle? && th.side.Cons? && th.behavior == behavior
      && th.want == count && Counted(th)
      && (th.pc.Done? ==> |th.table| == th.n)
  }

  predicate Counted<T>(th: Thread<T>) {
    th.pc.CasHead? || Owns(th) || th.pc.Done? ==> th.n == Granted(th.want, th.behavior, th.avail)
  }

  lemma StepServes<T>(cfg: Config, s: State<T>, a: Action<T>, t: nat, call: Option<Call<T>>)
    requires Inv(cfg, s) && Legal(s, a) && t < |s.threads| && Serves(s.threads[t], call)
    ensures Serves(Next(cfg, s, a).threads[t], NewCall(call, a, t))
  {
    if a.t != t {
      hide Inv, Legal, Next, Serves;
      OthersUntouched(cfg, s, a, t);
    } else if a.Run? {
      hide Contents, Apart, Indices, ThreadOk, Serves;
      StepDefined(cfg, s, t);
      assert ThreadOk(cfg, s, s.threads[t]);
      OwnStepServes(cfg, s, t, call);
    } else {
      hide Inv;
      StepDefined(cfg, s, t);
    }
  }

  lemma OwnStepServes<T>(cfg: Config, s: State<T>, t: nat, call: Option<Call<T>>)
    requires Shaped(cfg, s) && 0 < cfg.size && Indices(cfg, s) && t < |s.threads| && ThreadOk(cfg, s, s.threads[t])
    requires CopyDefined(cfg, s.threads[t]) && !Resting(s.threads[t]) && Serves(s.threads[t], call)
    ensures Serves(Advance(cfg, s, t).threads[t], call)
  {
    TakenCount(cfg, s, s.threads[t]);
    hide Indices, SlotAt, Wrap, DoneOk, OwnedOk, FoundOk;
  }

  lemma TakenCount<T>(cfg: Config, s: State<T>, th: Thread<T>)
    requires 0 < cfg.size && Indices(cfg, s) && ThreadOk(cfg, s, th)
    ensures Owns(th) && th.side.Cons? ==> |th.table| == th.k
    ensures th.pc.Publish? ==> th.k == th.n
  {
    hide Wrap;
  }

  lemma {:induction false} RunServes<T>(cfg: Config, s: State<T>, acts: seq<Action<T>>, t: nat, call: Option<Call<T>>)
    requires Inv(cfg, s) && LegalRun(cfg, s, acts) && t < |s.threads| && Serves(s.threads[t], call)
    ensures Serves(After(cfg, s, acts).threads[t], Called(call, acts, t))
    decreases |acts|
  {
    hide Inv, Legal, Next, Serves;
    if |acts| > 0 {
      StepServes(cfg, s, acts[0], t, call);
      RunServes(cfg, Next(cfg, s, acts[0]), acts[1..], t, NewCall(call, acts[0], t));
    }
  }

  /** The elements that a finished call has moved, in the caller's table. */
  function Moved<T>(th: Thread<T>, call: Call<T>): seq<T> {
    match call
    case Enqueue(objs, _) => if th.n <= |objs| then objs[..th.n] else objs
    case Dequeue(_, _) => th.table
  }

  function Wanted<T>(call: Call<T>): nat {
    match call case Enqueue(objs, _) => |objs| case Dequeue(count, _) => count
  }

  /**
   A finished call, after any run: it has taken what it was granted for the
   number it found, and moved one block of consecutive elements between the
   caller's table and the queue.
   */
  lemma FinishedCall<T>(cfg: Config, slots: seq<T>, threads: nat, acts: seq<Action<T>>, t: nat, call: Call<T>)
    requires ValidConfig(cfg) && |slots| == cfg.size && t < threads
    requires Inv(cfg, Initial(slots, threads)) && LegalRun(cfg, Initial(slots, threads), acts)
    requires Called(None, acts, t) == Some(call)
    ensures var s := After(cfg, Initial(slots, threads), acts); var th := s.threads[t];
      th.pc.Done? ==>
        && th.side == (if call.Enqueue? then Prod else Cons)
        && th.n == Granted(Wanted(call), call.behavior, th.avail)
        && |Moved(th, call)| == th.n
        && (th.n > 0 ==>
              && th.start + th.n <= MyPos(s, th.side).tail <= |s.log|
              && s.log[th.start..th.start + th.n] == Moved(th, call))
  {
    hide OwnedOk, LoadedOk, Contents, Apart, LegalRun, After, Called;
    RunKeepsInv(cfg, Initial(slots, threads), acts);
    RunServes(cfg, Initial(slots, threads), acts, t, None);
    var s := After(cfg, Initial(slots, threads), acts);
    assert ThreadOk(cfg, s, s.threads[t]);
  }
}
