/** A run in which a producer finds more free entries than the ring has. */
module RingOvertaken {
  import opened Options
  import opened RingMachine
  import opened RingRuns

  /** Four slots, three of them usable. */
  const SMALL: Config := Config(4, 3, false)

  const RUN: Action<int> := Run(1)

  function Reserving(call: Call<int>): seq<Action<int>> { [Begin(1, call), RUN, RUN, RUN] }

  const FINISHING: seq<Action<int>> := [RUN, RUN, RUN, RUN]

  const STORE: Call<int> := Enqueue([5], Fixed)
  const TAKE: Call<int> := Dequeue(1, Fixed)

  /** Thread 0 loads the head; thread 1 puts one element through the ring; thread 0 loads the tail. */
  function Schedule(objs: seq<int>): seq<Action<int>> {
    [Begin(0, Enqueue(objs, Fixed)), Run(0)] + Reserving(STORE) + FINISHING + Reserving(TAKE) + FINISHING + [Run(0)]
  }

  const IDLE: Thread<int> := Thread(Idle, Prod, 0, Fixed, [], 0, 0, 0, 0, 0, 0, 0)

  /** A producer that has loaded the head of the new ring. */
  function Late(objs: seq<int>): Thread<int> {
    Thread(LoadTail, Prod, |objs|, Fixed, objs, 0, 0, 0, 0, 0, 0, 0)
  }

  function Loaded(objs: seq<int>, slots: seq<int>): State<int> {
    State(HeadTail(0, 0), HeadTail(0, 0), slots, [Late(objs), IDLE], Position(0, 0), Position(0, 0), [], [])
  }

  // What thread 1 brings about, after each half of its two calls.

  function StoreReserved(objs: seq<int>, slots: seq<int>): State<int> {
    State(HeadTail(1, 0), HeadTail(0, 0), slots, [Late(objs), Thread(Copy, Prod, 1, Fixed, [5], 0, 1, 3, 1, 0, 0, 0)],
          Position(1, 0), Position(0, 0), [5], [])
  }

  function Stored(objs: seq<int>, slots: seq<int>): State<int>
    requires |slots| == 4
  {
    State(HeadTail(1, 1), HeadTail(0, 0), slots[0 := 5],
          [Late(objs), Thread(Done, Prod, 1, Fixed, [5], 0, 1, 3, 1, 1, 0, 0)],
          Position(1, 1), Position(0, 0), [5], [])
  }

  function TakeReserved(objs: seq<int>, slots: seq<int>): State<int>
    requires |slots| == 4
  {
    State(HeadTail(1, 1), HeadTail(1, 0), slots[0 := 5],
          [Late(objs), Thread(Copy, Cons, 1, Fixed, [], 0, 1, 1, 1, 0, 0, 1)],
          Position(1, 1), Position(1, 0), [5], [None])
  }

  function Taken(objs: seq<int>, slots: seq<int>): State<int>
    requires |slots| == 4
  {
    State(HeadTail(1, 1), HeadTail(1, 1), slots[0 := 5],
          [Late(objs), Thread(Done, Cons, 1, Fixed, [5], 0, 1, 1, 1, 1, 0, 1)],
          Position(1, 1), Position(1, 1), [5], [Some(5)])
  }

  /** A run that leads from the new ring to a state. */
  ghost predicate Reaches(slots: seq<int>, acts: seq<Action<int>>, s: State<int>) {
    && |slots| == 4 && Inv(SMALL, Initial(slots, 2)) && LegalRun(SMALL, Initial(slots, 2), acts)
    && After(SMALL, Initial(slots, 2), acts) == s
  }

  /** A run, one action longer. */
  lemma {:induction false} Extend(s0: State<int>, acts: seq<Action<int>>, a: Action<int>) returns (s: State<int>)
    requires Inv(SMALL, s0) && LegalRun(SMALL, s0, acts) && Inv(SMALL, After(SMALL, s0, acts))
    requires Legal(After(SMALL, s0, acts), a)
    ensures LegalRun(SMALL, s0, acts + [a]) && After(SMALL, s0, acts + [a]) == s
    ensures s == Next(SMALL, After(SMALL, s0, acts), a) && Inv(SMALL, s)
    decreases |acts|
  {
    hide Inv, Legal, Next;
    s := Next(SMALL, After(SMALL, s0, acts), a);
    if acts == [] {
      assert [] + [a] == [a] && [a][1..] == [];
    } else {
      var s' := Extend(Next(SMALL, s0, acts[0]), acts[1..], a);
      assert (acts + [a])[1..] == acts[1..] + [a];
    }
  }

  lemma Further(slots: seq<int>, acts: seq<Action<int>>, s: State<int>, a: Action<int>) returns (s': State<int>)
    requires Reaches(slots, acts, s) && Legal(s, a)
    ensures Shaped(SMALL, s) && CopyDefined(SMALL, s.threads[a.t]) && s' == Apply(SMALL, s, a)
    ensures Reaches(slots, acts + [a], s')
  {
    hide Apply, Initial, LegalRun;
    RunKeepsInv(SMALL, Initial(slots, 2), acts);
    s' := Extend(Initial(slots, 2), acts, a);
    StepDefined(SMALL, s, a.t);
  }

  lemma StoreReserves(objs: seq<int>, slots: seq<int>, acts: seq<Action<int>>)
    requires |slots| == 4 && Reaches(slots, acts, Loaded(objs, slots))
    ensures Reaches(slots, acts + Reserving(STORE), StoreReserved(objs, slots))
  {
    hide Reaches, Inv;
    var s := Further(slots, acts, Loaded(objs, slots), Begin(1, STORE));
    s := Further(slots, acts + [Begin(1, STORE)], s, RUN);
    s := Further(slots, acts + [Begin(1, STORE)] + [RUN], s, RUN);
    s := Further(slots, acts + [Begin(1, STORE)] + [RUN] + [RUN], s, RUN);
    assert s == StoreReserved(objs, slots);
    assert acts + [Begin(1, STORE)] + [RUN] + [RUN] + [RUN] == acts + Reserving(STORE);
  }

  lemma StoreFinishes(objs: seq<int>, slots: seq<int>, acts: seq<Action<int>>)
    requires |slots| == 4 && Reaches(slots, acts, StoreReserved(objs, slots))
    ensures Reaches(slots, acts + FINISHING, Stored(objs, slots))
  {
    hide Reaches, Inv;
    var s := Further(slots, acts, StoreReserved(objs, slots), RUN);
    s := Further(slots, acts + [RUN], s, RUN);
    s := Further(slots, acts + [RUN] + [RUN], s, RUN);
    s := Further(slots, acts + [RUN] + [RUN] + [RUN], s, RUN);
    assert s == Stored(objs, slots);
    assert acts + [RUN] + [RUN] + [RUN] + [RUN] == acts + FINISHING;
  }

  lemma TakeReserves(objs: seq<int>, slots: seq<int>, acts: seq<Action<int>>)
    requires |slots| == 4 && Reaches(slots, acts, Stored(objs, slots))
    ensures Reaches(slots, acts + Reserving(TAKE), TakeReserved(objs, slots))
  {
    hide Reaches, Inv;
    var s := Further(slots, acts, Stored(objs, slots), Begin(1, TAKE));
    s := Further(slots, acts + [Begin(1, TAKE)], s, RUN);
    s := Further(slots, acts + [Begin(1, TAKE)] + [RUN], s, RUN);
    s := Further(slots, acts + [Begin(1, TAKE)] + [RUN] + [RUN], s, RUN);
    assert s == TakeReserved(objs, slots);
    assert acts + [Begin(1, TAKE)] + [RUN] + [RUN] + [RUN] == acts + Reserving(TAKE);
  }

  lemma TakeFinishes(objs: seq<int>, slots: seq<int>, acts: seq<Action<int>>)
    requires |slots| == 4 && Reaches(slots, acts, TakeReserved(objs, slots))
    ensures Reaches(slots, acts + FINISHING, Taken(objs, slots))
  {
    hide Reaches, Inv;
    var s := Further(slots, acts, TakeReserved(objs, slots), RUN);
    assert s.taken == [Some(5)] && s.threads[1].table == [5];
    s := Further(slots, acts + [RUN], s, RUN);
    s := Further(slots, acts + [RUN] + [RUN], s, RUN);
    s := Further(slots, acts + [RUN] + [RUN] + [RUN], s, RUN);
    assert s == Taken(objs, slots);
    assert acts + [RUN] + [RUN] + [RUN] + [RUN] == acts + FINISHING;
  }

  /**
   The ring of capacity three has moved on since a producer loaded its head: the
   producer finds four free entries.  If it wants more, that is what it reports.
   */
  lemma FoundBeyondCapacity(objs: seq<int>, slots: seq<int>)
    requires |slots| == 4 && objs != []
    ensures Inv(SMALL, Initial(slots, 2)) && LegalRun(SMALL, Initial(slots, 2), Schedule(objs))
    ensures var th := After(SMALL, Initial(slots, 2), Schedule(objs)).threads[0];
      && th.avail == 4 == SMALL.capacity + 1
      && (if |objs| <= 4 then th.pc.CasHead? else th.pc.Done? && Reported(th) == 4)
  {
    hide Reaches, Inv, Apply;
    Begins(objs, slots);
    var acts := [Begin(0, Enqueue(objs, Fixed)), Run(0)];
    StoreReserves(objs, slots, acts);
    StoreFinishes(objs, slots, acts + Reserving(STORE));
    TakeReserves(objs, slots, acts + Reserving(STORE) + FINISHING);
    TakeFinishes(objs, slots, acts + Reserving(STORE) + FINISHING + Reserving(TAKE));
    LoadsTail(objs, slots, acts + Reserving(STORE) + FINISHING + Reserving(TAKE) + FINISHING);
  }

  lemma Begins(objs: seq<int>, slots: seq<int>)
    requires |slots| == 4
    ensures Reaches(slots, [Begin(0, Enqueue(objs, Fixed)), Run(0)], Loaded(objs, slots))
  {
    New(slots);
    hide Reaches, Inv;
    var s := Further(slots, [], Initial(slots, 2), Begin(0, Enqueue(objs, Fixed)));
    s := Further(slots, [] + [Begin(0, Enqueue(objs, Fixed))], s, Run(0));
    assert s == Loaded(objs, slots);
    assert [] + [Begin(0, Enqueue(objs, Fixed))] + [Run(0)] == [Begin(0, Enqueue(objs, Fixed)), Run(0)];
  }

  lemma New(slots: seq<int>)
    requires |slots| == 4
    ensures Reaches(slots, [], Initial(slots, 2))
  {
    InitialInv(SMALL, slots, 2);
  }

  lemma LoadsTail(objs: seq<int>, slots: seq<int>, acts: seq<Action<int>>)
    requires |slots| == 4 && objs != [] && Reaches(slots, acts, Taken(objs, slots))
    ensures Inv(SMALL, Initial(slots, 2)) && LegalRun(SMALL, Initial(slots, 2), acts + [Run(0)])
    ensures var th := After(SMALL, Initial(slots, 2), acts + [Run(0)]).threads[0];
      && th.avail == 4
      && (if |objs| <= 4 then th.pc.CasHead? else th.pc.Done? && Reported(th) == 4)
  {
    hide Inv, LegalRun, After, Initial;
    var s := Further(slots, acts, Taken(objs, slots), Run(0));
  }
}
