/** Two packets that share a fragment ID, their pieces arriving interleaved. */
module ReassemblyPairs {
  import opened Options
  import opened Bytes
  import opened Reassembly
  import opened ReassemblyRuns

  /** One piece of the first (`a`) or second packet. */
  datatype Arrival = Arrival(a: bool, piece: nat)

  predicate Partial(got: seq<bool>) { 0 < Count(got) < |got| }

  /** A partly received packet sits in its slot under its stamp. */
  ghost predicate Placed(fb: Buffers, p: Sent, got: seq<bool>, ix: nat)
    requires WellFormed(fb) && Proper(p)
  {
    ix < 2 && |got| == |p.pieces| &&
    (Partial(got) ==> fb.slots[ix].timeStamp == p.stamp && Holds(fb.slots[ix], p, got))
  }

  /**
   How the slots are handed out.  With two stamps other than 0 the slot of a
   packet that waits alone is never next.  Stamp 0 is also what a free slot
   carries: then that packet has to live in slot 0 and the other one in slot 1.
   */
  ghost predicate Turns(fb: Buffers, p: Sent, got: seq<bool>, ix: nat, q: Sent, other: seq<bool>, iy: nat)
    requires WellFormed(fb)
  {
    if p.stamp == 0 then
      (Partial(got) ==> ix == 0) && (Partial(other) ==> iy == 1) && (Count(other) == 0 ==> fb.order[0] == 1)
    else if q.stamp == 0 then
      (Partial(other) ==> iy == 0) && (Partial(got) ==> ix == 1) && (Count(got) == 0 ==> fb.order[0] == 1)
    else
      (Partial(got) && Count(other) == 0 ==> fb.order[0] != ix)
      && (Partial(other) && Count(got) == 0 ==> fb.order[0] != iy)
  }

  ghost predicate TwoHeld(fb: Buffers, p: Sent, got: seq<bool>, ix: nat, q: Sent, other: seq<bool>, iy: nat) {
    && WellFormed(fb) && Proper(p) && Proper(q) && p.stamp != q.stamp
    && Placed(fb, p, got, ix) && Placed(fb, q, other, iy)
    && (Partial(got) && Partial(other) ==> ix != iy)
    && (forall k :: 0 <= k < 2 ==> (Partial(got) && k == ix) || (Partial(other) && k == iy) || Free(fb.slots[k]))
    && Turns(fb, p, got, ix, q, other, iy)
  }

  lemma Symmetric(fb: Buffers, p: Sent, got: seq<bool>, ix: nat, q: Sent, other: seq<bool>, iy: nat)
    requires TwoHeld(fb, p, got, ix, q, other, iy)
    ensures TwoHeld(fb, q, other, iy, p, got, ix)
  {
  }

  lemma TargetOfTwo(fb: Buffers, p: Sent, got: seq<bool>, ix: nat, q: Sent, other: seq<bool>, iy: nat)
    requires TwoHeld(fb, p, got, ix, q, other, iy) && Count(got) < |got|
    ensures var t := Target(fb, p.stamp); var order := Choose(fb, p.stamp).0.order;
      && t < 2 && Holds(fb.slots[t], p, got)
      && (Partial(got) ==> t == ix && fb.slots[t].timeStamp == p.stamp)
      && (Partial(other) ==> t != iy)
      && (!Partial(other) ==> Free(fb.slots[1 - t]))
      && (Partial(got) || p.stamp == 0 ==> order == fb.order)
      && (!Partial(got) && p.stamp != 0 ==> t == fb.order[0] && order[0] == 1 - t)
      && (p.stamp == 0 ==> t == 0)
      && (q.stamp == 0 ==> t == 1)
  {
    if !Partial(got) {
      EmptyIsNothing(p, got);
      FreeHoldsNothing(fb.slots[Target(fb, p.stamp)], p);
    }
  }

  lemma TwoStep(fb: Buffers, p: Sent, got: seq<bool>, ix: nat, q: Sent, other: seq<bool>, iy: nat, i: nat)
    returns (ix': nat)
    requires TwoHeld(fb, p, got, ix, q, other, iy) && i < |got| && !got[i]
    ensures Acceptable(Piece(p, i))
    ensures var (fb', out) := Receive(fb, Piece(p, i)); var got' := got[i := true];
      && TwoHeld(fb', p, got', ix', q, other, iy)
      && out == if Full(got') then Yield(p) else None
  {
    hide Holds, Free, Full, Receive, TwoHeld, Target, Count, Highest, Weight, Flatten, Choose, Placed, Turns;
    StepPreconditions(fb, p, got, ix, q, other, iy, i);
    Update(p.pieces, got, i);
    FullCounts(got[i := true]);
    TargetOfTwo(fb, p, got, ix, q, other, iy);
    ix' := Target(fb, p.stamp);
    StoreKeepsHolds(fb.slots[ix'], p, got, i);
    Filled(fb, p, got, i, ix');
    AfterStep(fb, Receive(fb, Piece(p, i)).0, p, got, ix, ix', q, other, iy, i);
  }

  lemma FullCounts(got: seq<bool>)
    ensures Count(got) <= |got| && (Full(got) <==> Count(got) == |got|)
  {
    Counts(got);
  }

  lemma StepPreconditions(fb: Buffers, p: Sent, got: seq<bool>, ix: nat, q: Sent, other: seq<bool>, iy: nat, i: nat)
    requires TwoHeld(fb, p, got, ix, q, other, iy) && i < |got| && !got[i]
    ensures WellFormed(fb) && Proper(p) && |got| == |p.pieces| && Count(got) < |got|
    ensures Count(got) > 0 ==> fb.slots[Target(fb, p.stamp)].timeStamp == p.stamp
  {
    Counts(got);
    TargetOfTwo(fb, p, got, ix, q, other, iy);
  }

  lemma AfterStep(fb: Buffers, fb': Buffers, p: Sent, got: seq<bool>, ix: nat, t: nat, q: Sent, other: seq<bool>,
      iy: nat, i: nat)
    requires TwoHeld(fb, p, got, ix, q, other, iy) && WellFormed(fb') && t < 2 && i < |got|
    requires Count(got[i := true]) == Count(got) + 1 <= |got|
    requires Full(got[i := true]) <==> Count(got[i := true]) == |got|
    requires fb'.slots[1 - t] == fb.slots[1 - t] && fb'.order == Choose(fb, p.stamp).0.order
    requires Partial(other) ==> t != iy
    requires !Partial(other) ==> Free(fb.slots[1 - t])
    requires Partial(got) ==> t == ix
    requires Partial(got) || p.stamp == 0 ==> fb'.order == fb.order
    requires !Partial(got) && p.stamp != 0 ==> t == fb.order[0] && fb'.order[0] == 1 - t
    requires (p.stamp == 0 ==> t == 0) && (q.stamp == 0 ==> t == 1)
    requires if Full(got[i := true]) then Free(fb'.slots[t])
             else Holds(fb'.slots[t], p, got[i := true]) && fb'.slots[t].timeStamp == p.stamp
    ensures TwoHeld(fb', p, got[i := true], t, q, other, iy)
  {
    hide Holds, Free, Choose, Full;
  }

  // ----- runs -----------------------------------------------------------------------------

  ghost predicate Mixed(got: seq<bool>, other: seq<bool>, arriving: seq<Arrival>)
    decreases |arriving|
  {
    |arriving| == 0 ||
    (var x := arriving[0];
     if x.a then x.piece < |got| && !got[x.piece] && Mixed(got[x.piece := true], other, arriving[1..])
     else x.piece < |other| && !other[x.piece] && Mixed(got, other[x.piece := true], arriving[1..]))
  }

  ghost function RunTwo(fb: Buffers, p: Sent, got: seq<bool>, q: Sent, other: seq<bool>,
      arriving: seq<Arrival>): (r: (Buffers, seq<Pdu>))
    requires WellFormed(fb) && Proper(p) && Proper(q)
    requires |got| == |p.pieces| && |other| == |q.pieces| && Mixed(got, other, arriving)
    decreases |arriving|
  {
    if |arriving| == 0 then (fb, [])
    else
      var x := arriving[0];
      var (fb', out) := Receive(fb, if x.a then Piece(p, x.piece) else Piece(q, x.piece));
      var (fb'', rest) := if x.a then RunTwo(fb', p, got[x.piece := true], q, other, arriving[1..])
                          else RunTwo(fb', p, got, q, other[x.piece := true], arriving[1..]);
      (fb'', AsSeq(out) + rest)
  }

  /** What two independent receivers would hand out: each packet at the arrival of its last missing piece. */
  ghost function Expected(p: Sent, got: seq<bool>, q: Sent, other: seq<bool>, arriving: seq<Arrival>): seq<Pdu>
    requires |got| == |p.pieces| && |other| == |q.pieces| && Mixed(got, other, arriving)
    decreases |arriving|
  {
    if |arriving| == 0 then []
    else
      var x := arriving[0];
      if x.a then
        var got' := got[x.piece := true];
        (if Full(got') then AsSeq(Yield(p)) else []) + Expected(p, got', q, other, arriving[1..])
      else
        var other' := other[x.piece := true];
        (if Full(other') then AsSeq(Yield(q)) else []) + Expected(p, got, q, other', arriving[1..])
  }

  lemma {:induction false} TwoRun(fb: Buffers, p: Sent, got: seq<bool>, ix: nat, q: Sent, other: seq<bool>, iy: nat,
      arriving: seq<Arrival>)
    requires TwoHeld(fb, p, got, ix, q, other, iy) && Mixed(got, other, arriving)
    ensures RunTwo(fb, p, got, q, other, arriving).1 == Expected(p, got, q, other, arriving)
    decreases |arriving|
  {
    hide TwoHeld, Full, Yield, Receive;
    if |arriving| > 0 {
      var x := arriving[0];
      Shapes(fb, p, got, ix, q, other, iy);
      if x.a {
        var ix' := TwoStep(fb, p, got, ix, q, other, iy, x.piece);
        TwoRun(Receive(fb, Piece(p, x.piece)).0, p, got[x.piece := true], ix', q, other, iy, arriving[1..]);
      } else {
        Symmetric(fb, p, got, ix, q, other, iy);
        var iy' := TwoStep(fb, q, other, iy, p, got, ix, x.piece);
        var fb' := Receive(fb, Piece(q, x.piece)).0;
        Symmetric(fb', q, other[x.piece := true], iy', p, got, ix);
        TwoRun(fb', p, got, ix, q, other[x.piece := true], iy', arriving[1..]);
      }
    } else {
      Shapes(fb, p, got, ix, q, other, iy);
    }
  }

  lemma Shapes(fb: Buffers, p: Sent, got: seq<bool>, ix: nat, q: Sent, other: seq<bool>, iy: nat)
    requires TwoHeld(fb, p, got, ix, q, other, iy)
    ensures WellFormed(fb) && Proper(p) && Proper(q) && |got| == |p.pieces| && |other| == |q.pieces|
  {
  }

  /**
   Two packets with different stamps come out as two receivers of their own would
   hand them out, for every interleaving of their pieces, as long as neither
   stamp is 0 or slot 1 is the next to be handed out.
   */
  lemma InterleavingIndependent(fb: Buffers, p: Sent, q: Sent, arriving: seq<Arrival>)
    requires AllFree(fb) && Proper(p) && Proper(q) && p.stamp != q.stamp
    requires (p.stamp != 0 && q.stamp != 0) || fb.order[0] == 1
    requires Mixed(Nothing(p), Nothing(q), arriving)
    ensures RunTwo(fb, p, Nothing(p), q, Nothing(q), arriving).1 == Expected(p, Nothing(p), q, Nothing(q), arriving)
  {
    NothingCounts(p.pieces, Nothing(p));
    NothingCounts(q.pieces, Nothing(q));
    assert Free(fb.slots[0]) && Free(fb.slots[1]);
    TwoRun(fb, p, Nothing(p), 0, q, Nothing(q), 0, arriving);
  }

  // ----- stamp 0 ---------------------------------------------------------------------------

  /** The start of `p`, the start of `q`, and then the rest of `p` in order. */
  function StartsThenRest(p: Sent): (r: seq<Arrival>)
    requires |p.pieces| >= 2
    ensures |r| == |p.pieces| + 1
  {
    [Arrival(true, 0)] + ([Arrival(false, 0)] + Rest(p, 1))
  }

  function Rest(p: Sent, k: nat): (r: seq<Arrival>)
    requires k <= |p.pieces|
    ensures |r| == |p.pieces| - k
    decreases |p.pieces| - k
  {
    if k == |p.pieces| then [] else [Arrival(true, k)] + Rest(p, k + 1)
  }

  /** Pieces below `k` have arrived; `first` tells whether the start still counts. */
  function Below(p: Sent, k: nat, first: bool): (got: seq<bool>)
    ensures |got| == |p.pieces|
  {
    seq(|p.pieces|, i => i < k && (first || i > 0))
  }

  lemma {:induction false} RestIsMixed(p: Sent, k: nat, other: seq<bool>)
    requires k <= |p.pieces|
    ensures Mixed(Below(p, k, true), other, Rest(p, k))
    decreases |p.pieces| - k
  {
    if k < |p.pieces| {
      RestIsMixed(p, k + 1, other);
      assert Below(p, k, true)[k := true] == Below(p, k + 1, true);
      assert Rest(p, k)[1..] == Rest(p, k + 1);
    }
  }

  lemma {:induction false} RestExpected(p: Sent, k: nat, q: Sent, other: seq<bool>)
    requires Proper(p) && 0 < k < |p.pieces| && |other| == |q.pieces|
    ensures Mixed(Below(p, k, true), other, Rest(p, k))
    ensures Expected(p, Below(p, k, true), q, other, Rest(p, k)) == AsSeq(Yield(p))
    decreases |p.pieces| - k
  {
    RestIsMixed(p, k, other);
    var got' := Below(p, k + 1, true);
    assert Below(p, k, true)[k := true] == got';
    assert Rest(p, k)[1..] == Rest(p, k + 1);
    if k + 1 < |p.pieces| {
      assert !got'[k + 1];
      RestExpected(p, k + 1, q, other);
    }
  }

  /** Once the start is lost, the other pieces collect in slot 1 for nothing. */
  lemma {:induction false} RestIsLost(fb: Buffers, p: Sent, k: nat, q: Sent, other: seq<bool>)
    requires Proper(p) && Proper(q) && 0 < k <= |p.pieces| && p.stamp == 0 && |other| == |q.pieces|
    requires WellFormed(fb) && fb.slots[0].timeStamp != 0 && fb.slots[1].timeStamp == 0
    requires Holds(fb.slots[1], p, Below(p, k, false))
    ensures Mixed(Below(p, k, true), other, Rest(p, k))
    ensures RunTwo(fb, p, Below(p, k, true), q, other, Rest(p, k)).1 == []
    decreases |p.pieces| - k
  {
    hide Holds, Receive, Free, StoreFirst, StoreLater, Flatten, Weight, Highest, Count;
    RestIsMixed(p, k, other);
    if k < |p.pieces| {
      var got := Below(p, k, false);
      assert Below(p, k, true)[k := true] == Below(p, k + 1, true);
      assert got[k := true] == Below(p, k + 1, false);
      assert !Below(p, k + 1, false)[0];
      assert Rest(p, k)[1..] == Rest(p, k + 1);
      StoreKeepsHolds(fb.slots[1], p, got, k);
      Filled(fb, p, got, k, 1);
      RestIsLost(Receive(fb, Piece(p, k)).0, p, k + 1, q, other);
    }
  }

  /** With slot 0 next, the start of the second packet takes the slot in which the packet stamped 0 has begun. */
  lemma StartIsLost(fb: Buffers, p: Sent, q: Sent)
    requires AllFree(fb) && Proper(p) && Proper(q) && p.stamp == 0 && q.stamp != 0 && fb.order[0] == 0
    ensures Acceptable(Piece(p, 0)) && Acceptable(Piece(q, 0))
    ensures var (fb1, out1) := Receive(fb, Piece(p, 0)); var (fb2, out2) := Receive(fb1, Piece(q, 0));
      && out1 == None && out2 == None
      && fb2.slots[0].timeStamp == q.stamp && Free(fb2.slots[1])
  {
    var got := Nothing(p);
    NothingCounts(p.pieces, got);
    FreeHoldsNothing(fb.slots[0], p);
    assert !got[0 := true][1];
    StoreKeepsHolds(fb.slots[0], p, got, 0);
    Filled(fb, p, got, 0, 0);
    var fb1 := Receive(fb, Piece(p, 0)).0;
    assert fb1.order == fb.order;
    TakenOver(fb1, p, q);
  }

  lemma TakenOver(fb: Buffers, p: Sent, q: Sent)
    requires WellFormed(fb) && Proper(p) && Proper(q) && p.stamp == 0 && q.stamp != 0 && fb.order[0] == 0
    requires fb.slots[0].timeStamp == 0 && Free(fb.slots[1]) && Holds(fb.slots[0], p, Nothing(p)[0 := true])
    ensures Acceptable(Piece(q, 0))
    ensures var (fb', out) := Receive(fb, Piece(q, 0));
      out == None && fb'.slots[0].timeStamp == q.stamp && fb'.slots[1] == fb.slots[1]
  {
    var s := fb.slots[0];
    NothingCounts(p.pieces, Nothing(p));
    Update(p.pieces, Nothing(p), 0);
    assert Cleared(s, q.stamp) == Reset(s);
  }

  /** Exactly when it works: a packet stamped 0 and an intact one survive every interleaving iff slot 1 is next. */
  lemma ZeroStampExactly(fb: Buffers, p: Sent, q: Sent)
    requires AllFree(fb) && Proper(p) && Proper(q) && p.stamp == 0 && q.stamp != 0 && Yield(p).Some?
    ensures (forall arriving :: Mixed(Nothing(p), Nothing(q), arriving) ==>
               RunTwo(fb, p, Nothing(p), q, Nothing(q), arriving).1 == Expected(p, Nothing(p), q, Nothing(q), arriving))
            <==> fb.order[0] == 1
  {
    if fb.order[0] == 1 {
      forall arriving | Mixed(Nothing(p), Nothing(q), arriving)
        ensures RunTwo(fb, p, Nothing(p), q, Nothing(q), arriving).1 == Expected(p, Nothing(p), q, Nothing(q), arriving)
      {
        InterleavingIndependent(fb, p, q, arriving);
      }
    } else {
      ZeroStampLoses(fb, p, q);
      assert Mixed(Nothing(p), Nothing(q), StartsThenRest(p));
    }
  }

  lemma ZeroStampLoses(fb: Buffers, p: Sent, q: Sent)
    requires AllFree(fb) && Proper(p) && Proper(q) && p.stamp == 0 && q.stamp != 0 && Yield(p).Some?
    requires fb.order[0] == 0
    ensures Mixed(Nothing(p), Nothing(q), StartsThenRest(p))
    ensures RunTwo(fb, p, Nothing(p), q, Nothing(q), StartsThenRest(p)).1 == []
    ensures Expected(p, Nothing(p), q, Nothing(q), StartsThenRest(p)) == AsSeq(Yield(p))
  {
    hide Receive, Yield, Expected, RunTwo, Mixed, Holds;
    StartIsLost(fb, p, q);
    var fb2 := Receive(Receive(fb, Piece(p, 0)).0, Piece(q, 0)).0;
    var got, other := Nothing(p), Nothing(q);
    assert got[0 := true] == Below(p, 1, true);
    FreeHoldsNothing(fb2.slots[1], p);
    assert got == Below(p, 1, false);
    RestIsLost(fb2, p, 1, q, other[0 := true]);
    RestExpected(p, 1, q, other[0 := true]);
    assert !other[0 := true][1] && !got[0 := true][1];
    QuietSecond(Receive(fb, Piece(p, 0)).0, p, got[0 := true], q, other, Rest(p, 1));
    QuietFirst(fb, p, got, q, other, [Arrival(false, 0)] + Rest(p, 1));
  }

  // One arrival that hands out nothing, at the front of a run.

  lemma QuietFirst(fb: Buffers, p: Sent, got: seq<bool>, q: Sent, other: seq<bool>, rest: seq<Arrival>)
    requires WellFormed(fb) && Proper(p) && Proper(q) && 0 < |got| == |p.pieces| && 0 < |other| == |q.pieces|
    requires !got[0] && !Full(got[0 := true]) && Mixed(got[0 := true], other, rest)
    requires Receive(fb, Piece(p, 0)).1 == None
    ensures var arriving := [Arrival(true, 0)] + rest;
      && Mixed(got, other, arriving)
      && RunTwo(fb, p, got, q, other, arriving).1
        == RunTwo(Receive(fb, Piece(p, 0)).0, p, got[0 := true], q, other, rest).1
      && Expected(p, got, q, other, arriving) == Expected(p, got[0 := true], q, other, rest)
  {
    hide *;
    QuietFirstMixed(got, other, rest);
    QuietFirstRun(fb, p, got, q, other, rest);
    QuietFirstExpected(p, got, q, other, rest);
  }

  lemma QuietFirstMixed(got: seq<bool>, other: seq<bool>, rest: seq<Arrival>)
    requires |got| > 0 && !got[0] && Mixed(got[0 := true], other, rest)
    ensures Mixed(got, other, [Arrival(true, 0)] + rest)
  {
    assert ([Arrival(true, 0)] + rest)[1..] == rest;
  }

  lemma QuietFirstRun(fb: Buffers, p: Sent, got: seq<bool>, q: Sent, other: seq<bool>, rest: seq<Arrival>)
    requires WellFormed(fb) && Proper(p) && Proper(q) && 0 < |got| == |p.pieces| && 0 < |other| == |q.pieces|
    requires Mixed(got[0 := true], other, rest) && Mixed(got, other, [Arrival(true, 0)] + rest)
    requires Receive(fb, Piece(p, 0)).1 == None
    ensures RunTwo(fb, p, got, q, other, [Arrival(true, 0)] + rest).1
         == RunTwo(Receive(fb, Piece(p, 0)).0, p, got[0 := true], q, other, rest).1
  {
    hide Receive, Mixed;
    var arriving := [Arrival(true, 0)] + rest;
    assert arriving[1..] == rest && arriving[0] == Arrival(true, 0);
    var out := RunTwo(Receive(fb, Piece(p, 0)).0, p, got[0 := true], q, other, rest).1;
    assert [] + out == out;
  }

  lemma QuietFirstExpected(p: Sent, got: seq<bool>, q: Sent, other: seq<bool>, rest: seq<Arrival>)
    requires 0 < |got| == |p.pieces| && 0 < |other| == |q.pieces| && !Full(got[0 := true])
    requires Mixed(got[0 := true], other, rest) && Mixed(got, other, [Arrival(true, 0)] + rest)
    ensures Expected(p, got, q, other, [Arrival(true, 0)] + rest) == Expected(p, got[0 := true], q, other, rest)
  {
    hide Mixed, Full, Yield;
    var arriving := [Arrival(true, 0)] + rest;
    assert arriving[1..] == rest && arriving[0] == Arrival(true, 0);
    var out := Expected(p, got[0 := true], q, other, rest);
    assert [] + out == out;
  }

  lemma QuietSecond(fb: Buffers, p: Sent, got: seq<bool>, q: Sent, other: seq<bool>, rest: seq<Arrival>)
    requires WellFormed(fb) && Proper(p) && Proper(q) && 0 < |got| == |p.pieces| && 0 < |other| == |q.pieces|
    requires !other[0] && !Full(other[0 := true]) && Mixed(got, other[0 := true], rest)
    requires Receive(fb, Piece(q, 0)).1 == None
    ensures var arriving := [Arrival(false, 0)] + rest;
      && Mixed(got, other, arriving)
      && RunTwo(fb, p, got, q, other, arriving).1
        == RunTwo(Receive(fb, Piece(q, 0)).0, p, got, q, other[0 := true], rest).1
      && Expected(p, got, q, other, arriving) == Expected(p, got, q, other[0 := true], rest)
  {
    hide *;
    QuietSecondMixed(got, other, rest);
    QuietSecondRun(fb, p, got, q, other, rest);
    QuietSecondExpected(p, got, q, other, rest);
  }

  lemma QuietSecondMixed(got: seq<bool>, other: seq<bool>, rest: seq<Arrival>)
    requires |other| > 0 && !other[0] && Mixed(got, other[0 := true], rest)
    ensures Mixed(got, other, [Arrival(false, 0)] + rest)
  {
    assert ([Arrival(false, 0)] + rest)[1..] == rest;
  }

  lemma QuietSecondRun(fb: Buffers, p: Sent, got: seq<bool>, q: Sent, other: seq<bool>, rest: seq<Arrival>)
    requires WellFormed(fb) && Proper(p) && Proper(q) && 0 < |got| == |p.pieces| && 0 < |other| == |q.pieces|
    requires Mixed(got, other[0 := true], rest) && Mixed(got, other, [Arrival(false, 0)] + rest)
    requires Receive(fb, Piece(q, 0)).1 == None
    ensures RunTwo(fb, p, got, q, other, [Arrival(false, 0)] + rest).1
         == RunTwo(Receive(fb, Piece(q, 0)).0, p, got, q, other[0 := true], rest).1
  {
    hide Receive, Mixed;
    var arriving := [Arrival(false, 0)] + rest;
    assert arriving[1..] == rest && arriving[0] == Arrival(false, 0);
    var out := RunTwo(Receive(fb, Piece(q, 0)).0, p, got, q, other[0 := true], rest).1;
    assert [] + out == out;
  }

  lemma QuietSecondExpected(p: Sent, got: seq<bool>, q: Sent, other: seq<bool>, rest: seq<Arrival>)
    requires 0 < |got| == |p.pieces| && 0 < |other| == |q.pieces| && !Full(other[0 := true])
    requires Mixed(got, other[0 := true], rest) && Mixed(got, other, [Arrival(false, 0)] + rest)
    ensures Expected(p, got, q, other, [Arrival(false, 0)] + rest) == Expected(p, got, q, other[0 := true], rest)
  {
    hide Mixed, Full, Yield;
    var arriving := [Arrival(false, 0)] + rest;
    assert arriving[1..] == rest && arriving[0] == Arrival(false, 0);
    var out := Expected(p, got, q, other[0 := true], rest);
    assert [] + out == out;
  }
}
