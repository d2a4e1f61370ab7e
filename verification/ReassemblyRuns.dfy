/** Whole sequences of fragments: any order of one packet's pieces, any interleaving of two packets' pieces. */
module ReassemblyRuns {
  import opened Options
  import opened Bytes
  import opened Reassembly

  predicate AllFree(fb: Buffers) {
    WellFormed(fb) && Free(fb.slots[0]) && Free(fb.slots[1])
  }

  // ----- one packet -----------------------------------------------------------------------

  /** Slot `ix` holds the marked pieces of `p` (none of them while nothing is marked), the other slot is free. */
  ghost predicate OneHeld(fb: Buffers, p: Sent, got: seq<bool>, ix: nat) {
    && Proper(p) && |got| == |p.pieces| && WellFormed(fb) && ix < 2
    && (if Count(got) == 0 then AllFree(fb)
        else fb.slots[ix].timeStamp == p.stamp && Holds(fb.slots[ix], p, got) && Free(fb.slots[1 - ix]))
  }

  lemma EmptyIsNothing(p: Sent, got: seq<bool>)
    requires |got| == |p.pieces| && Count(got) == 0
    ensures got == Nothing(p)
  {
    Counts(got);
  }

  /** Where the next piece goes. */
  function Target(fb: Buffers, stamp: nat): nat
    requires WellFormed(fb)
  {
    Choose(fb, stamp).1
  }

  /** The packet's own slot is found again, whatever its stamp: a free slot carries stamp 0 but comes into
      play only when the packet's stamp is 0 too, and then the packet was put into the first slot. */
  ghost predicate Anchored(fb: Buffers, p: Sent, got: seq<bool>, ix: nat)
    requires WellFormed(fb)
  {
    Count(got) > 0 && p.stamp == 0 ==> ix == 0
  }

  lemma OneStep(fb: Buffers, p: Sent, got: seq<bool>, ix: nat, i: nat) returns (ix': nat)
    requires OneHeld(fb, p, got, ix) && Anchored(fb, p, got, ix) && i < |got| && !got[i]
    ensures Acceptable(Piece(p, i))
    ensures var (fb', out) := Receive(fb, Piece(p, i)); var got' := got[i := true];
      && (if Full(got') then AllFree(fb') && out == Yield(p)
          else OneHeld(fb', p, got', ix') && Anchored(fb', p, got', ix') && out == None)
  {
    hide *;
    OneReady(fb, p, got, ix, i);
    ix' := Target(fb, p.stamp);
    TargetFound(fb, p, got, ix);
    StoreKeepsHolds(fb.slots[ix'], p, got, i);
    Filled(fb, p, got, i, ix');
    AfterOne(Receive(fb, Piece(p, i)).0, p, got, i, ix');
  }

  lemma OneReady(fb: Buffers, p: Sent, got: seq<bool>, ix: nat, i: nat)
    requires OneHeld(fb, p, got, ix) && i < |got| && !got[i]
    ensures WellFormed(fb) && |fb.slots| == 2 && Proper(p) && |got| == |p.pieces| <= FRAG_MAX_NUM && p.stamp < 8192
    ensures Count(got[i := true]) > 0
  {
    hide Holds, Free;
    Update(p.pieces, got, i);
  }

  lemma AfterOne(fb: Buffers, p: Sent, got: seq<bool>, i: nat, ix: nat)
    requires Proper(p) && WellFormed(fb) && |got| == |p.pieces| && i < |got| && Count(got[i := true]) > 0
    requires ix < 2 && (p.stamp == 0 ==> ix == 0) && Free(fb.slots[1 - ix])
    requires if Full(got[i := true]) then Free(fb.slots[ix])
             else Holds(fb.slots[ix], p, got[i := true]) && fb.slots[ix].timeStamp == p.stamp
    ensures var got' := got[i := true];
      if Full(got') then AllFree(fb) else OneHeld(fb, p, got', ix) && Anchored(fb, p, got', ix)
  {
    hide Holds, Free, Full, Count;
  }

  lemma TargetFound(fb: Buffers, p: Sent, got: seq<bool>, ix: nat)
    requires OneHeld(fb, p, got, ix) && Anchored(fb, p, got, ix)
    ensures var t := Target(fb, p.stamp);
      && t < 2 && (p.stamp == 0 ==> t == 0)
      && Holds(fb.slots[t], p, got) && Free(fb.slots[1 - t])
      && (Count(got) > 0 ==> fb.slots[t].timeStamp == p.stamp)
  {
    if Count(got) == 0 {
      EmptyIsNothing(p, got);
      FreeHoldsNothing(fb.slots[Target(fb, p.stamp)], p);
    }
  }

  /** What `Receive` does once the slot is known. */
  lemma Filled(fb: Buffers, p: Sent, got: seq<bool>, i: nat, ix: nat)
    requires WellFormed(fb) && Proper(p) && |got| == |p.pieces| && i < |got| && !got[i]
    requires ix == Target(fb, p.stamp)
    requires
      var (s', v) := if i == 0 then StoreFirst(fb.slots[ix], Piece(p, 0)) else StoreLater(fb.slots[ix], Piece(p, i));
      && Holds(s', p, got[i := true]) && s'.timeStamp == p.stamp
      && v == if Full(got[i := true]) then Complete else Waiting
    ensures Acceptable(Piece(p, i))
    ensures var (fb', out) := Receive(fb, Piece(p, i));
      && fb'.slots[1 - ix] == fb.slots[1 - ix]
      && fb'.order == Choose(fb, p.stamp).0.order
      && (if Full(got[i := true]) then Free(fb'.slots[ix]) && out == Yield(p)
          else Holds(fb'.slots[ix], p, got[i := true]) && fb'.slots[ix].timeStamp == p.stamp && out == None)
  {
    var f := Piece(p, i);
    var s := fb.slots[ix];
    var (s', v) := if i == 0 then StoreFirst(s, f) else StoreLater(s, f);
    if Full(got[i := true]) {
      FinishYields(s', p, got[i := true]);
      ResetIsFree(s');
    }
  }

  /** Each arrival is one of the packet's pieces, and none comes twice. */
  ghost predicate Arrivals(got: seq<bool>, arriving: seq<nat>)
    decreases |arriving|
  {
    |arriving| == 0 || (arriving[0] < |got| && !got[arriving[0]] && Arrivals(got[arriving[0] := true], arriving[1..]))
  }

  /** The state and everything handed out after the pieces arrived in this order. */
  ghost function Run(fb: Buffers, p: Sent, got: seq<bool>, arriving: seq<nat>): (r: (Buffers, seq<Pdu>))
    requires WellFormed(fb) && Proper(p) && |got| == |p.pieces| && Arrivals(got, arriving)
    ensures WellFormed(r.0)
    decreases |arriving|
  {
    if |arriving| == 0 then (fb, [])
    else
      var (fb', out) := Receive(fb, Piece(p, arriving[0]));
      var (fb'', rest) := Run(fb', p, got[arriving[0] := true], arriving[1..]);
      (fb'', AsSeq(out) + rest)
  }

  function Marked(got: seq<bool>, arriving: seq<nat>): seq<bool>
    decreases |arriving|
  {
    if |arriving| == 0 then got
    else Marked(if arriving[0] < |got| then got[arriving[0] := true] else got, arriving[1..])
  }

  lemma {:induction false} RunHolds(fb: Buffers, p: Sent, got: seq<bool>, ix: nat, arriving: seq<nat>)
    requires OneHeld(fb, p, got, ix) && Anchored(fb, p, got, ix) && !Full(got) && Arrivals(got, arriving)
    ensures |Marked(got, arriving)| == |got|
    ensures var (fb', out) := Run(fb, p, got, arriving);
      if Full(Marked(got, arriving)) then AllFree(fb') && out == AsSeq(Yield(p)) else out == []
    decreases |arriving|
  {
    if |arriving| > 0 {
      var ix' := OneStep(fb, p, got, ix, arriving[0]);
      var got' := got[arriving[0] := true];
      if Full(got') {
        assert |arriving[1..]| == 0;
      } else {
        RunHolds(Receive(fb, Piece(p, arriving[0])).0, p, got', ix', arriving[1..]);
      }
    }
  }

  /**
   Reassembly does not depend on the order of arrival.  Whatever the stamp, the
   packet comes out with the arrival of the last missing piece and not before,
   and it comes out exactly if its checksum is right; the slots are free again.
   */
  lemma OrderIndependent(fb: Buffers, p: Sent, arriving: seq<nat>)
    requires AllFree(fb) && Proper(p) && Arrivals(Nothing(p), arriving)
    ensures |Marked(Nothing(p), arriving)| == |p.pieces|
    ensures var (fb', out) := Run(fb, p, Nothing(p), arriving);
      if Full(Marked(Nothing(p), arriving)) then AllFree(fb') && out == AsSeq(Yield(p)) else out == []
  {
    NothingCounts(p.pieces, Nothing(p));
    assert !Nothing(p)[0];
    RunHolds(fb, p, Nothing(p), 0, arriving);
  }

  /** In particular every permutation of all the pieces: n distinct numbers below n mark everything. */
  lemma {:induction false} PermutationMarksAll(got: seq<bool>, arriving: seq<nat>)
    requires Arrivals(got, arriving)
    ensures |Marked(got, arriving)| == |got|
    ensures Count(Marked(got, arriving)) == Count(got) + |arriving|
    decreases |arriving|
  {
    if |arriving| > 0 {
      Update(seq(|got|, i => []), got, arriving[0]);
      PermutationMarksAll(got[arriving[0] := true], arriving[1..]);
    }
  }

  lemma AnyPermutationDelivers(fb: Buffers, p: Sent, arriving: seq<nat>)
    requires AllFree(fb) && Proper(p) && Arrivals(Nothing(p), arriving) && |arriving| == |p.pieces|
    ensures Run(fb, p, Nothing(p), arriving).1 == AsSeq(Yield(p))
    ensures AllFree(Run(fb, p, Nothing(p), arriving).0)
  {
    NothingCounts(p.pieces, Nothing(p));
    PermutationMarksAll(Nothing(p), arriving);
    Counts(Marked(Nothing(p), arriving));
    OrderIndependent(fb, p, arriving);
  }
}
