/** What happens to a slot that is not free: takeovers, pieces that come twice, and fragments that are refused. */
module ReassemblyUpsets {
  import opened Options
  import opened Bytes
  import opened Reassembly
  import opened ReassemblyRuns

  /** The kinds of payload that the code ever notes in a slot. */
  predicate Typed(fb: Buffers)
    requires WellFormed(fb)
  {
    fb.slots[0].pduType <= 2 && fb.slots[1].pduType <= 2
  }

  lemma ReceiveKeepsTyped(fb: Buffers, f: Fragment)
    requires WellFormed(fb) && Typed(fb) && Acceptable(f)
    ensures Typed(Receive(fb, f).0)
  {
    hide ToU16, Finish;
  }

  /** Neither slot carries the stamp. */
  predicate Unknown(fb: Buffers, stamp: nat)
    requires WellFormed(fb)
  {
    fb.slots[0].timeStamp != stamp && fb.slots[1].timeStamp != stamp
  }

  // ----- takeover -------------------------------------------------------------------------------

  /** Nothing is left of earlier pieces, except perhaps of a start. */
  predicate Blank(s: Slot)
    requires Shaped(s)
  {
    && s.recvNum == 0 && s.maxSeq == 0 && s.recvLen == 0 && !s.recvEnd
    && forall i :: 0 < i < FRAG_MAX_NUM ==> s.fragLen[i] == 0
  }

  /**
   Whatever another packet has left in the slot whose turn it is, a start takes
   it over and begins afresh, exactly if there is a piece that counts or nothing
   at all.  There may be neither after a start that came twice (`RepeatedStart`).
   */
  lemma StartTakesOver(fb: Buffers, p: Sent)
    requires WellFormed(fb) && Typed(fb) && Proper(p) && Unknown(fb, p.stamp)
    ensures Acceptable(Piece(p, 0))
    ensures
      var t := fb.order[0];
      var (fb', out) := Receive(fb, Piece(p, 0));
      && fb'.slots[1 - t] == fb.slots[1 - t]
      && (Holds(fb'.slots[t], p, Nothing(p)[0 := true]) <==> fb.slots[t].recvNum > 0 || Blank(fb.slots[t]))
      && (fb.slots[t].recvNum > 0 || Blank(fb.slots[t]) ==> out == None && fb'.slots[t].timeStamp == p.stamp)
  {
    var t := fb.order[0];
    var s := fb.slots[t];
    hide Holds, StoreFirst, Flatten, Blank;
    assert !Nothing(p)[0 := true][1];
    if s.recvNum > 0 || Blank(s) {
      BeginsAfresh(s, p);
      Filled(fb, p, Nothing(p), 0, t);
    } else {
      BeginsSpoilt(s, p);
    }
  }

  lemma BeginsAfresh(s: Slot, p: Sent)
    requires Shaped(s) && s.pduType <= 2 && Proper(p) && s.timeStamp != p.stamp && (s.recvNum > 0 || Blank(s))
    ensures var (s', v) := StoreFirst(s, Piece(p, 0));
      Holds(s', p, Nothing(p)[0 := true]) && s'.timeStamp == p.stamp && v == Waiting
  {
    var r := if s.recvNum > 0 then Reset(s)
             else s.(timeStamp := 0, pduLength := 0, stored := false, fragLen := s.fragLen[0 := 0]);
    ResetIsFree(s);
    SameStart(s, r, p);
    hide Begun, Holds, Reset, Flatten, StoreFirst;
    NothingCounts(p.pieces, Nothing(p));
    FreeHoldsNothing(r, p);
    StoreKeepsHolds(r, p, Nothing(p), 0);
    assert !Nothing(p)[0 := true][1];
  }

  lemma SameStart(s: Slot, r: Slot, p: Sent)
    requires Shaped(s) && Proper(p) && s.timeStamp != p.stamp
    requires r == if s.recvNum > 0 then Reset(s)
                  else s.(timeStamp := 0, pduLength := 0, stored := false, fragLen := s.fragLen[0 := 0])
    ensures StoreFirst(s, Piece(p, 0)) == StoreFirst(r, Piece(p, 0))
  {
    var f := Piece(p, 0);
    var s1, r1 := Begun(Cleared(s, p.stamp), f), Begun(Cleared(r, p.stamp), f);
    assert s1.fragLen == r1.fragLen;
    assert s1.(stored := true) == r1.(stored := true);
  }

  /** What is left of earlier pieces stays in the counts, or completes the slot before its time. */
  lemma BeginsSpoilt(s: Slot, p: Sent)
    requires Shaped(s) && Proper(p) && s.timeStamp != p.stamp && s.recvNum == 0 && !Blank(s)
    ensures var (s', v) := StoreFirst(s, Piece(p, 0));
      !Holds(s', p, Nothing(p)[0 := true]) && !Holds(Reset(s'), p, Nothing(p)[0 := true])
  {
    hide Flatten, Count, Highest, Weight;
    var none := Nothing(p);
    NothingCounts(p.pieces, none);
    Update(p.pieces, none, 0);
    Fits(|p.pieces[0]|);
    if s.recvLen > 0 { Shifts(s.recvLen, |p.pieces[0]|); }
    var s1 := Begun(s, Piece(p, 0));
    assert StoreFirst(s, Piece(p, 0)).0 in {Reset(s1), s1.(stored := true)};
    assert !Holds(s1.(stored := true), p, none[0 := true]) by {
      if s.maxSeq == 0 == s.recvLen && !s.recvEnd {
        var i :| 0 < i < FRAG_MAX_NUM && s.fragLen[i] != 0;
        assert s1.fragLen[i] != 0;
      }
    }
  }

  lemma Shifts(x: U16, n: U16)
    requires x > 0
    ensures ToU16(x + n) != n
  {
  }

  /** The packet's pieces lie in slot `ix` under its stamp; the other slot is anything but that. */
  ghost predicate Beside(fb: Buffers, p: Sent, got: seq<bool>, ix: nat) {
    && WellFormed(fb) && Proper(p) && |got| == |p.pieces| && ix < 2
    && Holds(fb.slots[ix], p, got) && fb.slots[ix].timeStamp == p.stamp && fb.slots[1 - ix].timeStamp != p.stamp
  }

  lemma BesideStep(fb: Buffers, p: Sent, got: seq<bool>, ix: nat, i: nat)
    requires Beside(fb, p, got, ix) && i < |got| && !got[i]
    ensures Acceptable(Piece(p, i))
    ensures
      var (fb', out) := Receive(fb, Piece(p, i));
      var got' := got[i := true];
      && fb'.slots[1 - ix] == fb.slots[1 - ix]
      && (if Full(got') then Free(fb'.slots[ix]) && out == Yield(p) else Beside(fb', p, got', ix) && out == None)
  {
    hide Holds, Free, Full, Receive, Flatten;
    StoreKeepsHolds(fb.slots[ix], p, got, i);
    Filled(fb, p, got, i, ix);
  }

  lemma {:induction false} RunBeside(fb: Buffers, p: Sent, got: seq<bool>, ix: nat, arriving: seq<nat>)
    requires Beside(fb, p, got, ix) && !Full(got) && Arrivals(got, arriving)
    ensures |Marked(got, arriving)| == |got|
    ensures
      var (fb', out) := Run(fb, p, got, arriving);
      && fb'.slots[1 - ix] == fb.slots[1 - ix]
      && (if Full(Marked(got, arriving)) then Free(fb'.slots[ix]) && out == AsSeq(Yield(p)) else out == [])
    decreases |arriving|
  {
    hide Receive, Holds, Free;
    if |arriving| > 0 {
      BesideStep(fb, p, got, ix, arriving[0]);
      var got' := got[arriving[0] := true];
      if Full(got') {
        assert |arriving[1..]| == 0;
      } else {
        RunBeside(Receive(fb, Piece(p, arriving[0])).0, p, got', ix, arriving[1..]);
      }
    }
  }

  /**
   Whatever incomplete packets are in the slots, a packet of another stamp whose
   start comes first is handed out with its last piece, exactly if its checksum
   is right; the slot it took is free then, and the other one as it was.
   */
  lemma TakeoverDelivers(fb: Buffers, p: Sent, rest: seq<nat>)
    requires WellFormed(fb) && Typed(fb) && Proper(p) && Unknown(fb, p.stamp)
    requires var s := fb.slots[fb.order[0]]; s.recvNum > 0 || Blank(s)
    requires Arrivals(Nothing(p)[0 := true], rest) && |rest| == |p.pieces| - 1
    ensures Arrivals(Nothing(p), [0] + rest)
    ensures
      var t := fb.order[0];
      var (fb', out) := Run(fb, p, Nothing(p), [0] + rest);
      out == AsSeq(Yield(p)) && Free(fb'.slots[t]) && fb'.slots[1 - t] == fb.slots[1 - t]
  {
    hide Receive, Holds, Free, Flatten, Count, Marked, Full;
    var none, t := Nothing(p), fb.order[0];
    var got := none[0 := true];
    assert ([0] + rest)[1..] == rest && ([0] + rest)[0] == 0;
    StartTakesOver(fb, p);
    var fb1 := Receive(fb, Piece(p, 0)).0;
    RestMarksAll(p, rest);
    RunBeside(fb1, p, got, t, rest);
    assert [] + Run(fb1, p, got, rest).1 == Run(fb1, p, got, rest).1;
  }

  lemma RestMarksAll(p: Sent, rest: seq<nat>)
    requires |p.pieces| >= 2 && Arrivals(Nothing(p)[0 := true], rest) && |rest| == |p.pieces| - 1
    ensures !Full(Nothing(p)[0 := true]) && Full(Marked(Nothing(p)[0 := true], rest))
  {
    var none := Nothing(p);
    assert !none[0 := true][1];
    NothingCounts(p.pieces, none);
    Update(p.pieces, none, 0);
    PermutationMarksAll(none[0 := true], rest);
    Counts(Marked(none[0 := true], rest));
  }

  // ----- pieces that come twice -------------------------------------------------------------------

  /** A middle piece that comes again changes nothing, exactly if it has any bytes. */
  lemma RepeatedMiddle(s: Slot, p: Sent, got: seq<bool>, i: nat)
    requires Proper(p) && Holds(s, p, got) && s.timeStamp == p.stamp
    requires 0 < i < |p.pieces| - 1 && |got| == |p.pieces| && got[i]
    ensures StoreLater(s, Piece(p, i)).0 == s <==> |p.pieces[i]| > 0
  {
    hide ToU16, Flatten, Count, Highest, Weight, Full, Holds;
    RepeatCounts(p, got, i);
    Tally(s, p, got);
    HeldPiece(s, p, got, i);
    var f, len := Piece(p, i), |p.pieces[i]|;
    Fits(len);
    if len > 0 {
      Fits(s.recvLen - len);
      Fits(s.recvLen);
      Fits(s.recvNum);
      assert s.fragLen[i := len] == s.fragLen && s.data[i := p.pieces[i]] == s.data;
    } else {
      Fits(s.recvLen);
      Fits(s.recvNum + 1);
    }
  }

  /** The end piece that comes again takes four more bytes off the count, which may run below zero. */
  lemma RepeatedEnd(s: Slot, p: Sent, got: seq<bool>)
    requires Proper(p) && Holds(s, p, got) && s.timeStamp == p.stamp
    requires |got| == |p.pieces| && got[|p.pieces| - 1]
    ensures
      var (s', v) := StoreLater(s, Piece(p, |p.pieces| - 1));
      if s.recvLen < 4 && 0 < s.pduLength then v.Refused? && Free(s')
      else s' == s.(recvLen := if s.recvLen >= 4 then s.recvLen - 4 else s.recvLen + 0xFFFC)
  {
    hide Flatten, Count, Highest, Weight, Full, Holds, ToU16, AllReceived;
    var i := |p.pieces| - 1;
    RepeatCounts(p, got, i);
    Tally(s, p, got);
    HeldPiece(s, p, got, i);
    var f, len: int := Piece(p, i), |p.pieces[i]|;
    Fits(len);
    Fits(s.recvNum);
    Below4(s.recvLen, len);
    assert s.fragLen[i := len] == s.fragLen && s.data[i := p.pieces[i]] == s.data;
  }

  lemma Below4(n: U16, len: int)
    requires 4 <= len <= n + 4 && len < 0x1_0000
    ensures ToU16(ToU16(n - len) + (len - 4)) == if n >= 4 then n - 4 else n + 0xFFFC
  {
  }

  lemma Tally(s: Slot, p: Sent, got: seq<bool>)
    requires Proper(p) && Holds(s, p, got)
    ensures Shaped(s) && |got| == |p.pieces| && s.pduType <= 2
    ensures s.recvNum == Count(got) && s.maxSeq == Highest(got) && s.recvLen == Weight(p.pieces, got)
    ensures s.recvEnd == got[|got| - 1] && s.pduLength == (if got[0] then |p.body| else 0) && s.stored == got[0]
    ensures forall j :: |got| <= j < FRAG_MAX_NUM ==> s.fragLen[j] == 0
  {
    hide Flatten, Count, Highest, Weight;
  }

  /** What a slot has counted when piece `i` is among its pieces. */
  lemma RepeatCounts(p: Sent, got: seq<bool>, i: nat)
    requires Proper(p) && |got| == |p.pieces| && i < |got| && got[i]
    ensures 0 < Count(got) <= |got| <= FRAG_MAX_NUM && i <= Highest(got) < |got|
    ensures Carried(p.pieces, i) <= Weight(p.pieces, got) <= |p.body| <= TAILROOM
  {
    var before := got[i := false];
    assert before[i := true] == got;
    Update(p.pieces, before, i);
    BodyLength(p, got);
    BodyLength(p, before);
  }

  /** A start that comes again begins afresh too, but counts for no piece: the packet can no longer be completed. */
  lemma RepeatedStart(s: Slot, p: Sent, got: seq<bool>)
    requires Proper(p) && Holds(s, p, got) && s.timeStamp == p.stamp
    requires |got| == |p.pieces| && got[0] && |p.pieces[0]| > 0
    ensures
      var (s', v) := StoreFirst(s, Piece(p, 0));
      && v.Waiting? && s'.recvNum == 0 && !s'.recvEnd && s'.maxSeq == 0
      && s'.recvLen == |p.pieces[0]| && s'.timeStamp == p.stamp && s'.stored && s'.pduLength == |p.body|
      && s'.data[0] == p.pieces[0] && s'.fragLen[0] == |p.pieces[0]|
      && forall j :: 0 < j < FRAG_MAX_NUM ==> s'.fragLen[j] == 0
  {
    hide Flatten, Count, Highest, Weight, Holds;
    RepeatCounts(p, got, 0);
    Tally(s, p, got);
    HeldPiece(s, p, got, 0);
  }

  // ----- fragments that are refused -----------------------------------------------------------------

  /**
   A start is refused exactly if the packet it announces, with four bytes more, does
   not fit a buffer; its slot is free then.
   */
  lemma StartRefusedExactly(s: Slot, f: Fragment)
    requires Shaped(s) && s.pduType <= 2 && f.First?
    ensures
      var (s', v) := StoreFirst(s, f);
      && (v.Refused? <==> (f.totalLength - f.headerLength) % 0x1_0000 + 4 > TAILROOM)
      && (v.Refused? ==> Free(s'))
  {
    hide Cleared;
    CleansKeepType(s, Stamp(f.stampSeq));
  }

  lemma CleansKeepType(s: Slot, stamp: nat)
    requires Shaped(s) && s.pduType <= 2
    ensures Cleared(s, stamp).pduType <= 2
  {
  }

  /**
   A new later fragment is refused exactly if the start is there and the packet would
   become longer than announced; its slot is free then.
   */
  lemma LaterRefusedExactly(s: Slot, p: Sent, got: seq<bool>, f: Fragment)
    requires Proper(p) && Holds(s, p, got) && |got| == |p.pieces| && |p.body| > 0
    requires f.Later? && Seq(f.stampSeq) < FRAG_MAX_NUM && |f.data| <= FRAG_MAX_LENGTH && (f.end ==> |f.data| >= 4)
    requires Seq(f.stampSeq) >= |got| || !got[Seq(f.stampSeq)]
    ensures
      var (s', v) := StoreLater(s, f);
      var bytes := if f.end then |f.data| - 4 else |f.data|;
      && (v.Refused? <==> got[0] && Weight(p.pieces, got) + bytes > |p.body|)
      && (v.Refused? ==> Free(s'))
  {
    hide Flatten, Count, Highest, Weight, Full, ToU16, Holds, AllReceived, Continued;
    BodyLength(p, got);
    Tally(s, p, got);
    if Seq(f.stampSeq) < |got| { Missing(s, p, got, Seq(f.stampSeq)); }
    assert Superseded(s, Seq(f.stampSeq)) == s;
    Fits(|f.data|);
    Fits(Weight(p.pieces, got) + if f.end then |f.data| - 4 else |f.data|);
  }
}
