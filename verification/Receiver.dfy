/** The receiver: what it makes of the GSE packets it is shown, one after the other. */
module Receiver {
  import opened Bytes
  import opened GseFormat
  import opened Reassembly

  const MAX_FRAG_ID: nat := 256

  /** One set of slots for each fragment ID. */
  predicate AllWellFormed(state: seq<Buffers>) {
    |state| == MAX_FRAG_ID && forall i :: 0 <= i < |state| ==> WellFormed(state[i])
  }

  function AsFragment(p: Parsed): Fragment {
    if p.start then First(p.stampSeq, p.total, p.headerLength, p.next, p.data) else Later(p.end, p.stampSeq, p.data)
  }

  /** The receive buffers can take it. */
  predicate Receivable(p: Parsed) {
    (p.start && p.end) || Acceptable(AsFragment(p))
  }

  /** A whole packet is passed on unless it is a control message or too long for a buffer; a concatenation is not. */
  function SinglePdu(p: Parsed): seq<Pdu> {
    if p.last == PDU_CONCAT || p.next == PROTOCOL_CTRL || TAILROOM < |p.data| then [] else [Pdu(p.next, p.data)]
  }

  function Handle(state: seq<Buffers>, p: Parsed): (r: (seq<Buffers>, seq<Pdu>))
    requires AllWellFormed(state) && Receivable(p)
    ensures AllWellFormed(r.0)
  {
    if p.start && p.end then (state, SinglePdu(p))
    else
      var (fb, out) := Receive(state[p.id], AsFragment(p));
      (state[p.id := fb], AsSeq(out))
  }

  predicate AllReceivable(ps: seq<Parsed>) { forall p :: p in ps ==> Receivable(p) }

  function HandleAll(state: seq<Buffers>, ps: seq<Parsed>): (r: (seq<Buffers>, seq<Pdu>))
    requires AllWellFormed(state) && AllReceivable(ps)
    ensures AllWellFormed(r.0)
    decreases |ps|
  {
    if |ps| == 0 then (state, [])
    else
      var (before, out) := HandleAll(state, ps[..|ps| - 1]);
      var (after, more) := Handle(before, ps[|ps| - 1]);
      (after, out + more)
  }

  lemma {:induction false} HandleAppend(state: seq<Buffers>, a: seq<Parsed>, b: seq<Parsed>)
    requires AllWellFormed(state) && AllReceivable(a) && AllReceivable(b)
    ensures AllReceivable(a + b)
    ensures var (s1, out1) := HandleAll(state, a); var (s2, out2) := HandleAll(s1, b);
      HandleAll(state, a + b) == (s2, out1 + out2)
    decreases |b|
  {
    hide Handle, AllWellFormed;
    if b == [] {
      assert a + b == a;
      assert HandleAll(state, a).1 + [] == HandleAll(state, a).1;
    } else {
      var n := |b| - 1;
      assert (a + b)[..|a| + n] == a + b[..n];
      HandleAppend(state, a, b[..n]);
      var (s1, out1) := HandleAll(state, a);
      var (s2, out2) := HandleAll(s1, b[..n]);
      var (s3, more) := Handle(s2, b[n]);
      assert out1 + out2 + more == out1 + (out2 + more);
    }
  }
}
