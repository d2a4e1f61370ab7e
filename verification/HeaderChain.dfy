/** Chains of extension headers, as other senders may write them: what the parser makes of them. */
module HeaderChain {
  import opened Bytes
  import opened GseFormat

  /** Time stamps carry four bytes, fragment sequences two. */
  predicate Carries(h: OptHeader) {
    (h.kind == TIME_STAMP && |h.value| == 4) || (h.kind == FRAG_SEQUENCE && |h.value| == 2)
  }

  /** Each header names the next one, and the last one a payload type. */
  predicate Linked(headers: seq<OptHeader>, kind: U16) {
    if |headers| == 0 then !Regular(kind)
    else headers[0].kind == kind && Carries(headers[0]) && Linked(headers[1..], headers[0].next)
  }

  /** The value of the last sequence header. */
  function LastStamp(headers: seq<OptHeader>, stampSeq: U16): U16 {
    if |headers| == 0 then stampSeq
    else if headers[|headers| - 1].kind == FRAG_SEQUENCE then Read16(headers[|headers| - 1].value, 0)
    else LastStamp(headers[..|headers| - 1], stampSeq)
  }

  /** The whole chain is passed; only the last header's size is kept. */
  lemma {:induction false} ChainPassed(b: seq<Byte>, headers: seq<OptHeader>, e: Extension)
    requires |headers| > 0 && Linked(headers, e.next) && Holds(b, e.at, HeaderBytes(headers))
    ensures Carries(headers[|headers| - 1])
    ensures var last := headers[|headers| - 1];
      Extensions(b, e) == Extension(e.at + HeadersSize(headers), last.next, last.kind, |last.value| + 2,
                                    LastStamp(headers, e.stampSeq))
    decreases |headers|
  {
    hide Holds, HeaderBytes, HeadersSize, HeaderInfo, Extensions, LastStamp;
    var h, rest := headers[0], headers[1..];
    assert headers == [h] + rest;
    OneHeader(b, e.at, h, rest);
    var e' := Extension(e.at + |h.value| + 2, h.next, h.kind, |h.value| + 2, LastStamp([h], e.stampSeq));
    OnePassed(b, h, e);
    StampFromFront(h, rest, e.stampSeq);
    if rest == [] {
      AllPassed(b, e');
      NothingLeft(rest, e'.stampSeq);
    } else {
      assert headers[|headers| - 1] == rest[|rest| - 1];
      ChainPassed(b, rest, e');
    }
  }

  lemma OnePassed(b: seq<Byte>, h: OptHeader, e: Extension)
    requires Carries(h) && e.next == h.kind
    requires HeaderInfo(b, e.at, h.kind) == (|h.value| + 2, h.next) && Read16(b, e.at) == Read16(h.value, 0)
    ensures Extensions(b, e)
      == Extensions(b, Extension(e.at + |h.value| + 2, h.next, h.kind, |h.value| + 2, LastStamp([h], e.stampSeq)))
  {
    hide HeaderInfo;
    assert LastStamp([h][..0], e.stampSeq) == e.stampSeq;
  }

  lemma AllPassed(b: seq<Byte>, e: Extension)
    requires !Regular(e.next)
    ensures Extensions(b, e) == e
  {
  }

  lemma NothingLeft(headers: seq<OptHeader>, stampSeq: U16)
    requires headers == []
    ensures LastStamp(headers, stampSeq) == stampSeq && HeadersSize(headers) == 0
  {
  }

  lemma OneHeader(b: seq<Byte>, at: nat, h: OptHeader, rest: seq<OptHeader>)
    requires Carries(h) && Holds(b, at, HeaderBytes([h] + rest))
    ensures HeaderInfo(b, at, h.kind) == (|h.value| + 2, h.next) && Read16(b, at) == Read16(h.value, 0)
    ensures Holds(b, at + |h.value| + 2, HeaderBytes(rest))
    ensures HeadersSize([h] + rest) == |h.value| + 2 + HeadersSize(rest)
  {
    hide Holds;
    assert ([h] + rest)[1..] == rest;
    assert HeaderBytes([h] + rest) == h.value + Be16(h.next) + HeaderBytes(rest);
    HoldsParts(b, at, h.value + Be16(h.next), HeaderBytes(rest));
    HoldsParts(b, at, h.value, Be16(h.next));
    HoldsAt(b, at, h.value);
    assert At(b, at + 0) == h.value[0] && At(b, at + 1) == h.value[1];
    Holds16(b, at + |h.value|, h.next);
  }

  lemma {:induction false} StampFromFront(h: OptHeader, rest: seq<OptHeader>, stampSeq: U16)
    ensures LastStamp([h] + rest, stampSeq) == LastStamp(rest, LastStamp([h], stampSeq))
    decreases |rest|
  {
    if rest == [] {
      assert [h] + rest == [h];
    } else {
      var n := |rest| - 1;
      assert ([h] + rest)[..n + 1] == [h] + rest[..n];
      StampFromFront(h, rest[..n], stampSeq);
    }
  }

  /**
   Behind a concatenation header the payload type is read with its bytes
   exchanged, so it comes out right exactly if they are equal.
   */
  lemma ConcatenationExactly(b: seq<Byte>, at: nat, next: U16)
    requires Holds(b, at, Be16(next))
    ensures HeaderInfo(b, at, PDU_CONCAT) == (2, next % 256 * 256 + next / 256)
    ensures HeaderInfo(b, at, PDU_CONCAT).1 == next <==> next / 256 == next % 256
  {
    HoldsAt(b, at, Be16(next));
    assert At(b, at + 0) == Be16(next)[0] && At(b, at + 1) == Be16(next)[1];
  }

  /** A GSE packet with a chain of at least one header. */
  predicate ChainSendable(g: Group) {
    |g.headers| > 0 && Linked(g.headers, g.headers[0].kind) && Fitting(g)
  }

  /**
   A packet with a chain of extension headers: end, payload type and sequence
   value come out right.  The payload is read from its first byte, but its
   length is taken as if there were only the last header, so that it is right
   exactly if there is only one; of more, as many bytes too many are read as
   the earlier headers have.
   */
  lemma ChainParsed(b: seq<Byte>, at: nat, g: Group, stampSeq: U16)
    requires ChainSendable(g) && Holds(b, at, Encode(g))
    ensures var p, n := Parse(b, at, stampSeq), |g.headers| - 1;
      && p.size == |Encode(g)| && p.next == Following(g) && p.last == g.headers[n].kind
      && p.stampSeq == LastStamp(g.headers, stampSeq)
      && |p.data| == |Body(g)| + HeadersSize(g.headers[..n])
      && p.data[..|Body(g)|] == Body(g)
      && (p.data == Body(g) <==> n == 0)
  {
    hide Holds, Encode, ReadHead, Extensions, Linked, Body, Slice, HeaderBytes, HeadersSize, HeadOf, LastStamp,
      GseLength, SizesOf, Fitting;
    var behind := at + 2 + HeadOf(g).Size();
    HeadRead(b, at, g);
    FieldsHold(b, at, g);
    ChainSizes(g);
    ChainPassed(b, g.headers, Extension(behind, g.headers[0].kind, 0, 0, stampSeq));
    var ext := Extensions(b, Extension(behind, g.headers[0].kind, 0, 0, stampSeq));
    LengthTaken(g, ext.size);
    LongSlice(b, ext.at, Body(g), HeadersSize(g.headers[..|g.headers| - 1]));
    NoEmptyHeaders(g.headers[..|g.headers| - 1]);
  }

  lemma NoEmptyHeaders(headers: seq<OptHeader>)
    ensures HeadersSize(headers) == 0 <==> |headers| == 0
  {
  }

  /** Reading on behind what was looked for. */
  lemma LongSlice(b: seq<Byte>, at: nat, e: seq<Byte>, more: nat)
    requires Holds(b, at, e)
    ensures Slice(b, at, |e| + more)[..|e|] == e
  {
  }

  lemma ChainSizes(g: Group)
    requires ChainSendable(g)
    ensures HeadOf(g).Size() == SizesOf(g).Sum() && HeadOf(g).kind == g.headers[0].kind
    ensures HeadOf(g).length == HeadOf(g).Size() + |Body(g)| + HeadersSize(g.headers)
    ensures |Encode(g)| == 2 + HeadOf(g).length < 0x1_0000
  {
    hide GseLength, Encode, HeadersSize, Linked, TotalLength, DataLength, TotalField;
    Lengths(g);
    PayloadCounted(g);
  }

  /** The last header alone is taken off the length. */
  lemma LengthTaken(g: Group, last: nat)
    requires ChainSendable(g) && last == |g.headers[|g.headers| - 1].value| + 2
    ensures ToU16(HeadOf(g).length - (last + HeadOf(g).Size())) == |Body(g)| + HeadersSize(g.headers[..|g.headers| - 1])
  {
    hide Linked, HeadOf, Body, HeadersSize, ToU16, Encode, Fitting;
    ChainSizes(g);
    LastHeader(g.headers);
    Fits(|Body(g)| + HeadersSize(g.headers[..|g.headers| - 1]));
  }

  lemma {:induction false} LastHeader(headers: seq<OptHeader>)
    requires |headers| > 0
    ensures HeadersSize(headers) == HeadersSize(headers[..|headers| - 1]) + |headers[|headers| - 1].value| + 2
  {
    if |headers| > 1 {
      LastHeader(headers[1..]);
      assert headers[1..][..|headers| - 2] == headers[..|headers| - 1][1..];
    }
  }
}
