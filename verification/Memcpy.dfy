/**
 The vendored block copy, SSE variant.  An array stands for a stretch of memory
 that begins at a multiple of 16, so the alignment of an element is its index
 modulo 16; source and destination are different arrays, as `memcpy` demands.
 */
module Memcpy {
  import opened Bytes

  /** `before` with `block` laid over it at `at`. */
  function Overlay(before: seq<Byte>, at: nat, block: seq<Byte>): (r: seq<Byte>)
    requires at + |block| <= |before|
    ensures |r| == |before|
  {
    before[..at] + block + before[at + |block|..]
  }

  function Max(a: nat, b: nat): nat { if a > b then a else b }

  /** Laying on a further piece of the same source, overlapping what is there or not, is laying on one longer piece. */
  lemma Extends(before: seq<Byte>, d: nat, from: seq<Byte>, s: nat, k: nat, j: nat, w: nat)
    requires j <= k && s + Max(k, j + w) <= |from| && d + Max(k, j + w) <= |before|
    ensures Overlay(Overlay(before, d, from[s..s + k]), d + j, from[s + j..s + j + w])
         == Overlay(before, d, from[s..s + Max(k, j + w)])
  {
    var x, y := Overlay(before, d, from[s..s + k]), from[s + j..s + j + w];
    var l, r := Overlay(x, d + j, y), Overlay(before, d, from[s..s + Max(k, j + w)]);
    forall i | 0 <= i < |before| ensures l[i] == r[i] {
      if i < d + j || i >= d + j + w {
        assert l[i] == x[i];
      } else {
        assert l[i] == y[i - d - j] == from[s + (i - d)];
      }
    }
  }

  /** The first `k` bytes are copied, and nothing outside has changed. */
  ghost predicate Copied(dst: array<Byte>, before: seq<Byte>, d: nat, src: array<Byte>, s: nat, k: nat)
    reads dst, src
  {
    |before| == dst.Length && d + k <= dst.Length && s + k <= src.Length && dst[..] == Overlay(before, d, src[s..s + k])
  }

  // ----- the moves of fixed width ---------------------------------------------------------------

  /** A store of one vector or scalar. */
  method Put(dst: array<Byte>, p: nat, bytes: seq<Byte>)
    requires p + |bytes| <= dst.Length
    modifies dst
    ensures dst[..] == Overlay(old(dst[..]), p, bytes)
  {
    forall i | 0 <= i < |bytes| {
      dst[p + i] := bytes[i];
    }
  }

  method Mov16(dst: array<Byte>, d: nat, src: array<Byte>, s: nat)
    requires dst != src && d + 16 <= dst.Length && s + 16 <= src.Length
    modifies dst
    ensures dst[..] == Overlay(old(dst[..]), d, src[s..s + 16])
  {
    hide Overlay;
    var xmm0 := src[s..s + 16];
    Put(dst, d, xmm0);
  }

  /** A move of `w` bytes at distance `j` from the start, of which the first `k - j` may be there already. */
  lemma Moved(before: seq<Byte>, now: seq<Byte>, next: seq<Byte>, d: nat, from: seq<Byte>, s: nat, k: nat, j: nat,
      w: nat)
    requires j <= k && s + Max(k, j + w) <= |from| && d + Max(k, j + w) <= |before|
    requires now == Overlay(before, d, from[s..s + k]) && next == Overlay(now, d + j, from[s + j..s + j + w])
    ensures next == Overlay(before, d, from[s..s + Max(k, j + w)])
  {
    Extends(before, d, from, s, k, j, w);
  }

  /** `count` moves of 16 bytes side by side: rte_mov32, rte_mov64, rte_mov128 and rte_mov256. */
  method MovBlocks(dst: array<Byte>, d: nat, src: array<Byte>, s: nat, count: nat)
    requires dst != src && d + 16 * count <= dst.Length && s + 16 * count <= src.Length
    modifies dst
    ensures dst[..] == Overlay(old(dst[..]), d, src[s..s + 16 * count])
  {
    hide Overlay;
    ghost var before := dst[..];
    NothingLaid(before, d, src[..], s);
    for i := 0 to count
      invariant Copied(dst, before, d, src, s, 16 * i)
    {
      ghost var now := dst[..];
      Mov16(dst, d + 16 * i, src, s + 16 * i);
      Step(before, now, dst[..], d, src[..], s, 16 * i, 16);
    }
  }

  lemma NothingLaid(before: seq<Byte>, d: nat, from: seq<Byte>, s: nat)
    requires d <= |before| && s <= |from|
    ensures Overlay(before, d, from[s..s]) == before
  {
  }

  lemma Step(before: seq<Byte>, now: seq<Byte>, next: seq<Byte>, d: nat, from: seq<Byte>, s: nat, k: nat, w: nat)
    requires s + k + w <= |from| && d + k + w <= |before|
    requires now == Overlay(before, d, from[s..s + k]) && next == Overlay(now, d + k, from[s + k..s + k + w])
    ensures next == Overlay(before, d, from[s..s + k + w])
  {
    hide Overlay;
    Moved(before, now, next, d, from, s, k, k, w);
  }

  /** `count` moves side by side that continue, or overlap, what is copied already. */
  method Lay(dst: array<Byte>, p: nat, src: array<Byte>, q: nat, count: nat, ghost before: seq<Byte>, ghost d: nat,
      ghost s: nat, ghost k: nat)
    requires dst != src && Copied(dst, before, d, src, s, k)
    requires d <= p <= d + k && p + 16 * count <= dst.Length && q == s + (p - d) && q + 16 * count <= src.Length
    modifies dst
    ensures Copied(dst, before, d, src, s, Max(k, p - d + 16 * count))
  {
    hide Overlay;
    ghost var now := dst[..];
    MovBlocks(dst, p, src, q, count);
    Moved(before, now, dst[..], d, src[..], s, k, p - d, 16 * count);
  }

  // ----- less than 16 bytes -----------------------------------------------------------------------

  method MovScalar(dst: array<Byte>, p: nat, src: array<Byte>, q: nat, w: nat, ghost before: seq<Byte>, ghost d: nat,
      ghost s: nat)
    requires dst != src && d <= p && q == s + (p - d) && p + w <= dst.Length && q + w <= src.Length
    requires Copied(dst, before, d, src, s, p - d)
    modifies dst
    ensures Copied(dst, before, d, src, s, p - d + w)
  {
    hide Overlay;
    ghost var now := dst[..];
    var word := src[q..q + w];
    Put(dst, p, word);
    Step(before, now, dst[..], d, src[..], s, p - d, w);
  }

  /** One byte, two, four and eight, as the bits of the length say. */
  method CopySmall(dst: array<Byte>, d: nat, src: array<Byte>, s: nat, n: nat)
    requires dst != src && n < 16 && d + n <= dst.Length && s + n <= src.Length
    modifies dst
    ensures dst[..] == Overlay(old(dst[..]), d, src[s..s + n])
  {
    ghost var before := dst[..];
    Binary(n);
    SmallSteps(dst, d, src, s, n, before);
  }

  method SmallSteps(dst: array<Byte>, d: nat, src: array<Byte>, s: nat, n: nat, ghost before: seq<Byte>)
    requires dst != src && d + n <= dst.Length && s + n <= src.Length && before == dst[..]
    requires n == n % 2 + 2 * (n / 2 % 2) + 4 * (n / 4 % 2) + 8 * (n / 8 % 2)
    modifies dst
    ensures Copied(dst, before, d, src, s, n)
  {
    hide Copied;
    Untouched(dst, d, src, s);
    var p, q := d, s;
    if n % 2 == 1 {
      MovScalar(dst, p, src, q, 1, before, d, s);
      p, q := p + 1, q + 1;
    }
    if n / 2 % 2 == 1 {
      MovScalar(dst, p, src, q, 2, before, d, s);
      p, q := p + 2, q + 2;
    }
    if n / 4 % 2 == 1 {
      MovScalar(dst, p, src, q, 4, before, d, s);
      p, q := p + 4, q + 4;
    }
    if n / 8 % 2 == 1 {
      MovScalar(dst, p, src, q, 8, before, d, s);
    }
  }

  lemma Untouched(dst: array<Byte>, d: nat, src: array<Byte>, s: nat)
    requires d <= dst.Length && s <= src.Length
    ensures Copied(dst, dst[..], d, src, s, 0)
  {
  }

  lemma Binary(n: nat)
    requires n < 16
    ensures n == n % 2 + 2 * (n / 2 % 2) + 4 * (n / 4 % 2) + 8 * (n / 8 % 2)
  {
  }

  // ----- the tails, each falling through to the next ------------------------------------------------

  /** From COPY_BLOCK_64_BACK15 on: at most 64 bytes left, and 16 to step back over unless 16 are left. */
  method Back64(dst: array<Byte>, p: nat, src: array<Byte>, q: nat, n: nat, ghost before: seq<Byte>, ghost d: nat,
      ghost s: nat)
    requires dst != src && d <= p && q == s + (p - d) && p + n <= dst.Length && q + n <= src.Length
    requires Copied(dst, before, d, src, s, p - d)
    requires n <= 64 && (n == 0 || p - d >= 16 || n >= 16)
    modifies dst
    ensures Copied(dst, before, d, src, s, p - d + n)
  {
    hide Copied;
    var p', q', n' := p, q, n;
    if n' >= 32 {
      n' := n' - 32;
      Lay(dst, p', src, q', 2, before, d, s, p' - d);
      p', q' := p' + 32, q' + 32;
    }
    if n' > 16 {
      Lay(dst, p', src, q', 1, before, d, s, p' - d);
      Lay(dst, p' + n' - 16, src, q' + n' - 16, 1, before, d, s, p' - d + 16);
    } else if n' > 0 {
      Lay(dst, p' + n' - 16, src, q' + n' - 16, 1, before, d, s, p' - d);
    }
  }

  method Back128(dst: array<Byte>, p: nat, src: array<Byte>, q: nat, n: nat, ghost before: seq<Byte>, ghost d: nat,
      ghost s: nat)
    requires dst != src && d <= p && q == s + (p - d) && p + n <= dst.Length && q + n <= src.Length
    requires Copied(dst, before, d, src, s, p - d)
    requires n <= 128 && (n == 0 || p - d >= 16 || n >= 16)
    modifies dst
    ensures Copied(dst, before, d, src, s, p - d + n)
  {
    hide Copied;
    if n >= 64 {
      Lay(dst, p, src, q, 4, before, d, s, p - d);
      Back64(dst, p + 64, src, q + 64, n - 64, before, d, s);
    } else {
      Back64(dst, p, src, q, n, before, d, s);
    }
  }

  method Back255(dst: array<Byte>, p: nat, src: array<Byte>, q: nat, n: nat, ghost before: seq<Byte>, ghost d: nat,
      ghost s: nat)
    requires dst != src && d <= p && q == s + (p - d) && p + n <= dst.Length && q + n <= src.Length
    requires Copied(dst, before, d, src, s, p - d)
    requires n <= 256 && (n == 0 || p - d >= 16 || n >= 16)
    modifies dst
    ensures Copied(dst, before, d, src, s, p - d + n)
  {
    hide Copied;
    if n >= 128 {
      Lay(dst, p, src, q, 8, before, d, s, p - d);
      Back128(dst, p + 128, src, q + 128, n - 128, before, d, s);
    } else {
      Back128(dst, p, src, q, n, before, d, s);
    }
  }

  // ----- loads at another alignment -------------------------------------------------------------------

  function Load(src: seq<Byte>, at: nat): (x: seq<Byte>)
    requires at + 16 <= |src|
    ensures |x| == 16
  {
    src[at..at + 16]
  }

  /** Sixteen bytes from `offset` on out of two vectors. */
  function Alignr(high: seq<Byte>, low: seq<Byte>, offset: nat): (x: seq<Byte>)
    requires |high| == 16 == |low| && offset <= 16
    ensures |x| == 16
  {
    (low + high)[offset..offset + 16]
  }

  /** The unaligned stretch is recovered from two aligned loads around it. */
  lemma AlignrLoads(src: seq<Byte>, at: nat, offset: nat)
    requires at + 32 <= |src| && offset <= 16
    ensures Alignr(Load(src, at + 16), Load(src, at), offset) == src[at + offset..at + offset + 16]
  {
    var x := Load(src, at) + Load(src, at + 16);
    assert x == src[at..at + 32];
    var l, r := Alignr(Load(src, at + 16), Load(src, at), offset), src[at + offset..at + offset + 16];
    forall i | 0 <= i < 16 ensures l[i] == r[i] {
      assert x[offset + i] == src[at..at + 32][offset + i];
    }
  }

  /** One round of the block loop: `count + 1` loads from `offset` bytes before, `count` stores. */
  method UnalignedRound(dst: array<Byte>, p: nat, src: array<Byte>, q: nat, count: nat, offset: nat,
                        ghost before: seq<Byte>, ghost d: nat, ghost s: nat, ghost k: nat)
    requires dst != src && d <= p <= d + k && q == s + (p - d) && 0 < offset < 16 && offset <= q
    requires p + 16 * count <= dst.Length && q - offset + 16 * (count + 1) <= src.Length
    requires Copied(dst, before, d, src, s, k)
    modifies dst
    ensures Copied(dst, before, d, src, s, Max(k, p - d + 16 * count))
  {
    hide Copied;
    var low := Load(src[..], q - offset);
    for i := 0 to count
      invariant low == Load(src[..], q - offset + 16 * i)
      invariant Copied(dst, before, d, src, s, Max(k, p - d + 16 * i))
    {
      var high := Load(src[..], q - offset + 16 * (i + 1));
      AlignrLoads(src[..], q - offset + 16 * i, offset);
      Store(dst, p + 16 * i, Alignr(high, low, offset), src, before, d, s, Max(k, p - d + 16 * i));
      low := high;
    }
  }

  method Store(dst: array<Byte>, p: nat, vector: seq<Byte>, ghost src: array<Byte>,
               ghost before: seq<Byte>, ghost d: nat, ghost s: nat, ghost k: nat)
    requires dst != src && d <= p <= d + k && p + 16 <= dst.Length && s + (p - d) + 16 <= src.Length
    requires |vector| == 16 && vector == src[..][s + (p - d)..s + (p - d) + 16]
    requires Copied(dst, before, d, src, s, k)
    modifies dst
    ensures Copied(dst, before, d, src, s, Max(k, p - d + 16))
  {
    hide Overlay;
    ghost var now := dst[..];
    Put(dst, p, vector);
    Moved(before, now, dst[..], d, src[..], s, k, p - d, 16);
  }

  /**
   Blocks of 128 bytes, then of 32, as long as the loads stay inside; at most 47
   bytes remain.  Up to `k` bytes may have been copied ahead of the position.
   */
  method MoveUnaligned(dst: array<Byte>, p0: nat, src: array<Byte>, q0: nat, n0: nat, offset: nat,
                       ghost before: seq<Byte>, ghost d: nat, ghost s: nat, ghost k: nat)
    returns (p: nat, q: nat, n: nat)
    requires dst != src && d <= p0 <= d + k <= p0 + 128 && q0 == s + (p0 - d) && 0 < offset < 16 && offset <= q0
    requires n0 >= 144 && p0 + n0 <= dst.Length && q0 + n0 <= src.Length
    requires Copied(dst, before, d, src, s, k)
    modifies dst
    ensures p0 + 128 <= p && p + n == p0 + n0 && q == s + (p - d) && 0 < n <= 47
    ensures Copied(dst, before, d, src, s, p - d)
  {
    hide Copied;
    p, q, n := p0, q0, n0;
    while n >= 128 + 16 - offset
      invariant p + n == p0 + n0 && q == s + (p - d) && 16 - offset <= n
      invariant p == p0 || p >= p0 + 128
      invariant Copied(dst, before, d, src, s, if p == p0 then k else p - d)
    {
      UnalignedRound(dst, p, src, q, 8, offset, before, d, s, if p == p0 then k else p - d);
      p, q, n := p + 128, q + 128, n - 128;
    }
    var kept := (n - 16 + offset) % 128 + 16 - offset;
    assert kept == n;
    p, q, n := p + (n - kept), q + (n - kept), kept;
    if n >= 32 + 16 - offset {
      while n >= 32 + 16 - offset
        invariant p0 + 128 <= p && p + n == p0 + n0 && q == s + (p - d) && 16 - offset <= n
        invariant Copied(dst, before, d, src, s, p - d)
      {
        UnalignedRound(dst, p, src, q, 2, offset, before, d, s, p - d);
        p, q, n := p + 32, q + 32, n - 32;
      }
      var left := (n - 16 + offset) % 32 + 16 - offset;
      assert left == n;
      p, q, n := p + (n - left), q + (n - left), left;
    }
  }

  // ----- the copies --------------------------------------------------------------------------------------

  /** `rte_memcpy_generic`: any length, any alignment. */
  method CopyGeneric(dst: array<Byte>, d: nat, src: array<Byte>, s: nat, n: nat)
    requires dst != src && d + n <= dst.Length && s + n <= src.Length
    modifies dst
    ensures dst[..] == Overlay(old(dst[..]), d, src[s..s + n])
  {
    hide Overlay;
    if n < 16 {
      CopySmall(dst, d, src, s, n);
      return;
    }
    ghost var before := dst[..];
    NothingLaid(before, d, src[..], s);
    CopyVectors(dst, d, src, s, n, before);
  }

  /** From 16 bytes on: by length, in moves that may overlap. */
  method CopyVectors(dst: array<Byte>, d: nat, src: array<Byte>, s: nat, n: nat, ghost before: seq<Byte>)
    requires dst != src && n >= 16 && d + n <= dst.Length && s + n <= src.Length
    requires Copied(dst, before, d, src, s, 0)
    modifies dst
    ensures Copied(dst, before, d, src, s, n)
  {
    hide Copied;
    if n <= 32 {
      Lay(dst, d, src, s, 1, before, d, s, 0);
      Lay(dst, d + n - 16, src, s + n - 16, 1, before, d, s, 16);
    } else if n <= 48 {
      Lay(dst, d, src, s, 2, before, d, s, 0);
      Lay(dst, d + n - 16, src, s + n - 16, 1, before, d, s, 32);
    } else if n <= 64 {
      Lay(dst, d, src, s, 2, before, d, s, 0);
      Lay(dst, d + 32, src, s + 32, 1, before, d, s, 32);
      Lay(dst, d + n - 16, src, s + n - 16, 1, before, d, s, 48);
    } else if n <= 128 {
      Back128(dst, d, src, s, n, before, d, s);
    } else if n <= 512 {
      if n >= 256 {
        Lay(dst, d, src, s, 8, before, d, s, 0);
        Lay(dst, d + 128, src, s + 128, 8, before, d, s, 128);
        Back255(dst, d + 256, src, s + 256, n - 256, before, d, s);
      } else {
        Back255(dst, d, src, s, n, before, d, s);
      }
    } else {
      CopyLong(dst, d, src, s, n, before);
    }
  }

  /** More than 512 bytes: the stores are brought to a multiple of 16 first, with at least the first 16 bytes copied. */
  method CopyLong(dst: array<Byte>, d: nat, src: array<Byte>, s: nat, n: nat, ghost before: seq<Byte>)
    requires dst != src && n > 512 && d + n <= dst.Length && s + n <= src.Length
    requires Copied(dst, before, d, src, s, 0)
    modifies dst
    ensures Copied(dst, before, d, src, s, n)
  {
    hide Copied;
    var p, q, left := d, s, n;
    ghost var k := 0;
    if d % 16 > 0 {
      var dstofss := 16 - d % 16 + 16;
      Lay(dst, p, src, q, 2, before, d, s, 0);
      p, q, left, k := p + dstofss, q + dstofss, left - dstofss, 32;
    }
    if q % 16 == 0 {
      AlignedBlocks(dst, p, src, q, left, before, d, s, k);
    } else {
      p, q, left := MoveUnaligned(dst, p, src, q, left, q % 16, before, d, s, k);
      Back64(dst, p, src, q, left, before, d, s);
    }
  }

  /** Blocks of 256 bytes, and what is left. */
  method AlignedBlocks(dst: array<Byte>, p0: nat, src: array<Byte>, q0: nat, n0: nat,
                       ghost before: seq<Byte>, ghost d: nat, ghost s: nat, ghost k: nat)
    requires dst != src && d <= p0 <= d + k <= p0 + 256 && q0 == s + (p0 - d)
    requires n0 >= 256 && p0 + n0 <= dst.Length && q0 + n0 <= src.Length
    requires Copied(dst, before, d, src, s, k)
    modifies dst
    ensures Copied(dst, before, d, src, s, p0 - d + n0)
  {
    hide Copied;
    var p, q, n := p0, q0, n0;
    while n >= 256
      invariant p + n == p0 + n0 && q == s + (p - d)
      invariant p == p0 || p >= p0 + 256
      invariant Copied(dst, before, d, src, s, if p == p0 then k else p - d)
    {
      Lay(dst, p, src, q, 16, before, d, s, if p == p0 then k else p - d);
      p, q, n := p + 256, q + 256, n - 256;
    }
    Back255(dst, p, src, q, n, before, d, s);
  }

  /** `rte_memcpy_aligned`: both ends at a multiple of 16; the code is right at any alignment. */
  method CopyAligned(dst: array<Byte>, d: nat, src: array<Byte>, s: nat, n: nat)
    requires dst != src && d + n <= dst.Length && s + n <= src.Length
    modifies dst
    ensures dst[..] == Overlay(old(dst[..]), d, src[s..s + n])
  {
    hide Overlay;
    if n < 16 {
      CopySmall(dst, d, src, s, n);
      return;
    }
    ghost var before := dst[..];
    NothingLaid(before, d, src[..], s);
    CopyAlignedVectors(dst, d, src, s, n, before);
  }

  method CopyAlignedVectors(dst: array<Byte>, d: nat, src: array<Byte>, s: nat, n: nat, ghost before: seq<Byte>)
    requires dst != src && n >= 16 && d + n <= dst.Length && s + n <= src.Length
    requires Copied(dst, before, d, src, s, 0)
    modifies dst
    ensures Copied(dst, before, d, src, s, n)
  {
    hide Copied;
    if n <= 32 {
      Lay(dst, d, src, s, 1, before, d, s, 0);
      Lay(dst, d + n - 16, src, s + n - 16, 1, before, d, s, 16);
    } else if n <= 64 {
      Lay(dst, d, src, s, 2, before, d, s, 0);
      Lay(dst, d + n - 32, src, s + n - 32, 2, before, d, s, 32);
    } else {
      var p, q, left := d, s, n;
      while left >= 64
        invariant p + left == d + n && d <= p && q == s + (p - d)
        invariant p == d || p >= d + 64
        invariant Copied(dst, before, d, src, s, p - d)
      {
        Lay(dst, p, src, q, 4, before, d, s, p - d);
        p, q, left := p + 64, q + 64, left - 64;
      }
      Lay(dst, p + left - 64, src, q + left - 64, 4, before, d, s, p - d);
    }
  }

  /** `rte_memcpy`: the destination gets exactly the source's bytes, and no byte outside it changes. */
  method Copy(dst: array<Byte>, d: nat, src: array<Byte>, s: nat, n: nat)
    requires dst != src && d + n <= dst.Length && s + n <= src.Length
    modifies dst
    ensures dst[d..d + n] == src[s..s + n]
    ensures dst[..d] == old(dst[..d]) && dst[d + n..] == old(dst[d + n..])
  {
    if d % 16 == 0 && s % 16 == 0 {
      CopyAligned(dst, d, src, s, n);
    } else {
      CopyGeneric(dst, d, src, s, n);
    }
  }
}
