/** Unsigned 32-bit indices: every ring index is kept modulo 2^32 and masked only when a slot is addressed. */
module RingArith {

  const MODULUS: int := 0x1_0000_0000

  type U32 = x: int | 0 <= x < 0x1_0000_0000

  function Wrap(x: int): U32 {
    x % MODULUS
  }

  lemma WrapShift(a: int, b: int)
    ensures Wrap(Wrap(a) + b) == Wrap(a + b)
    ensures Wrap(b + Wrap(a)) == Wrap(a + b)
    ensures Wrap(b - Wrap(a)) == Wrap(b - a)
  {
    var q := a / MODULUS;
    assert a == q * MODULUS + Wrap(a);
    WrapPeriod(Wrap(a) + b, q);
    WrapPeriod(b - a, q);
  }

  lemma WrapPeriod(x: int, q: int)
    ensures Wrap(x + q * MODULUS) == Wrap(x)
  {
  }

  /** Wrapped values determine the counters they stand for when these are less than 2^32 apart. */
  lemma WrapInjective(a: int, b: int)
    requires Wrap(a) == Wrap(b)
    requires -MODULUS < a - b < MODULUS
    ensures a == b
  {
  }

  lemma WrapSmall(x: int)
    requires 0 <= x < MODULUS
    ensures Wrap(x) == x
  {
  }

  /** Two positions less than `size` apart never share a slot. */
  lemma SlotsDistinct(size: nat, p: int, q: int)
    requires 0 < size
    requires p != q && -(size as int) < p - q < size
    ensures p % size != q % size
  {
    if p % size == q % size {
      var a, b := p / size, q / size;
      assert p - q == size * (a - b);
      ProductBelow(size, a - b);
    }
  }

  lemma ProductBelow(size: nat, d: int)
    requires 0 < size
    requires -(size as int) < size * d < size
    ensures d == 0
  {
  }

  /** Masking a wrapped index addresses the same slot as the unbounded counter. */
  lemma WrapSlot(size: nat, p: int)
    requires 0 < size && MODULUS % size == 0
    ensures Wrap(p) % size == p % size
  {
    var k, q := MODULUS / size, p / MODULUS;
    assert MODULUS == size * k;
    assert p == Wrap(p) + q * (size * k);
    assert q * (size * k) == size * (q * k) by { Regroup(q, size, k); }
    ModPlus(size, Wrap(p), q * k);
  }

  lemma Regroup(a: int, b: int, c: int)
    ensures a * (b * c) == b * (a * c)
  {
  }

  lemma ModPlus(size: nat, x: int, m: int)
    requires 0 < size
    ensures (x + size * m) % size == x % size
  {
    var y := x + size * m;
    var d := (y / size) - (x / size) - m;
    assert y - x == size * m;
    assert y == size * (y / size) + y % size && x == size * (x / size) + x % size;
    assert y % size - x % size == -(size * d) by {
      assert size * (y / size) - size * (x / size) - size * m == size * d by {
        Distribute(size, y / size, x / size, m);
      }
    }
    assert size * d == x % size - y % size;
    ProductBelow(size, d);
  }

  lemma Distribute(s: int, a: int, b: int, c: int)
    ensures s * a - s * b - s * c == s * (a - b - c)
  {
  }

  /** The slot that the copy loops reach for element `k` of a block of `n` that starts at `oldHead`. */
  function SlotAt(size: nat, oldHead: U32, n: nat, k: nat): (i: nat)
    requires 0 < size && k < n <= size
    ensures i < size
  {
    var idx := oldHead % size;
    if idx + n < size || idx + k < size then idx + k else idx + k - size
  }

  lemma SlotAtPosition(size: nat, p: nat, n: nat, k: nat)
    requires 0 < size && MODULUS % size == 0 && k < n <= size
    ensures SlotAt(size, Wrap(p), n, k) == (p + k) % size
  {
    WrapSlot(size, p);
    var idx := p % size;
    ModSplit(size, p, idx + k);
    if idx + k < size {
      ModSmall(size, idx + k);
    } else {
      ModPlus(size, idx + k - size, 1);
      ModSmall(size, idx + k - size);
    }
  }

  lemma ModSplit(size: nat, p: nat, r: int)
    requires 0 < size
    ensures (p + (r - p % size)) % size == r % size
  {
    assert p + (r - p % size) == r + size * (p / size);
    ModPlus(size, r, p / size);
  }

  lemma ModSmall(size: nat, x: int)
    requires 0 <= x < size
    ensures x % size == x
  {
  }
}
