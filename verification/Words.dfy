/** Machine words of the firmware: bytes, free-running 32-bit counters, and the
    power-of-two masking by which such counters index ring buffers. */
module Words {
  const TWO32 := 0x1_0000_0000

  type Byte = b: int | 0 <= b < 256
  type U16 = n: int | 0 <= n < 0x1_0000
  type U32 = n: int | 0 <= n < 0x1_0000_0000

  type Packet = seq<Byte>

  function Wrap16(n: int): U16 { n % 0x1_0000 }

  function Wrap32(n: int): U32 { n % TWO32 }

  /** C's `(int32_t)x` on a 32-bit word. */
  function Signed32(n: U32): int {
    if n < 0x8000_0000 then n else n - TWO32
  }

  function Min(a: int, b: int): int { if a <= b then a else b }

  function Max(a: int, b: int): int { if a <= b then b else a }

  function Pow2(k: nat): (p: nat)
    ensures p > 0
  {
    if k == 0 then 1 else 2 * Pow2(k - 1)
  }

  /** Sizes for which masking a wrapped counter is the same as masking the
      unbounded count behind it. */
  ghost predicate DividesTwo32(size: nat) {
    size > 0 && exists k: nat :: k * size == TWO32
  }

  /** Masking a wrapped 32-bit index finds the slot of the unbounded index. */
  lemma MaskWrapped(n: nat, size: nat)
    requires DividesTwo32(size)
    ensures Wrap32(n) % size == n % size
  {
    var k: nat :| k * size == TWO32;
    var q := n / TWO32;
    assert n == TWO32 * q + Wrap32(n);
    assert n == Wrap32(n) + size * (k * q) by {
      assert TWO32 * q == (size * k) * q == size * (k * q);
    }
    ModAddMultiple(Wrap32(n), k * q, size);
  }

  /** Advancing a wrapped counter is wrapping the advanced count. */
  lemma WrapAdd(n: nat, k: nat)
    ensures Wrap32(Wrap32(n) + k) == Wrap32(n + k)
  {
    assert Wrap32(n) + k == n + k + TWO32 * (-(n / TWO32));
    ModAddMultiple(n + k, -(n / TWO32), TWO32);
  }

  lemma WrapAddInt(n: int, k: int)
    ensures Wrap32(Wrap32(n) + k) == Wrap32(n + k)
  {
    assert Wrap32(n) + k == n + k + TWO32 * (-(n / TWO32));
    ModAddMultiple(n + k, -(n / TWO32), TWO32);
  }

  /** The distance between two wrapped counters less than 2^32 apart. */
  lemma WrapDistance(n: nat, k: nat)
    requires k < TWO32
    ensures Wrap32(Wrap32(n + k) - Wrap32(n)) == k
  {
    var j := n / TWO32 - (n + k) / TWO32;
    assert Wrap32(n + k) - Wrap32(n) == k + TWO32 * j;
    ModAddMultiple(k, j, TWO32);
  }

  lemma ModAddMultiple(x: int, j: int, d: int)
    requires d > 0
    ensures (x + d * j) % d == x % d
  {
    var y := x + d * j;
    assert y == d * (x / d + j) + x % d by {
      assert d * (x / d + j) == d * (x / d) + d * j;
    }
    QuotientUnique(y, d, x / d + j, x % d);
  }

  lemma QuotientUnique(y: int, d: int, q: int, r: int)
    requires d > 0 && 0 <= r < d && y == d * q + r
    ensures y / d == q && y % d == r
  {
    var k := q - y / d;
    assert d * k == y % d - r;
    SmallMultiple(d, k);
  }

  lemma SmallMultiple(d: int, k: int)
    requires d > 0
    ensures -d < d * k < d ==> k == 0
  {
    if k >= 1 {
      assert d * k >= d * 1;
    } else if k <= -1 {
      assert d * (-k) >= d * 1;
      assert d * k == -(d * (-k));
    }
  }

  /** Two indexes less than a ring's size apart never share a slot. */
  lemma DistinctSlots(i: nat, j: nat, size: nat)
    requires size > 0 && i < j < i + size
    ensures i % size != j % size
  {
    var k := j / size - i / size;
    assert j - i == size * k + (j % size - i % size) by {
      assert j == size * (j / size) + j % size;
      assert i == size * (i / size) + i % size;
      assert size * (j / size) - size * (i / size) == size * k;
    }
    SmallMultiple(size, k);
  }

  /** The slot of the k-th index past `n`, found by stepping from `n`'s slot. */
  lemma SlotAfter(n: nat, k: nat, size: nat)
    requires size > 0 && k <= size
    ensures (n + k) % size == if n % size + k < size then n % size + k else n % size + k - size
  {
    var p := n % size;
    assert n + k == (p + k) + size * (n / size);
    ModAddMultiple(p + k, n / size, size);
    if p + k < size {
      QuotientUnique(p + k, size, 0, p + k);
    } else {
      QuotientUnique(p + k, size, 1, p + k - size);
    }
  }

  /** The bytes of a sequence of packets. */
  function Flatten(ps: seq<seq<Byte>>): seq<Byte>
    decreases |ps|
  {
    if ps == [] then [] else Flatten(ps[..|ps| - 1]) + ps[|ps| - 1]
  }

  lemma FlattenMore(ps: seq<seq<Byte>>, p: seq<Byte>)
    ensures Flatten(ps + [p]) == Flatten(ps) + p
  {
    assert (ps + [p])[..|ps|] == ps;
  }

  lemma {:induction false} FlattenFirst(p: seq<Byte>, ps: seq<seq<Byte>>)
    ensures Flatten([p] + ps) == p + Flatten(ps)
    decreases |ps|
  {
    if ps == [] {
      assert [p] + ps == [] + [p];
      FlattenMore([], p);
    } else {
      var n := |ps| - 1;
      assert [p] + ps == ([p] + ps[..n]) + [ps[n]];
      FlattenFirst(p, ps[..n]);
      FlattenMore([p] + ps[..n], ps[n]);
    }
  }

  /** A 16-bit index that has counted `n` steps. */
  predicate Counts(x: U16, n: nat) { x == Wrap16(n) }

  lemma CountsNext(x: U16, n: nat)
    requires Counts(x, n)
    ensures Counts(Wrap16(x + 1), n + 1)
  {
    var q := n / 0x1_0000;
    if x == 0xffff {
      QuotientUnique(n + 1, 0x1_0000, q + 1, 0);
    } else {
      QuotientUnique(n + 1, 0x1_0000, q, x + 1);
    }
  }
}
