/** CRC16-CCITT as polynomial long division by x^16 + x^12 + x^5 + 1, the shift
    register that computes it a bit at a time, and what it detects. */
module Division {
  /* ---- Reference: long division of bit strings ----------------------------- */

  /** A partial remainder times x, with the divisor taken off when it reaches x^16. */
  function Shift(c: bv16): bv16 {
    if c & 0x8000 != 0 then (c << 1) ^ 0x1021 else c << 1
  }

  /** Addition of polynomials over GF(2). */
  function Add(x: bv16, y: bv16): bv16 { x ^ y }

  function Bit(b: bool, weight: bv16): bv16 { if b then weight else 0 }

  /** One step of long division: bring down the next bit of the dividend. */
  function DivideStep(r: bv16, bit: bool): bv16 { Add(Shift(r), Bit(bit, 1)) }

  /** The remainder of dividing `bits`, starting from the partial remainder `r`. */
  function Divide(r: bv16, bits: seq<bool>): bv16
    decreases |bits|
  {
    if bits == [] then r else Divide(DivideStep(r, bits[0]), bits[1..])
  }

  function Zeros(n: nat): (z: seq<bool>)
    ensures |z| == n && forall i :: 0 <= i < n ==> !z[i]
  {
    seq(n, _ => false)
  }

  /** Division by x, undoing Shift. */
  function Unshift(c: bv16): bv16 {
    if c & 1 != 0 then ((c ^ 0x1021) >> 1) | 0x8000 else c >> 1
  }

  function UnshiftBy(n: nat, c: bv16): bv16 {
    if n == 0 then c else Unshift(UnshiftBy(n - 1, c))
  }

  /** The remainder of `bits` times x^16 by x^16 + x^12 + x^5 + 1. A non-zero seed
      is the remainder of sixteen bits put in front of the dividend. */
  function Remainder(seed: bv16, bits: seq<bool>): bv16 {
    Divide(UnshiftBy(16, seed), bits + Zeros(16))
  }

  /** The bits of a byte, most significant first. */
  function Bits(b: bv8): (s: seq<bool>)
    ensures |s| == 8
  {
    [b & 0x80 != 0, b & 0x40 != 0, b & 0x20 != 0, b & 0x10 != 0, b & 8 != 0, b & 4 != 0, b & 2 != 0, b & 1 != 0]
  }

  function BitsOf(d: seq<bv8>): (s: seq<bool>)
    ensures |s| == 8 * |d|
  {
    if d == [] then [] else Bits(d[0]) + BitsOf(d[1..])
  }

  lemma {:induction false} BitsAppend(a: seq<bv8>, b: seq<bv8>)
    ensures BitsOf(a + b) == BitsOf(a) + BitsOf(b)
  {
    if a == [] {
      assert a + b == b;
    } else {
      assert (a + b)[1..] == a[1..] + b;
      BitsAppend(a[1..], b);
    }
  }

  lemma BitsOne(b: bv8)
    ensures BitsOf([b]) == Bits(b)
  {
    assert [b][1..] == [];
  }

  lemma BitsDetermineByte(a: bv8, b: bv8)
    requires Bits(a) == Bits(b)
    ensures a == b
  {
    assert forall i :: 0 <= i < 8 ==> Bits(a)[i] == Bits(b)[i];
    assert a & 0x80 == b & 0x80 && a & 0x40 == b & 0x40 && a & 0x20 == b & 0x20 && a & 0x10 == b & 0x10;
    assert a & 8 == b & 8 && a & 4 == b & 4 && a & 2 == b & 2 && a & 1 == b & 1;
  }

  lemma {:induction false} BitsInjective(d: seq<bv8>, e: seq<bv8>)
    requires |d| == |e| && BitsOf(d) == BitsOf(e)
    ensures d == e
  {
    if d != [] {
      assert Bits(d[0]) == BitsOf(d)[..8] && Bits(e[0]) == BitsOf(e)[..8];
      assert BitsOf(d[1..]) == BitsOf(d)[8..] && BitsOf(e[1..]) == BitsOf(e)[8..];
      BitsDetermineByte(d[0], e[0]);
      BitsInjective(d[1..], e[1..]);
    }
  }

  /* ---- The bit-serial register ---------------------------------------------- */

  function Feed(c: bv16, bit: bool): bv16 { Shift(Add(c, Bit(bit, 0x8000))) }

  function FeedAll(c: bv16, bits: seq<bool>): bv16
    decreases |bits|
  {
    if bits == [] then c else FeedAll(Feed(c, bits[0]), bits[1..])
  }

  lemma {:induction false} FeedAppend(c: bv16, a: seq<bool>, b: seq<bool>)
    ensures FeedAll(c, a + b) == FeedAll(FeedAll(c, a), b)
    decreases |a|
  {
    if a == [] {
      assert a + b == b;
    } else {
      assert (a + b)[1..] == a[1..] + b;
      FeedAppend(Feed(c, a[0]), a[1..], b);
    }
  }

  function ShiftBy(n: nat, c: bv16): bv16 {
    if n == 0 then c else ShiftBy(n - 1, Shift(c))
  }

  lemma AddZero(x: bv16)
    ensures Add(x, 0) == x
  {
  }

  lemma AddSwap(x: bv16, y: bv16)
    ensures Add(x, y) == Add(y, x)
  {
  }

  lemma AddRegroup(x: bv16, y: bv16, z: bv16)
    ensures Add(Add(x, y), z) == Add(x, Add(y, z))
  {
  }

  lemma ShiftAddTops(x: bv16, y: bv16)
    requires x & 0x8000 != 0 && y & 0x8000 != 0
    ensures Shift(Add(x, y)) == Add(Shift(x), Shift(y))
  {
  }

  lemma ShiftAddTop(x: bv16, y: bv16)
    requires x & 0x8000 != 0 && y & 0x8000 == 0
    ensures Shift(Add(x, y)) == Add(Shift(x), Shift(y))
  {
  }

  lemma ShiftAddNoTop(x: bv16, y: bv16)
    requires x & 0x8000 == 0 && y & 0x8000 == 0
    ensures Shift(Add(x, y)) == Add(Shift(x), Shift(y))
  {
  }

  lemma ShiftAdd(x: bv16, y: bv16)
    ensures Shift(Add(x, y)) == Add(Shift(x), Shift(y))
  {
    hide Shift, Add;
    if x & 0x8000 != 0 {
      if y & 0x8000 != 0 {
        ShiftAddTops(x, y);
      } else {
        ShiftAddTop(x, y);
      }
    } else if y & 0x8000 != 0 {
      ShiftAddTop(y, x);
      AddSwap(x, y);
      AddSwap(Shift(x), Shift(y));
    } else {
      ShiftAddNoTop(x, y);
    }
  }

  lemma {:induction false} ShiftByAdd(n: nat, x: bv16, y: bv16)
    ensures ShiftBy(n, Add(x, y)) == Add(ShiftBy(n, x), ShiftBy(n, y))
    decreases n
  {
    if n > 0 {
      hide Shift, Add;
      ShiftAdd(x, y);
      ShiftByAdd(n - 1, Shift(x), Shift(y));
    }
  }

  lemma {:induction false} ShiftLast(n: nat, c: bv16)
    ensures ShiftBy(n + 1, c) == Shift(ShiftBy(n, c))
    decreases n
  {
    if n > 0 {
      ShiftLast(n - 1, Shift(c));
    }
  }

  lemma {:induction false} DivideZeros(n: nat, r: bv16)
    ensures Divide(r, Zeros(n)) == ShiftBy(n, r)
    decreases n
  {
    if n > 0 {
      assert Zeros(n)[1..] == Zeros(n - 1);
      AddZero(Shift(r));
      hide Shift, Add;
      assert Divide(r, Zeros(n)) == Divide(Shift(r), Zeros(n - 1));
      DivideZeros(n - 1, Shift(r));
    }
  }

  lemma ShiftUnshift(c: bv16)
    ensures Shift(Unshift(c)) == c
  {
  }

  lemma {:induction false} ShiftByUnshiftBy(n: nat, c: bv16)
    ensures ShiftBy(n, UnshiftBy(n, c)) == c
  {
    if n > 0 {
      ShiftUnshift(UnshiftBy(n - 1, c));
      ShiftByUnshiftBy(n - 1, c);
    }
  }

  /** x^16 is x^12 + x^5 + 1 in the quotient. */
  lemma ShiftOne()
    ensures ShiftBy(16, 1) == 0x1021
  {
    assert ShiftBy(12, 0x10) == ShiftBy(8, 0x100) == ShiftBy(4, 0x1000) == 0x1021;
    assert ShiftBy(16, 1) == ShiftBy(12, 0x10);
  }

  /** Dividing one more bit and then sixteen zeros is feeding the register. */
  lemma DivideFeeds(r: bv16, bit: bool)
    ensures ShiftBy(16, DivideStep(r, bit)) == Feed(ShiftBy(16, r), bit)
  {
    ShiftByFirst(16, r);
    assert Shift(0) == 0 && Shift(0x8000) == 0x1021;
    hide ShiftBy, Shift, Add;
    ShiftByAdd(16, Shift(r), Bit(bit, 1));
    ShiftLast(16, r);
    ShiftOne();
    ShiftZero(16);
    ShiftAdd(ShiftBy(16, r), Bit(bit, 0x8000));
  }

  lemma ShiftByFirst(n: nat, c: bv16)
    ensures ShiftBy(n, Shift(c)) == ShiftBy(n + 1, c)
  {
  }

  lemma {:induction false} ShiftZero(n: nat)
    ensures ShiftBy(n, 0) == 0
  {
    if n > 0 {
      ShiftZero(n - 1);
    }
  }

  lemma {:induction false} DivideIsFeedAll(r: bv16, bits: seq<bool>)
    ensures Divide(r, bits + Zeros(16)) == FeedAll(ShiftBy(16, r), bits)
    decreases |bits|
  {
    if bits == [] {
      assert bits + Zeros(16) == Zeros(16);
      DivideZeros(16, r);
    } else {
      hide ShiftBy;
      assert (bits + Zeros(16))[1..] == bits[1..] + Zeros(16);
      DivideFeeds(r, bits[0]);
      DivideIsFeedAll(DivideStep(r, bits[0]), bits[1..]);
    }
  }

  /** Feeding a message bit by bit into the register is the long division. */
  lemma FeedIsRemainder(seed: bv16, bits: seq<bool>)
    ensures FeedAll(seed, bits) == Remainder(seed, bits)
  {
    ShiftByUnshiftBy(16, seed);
    DivideIsFeedAll(UnshiftBy(16, seed), bits);
  }

  /* ---- Burst errors ------------------------------------------------------------ */

  function Differences(x: seq<bool>, y: seq<bool>): (e: seq<bool>)
    requires |x| == |y|
    ensures |e| == |x| && forall i :: 0 <= i < |e| ==> e[i] == (x[i] != y[i])
  {
    seq(|x|, i requires 0 <= i < |x| => x[i] != y[i])
  }

  lemma SameOutside(x: seq<bool>, y: seq<bool>, lo: nat, hi: nat)
    requires |x| == |y| && lo <= hi <= |x|
    requires forall i :: 0 <= i < |x| && !(lo <= i < hi) ==> x[i] == y[i]
    ensures x[..lo] == y[..lo] && x[hi..] == y[hi..]
    ensures x == x[..lo] + x[lo..hi] + x[hi..] && y == y[..lo] + y[lo..hi] + y[hi..]
  {
  }

  /** The register is linear: the difference of two registers is the register of
      the differences. */
  lemma {:induction false} FeedLinear(c: bv16, d: bv16, x: seq<bool>, y: seq<bool>)
    requires |x| == |y|
    ensures Add(FeedAll(c, x), FeedAll(d, y)) == FeedAll(Add(c, d), Differences(x, y))
    decreases |x|
  {
    if x != [] {
      FeedAddBit(c, d, x[0], y[0]);
      hide Feed, Add;
      FeedLinear(Feed(c, x[0]), Feed(d, y[0]), x[1..], y[1..]);
      assert Differences(x, y)[1..] == Differences(x[1..], y[1..]);
    }
  }

  lemma FeedAddBit(c: bv16, d: bv16, a: bool, b: bool)
    ensures Add(Feed(c, a), Feed(d, b)) == Feed(Add(c, d), a != b)
  {
    BitAdd(a, b);
    hide Shift, Add, Bit;
    var x, y := Bit(a, 0x8000), Bit(b, 0x8000);
    ShiftAdd(Add(c, x), Add(d, y));
    AddRegroup(c, x, Add(d, y));
    AddRegroup(x, d, y);
    AddSwap(x, d);
    AddRegroup(d, x, y);
    AddRegroup(c, d, Add(x, y));
  }

  lemma BitAdd(a: bool, b: bool)
    ensures Add(Bit(a, 0x8000), Bit(b, 0x8000)) == Bit(a != b, 0x8000)
  {
  }

  lemma UnshiftShiftTop(c: bv16)
    requires c & 0x8000 != 0
    ensures Unshift(Shift(c)) == c
  {
    assert ((c << 1) ^ 0x1021) & 1 != 0;
    assert ((c << 1) ^ 0x1021) ^ 0x1021 == c << 1;
  }

  lemma UnshiftShiftNoTop(c: bv16)
    requires c & 0x8000 == 0
    ensures Unshift(Shift(c)) == c
  {
  }

  lemma UnshiftShift(c: bv16)
    ensures Unshift(Shift(c)) == c
  {
    hide Shift, Unshift;
    if c & 0x8000 != 0 {
      UnshiftShiftTop(c);
    } else {
      UnshiftShiftNoTop(c);
    }
  }

  lemma AddCancels(c: bv16, d: bv16, w: bv16)
    requires Add(c, w) == Add(d, w)
    ensures c == d
  {
    AddRegroup(c, w, w);
    AddRegroup(d, w, w);
    AddZero(c);
    AddZero(d);
    AddSelf(w);
  }

  lemma AddSelf(w: bv16)
    ensures Add(w, w) == 0
  {
  }

  /** Registers that differ stay different under the same further bits. */
  lemma {:induction false} DifferenceStays(c: bv16, d: bv16, b: seq<bool>)
    requires c != d
    ensures FeedAll(c, b) != FeedAll(d, b)
    decreases |b|
  {
    if b != [] {
      hide Shift, Add, Unshift;
      var w := Bit(b[0], 0x8000);
      if Feed(c, b[0]) == Feed(d, b[0]) {
        UnshiftShift(Add(c, w));
        UnshiftShift(Add(d, w));
        AddCancels(c, d, w);
        assert false;
      }
      DifferenceStays(Feed(c, b[0]), Feed(d, b[0]), b[1..]);
    }
  }

  /** The top `k` bits are zero, so `k` shifts never take the divisor off. */
  predicate TopClear(r: bv16, k: nat)
    decreases k
  {
    k == 0 || (r & 0x8000 == 0 && TopClear(Shift(r), k - 1))
  }

  lemma NoTopAdd(x: bv16, y: bv16)
    requires x & 0x8000 == 0 && y & 0x8000 == 0
    ensures Add(x, y) & 0x8000 == 0
  {
  }

  lemma {:induction false} TopClearAdd(x: bv16, y: bv16, k: nat)
    requires TopClear(x, k) && TopClear(y, k)
    ensures TopClear(Add(x, y), k)
    decreases k
  {
    if k > 0 {
      hide Add, Shift;
      NoTopAdd(x, y);
      ShiftAdd(x, y);
      TopClearAdd(Shift(x), Shift(y), k - 1);
    }
  }

  lemma {:induction false} TopClearFewer(r: bv16, k: nat, j: nat)
    requires TopClear(r, k) && j <= k
    ensures TopClear(r, j)
    decreases j
  {
    if j > 0 {
      TopClearFewer(Shift(r), k - 1, j - 1);
    }
  }

  lemma TopClearBit(b: bool, k: nat)
    requires k <= 15
    ensures TopClear(Bit(b, 1), k)
  {
    assert TopClear(0x4000, 1) && TopClear(0x1000, 3) && TopClear(0x400, 5) && TopClear(0x100, 7);
    assert TopClear(0x40, 9) && TopClear(0x10, 11) && TopClear(4, 13) && TopClear(1, 15);
    assert TopClear(0, 1) && TopClear(0, 3) && TopClear(0, 5) && TopClear(0, 7);
    assert TopClear(0, 9) && TopClear(0, 11) && TopClear(0, 13) && TopClear(0, 15);
    TopClearFewer(Bit(b, 1), 15, k);
  }

  lemma DoubledNonzero(r: bv16, b: bool)
    requires r != 0 && r & 0x8000 == 0
    ensures DivideStep(r, b) != 0
  {
  }

  lemma {:induction false} NonzeroStays(r: bv16, bits: seq<bool>)
    requires r != 0 && |bits| <= 15 && TopClear(r, |bits|)
    ensures Divide(r, bits) != 0
    decreases |bits|
  {
    if bits != [] {
      DoubledNonzero(r, bits[0]);
      hide Shift, Add, Bit;
      TopClearBit(bits[0], |bits| - 1);
      TopClearAdd(Shift(r), Bit(bits[0], 1), |bits| - 1);
      NonzeroStays(DivideStep(r, bits[0]), bits[1..]);
    }
  }

  /** A dividend shorter than the divisor is its own remainder, so not zero. */
  lemma {:induction false} ShortNonzero(bits: seq<bool>)
    requires |bits| <= 16 && true in bits
    ensures Divide(0, bits) != 0
    decreases |bits|
  {
    if bits[0] {
      assert DivideStep(0, true) == 1;
      TopClearBit(true, |bits| - 1);
      NonzeroStays(1, bits[1..]);
    } else {
      assert DivideStep(0, false) == 0;
      ShortNonzero(bits[1..]);
    }
  }

  lemma {:induction false} DivideAppend(r: bv16, a: seq<bool>, b: seq<bool>)
    ensures Divide(r, a + b) == Divide(Divide(r, a), b)
    decreases |a|
  {
    if a == [] {
      assert a + b == b;
    } else {
      assert (a + b)[1..] == a[1..] + b;
      DivideAppend(DivideStep(r, a[0]), a[1..], b);
    }
  }

  lemma {:induction false} ShiftByNonzero(n: nat, c: bv16)
    requires c != 0
    ensures ShiftBy(n, c) != 0
    decreases n
  {
    if n > 0 {
      UnshiftShift(c);
      ShiftByNonzero(n - 1, Shift(c));
    }
  }

  /** An error pattern of at most sixteen bits leaves a non-zero register. */
  lemma BurstNonzero(e: seq<bool>)
    requires |e| <= 16 && true in e
    ensures FeedAll(0, e) != 0
  {
    ShiftZero(16);
    DivideIsFeedAll(0, e);
    DivideAppend(0, e, Zeros(16));
    DivideZeros(16, Divide(0, e));
    ShortNonzero(e);
    ShiftByNonzero(16, Divide(0, e));
  }

  /** Two messages that differ only within sixteen consecutive bits never have
      the same remainder, whatever the seed. */
  lemma BurstDetected(seed: bv16, a: seq<bool>, x: seq<bool>, y: seq<bool>, b: seq<bool>)
    requires |x| == |y| <= 16 && x != y
    ensures Remainder(seed, a + x + b) != Remainder(seed, a + y + b)
  {
    hide Remainder, Add;
    var c := FeedAll(seed, a);
    var e := Differences(x, y);
    assert true in e by {
      var i :| 0 <= i < |x| && x[i] != y[i];
      assert e[i];
    }
    FeedLinear(c, c, x, y);
    AddSelf(c);
    BurstNonzero(e);
    AddSelf(FeedAll(c, x));
    DifferenceStays(FeedAll(c, x), FeedAll(c, y), b);
    FeedAppend(seed, a + x, b);
    FeedAppend(seed, a, x);
    FeedAppend(seed, a + y, b);
    FeedAppend(seed, a, y);
    FeedIsRemainder(seed, a + x + b);
    FeedIsRemainder(seed, a + y + b);
  }
}
