/** The bitwise division behind time_from_samples. */
module Util {
  import opened Words

  const TWO64 := 0x1_0000_0000_0000_0000

  /** The bit tried when `k` bits are left to decide. */
  function BitAt(k: nat): nat { if k == 0 then 0 else Pow2(k - 1) }

  /** `q` has no bit set below bit `k`, so that or-ing one in is adding it. */
  ghost predicate ClearBelow(q: nat, k: nat) {
    exists j: nat :: q == j * Pow2(k)
  }

  /** `q` is the quotient as far as its bits from `k` on, clipped to 32 bits, go. */
  predicate Brackets(q: nat, k: nat, dividend: nat, divisor: nat) {
    && q * divisor <= dividend
    && q + Pow2(k) <= TWO32
    && (q + Pow2(k) == TWO32 || dividend < (q + Pow2(k)) * divisor)
  }

  /** udiv64. A quotient that does not fit, like one by zero, comes out as all ones. */
  method Udiv64(dividend: nat, divisor: U32) returns (q: U32)
    requires dividend < TWO64
    ensures q == if divisor == 0 then 0xffff_ffff else Min(dividend / divisor, 0xffff_ffff)
  {
    hide Pow2, ClearBelow, Brackets;
    var x: nat := 0x8000_0000;
    q := 0;
    ghost var k := 32;
    Start(dividend, divisor);
    while x != 0
      invariant 0 <= k <= 32 && x == BitAt(k) && ClearBelow(q, k) && Brackets(q, k, dividend, divisor)
      decreases k
    {
      NextBit(q, k, dividend, divisor);
      if (q + x) * divisor <= dividend {
        q := q + x;
      }
      x := x / 2;
      k := k - 1;
    }
    Finish(q, k, dividend, divisor);
  }

  lemma Start(dividend: nat, divisor: nat)
    ensures BitAt(32) == 0x8000_0000 && ClearBelow(0, 32) && Brackets(0, 32, dividend, divisor)
  {
    Sixteen();
    assert Pow2(32) == TWO32 && Pow2(31) == 0x8000_0000 by {
      DoubleDouble(16);
    }
    assert 0 == 0 * Pow2(32);
  }

  lemma Sixteen()
    ensures Pow2(16) == 0x1_0000
  {
    assert Pow2(4) == 16;
    assert Pow2(8) == 16 * Pow2(4);
    assert Pow2(12) == 16 * Pow2(8);
  }

  lemma DoubleDouble(k: nat)
    requires k == 16 && Pow2(16) == 0x1_0000
    ensures Pow2(32) == TWO32 && Pow2(31) == 0x8000_0000
  {
    assert Pow2(20) == 16 * Pow2(16);
    assert Pow2(24) == 16 * Pow2(20);
    assert Pow2(28) == 16 * Pow2(24);
    assert Pow2(31) == 8 * Pow2(28);
  }

  /** One round: the bit is taken or left, and the next one is half as large. */
  lemma NextBit(q: nat, k: nat, dividend: nat, divisor: nat)
    requires BitAt(k) != 0 && ClearBelow(q, k) && Brackets(q, k, dividend, divisor)
    ensures k > 0 && BitAt(k) / 2 == BitAt(k - 1)
    ensures var r := if (q + BitAt(k)) * divisor <= dividend then q + BitAt(k) else q;
            r < TWO32 && ClearBelow(r, k - 1) && Brackets(r, k - 1, dividend, divisor)
  {
    var x := Pow2(k - 1);
    assert Pow2(k) == 2 * x;
    hide Pow2;
    KeepsClear(q, k, x);
    Halve(q, x, dividend, divisor);
  }

  lemma KeepsClear(q: nat, k: nat, x: nat)
    requires k > 0 && ClearBelow(q, k) && x == Pow2(k - 1) && Pow2(k) == 2 * x
    ensures ClearBelow(q, k - 1) && ClearBelow(q + x, k - 1)
  {
    hide Pow2;
    var j: nat :| q == j * Pow2(k);
    assert j * (2 * x) == (2 * j) * x;
    assert q + x == (2 * j + 1) * x;
  }

  lemma Halve(q: nat, x: nat, dividend: nat, divisor: nat)
    requires x > 0 && q * divisor <= dividend && q + 2 * x <= TWO32
    requires q + 2 * x == TWO32 || dividend < (q + 2 * x) * divisor
    ensures var r := if (q + x) * divisor <= dividend then q + x else q;
            && r * divisor <= dividend && r + x <= TWO32
            && (r + x == TWO32 || dividend < (r + x) * divisor)
  {
    assert q + 2 * x == (q + x) + x;
  }

  lemma Finish(q: nat, k: nat, dividend: nat, divisor: nat)
    requires BitAt(k) == 0 && Brackets(q, k, dividend, divisor)
    ensures q == if divisor == 0 then 0xffff_ffff else Min(dividend / divisor, 0xffff_ffff)
  {
    assert k == 0 && Pow2(0) == 1;
    if divisor != 0 {
      if q + 1 == TWO32 {
        AtLeast(dividend, divisor, q);
      } else {
        assert (q + 1) * divisor == q * divisor + divisor;
        assert q * divisor == divisor * q;
        QuotientUnique(dividend, divisor, q, dividend - q * divisor);
      }
    } else {
      assert (q + 1) * 0 == 0;
    }
  }

  lemma AtLeast(n: nat, d: nat, q: nat)
    requires d > 0 && q * d <= n
    ensures q <= n / d
  {
    var k := q - n / d;
    assert n == d * (n / d) + n % d;
    assert d * k == q * d - d * (n / d);
    Small(d, k);
  }

  lemma Small(d: int, k: int)
    requires d > 0
    ensures d * k < d ==> k <= 0
  {
    if k >= 1 {
      assert d * k == d * (k - 1) + d >= d;
    }
  }
}
