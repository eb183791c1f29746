/** The 32-bit clock rebuilt from a 24-bit down-counter, and the one-shot timer that
    wakes the timer queue. Absolute times are unbounded counts of clock ticks. */
module TimeBase {
  import opened Words

  const TWO24 := 0x100_0000

  /** TIME_UPDATE_PERIOD. */
  const UPDATE_PERIOD := 0x80_0000

  const SLACK_TICKS := 12

  /** `~x` on a 32-bit word. */
  function Not32(x: U32): U32 { 0xffff_ffff - x }

  /** The system tick counter, counting down through 2^24 values, at time `t`. The
      origin of time is such that the clock reads `t` at time `t`. */
  function StkVal(t: nat): (v: nat)
    ensures v < TWO24
  {
    (0xffff_ffff - t) % TWO24
  }

  /** time_now's result: the counter takes the stamp's top byte, one less if it has wrapped. */
  function Reading(stamp: U32, stk: nat): U32
    requires stk < TWO24
  {
    var t := stk + (stamp - stamp % TWO24);
    Not32(if t > stamp then Wrap32(t - TWO24) else t)
  }

  /** time_diff(x, y). */
  function TimeDiff(x: U32, y: U32): int { Signed32(Wrap32(y - x)) }

  lemma Not32Wrap(t: int)
    ensures Not32(Wrap32(t)) == Wrap32(0xffff_ffff - t)
  {
    var q := t / TWO32;
    assert 0xffff_ffff - t == TWO32 * (-q) + Not32(Wrap32(t));
    QuotientUnique(0xffff_ffff - t, TWO32, -q, Not32(Wrap32(t)));
  }

  /** The counter, in terms of a stamp taken `d` ticks ago. */
  lemma StkSince(s: nat, d: nat)
    requires d < TWO32
    ensures StkVal(s + d) == (Not32(Wrap32(s)) % TWO24 - d) % TWO24
  {
    var stamp := Not32(Wrap32(s));
    Not32Wrap(s);
    var q := (0xffff_ffff - s) / TWO32;
    assert 0xffff_ffff - s == TWO32 * q + stamp;
    assert 0xffff_ffff - (s + d) == stamp % TWO24 - d + TWO24 * (stamp / TWO24 + 0x100 * q);
    ModAddMultiple(stamp % TWO24 - d, stamp / TWO24 + 0x100 * q, TWO24);
  }

  /** With the stamp taken at `s`, the clock is right for the next 2^24 ticks, and then
      wrong until 32-bit time itself comes round. */
  lemma TimeNowExactly(s: nat, t: nat)
    requires s <= t < s + TWO32
    ensures Reading(Not32(Wrap32(s)), StkVal(t)) == Wrap32(t) <==> t < s + TWO24
  {
    hide Wrap32, StkVal;
    var stamp, d := Not32(Wrap32(s)), t - s;
    StkSince(s, d);
    Not32Back(s, d);
    ReadBack(stamp, d);
  }

  lemma Not32Back(s: nat, d: nat)
    ensures Wrap32(Not32(Wrap32(s)) - d) == Not32(Wrap32(s + d))
  {
    var stamp := Not32(Wrap32(s));
    Not32Wrap(s);
    Not32Wrap(s + d);
    var q := (0xffff_ffff - s) / TWO32;
    assert 0xffff_ffff - (s + d) == stamp - d + TWO32 * q;
    ModAddMultiple(stamp - d, q, TWO32);
  }

  lemma ReadBack(stamp: U32, d: nat)
    requires d < TWO32
    ensures var low := stamp % TWO24;
            var r := (low - d) % TWO24;
            var read := if r > low then Wrap32(stamp - low + r - TWO24) else stamp - low + r;
            read == Wrap32(stamp - d) <==> d < TWO24
  {
    var low := stamp % TWO24;
    var r := (low - d) % TWO24;
    // read == stamp - d + TWO24 * j, with j == 0 exactly for d < TWO24
    var j := -((low - d) / TWO24) - if r > low then 1 else 0;
    assert low - d == TWO24 * ((low - d) / TWO24) + r;
    assert 0 <= j < 0x100;
    assert j == 0 <==> d < TWO24;
    var x := stamp - d + TWO24 * j;
    assert (if r > low then stamp - low + r - TWO24 else stamp - low + r) == x;
    SameWord(stamp - d, j);
  }

  /** Adding 2^24 fewer than 256 times changes a word unless it is added no times. */
  lemma SameWord(x: int, j: nat)
    requires j < 0x100
    ensures Wrap32(x + TWO24 * j) == Wrap32(x) <==> j == 0
  {
    var y := x + TWO24 * j;
    if Wrap32(y) == Wrap32(x) {
      assert TWO24 * j == TWO32 * (y / TWO32 - x / TWO32);
    }
  }

  /** Time differences within half the range are exact. */
  lemma TimeDiffExact(now: int, at: int)
    requires -0x8000_0000 <= at - now < 0x8000_0000
    ensures TimeDiff(Wrap32(now), Wrap32(at)) == at - now
  {
    var j := now / TWO32 - at / TWO32;
    var d := Wrap32(at) - Wrap32(now);
    assert d == at - now + TWO32 * j;
    if at - now >= 0 {
      QuotientUnique(d, TWO32, j, at - now);
    } else {
      assert d == TWO32 * (j - 1) + (at - now + TWO32);
      QuotientUnique(d, TWO32, j - 1, at - now + TWO32);
    }
  }

  /* ---- The one-shot timer ---------------------------------------------------------- */

  /** time_us(100) on a part with a 16-bit timer, which ticks at 9 MHz. */
  const COARSE_TICKS := 900

  predicate Fine(bits: nat, delta: int) { bits == 32 || delta < 0x1_0000 }

  /** reprogram_timer: ticks from arming until the counter overflows, ARR + 1 counts of
      one tick, or of 100us where a 16-bit counter would not reach. */
  function FireAfter(bits: nat, delta: int): int
    requires -0x8000_0000 <= delta < 0x8000_0000
  {
    if Fine(bits, delta) then (if delta <= SLACK_TICKS then 1 else delta - SLACK_TICKS) + 1
    else (Min(0xffff, delta / COARSE_TICKS - 10) + 1) * COARSE_TICKS
  }

  /** Never later than the deadline, give or take the two ticks of the shortest setting;
      a fine setting wakes up with the deadline within the slack; a coarse one brings
      it at least 56700 ticks nearer without overshooting. */
  lemma FireAfterInTime(bits: nat, delta: int)
    requires -0x8000_0000 <= delta < 0x8000_0000
    ensures FireAfter(bits, delta) <= Max(delta - SLACK_TICKS + 1, 2)
    ensures Fine(bits, delta) ==> delta - FireAfter(bits, delta) <= SLACK_TICKS - 1
    ensures !Fine(bits, delta) ==> 56700 <= FireAfter(bits, delta) <= delta - 8100
  {
  }

  /** What is left of `delta` ticks when the i-th interrupt is served `late[i]` ticks after
      it was due, and the one-shot set again as long as the deadline is not reached. */
  function Remaining(bits: nat, delta: int, late: seq<nat>): int
    requires delta < 0x8000_0000
    decreases |late|
  {
    if late == [] || delta <= SLACK_TICKS then delta
    else
      FireAfterInTime(bits, delta);
      Remaining(bits, delta - FireAfter(bits, delta) - late[0], late[1..])
  }

  /** The deadline is reached after finitely many settings, coarse ones making at
      least 56700 ticks each and the one fine one the rest. */
  lemma {:induction false} DeadlineReached(bits: nat, delta: int, late: seq<nat>)
    requires delta < 0x8000_0000
    requires |late| > if delta < 0 || bits == 32 then 0 else delta / 56700
    ensures Remaining(bits, delta, late) <= SLACK_TICKS
    decreases |late|
  {
    if delta > SLACK_TICKS {
      FireAfterInTime(bits, delta);
      var left := delta - FireAfter(bits, delta) - late[0];
      if left > SLACK_TICKS {
        DeadlineReached(bits, left, late[1..]);
      }
    }
  }
}
