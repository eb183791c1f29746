/** Index pulses: the mask against double triggers, and the filter that finds the index
    hole of a hard-sectored disk among its sector holes. */
module HardSector {
  import opened Words
  import opened TimeBase
  import opened Util

  const SAMPLE_MHZ := 72

  /* ---- One pulse ------------------------------------------------------------------------ */

  datatype Verdict = Masked | Filtered | Counted

  /** IRQ_INDEX_changed's verdict on a pulse `age` after the last one that was not masked,
      and the state of the trigger afterwards. */
  function Decide(age: int, mask: nat, thresh: nat, trigger: bool): (Verdict, bool) {
    if age < mask then (Masked, trigger)
    else if thresh == 0 then (Counted, trigger)
    else if age > thresh then (Filtered, false)
    else if trigger then (Counted, false)
    else (Filtered, true)
  }

  /** Ageing the last pulse to `period`, as index_timer does once it is older than that,
      changes no verdict exactly if the mask is no longer, and the threshold shorter. */
  lemma ClampHarmless(period: nat, mask: nat, thresh: nat)
    ensures (forall age: nat, seen: nat, trigger: bool :: period <= seen < age ==>
              Decide(seen, mask, thresh, trigger) == Decide(age, mask, thresh, trigger))
       <==> mask <= period && (thresh == 0 || thresh < period)
  {
    if mask > period {
      assert Decide(period, mask, thresh, false) != Decide(mask + thresh + 1, mask, thresh, false);
    } else if thresh != 0 && thresh >= period {
      assert Decide(period, mask, thresh, false) != Decide(thresh + 1, mask, thresh, false);
    }
  }

  /* ---- A run of pulses ------------------------------------------------------------------ */

  /** What the pulses amount to, on a clock without end: when a pulse was last not masked,
      the trigger, the count, and the sample counter at the last pulse counted. */
  datatype Seen = Seen(last: int, trigger: bool, count: nat, rdataCnt: nat)

  datatype Event = Pulse(at: nat, cnt: nat) | Timer(at: nat)

  function OnPulse(s: Seen, at: nat, cnt: nat, mask: nat, thresh: nat): Seen {
    match Decide(at - s.last, mask, thresh, s.trigger)
    case (Masked, _) => s
    case (Filtered, t) => Seen(at, t, s.count, s.rdataCnt)
    case (Counted, t) => Seen(at, t, s.count + 1, cnt)
  }

  /** A pulse is counted with the sample counter that belongs to it, and otherwise leaves
      the last one that was; every pulse that is not masked is the one to measure from. */
  lemma PulseMeans(s: Seen, at: nat, cnt: nat, mask: nat, thresh: nat)
    ensures var t := OnPulse(s, at, cnt, mask, thresh);
            && ((t.count == s.count + 1 && t.rdataCnt == cnt) || (t.count == s.count && t.rdataCnt == s.rdataCnt))
            && t.last == (if at - s.last < mask then s.last else at)
            && (at - s.last < mask ==> t == s)
            && (at - s.last >= mask && thresh == 0 ==> t.count == s.count + 1 && t.trigger == s.trigger)
            && (at - s.last >= mask && at - s.last > thresh > 0 ==> t.count == s.count && !t.trigger)
            && (at - s.last >= mask && at - s.last <= thresh && thresh > 0 ==> (t.count == s.count + 1 <==> s.trigger) && t.trigger == !s.trigger)
  {
  }

  /** The pulses alone decide; that the index timer runs makes no difference. */
  function After(s: Seen, events: seq<Event>, mask: nat, thresh: nat): Seen {
    if events == [] then s
    else
      var n := |events| - 1;
      var before := After(s, events[..n], mask, thresh);
      match events[n]
      case Pulse(at, cnt) => OnPulse(before, at, cnt, mask, thresh)
      case Timer(_) => before
  }

  /** The first pulse to be counted without a hard-sector threshold: it is the first that
      comes no sooner after `s.last` than the mask allows, whatever was masked before. */
  lemma {:induction false} FirstCounted(s: Seen, events: seq<Event>, at: nat, cnt: nat, mask: nat)
    requires forall e :: e in events && e.Pulse? ==> e.at < s.last + mask
    ensures After(s, events, mask, 0) == s
    ensures After(s, events + [Pulse(at, cnt)], mask, 0)
         == if at < s.last + mask then s else Seen(at, s.trigger, s.count + 1, cnt)
  {
    if events != [] {
      var n := |events| - 1;
      FirstCounted(s, events[..n], at, cnt, mask);
    }
    assert (events + [Pulse(at, cnt)])[..|events|] == events;
  }

  /** Times are in order, and index_timer is never a whole period late. */
  predicate InTime(events: seq<Event>, latest: int, clamped: int, period: nat)
    decreases |events|
  {
    events == [] ||
      var e := events[0];
      && latest <= e.at <= clamped + 2 * period
      && InTime(events[1..], e.at, if e.Timer? then e.at else clamped, period)
  }

  /** A 32-bit difference as it is compared: on AT32 the other side is unsigned. */
  function Compared(delta: int, unsigned: bool): int {
    if unsigned then Wrap32(delta) else delta
  }

  lemma ComparedSmall(delta: int, unsigned: bool)
    requires 0 <= delta < 0x8000_0000
    ensures Compared(delta, unsigned) == delta == Wrap32(delta)
  {
  }

  /** The index.* variables, with the true times behind them: `last` is when a pulse was
      last not masked, `seen` the time that `triggerTime` now claims, `clamped` when
      index_timer last ran, `latest` when anything last happened. */
  class IndexState {
    const period: nat             // INDEX_TIMER_PERIOD
    const unsigned: bool          // SYSCLK_MHZ is an unsigned variable
    var mask: nat                 // time_us(delay_params.index_mask)
    var count: nat
    var rdataCnt: nat
    var thresh: U32               // hard_sector_thresh
    var trigger: bool             // hard_sector_trigger
    var triggerTime: U32

    ghost var last: int
    ghost var seen: int
    ghost var clamped: int
    ghost var latest: int

    ghost predicate Valid()
      reads this
    {
      && period < 0x2000_0000 && mask <= period
      && triggerTime == Wrap32(seen)
      && clamped <= latest && seen <= latest + (if unsigned then 0 else TWO24)
      && clamped <= seen + period
      && (seen == last || (last < seen && seen + period == clamped))
    }

    ghost function Abstract(): Seen
      reads this
    {
      Seen(last, trigger, count, rdataCnt)
    }

    /** floppy_init, when the clock has just been started close to its wrap: the trigger
        time is zero, which is still ahead of the clock. Where the comparison is signed
        it stays there; where it is unsigned the first index_timer moves it back. */
    constructor (now: nat, period: nat, unsigned: bool, mask: nat)
      requires TWO32 - TWO24 <= now <= TWO32 + period && TWO24 < period < 0x2000_0000 && mask <= period
      ensures Valid() && this.period == period && this.unsigned == unsigned && this.mask == mask
      ensures thresh == 0 && latest == now && clamped == now
      ensures Abstract() == Seen(if unsigned && now < TWO32 then now - period else TWO32, false, 0, 0)
    {
      this.period, this.unsigned, this.mask := period, unsigned, mask;
      count, rdataCnt, thresh, trigger := 0, 0, 0, false;
      var early := Compared(TimeDiff(0, Wrap32(now)), unsigned) > period;
      triggerTime := if early then Wrap32(Wrap32(now) - period) else 0;
      last, seen := if early then now - period else TWO32, if early then now - period else TWO32;
      clamped, latest := now, now;
      new;
      BootDiff(now, period, unsigned);
    }

    /** Ageing has not changed what the threshold says. */
    predicate ThreshInRange()
      reads this`thresh
    {
      thresh == 0 || thresh < period
    }

    /** IRQ_INDEX_changed, as long as index_timer is never a whole period late: with a
        threshold in range the verdict is the one for the pulse's true age, however long
        ago the last one was. */
    method IrqIndexChanged(now: nat, cnt: nat)
      requires Valid() && latest <= now <= clamped + 2 * period
      modifies this
      ensures Valid() && latest == now && clamped == old(clamped) && mask == old(mask) && thresh == old(thresh)
      ensures ThreshInRange() ==> Abstract() == OnPulse(old(Abstract()), now, cnt, mask, thresh)
      ensures Abstract() == OnPulse(old(Abstract()).(last := old(seen)), now, cnt, mask, thresh)
                                .(last := if now - old(seen) < mask then old(last) else now)
    {
      hide Wrap32, Compared;
      TimeDiffExact(seen, now);
      var delta := TimeDiff(triggerTime, Wrap32(now));
      latest := now;
      SignsAgree(delta);
      if Compared(delta, unsigned) < mask {
        return;
      }
      triggerTime := Wrap32(now);
      last, seen := now, now;
      if thresh != 0 {
        if Wrap32(delta) > thresh {
          trigger := false;
          return;
        }
        trigger := !trigger;
        if trigger {
          return;
        }
      }
      count := count + 1;
      rdataCnt := cnt;
    }

    /** index_timer. */
    method IndexTimer(now: nat)
      requires Valid() && latest <= now <= clamped + 2 * period
      modifies this`triggerTime, this`seen, this`clamped, this`latest
      ensures Valid() && clamped == now && latest == now
    {
      hide Wrap32, Compared;
      TimeDiffExact(seen, now);
      var delta := TimeDiff(triggerTime, Wrap32(now));
      SignsAgree(delta);
      if Compared(delta, unsigned) > period {
        triggerTime := Wrap32(Wrap32(now) - period);
        WrapAddInt(now, 0 - period as int);
        seen := now - period;
      }
      clamped, latest := now, now;
    }

    lemma SignsAgree(delta: int)
      requires delta < 0x8000_0000 && (unsigned ==> delta >= 0)
      ensures Compared(delta, unsigned) == delta && (delta >= 0 ==> Wrap32(delta) == delta)
    {
      hide Compared, Wrap32;
      if delta >= 0 {
        ComparedSmall(delta, unsigned);
      } else {
        SignedCompared(delta);
      }
    }

    /** Any run of pulses and timer calls, with a threshold in range: the variables are
        what the pulses alone make of them. */
    method Run(events: seq<Event>)
      requires Valid() && ThreshInRange() && InTime(events, latest, clamped, period)
      modifies this
      ensures Valid() && mask == old(mask) && thresh == old(thresh)
      ensures Abstract() == After(old(Abstract()), events, mask, thresh)
    {
      hide Wrap32, OnPulse;
      var i := 0;
      assert events[0..] == events;
      while i < |events|
        invariant 0 <= i <= |events| && Valid() && mask == old(mask) && thresh == old(thresh)
        invariant InTime(events[i..], latest, clamped, period)
        invariant Abstract() == After(old(Abstract()), events[..i], mask, thresh)
      {
        assert events[i..][1..] == events[i + 1..];
        assert events[..i + 1][..i] == events[..i];
        match events[i] {
          case Pulse(at, cnt) => IrqIndexChanged(at, cnt);
          case Timer(at) => IndexTimer(at);
        }
        i := i + 1;
      }
      assert events[..i] == events;
    }

    /** index_set_hard_sector_detection: three quarters of a sector, as long as three times
        its length fits a word. */
    method SetHardSectorDetection(ticks: U32, timeMhz: nat)
      requires Valid() && timeMhz < 0x1_0000
      modifies this`thresh, this`trigger
      ensures Valid() && !trigger
      ensures thresh == ThreeQuarters(Min(ticks * timeMhz / SAMPLE_MHZ, 0xffff_ffff))
      ensures 3 * (ticks * timeMhz / SAMPLE_MHZ) < TWO32 ==> thresh == 3 * (ticks * timeMhz / SAMPLE_MHZ) / 4
    {
      hide Wrap32, TimeDiff;
      ProductFits(ticks, timeMhz);
      var t := Udiv64(ticks * timeMhz, SAMPLE_MHZ);
      thresh := ThreeQuarters(t);
      trigger := false;
    }
  }

  lemma SignedCompared(delta: int)
    ensures Compared(delta, false) == delta
  {
  }

  /** What the first index_timer sees. */
  lemma BootDiff(now: nat, period: nat, unsigned: bool)
    requires TWO32 - TWO24 <= now <= TWO32 + period && TWO24 < period < 0x2000_0000
    ensures Compared(TimeDiff(0, Wrap32(now)), unsigned) > period <==> unsigned && now < TWO32
    ensures Wrap32(Wrap32(now) - period) == Wrap32(now - period) && Wrap32(TWO32) == 0
  {
    WrapAddInt(now, 0 - period as int);
    assert Wrap32(TWO32) == 0;
    TimeDiffExact(TWO32, now);
  }

  lemma ProductFits(a: U32, b: nat)
    requires b < 0x1_0000
    ensures 0 <= a * b < TWO64
  {
    NotNegative(a, b);
    NotNegative(a, 0x1_0000 - b);
    assert a * b + a * (0x1_0000 - b) == a * 0x1_0000;
  }

  lemma NotNegative(a: nat, b: nat)
    ensures a * b >= 0
  {
  }

  /** `t * 3 / 4` on 32-bit words. */
  function ThreeQuarters(t: U32): (r: U32)
    ensures r <= 3 * t / 4
    ensures 3 * t < TWO32 ==> r == 3 * t / 4
  {
    Wrap32(3 * t) / 4
  }

  /* ---- A whole disk ---------------------------------------------------------------------- */

  /** The holes of a disk of `n` sectors pass in the order 0, 1, .., n, where 0 is the
      index hole, half way between the last sector hole and the first. */
  function HoleAfter(h: nat, n: nat): nat { if h >= n then 0 else h + 1 }

  function HoleAt(h: nat, n: nat, i: nat): (hole: nat)
    ensures h <= n ==> hole <= n
  {
    if i == 0 then h else HoleAfter(HoleAt(h, n, i - 1), n)
  }

  /** The gap before hole `h` is a whole sector. */
  predicate FullGap(h: nat) { h >= 2 }

  /** The gaps between the holes from `h` on: full ones above the threshold, half ones
      not, and none within the mask. */
  ghost predicate Turning(gaps: seq<int>, h: nat, n: nat, mask: nat, thresh: nat) {
    forall i :: 0 <= i < |gaps| ==>
      gaps[i] >= mask && (FullGap(HoleAt(h, n, i)) <==> gaps[i] > thresh)
  }

  /** The trigger before the i-th of the holes that follow the gaps. */
  function TriggerAt(gaps: seq<int>, mask: nat, thresh: nat, trigger: bool, i: nat): bool
    requires i <= |gaps|
  {
    if i == 0 then trigger
    else Decide(gaps[i - 1], mask, thresh, TriggerAt(gaps, mask, thresh, trigger, i - 1)).1
  }

  function VerdictAt(gaps: seq<int>, mask: nat, thresh: nat, trigger: bool, i: nat): Verdict
    requires i < |gaps|
  {
    Decide(gaps[i], mask, thresh, TriggerAt(gaps, mask, thresh, trigger, i)).0
  }

  /** Once a full gap has passed, the trigger is set exactly between the index hole and
      the first sector hole. */
  lemma {:induction false} Locked(gaps: seq<int>, h: nat, n: nat, mask: nat, thresh: nat, trigger: bool, j: nat, i: nat)
    requires n >= 2 && h <= n && thresh > 0 && Turning(gaps, h, n, mask, thresh)
    requires j < i <= |gaps| && FullGap(HoleAt(h, n, j))
    ensures TriggerAt(gaps, mask, thresh, trigger, i) <==> HoleAt(h, n, i - 1) == 0
  {
    if i > j + 1 {
      Locked(gaps, h, n, mask, thresh, trigger, j, i - 1);
      assert HoleAt(h, n, i - 1) == HoleAfter(HoleAt(h, n, i - 2), n);
    }
  }

  /** From the first full gap on, whatever state the trigger was in and wherever on the
      disk it started, exactly the first sector hole is counted. */
  lemma CountsFirstSector(gaps: seq<int>, h: nat, n: nat, mask: nat, thresh: nat, trigger: bool, j: nat, i: nat)
    requires n >= 2 && h <= n && thresh > 0 && Turning(gaps, h, n, mask, thresh)
    requires j < i < |gaps| && FullGap(HoleAt(h, n, j))
    ensures VerdictAt(gaps, mask, thresh, trigger, i).Counted? <==> HoleAt(h, n, i) == 1
  {
    Locked(gaps, h, n, mask, thresh, trigger, j, i);
    assert HoleAt(h, n, i) == HoleAfter(HoleAt(h, n, i - 1), n);
  }

  /** How often the count rises over the holes [lo, hi). */
  function Rises(gaps: seq<int>, mask: nat, thresh: nat, trigger: bool, lo: nat, hi: nat): nat
    requires lo <= hi <= |gaps|
    decreases hi
  {
    if lo == hi then 0
    else Rises(gaps, mask, thresh, trigger, lo, hi - 1)
         + if VerdictAt(gaps, mask, thresh, trigger, hi - 1).Counted? then 1 else 0
  }

  /** How often hole 1 passes among the holes [lo, hi). */
  function Passes(h: nat, n: nat, lo: nat, hi: nat): nat
    requires lo <= hi
    decreases hi
  {
    if lo == hi then 0 else Passes(h, n, lo, hi - 1) + if HoleAt(h, n, hi - 1) == 1 then 1 else 0
  }

  lemma {:induction false} CountsArePasses(gaps: seq<int>, h: nat, n: nat, mask: nat, thresh: nat, trigger: bool, j: nat, lo: nat, hi: nat)
    requires n >= 2 && h <= n && thresh > 0 && Turning(gaps, h, n, mask, thresh)
    requires j < lo <= hi <= |gaps| && FullGap(HoleAt(h, n, j))
    ensures Rises(gaps, mask, thresh, trigger, lo, hi) == Passes(h, n, lo, hi)
    decreases hi
  {
    if lo < hi {
      CountsArePasses(gaps, h, n, mask, thresh, trigger, j, lo, hi - 1);
      CountsFirstSector(gaps, h, n, mask, thresh, trigger, j, hi - 1);
    }
  }

  /** From hole `b` at position lo, the hole at lo + k. */
  lemma {:induction false} HoleLater(h: nat, n: nat, lo: nat, k: nat)
    requires h <= n && k <= n + 1
    ensures var b := HoleAt(h, n, lo);
            HoleAt(h, n, lo + k) == if b + k <= n then b + k else b + k - n - 1
    decreases k
  {
    if k > 0 {
      HoleLater(h, n, lo, k - 1);
    }
  }

  /** In k holes from position lo, hole 1 has passed once if the disk has come by it. */
  lemma {:induction false} PassesSoFar(h: nat, n: nat, lo: nat, k: nat)
    requires n >= 1 && h <= n && k <= n + 1
    ensures var b := HoleAt(h, n, lo);
            Passes(h, n, lo, lo + k) == if (b <= 1 && k > 1 - b) || (b > 1 && k > n + 2 - b) then 1 else 0
    decreases k
  {
    if k > 0 {
      PassesSoFar(h, n, lo, k - 1);
      HoleLater(h, n, lo, k - 1);
    }
  }

  /** A revolution, from anywhere, after the first full gap: the count rises once. */
  lemma OncePerRevolution(gaps: seq<int>, h: nat, n: nat, mask: nat, thresh: nat, trigger: bool, j: nat, lo: nat)
    requires n >= 2 && h <= n && thresh > 0 && Turning(gaps, h, n, mask, thresh)
    requires j < lo && lo + n + 1 <= |gaps| && FullGap(HoleAt(h, n, j))
    ensures Rises(gaps, mask, thresh, trigger, lo, lo + n + 1) == 1
  {
    CountsArePasses(gaps, h, n, mask, thresh, trigger, j, lo, lo + n + 1);
    PassesSoFar(h, n, lo, n + 1);
  }

  /* ---- The disk as the driver sees it ----------------------------------------------------- */

  /** When the last pulse came, or `last` if none has. */
  function LastAt(last: int, events: seq<Event>): int {
    if events == [] then last
    else
      match events[|events| - 1]
      case Pulse(at, _) => at
      case Timer(_) => LastAt(last, events[..|events| - 1])
  }

  /** The times between pulses. */
  function GapsOf(last: int, events: seq<Event>): (g: seq<int>)
    ensures |g| <= |events|
  {
    if events == [] then []
    else
      var before := events[..|events| - 1];
      GapsOf(last, before)
      + match events[|events| - 1] case Pulse(at, _) => [at - LastAt(last, before)] case Timer(_) => []
  }

  lemma {:induction false} TriggerPrefix(gaps: seq<int>, more: seq<int>, mask: nat, thresh: nat, trigger: bool, i: nat)
    requires i <= |gaps|
    ensures TriggerAt(gaps + more, mask, thresh, trigger, i) == TriggerAt(gaps, mask, thresh, trigger, i)
  {
    if i > 0 {
      TriggerPrefix(gaps, more, mask, thresh, trigger, i - 1);
    }
  }

  lemma {:induction false} RisesPrefix(gaps: seq<int>, more: seq<int>, mask: nat, thresh: nat, trigger: bool, lo: nat, hi: nat)
    requires lo <= hi <= |gaps|
    ensures Rises(gaps + more, mask, thresh, trigger, lo, hi) == Rises(gaps, mask, thresh, trigger, lo, hi)
    decreases hi
  {
    if lo < hi {
      RisesPrefix(gaps, more, mask, thresh, trigger, lo, hi - 1);
      TriggerPrefix(gaps, more, mask, thresh, trigger, hi - 1);
    }
  }

  lemma {:induction false} RisesSplit(gaps: seq<int>, mask: nat, thresh: nat, trigger: bool, mid: nat, hi: nat)
    requires mid <= hi <= |gaps|
    ensures Rises(gaps, mask, thresh, trigger, 0, hi)
         == Rises(gaps, mask, thresh, trigger, 0, mid) + Rises(gaps, mask, thresh, trigger, mid, hi)
    decreases hi
  {
    if mid < hi {
      RisesSplit(gaps, mask, thresh, trigger, mid, hi - 1);
    }
  }

  /** One pulse more that is not masked. */
  lemma OneGap(trigger: bool, g: seq<int>, gap: int, a: Seen, at: nat, cnt: nat, mask: nat, thresh: nat)
    requires gap == at - a.last >= mask && a.trigger == TriggerAt(g, mask, thresh, trigger, |g|)
    ensures var b := OnPulse(a, at, cnt, mask, thresh);
            && b.last == at && b.trigger == TriggerAt(g + [gap], mask, thresh, trigger, |g| + 1)
            && b.count + Rises(g, mask, thresh, trigger, 0, |g|)
               == a.count + Rises(g + [gap], mask, thresh, trigger, 0, |g| + 1)
  {
    TriggerPrefix(g, [gap], mask, thresh, trigger, |g|);
    RisesPrefix(g, [gap], mask, thresh, trigger, 0, |g|);
  }

  /** If no pulse is masked, the count is how often the verdicts on the gaps raise it. */
  lemma {:induction false} AfterIsRises(s: Seen, events: seq<Event>, mask: nat, thresh: nat)
    requires forall i :: 0 <= i < |GapsOf(s.last, events)| ==> GapsOf(s.last, events)[i] >= mask
    ensures var g, a := GapsOf(s.last, events), After(s, events, mask, thresh);
            && a.last == LastAt(s.last, events)
            && a.trigger == TriggerAt(g, mask, thresh, s.trigger, |g|)
            && a.count == s.count + Rises(g, mask, thresh, s.trigger, 0, |g|)
  {
    if events != [] {
      var before := events[..|events| - 1];
      var g, all := GapsOf(s.last, before), GapsOf(s.last, events);
      assert all[..|g|] == g;
      forall i | 0 <= i < |g|
        ensures g[i] >= mask
      {
        assert g[i] == all[i];
      }
      AfterIsRises(s, before, mask, thresh);
      hide TriggerAt, Rises, OnPulse;
      if events[|events| - 1].Pulse? {
        var gap := all[|g|];
        assert all == g + [gap] && gap >= mask;
        OneGap(s.trigger, g, gap, After(s, before, mask, thresh), events[|events| - 1].at, events[|events| - 1].cnt, mask, thresh);
      } else {
        assert all == g;
      }
    }
  }

  lemma {:induction false} GapsAppend(last: int, a: seq<Event>, b: seq<Event>)
    ensures LastAt(last, a + b) == LastAt(LastAt(last, a), b)
    ensures GapsOf(last, a + b) == GapsOf(last, a) + GapsOf(LastAt(last, a), b)
    decreases |b|
  {
    if b == [] {
      assert a + b == a;
    } else {
      var n := |b| - 1;
      assert (a + b)[..|a| + n] == a + b[..n];
      GapsAppend(last, a, b[..n]);
    }
  }

  lemma {:induction false} AfterAppend(s: Seen, a: seq<Event>, b: seq<Event>, mask: nat, thresh: nat)
    ensures After(s, a + b, mask, thresh) == After(After(s, a, mask, thresh), b, mask, thresh)
    decreases |b|
  {
    if b == [] {
      assert a + b == a;
    } else {
      var n := |b| - 1;
      assert (a + b)[..|a| + n] == a + b[..n];
      AfterAppend(s, a, b[..n], mask, thresh);
    }
  }

  /** The pulses so far, `past`, and those of a revolution, `turn`, are those of a disk of
      `n` sectors, beginning with hole `h`; and a full gap has already gone by. */
  ghost predicate Revolution(s: Seen, past: seq<Event>, turn: seq<Event>, h: nat, n: nat, mask: nat, thresh: nat) {
    && n >= 2 && h <= n && thresh > 0
    && Turning(GapsOf(s.last, past + turn), h, n, mask, thresh)
    && |GapsOf(s.last, past + turn)| == |GapsOf(s.last, past)| + n + 1
    && exists j :: 0 <= j < |GapsOf(s.last, past)| && FullGap(HoleAt(h, n, j))
  }

  /** A revolution counts once, wherever on the disk it begins. */
  lemma RevolutionCountsOnce(s: Seen, past: seq<Event>, turn: seq<Event>, h: nat, n: nat, mask: nat, thresh: nat)
    requires Revolution(s, past, turn, h, n, mask, thresh)
    ensures After(s, past + turn, mask, thresh).count == After(s, past, mask, thresh).count + 1
  {
    var g, all := GapsOf(s.last, past), GapsOf(s.last, past + turn);
    GapsAppend(s.last, past, turn);
    var more := GapsOf(LastAt(s.last, past), turn);
    assert all == g + more;
    forall i | 0 <= i < |g|
      ensures g[i] >= mask
    {
      assert g[i] == all[i];
    }
    AfterIsRises(s, past, mask, thresh);
    AfterIsRises(s, past + turn, mask, thresh);
    RisesSplit(all, mask, thresh, s.trigger, |g|, |all|);
    RisesPrefix(g, more, mask, thresh, s.trigger, 0, |g|);
    var j :| 0 <= j < |g| && FullGap(HoleAt(h, n, j));
    OncePerRevolution(all, h, n, mask, thresh, s.trigger, j, |g|);
  }

  /** The driver's variables over a revolution: `past` is what has happened since they were
      as `s` says. */
  method Revolve(d: IndexState, ghost s: Seen, ghost past: seq<Event>, turn: seq<Event>, ghost h: nat, ghost n: nat)
    requires d.Valid() && d.ThreshInRange() && InTime(turn, d.latest, d.clamped, d.period)
    requires d.Abstract() == After(s, past, d.mask, d.thresh)
    requires Revolution(s, past, turn, h, n, d.mask, d.thresh)
    modifies d
    ensures d.Valid() && d.count == old(d.count) + 1
    ensures d.Abstract() == After(s, past + turn, d.mask, d.thresh)
  {
    hide After, Revolution;
    RevolutionCountsOnce(s, past, turn, h, n, d.mask, d.thresh);
    AfterAppend(s, past, turn, d.mask, d.thresh);
    d.Run(turn);
  }

  /* ---- Bouncing pulses -------------------------------------------------------------------- */

  /** When a pulse was last not masked. */
  function LastHeard(last: int, events: seq<Event>, mask: nat): int {
    if events == [] then last
    else
      var before := LastHeard(last, events[..|events| - 1], mask);
      match events[|events| - 1]
      case Pulse(at, _) => if at - before < mask then before else at
      case Timer(_) => before
  }

  /** The events without the pulses that come sooner after the last than the mask allows. */
  function Unmasked(last: int, events: seq<Event>, mask: nat): seq<Event> {
    if events == [] then []
    else
      var n := |events| - 1;
      Unmasked(last, events[..n], mask)
      + if events[n].Pulse? && events[n].at - LastHeard(last, events[..n], mask) < mask then [] else [events[n]]
  }

  /** Masked pulses change nothing, with a hard-sector threshold or without. */
  lemma {:induction false} MaskedChangeNothing(s: Seen, events: seq<Event>, mask: nat, thresh: nat)
    ensures After(s, events, mask, thresh) == After(s, Unmasked(s.last, events, mask), mask, thresh)
    ensures After(s, events, mask, thresh).last == LastHeard(s.last, events, mask)
  {
    if events != [] {
      var n := |events| - 1;
      var u := Unmasked(s.last, events[..n], mask);
      MaskedChangeNothing(s, events[..n], mask, thresh);
      assert (u + [events[n]])[..|u|] == u;
      assert u + [] == u;
    }
  }

  lemma {:induction false} UnmaskedAppend(last: int, a: seq<Event>, b: seq<Event>, mask: nat)
    ensures LastHeard(last, a + b, mask) == LastHeard(LastHeard(last, a, mask), b, mask)
    ensures Unmasked(last, a + b, mask) == Unmasked(last, a, mask) + Unmasked(LastHeard(last, a, mask), b, mask)
    decreases |b|
  {
    if b == [] {
      assert a + b == a;
    } else {
      var n := |b| - 1;
      assert (a + b)[..|a| + n] == a + b[..n];
      UnmaskedAppend(last, a, b[..n], mask);
    }
  }

  /** So a revolution counts once however the sensor bounces, as long as what is left of
      the pulses is a revolution. */
  lemma BouncingCountsOnce(s: Seen, past: seq<Event>, turn: seq<Event>, h: nat, n: nat, mask: nat, thresh: nat)
    requires Revolution(s, Unmasked(s.last, past, mask), Unmasked(LastHeard(s.last, past, mask), turn, mask), h, n, mask, thresh)
    ensures After(s, past + turn, mask, thresh).count == After(s, past, mask, thresh).count + 1
  {
    hide After, Revolution, Unmasked;
    UnmaskedAppend(s.last, past, turn, mask);
    MaskedChangeNothing(s, past + turn, mask, thresh);
    MaskedChangeNothing(s, past, mask, thresh);
    RevolutionCountsOnce(s, Unmasked(s.last, past, mask), Unmasked(LastHeard(s.last, past, mask), turn, mask), h, n, mask, thresh);
  }

  /* ---- At boot ----------------------------------------------------------------------------- */

  /** Two pulses soon after boot, before the clock has wrapped, as an STM32F1 at 9 ticks to
      the microsecond sees them and as a part does that compares them unsigned; and the
      first pulses that the former counts, and does not. */
  method PulsesAtBoot() returns (signed: nat, unsigned: nat, late: nat, later: nat)
    ensures signed == 0 && unsigned == 2
    ensures late == 0 && later == 1
  {
    var period, mask, boot := 45_000_000, 1800, TWO32 - 10_000_000;
    var s := new IndexState(boot, period, false, mask);
    var u := new IndexState(boot, period, true, mask);
    s.IrqIndexChanged(boot + 1_000_000, 0);
    s.IrqIndexChanged(boot + 2_000_000, 0);
    signed := s.count;
    u.IrqIndexChanged(boot + 1_000_000, 0);
    u.IrqIndexChanged(boot + 2_000_000, 0);
    unsigned := u.count;
    s.IrqIndexChanged(TWO32 + mask - 1, 0);
    late := s.count;
    s.IrqIndexChanged(TWO32 + mask, 0);
    later := s.count;
  }

  /** A full gap is never more than two holes away. */
  lemma LocksSoon(h: nat, n: nat)
    requires n >= 2 && h <= n
    ensures FullGap(HoleAt(h, n, 0)) || FullGap(HoleAt(h, n, 1)) || FullGap(HoleAt(h, n, 2))
  {
    HoleLater(h, n, 0, 1);
    HoleLater(h, n, 0, 2);
  }
}
