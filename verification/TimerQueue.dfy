/** Deadline timers served by a one-shot hardware timer, together with the clock that is
    kept alive by one of these timers. */
module TimerQueue {
  import opened Words
  import opened TimeBase
  import opened TimerList

  /** What happens to the timers: the main program acts, time passes, the one-shot timer
      expires, its interrupt is served with callbacks that act in turn. */
  datatype Event = Act(action: Action) | Wait | Expiry | Interrupt(calls: seq<seq<Action>>)

  function ActionsOf(ds: seq<Timed>): (r: seq<Action>)
    ensures |r| == |ds|
  {
    seq(|ds|, i requires 0 <= i < |ds| => ds[i].action)
  }

  /** The deeds of several events, in order. */
  function Joined(parts: seq<seq<Deed>>): seq<Deed>
    decreases |parts|
  {
    if parts == [] then [] else Joined(parts[..|parts| - 1]) + parts[|parts| - 1]
  }

  lemma JoinedMore(parts: seq<seq<Deed>>, p: seq<Deed>)
    ensures Joined(parts + [p]) == Joined(parts) + p
  {
    assert (parts + [p])[..|parts|] == parts;
  }

  /* ---- How late a callback can be ---------------------------------------- */

  /** Half the range of the tick counter: what its callback must not be late by. */
  const LATE := 0x80_0000

  /** Who runs: the main program; the handler, between two rounds of its loop; the handler
      in a round, with the callback that it runs. */
  datatype Phase = Thread | Between | Round

  function Times(k: nat, c: nat): nat { k * c }

  lemma TimesNext(k: nat, c: nat)
    ensures Times(k + 1, c) == Times(k, c) + c
  {
  }

  lemma {:induction false} TimesMore(j: nat, k: nat, c: nat)
    requires j <= k
    ensures Times(j, c) <= Times(k, c)
    decreases k - j
  {
    if j < k {
      TimesNext(j, c);
      TimesMore(j + 1, k, c);
    }
  }

  /** While the main program runs, a one-shot is set or its interrupt pending, due soon
      after the first timer; no time passes beyond the interrupt's latency. */
  predicate InThread(due: int, now: int, limit: int, fireAt: int, live: bool, lag: nat) {
    live && now <= limit == fireAt + lag && fireAt <= due + lag + 13
  }

  /** Between rounds, for a timer with `ahead` of `most` timers before it. */
  predicate InBetween(due: int, now: int, lag: nat, callback: nat, ahead: nat, most: nat) {
    ahead < most && now <= due + 2 * lag + 13 + Times(most - ahead, callback)
  }

  /** In a round begun at `start`, for a timer with `ahead` timers left before it. */
  predicate InRound(due: int, now: int, limit: int, start: int, lag: nat, callback: nat, ahead: nat, most: nat) {
    && ahead < most && start <= now <= limit == start + callback
    && start <= due + 2 * lag + 13 + Times(most - 1 - ahead, callback)
  }

  /** How late a callback is at most: the interrupt, and the handler's rounds for all
      timers and one more. */
  function LateBy(lag: nat, callback: nat, most: nat): nat {
    2 * lag + 13 + Times(most + 1, callback)
  }

  /** These are short enough for the clock. */
  predicate Budget(lag: nat, callback: nat, most: nat) {
    LateBy(lag, callback, most) + lag < LATE
  }

  /** The handler starts. */
  lemma HandlerStarts(due: int, now: int, limit: int, fireAt: int, live: bool, lag: nat, callback: nat, ahead: nat, most: nat)
    requires InThread(due, now, limit, fireAt, live, lag) && ahead < most
    ensures InBetween(due, now, lag, callback, ahead, most)
  {
    hide Times;
  }

  /** A round starts: it will have ended in time. */
  lemma RoundStarts(due: int, now: int, lag: nat, callback: nat, ahead: nat, most: nat)
    requires InBetween(due, now, lag, callback, ahead, most)
    ensures now + callback <= due + LateBy(lag, callback, most)
    ensures ahead > 0 ==> InRound(due, now, now + callback, now, lag, callback, ahead - 1, most)
  {
    TimesNext(most - ahead, callback);
    TimesMore(most - ahead + 1, most + 1, callback);
    hide Times;
  }

  /** A round ends. */
  lemma RoundEnds(due: int, now: int, limit: int, start: int, lag: nat, callback: nat, ahead: nat, most: nat)
    requires InRound(due, now, limit, start, lag, callback, ahead, most)
    ensures InBetween(due, now, lag, callback, ahead, most)
  {
    TimesNext(most - 1 - ahead, callback);
    hide Times;
  }

  /** In a round a timer is set, at a deadline not in the past, or cancelled. */
  lemma RoundGoesOn(due: int, now: int, now': int, limit: int, start: int, lag: nat, callback: nat, ahead: nat, ahead': nat, most: nat)
    requires InRound(due, now, limit, start, lag, callback, ahead, most)
    requires now <= now' <= limit && ahead' < most && (ahead' <= ahead || start <= due)
    ensures InRound(due, now', limit, start, lag, callback, ahead', most)
  {
    if ahead' <= ahead {
      TimesMore(most - 1 - ahead, most - 1 - ahead', callback);
    }
    hide Times;
  }

  /* -- All timers of the list -- */

  ghost predicate AllBetween(q: seq<Timer>, due: map<Timer, int>, now: int, lag: nat, callback: nat, most: nat) {
    forall t :: t in q ==> t in due && InBetween(due[t], now, lag, callback, Ahead(q, t), most)
  }

  ghost predicate AllInRound(q: seq<Timer>, due: map<Timer, int>, now: int, limit: int, start: int,
                             lag: nat, callback: nat, most: nat)
  {
    && start <= now <= limit == start + callback
    && forall t :: t in q ==> t in due && InRound(due[t], now, limit, start, lag, callback, Ahead(q, t), most)
  }

  lemma AllStart(q: seq<Timer>, due: map<Timer, int>, now: int, limit: int, fireAt: int, live: bool,
                 lag: nat, callback: nat, most: nat)
    requires Sorted(q, due) && q != [] && |q| <= most && InThread(due[q[0]], now, limit, fireAt, live, lag)
    ensures AllBetween(q, due, now, lag, callback, most)
  {
    forall t | t in q
      ensures t in due && InBetween(due[t], now, lag, callback, Ahead(q, t), most)
    {
      FirstDue(q, due, t);
      HandlerStarts(due[t], now, limit, fireAt, live, lag, callback, Ahead(q, t), most);
    }
  }

  /** The first timer is taken out. */
  lemma AllRound(q: seq<Timer>, due: map<Timer, int>, now: int, lag: nat, callback: nat, most: nat)
    requires AllBetween(q, due, now, lag, callback, most) && q != [] && Distinct(q)
    ensures forall t :: t in q ==> t in due && now + callback <= due[t] + LateBy(lag, callback, most)
    ensures AllInRound(Cut(q, 0), due, now, now + callback, now, lag, callback, most)
  {
    hide LateBy, InBetween, InRound, Distinct;
    forall t | t in q
      ensures t in due && now + callback <= due[t] + LateBy(lag, callback, most)
    {
      RoundStarts(due[t], now, lag, callback, Ahead(q, t), most);
    }
    forall t | t in Cut(q, 0)
      ensures t in due && InRound(due[t], now, now + callback, now, lag, callback, Ahead(Cut(q, 0), t), most)
    {
      CutMembers(q, 0, t);
      AheadCut(q, t);
      RoundStarts(due[t], now, lag, callback, Ahead(q, t), most);
    }
  }

  lemma AllEnd(q: seq<Timer>, due: map<Timer, int>, now: int, limit: int, start: int, lag: nat, callback: nat, most: nat)
    requires AllInRound(q, due, now, limit, start, lag, callback, most)
    ensures AllBetween(q, due, now, lag, callback, most)
  {
    hide InBetween, InRound;
    forall t | t in q
      ensures t in due && InBetween(due[t], now, lag, callback, Ahead(q, t), most)
    {
      RoundEnds(due[t], now, limit, start, lag, callback, Ahead(q, t), most);
    }
  }

  lemma AllLater(q: seq<Timer>, due: map<Timer, int>, now: int, now': int, limit: int, start: int, lag: nat, callback: nat, most: nat)
    requires AllInRound(q, due, now, limit, start, lag, callback, most) && now <= now' <= limit
    ensures AllInRound(q, due, now', limit, start, lag, callback, most)
  {
  }

  /** A timer is set, for a deadline not before the round began. */
  lemma AllAfterSet(q: seq<Timer>, due: map<Timer, int>, u: Timer, at: int, q': seq<Timer>,
                    now: int, now': int, limit: int, start: int, lag: nat, callback: nat, most: nat)
    requires AllInRound(q, due, now, limit, start, lag, callback, most)
    requires Sorted(Without(q, u), due) && q' == Put(Without(q, u), Place(Without(q, u), due, at), u)
    requires Members(q') == Members(q) + {u} && |q'| <= most && now <= now' <= limit && start <= at
    ensures AllInRound(q', due[u := at], now', limit, start, lag, callback, most)
  {
    hide InRound, Sorted, Place, Put, Without;
    forall t | t in q'
      ensures t in due[u := at] && InRound(due[u := at][t], now', limit, start, lag, callback, Ahead(q', t), most)
    {
      assert t in Members(q');
      if t == u {
        NewInRound(at, now', limit, start, lag, callback, Ahead(q', t), most);
      } else {
        AheadAfterSet(q, due, u, at, t);
        RoundGoesOn(due[t], now, now', limit, start, lag, callback, Ahead(q, t), Ahead(q', t), most);
      }
    }
  }

  lemma NewInRound(due: int, now: int, limit: int, start: int, lag: nat, callback: nat, ahead: nat, most: nat)
    requires start <= now <= limit == start + callback && start <= due && ahead < most
    ensures InRound(due, now, limit, start, lag, callback, ahead, most)
  {
    hide Times;
  }

  lemma AllAfterDrop(q: seq<Timer>, due: map<Timer, int>, u: Timer, now: int, limit: int, start: int,
                     lag: nat, callback: nat, most: nat)
    requires AllInRound(q, due, now, limit, start, lag, callback, most) && |Without(q, u)| <= most && Distinct(q)
    ensures AllInRound(Without(q, u), due, now, limit, start, lag, callback, most)
  {
    hide InRound;
    WithoutMembers(q, u);
    forall t | t in Without(q, u)
      ensures t in due && InRound(due[t], now, limit, start, lag, callback, Ahead(Without(q, u), t), most)
    {
      assert t in Members(Without(q, u));
      AheadWithout(q, u, t);
      RoundGoesOn(due[t], now, now, limit, start, lag, callback, Ahead(q, t), Ahead(Without(q, u), t), most);
    }
  }

  class Timers {
    const bits: nat               // 16 or 32: the width of the one-shot timer
    const stampTimer: Timer       // time_stamp_timer
    const timely: bool            // what is assumed of the world: see Schedule
    const lag: nat
    const callback: nat
    ghost const timers: set<Timer>
    var head: Link
    var timeStamp: U32            // time_stamp

    // The world: absolute time, when the stamp was taken, and the one-shot timer.
    var now: nat
    var stampTime: nat
    var armed: bool
    var armedAt: nat
    var fireAt: nat
    var pending: bool
    var phase: Phase
    var roundStart: nat
    var limit: int                // what time it is now at the latest

    ghost var bootGap: nat        // how far the stamp's deadline is beyond its period
    ghost var queue: seq<Timer>
    ghost var due: map<Timer, int>

    ghost predicate Linked()
      reads this`head, this`queue, timers`next
    {
      Chain(head, queue, Links(timers))
    }

    /** The stamp is right, and no reading comes half the counter's range, or more, after
        the update of the stamp is due. */
    ghost predicate ClockOk()
      reads this`timeStamp, this`now, this`stampTime, this`limit
    {
      timeStamp == Not32(Wrap32(stampTime)) && stampTime <= now <= limit < stampTime + UPDATE_PERIOD + LATE
    }

    /** The list is in order of absolute deadlines, and these can be told apart. */
    ghost predicate InOrder()
      reads this`queue, this`due, this`stampTime, timers`deadline
    {
      Sorted(queue, due) && Dated(queue, due, Deadlines(timers), stampTime)
    }

    /** The clock's own timer is set for the end of the stamp's period; only the first time
        the two are apart, by the time between two readings of the counter. */
    ghost predicate Stamped()
      reads this`queue, this`due, this`stampTime, this`bootGap
    {
      && stampTimer in queue && stampTimer in due
      && due[stampTimer] == stampTime + UPDATE_PERIOD + bootGap
      && (timely ==> bootGap <= lag)
    }

    /** What is assumed of the world. Unless it is `timely`, only that the clock's own
        callback is never so late that the counter has wrapped. In a timely world that
        is proved, and a bound for every other callback with it: interrupts are served,
        and timer_set sets its timer, within `lag` ticks, and no round of the handler's
        loop lasts longer than `callback` ticks. */
    ghost predicate Schedule()
      reads this`queue, this`due, this`now, this`stampTime, this`fireAt, this`armed, this`pending,
            this`phase, this`roundStart, this`limit
    {
      if !timely then limit == stampTime + UPDATE_PERIOD + LATE - 1
      else
        && Budget(lag, callback, |timers|)
        && match phase
          case Thread =>
            queue != [] && queue[0] in due && InThread(due[queue[0]], now, limit, fireAt, armed || pending, lag)
          case Between => AllBetween(queue, due, now, lag, callback, |timers|)
          case Round => AllInRound(queue, due, now, limit, roundStart, lag, callback, |timers|)
    }

    /** How late a callback can be in a timely world. */
    ghost function Late(): nat { LateBy(lag, callback, |timers|) }

    ghost function Plan(): map<Timer, int>
      reads this`queue, this`due
    {
      Agenda(queue, due)
    }

    ghost predicate Armed()
      reads this`queue, this`due, this`armed, this`armedAt, this`fireAt, this`pending
    {
      ArmedFor(queue, due, pending, armed, armedAt, fireAt)
    }

    ghost predicate Serving()
      reads this`head, this`queue, this`due, this`timeStamp, this`now, this`stampTime, this`limit, this`bootGap, timers
    {
      stampTimer in timers && Linked() && ClockOk() && InOrder() && Stamped()
    }

    ghost predicate Valid()
      reads this, timers
    {
      Serving() && Armed() && Schedule() && phase == Thread
    }

    /** Reset: no timers set yet, the tick counter at `stk`. */
    constructor (bits: nat, stk: nat, timely: bool, lag: nat, callback: nat, ghost others: set<Timer>)
      requires stk < TWO24 && forall u :: u in others ==> u.next == Inactive
      requires timely ==> Budget(lag, callback, |others| + 1)
      ensures timers == others + {stampTimer} && fresh(stampTimer) && this.bits == bits && !armed && !pending
      ensures this.timely == timely && this.lag == lag && this.callback == callback && phase == Thread
      ensures timely ==> Budget(lag, callback, |timers|) && limit == stampTime + lag
      ensures !timely ==> limit == stampTime + UPDATE_PERIOD + LATE - 1
      ensures Linked() && ClockOk() && InOrder() && queue == []
    {
      this.bits, this.timely, this.lag, this.callback := bits, timely, lag, callback;
      var t := new Timer();
      stampTimer, timers := t, others + {t};
      head := Null;
      timeStamp := stk;
      now, stampTime := 0xffff_ffff - stk, 0xffff_ffff - stk;
      armed, armedAt, fireAt, pending := false, 0, 0, false;
      phase, roundStart, bootGap := Thread, 0, 0;
      limit := 0xffff_ffff - stk + if timely then lag else UPDATE_PERIOD + LATE - 1;
      queue, due := [], map[];
    }

    /** time_init: from here on the clock keeps itself going. */
    method TimeInit()
      requires Linked() && ClockOk() && InOrder() && queue == [] && stampTimer in timers && phase == Thread
      requires timely ==> Budget(lag, callback, |timers|) && limit == stampTime + lag
      requires !timely ==> limit == stampTime + UPDATE_PERIOD + LATE - 1
      modifies this, timers
      ensures Valid() && queue == [stampTimer]
    {
      hide Linked, InOrder, Sorted, ArmedFor, Members, Times, AllBetween, AllInRound, Not32, Wrap32;
      var n := TimeNow(false);
      bootGap := now - stampTime;
      NotArmed(due, pending, armed, armedAt, fireAt);
      SetStamp(n);
      if timely {
        limit := fireAt + lag;
      }
    }

    /** The end of time_init and of time_stamp_update: the clock's timer is set again. */
    method SetStamp(n: U32)
      requires stampTimer in timers && Linked() && ClockOk() && InOrder() && n == Wrap32(now) && stampTimer !in queue
      modifies this`head, this`queue, this`due, this`now, this`armed, this`armedAt, this`fireAt, this`pending, timers
      ensures Linked() && ClockOk() && InOrder() && now >= old(now) && (old(Armed()) ==> Armed())
      ensures due == old(due)[stampTimer := old(now) + UPDATE_PERIOD]
      ensures stampTimer in queue && Members(queue) == Members(old(queue)) + {stampTimer}
      ensures var q, at := Without(old(queue), stampTimer), old(now) + UPDATE_PERIOD;
              Sorted(q, old(due)) && queue == Put(q, Place(q, old(due), at), stampTimer)
      ensures old(queue) == [] ==> queue == [stampTimer] && Rearmed(old(now) + UPDATE_PERIOD, old(now))
    {
      hide Chain, Sorted, Distinct, Dated, Wrap32, Not32, ArmedFor, Members, Without, Place, Put, LinkAt, Rearmed;
      WrapAdd(now, UPDATE_PERIOD);
      ghost var q, d, s := Without(queue, stampTimer), due, now;
      TimerSet(stampTimer, Wrap32(n + UPDATE_PERIOD), now + UPDATE_PERIOD);
      PutIn(q, Place(q, d, s + UPDATE_PERIOD), stampTimer);
      FirstOf(q, d, s + UPDATE_PERIOD);
    }

    /** In an empty list a timer comes first. */
    lemma FirstOf(q: seq<Timer>, d: map<Timer, int>, at: int)
      requires Sorted(q, d) && Linked() && queue == Put(q, Place(q, d, at), stampTimer)
      ensures q == [] ==> queue == [stampTimer] && head == Ref(stampTimer)
      ensures Without([], stampTimer) == []
    {
    }

    /** time_now: some time passes. If the reading comes `soon` after the last, a timely
        world does not let more than the latency pass. */
    method TimeNow(soon: bool) returns (t: U32)
      requires ClockOk()
      modifies this`now
      ensures ClockOk() && now >= old(now) && t == Wrap32(now)
      ensures soon && timely ==> now <= old(now) + lag
    {
      var later: nat :| now <= later <= limit && (soon && timely ==> later <= now + lag);
      now := later;
      TimeNowExactly(stampTime, now);
      t := Reading(timeStamp, StkVal(now));
    }

    /** The one-shot is not set to fire for nothing: if not at once, then not more than the
        slack before the deadline, or as a coarse setting that brings it a good deal nearer. */
    ghost predicate NotWoken(at: int)
      reads this`armedAt, this`fireAt
    {
      fireAt == armedAt + 2 || fireAt >= at - SLACK_TICKS + 1 || fireAt >= armedAt + 56700
    }

    /** reprogram_timer, entered within SLACK_TICKS of the reading of the clock. */
    method ReprogramTimer(delta: int)
      requires ClockOk() && -0x8000_0000 <= delta < 0x8000_0000
      modifies this`now, this`armed, this`armedAt, this`fireAt, this`pending
      ensures ClockOk() && now >= old(now) && armed && armedAt == now && !pending
      ensures fireAt <= Max(old(now) + delta, armedAt + 2) && armedAt < old(now) + SLACK_TICKS && fireAt > now
      ensures !Fine(bits, delta) ==> fireAt < old(now) + delta
      ensures fireAt == armedAt + FireAfter(bits, delta) && NotWoken(old(now) + delta)
    {
      FireAfterInTime(bits, delta);
      var later: nat :| now <= later <= limit && later < now + SLACK_TICKS;
      now := later;
      armed, armedAt, fireAt, pending := true, now, now + FireAfter(bits, delta), false;
    }

    /** _timer_cancel. */
    method Unlink(timer: Timer)
      requires Linked() && timer in timers
      modifies this`head, this`queue, timers`next
      ensures Linked() && queue == Without(old(queue), timer) && timer !in queue
    {
      hide Chain, Distinct;
      ghost var links, q, h := Links(timers), queue, head;
      ChainMembers(head, q, links, timer);
      if timer.next == Inactive {
        return;
      }
      var prev: Timer? := null;
      var t := head;
      ghost var i, m: nat := 0, IndexOf(q, timer);
      while t != Ref(timer)
        invariant head == h && Links(timers) == links
        invariant i <= m && t == Ref(q[i])
        invariant prev == if i == 0 then null else q[i - 1]
        decreases m - i
      {
        prev := t.timer;
        ChainAt(h, q, links, i);
        assert prev.next == links[prev];
        t := prev.next;
        i := i + 1;
      }
      WithoutAt(q, i);
      ChainAt(h, q, links, i);
      if prev == null {
        head := timer.next;
      } else {
        ChainAt(h, q, links, i - 1);
        prev.next := timer.next;
      }
      timer.next := Inactive;
      queue := Cut(q, i);
      Removed(h, q, links, i, head, Links(timers));
    }

    /** timer_set's search: the entry after which a deadline `delta` ticks away goes. */
    method FindPlace(t: U32, delta: int, ghost at: int) returns (prev: Timer?, next: Link)
      requires stampTimer in timers && Linked() && ClockOk() && InOrder()
      requires t == Wrap32(now) && delta == at - now && -FAR - TWO24 <= delta < FAR
      ensures var p := Place(queue, due, at);
              && next == LinkAt(queue, p) && (prev == if p == 0 then null else queue[p - 1])
              && (forall j :: 0 <= j < p ==> due[queue[j]] < at)
              && (p < |queue| ==> at <= due[queue[p]])
    {
      hide Chain, Distinct, Sorted, Wrap32, TimeDiff;
      ghost var i := 0;
      ChainMembers(head, queue, Links(timers), stampTimer);
      prev, next := null, head;
      while next != Null && delta > TimeDiff(t, next.timer.deadline)
        invariant i <= |queue| && next == LinkAt(queue, i)
        invariant prev == if i == 0 then null else queue[i - 1]
        invariant forall j :: 0 <= j < i ==> queue[j] in due && due[queue[j]] < at
        decreases |queue| - i
      {
        DiffIs(queue[i], t);
        prev := next.timer;
        ChainAt(head, queue, Links(timers), i);
        next := prev.next;
        i := i + 1;
      }
      if i < |queue| {
        DiffIs(queue[i], t);
      }
      PlaceIs(queue, due, at, i);
    }

    lemma DiffIs(u: Timer, t: U32)
      requires Linked() && ClockOk() && InOrder() && u in queue && t == Wrap32(now)
      ensures u in timers && u in due && TimeDiff(t, u.deadline) == due[u] - now
      ensures -0x8000_0000 <= due[u] - now < 0x8000_0000
    {
      DatedAt(queue, due, Deadlines(timers), stampTime, u);
      TimeDiffExact(now, due[u]);
    }

    /** Splices `timer` into the list. */
    method Insert(timer: Timer, prev: Timer?, next: Link, ghost p: nat)
      requires Linked() && timer in timers && timer !in queue && p <= |queue|
      requires next == LinkAt(queue, p) && prev == if p == 0 then null else queue[p - 1]
      modifies this`head, this`queue, timers`next
      ensures Linked() && queue == Put(old(queue), p, timer) && (head == Ref(timer) <==> p == 0)
    {
      hide Chain, Distinct;
      ghost var q, links, h := queue, Links(timers), head;
      ChainMembers(head, queue, links, timer);
      if p > 0 {
        ChainAt(head, queue, links, p - 1);
      }
      timer.next := next;
      if prev == null {
        head := Ref(timer);
      } else {
        prev.next := Ref(timer);
      }
      queue := Put(q, p, timer);
      Inserted(h, q, links, timer, p, head, Links(timers));
    }

    /** timer_set, first part: out of the list, and the new deadline in the timer. */
    method Detach(timer: Timer, deadline: U32)
      requires Linked() && InOrder() && timer in timers
      modifies this`head, this`queue, timers
      ensures Linked() && InOrder() && queue == Without(old(queue), timer) && timer !in queue
      ensures timer.deadline == deadline
    {
      hide Chain, Sorted, Distinct, Dated, Wrap32;
      ChainMembers(head, queue, Links(timers), timer);
      WithoutSorted(queue, due, timer);
      ghost var q, d := queue, Deadlines(timers);
      Unlink(timer);
      ghost var links := Links(timers);
      timer.deadline := deadline;
      assert Links(timers) == links;
      DatedWithout(q, due, d, stampTime, timer, Deadlines(timers));
    }

    /** timer_set, second part: into the list, in front of the first that is due no
        earlier. */
    method Enqueue(timer: Timer, t: U32, delta: int, ghost at: int)
      requires stampTimer in timers && Linked() && ClockOk() && InOrder() && timer in timers && timer !in queue
      requires t == Wrap32(now) && delta == at - now && -FAR - TWO24 <= delta < FAR
      requires timer.deadline == Wrap32(at) && stampTime - FAR <= at
      modifies this`head, this`queue, this`due, timers`next
      ensures Linked() && InOrder() && due == old(due)[timer := at] && Sorted(old(queue), old(due))
      ensures queue == Put(old(queue), Place(old(queue), old(due), at), timer)
      ensures head == Ref(timer) <==> Place(old(queue), old(due), at) == 0
    {
      hide Chain, Sorted, Distinct, Dated, Wrap32;
      var prev, next := FindPlace(t, delta, at);
      ghost var q, p, d := queue, Place(queue, due, at), Deadlines(timers);
      Insert(timer, prev, next, p);
      assert Deadlines(timers) == d;
      PutSorted(q, due, timer, at, p);
      DatedPut(q, due, d, stampTime, timer, at, p);
      due := due[timer := at];
    }

    /** timer_set up to the point where the one-shot timer may have to be set anew. */
    method Requeue(timer: Timer, deadline: U32, ghost at: int) returns (delta: int)
      requires stampTimer in timers && Linked() && ClockOk() && InOrder() && timer in timers
      requires deadline == Wrap32(at) && now - FAR <= at < now + FAR
      modifies this`head, this`queue, this`due, this`now, timers
      ensures Linked() && ClockOk() && InOrder() && now >= old(now) && delta == at - now
      ensures timely ==> now <= old(now) + lag
      ensures due == old(due)[timer := at] && timer !in Without(old(queue), timer)
      ensures var q := Without(old(queue), timer);
              && Sorted(q, old(due)) && Distinct(old(queue)) && Sorted(old(queue), old(due))
              && queue == Put(q, Place(q, old(due), at), timer)
              && (head == Ref(timer) <==> Place(q, old(due), at) == 0)
    {
      hide Chain, Sorted, Distinct, Dated, Wrap32, TimeDiff;
      ChainMembers(head, queue, Links(timers), timer);
      Detach(timer, deadline);
      var t := TimeNow(true);
      TimeDiffExact(now, at);
      delta := TimeDiff(t, deadline);
      Enqueue(timer, t, delta, at);
    }

    /** The one-shot timer was set for a deadline at `at` by a call made at `since`. */
    ghost predicate Rearmed(at: int, since: int)
      reads this`now, this`armed, this`pending, this`fireAt, this`armedAt
    {
      armed && !pending && now < fireAt && NotWoken(at) && (timely ==> fireAt <= Max(at, since + lag + 13))
    }

    /** timer_set. */
    method TimerSet(timer: Timer, deadline: U32, ghost at: int)
      requires stampTimer in timers && Linked() && ClockOk() && InOrder() && timer in timers
      requires deadline == Wrap32(at) && now - FAR <= at < now + FAR
      modifies this`head, this`queue, this`due, this`now, this`armed, this`armedAt, this`fireAt, this`pending, timers
      ensures Linked() && ClockOk() && InOrder() && now >= old(now)
      ensures due == old(due)[timer := at]
      ensures var q := Without(old(queue), timer); Sorted(q, old(due)) && queue == Put(q, Place(q, old(due), at), timer)
      ensures Members(queue) == Members(old(queue)) + {timer}
      ensures old(Armed()) ==> Armed()
      ensures if head == Ref(timer) then Rearmed(at, old(now)) else armed == old(armed) && fireAt == old(fireAt) && pending == old(pending)
    {
      hide Chain, Sorted, Distinct, Dated, Wrap32, ArmedFor, Members, Without;
      var delta := Requeue(timer, deadline, at);
      SetMembers(old(queue), timer, Place(Without(old(queue), timer), old(due), at));
      if head == Ref(timer) {
        ReprogramTimer(delta);
        ArmedNow(queue, due, armed, armedAt, fireAt);
      } else if old(Armed()) {
        StillArmed(old(queue), old(due), pending, armed, armedAt, fireAt, timer, at,
                   Place(Without(old(queue), timer), old(due), at));
      }
    }

    /** timer_cancel. */
    method TimerCancel(timer: Timer)
      requires Linked() && InOrder() && timer in timers
      modifies this`head, this`queue, timers`next
      ensures Linked() && InOrder() && queue == Without(old(queue), timer) && timer !in queue
      ensures Members(queue) == Members(old(queue)) - {timer}
      ensures old(Armed()) ==> Armed()
    {
      hide Chain, Sorted, Distinct, Dated, Wrap32, Members;
      ChainMembers(head, queue, Links(timers), timer);
      WithoutMembers(queue, timer);
      WithoutSorted(queue, due, timer);
      ghost var q, d := queue, Deadlines(timers);
      Unlink(timer);
      assert Deadlines(timers) == d;
      DatedWithout(q, due, d, stampTime, timer, d);
      if queue != [] {
        assert queue[0] in queue;
        SortedIn(q, due);
      }
    }

    /** time_stamp_update, the callback of the clock's own timer. */
    method TimeStampUpdate()
      requires stampTimer in timers && Linked() && ClockOk() && InOrder() && stampTimer !in queue
      requires forall t :: t in queue && t in due ==> due[t] >= stampTime + UPDATE_PERIOD
      requires phase == Round && InCall()
      modifies this`head, this`queue, this`due, this`now, this`armed, this`armedAt, this`fireAt, this`pending, timers
      modifies this`timeStamp, this`stampTime, this`limit, this`bootGap
      ensures Serving() && Schedule() && now >= old(now) && stampTime >= old(now)
      ensures due == old(due)[stampTimer := stampTime + UPDATE_PERIOD]
      ensures Members(queue) == Members(old(queue)) + {stampTimer}
    {
      hide Linked, InOrder, Sorted, ArmedFor, Members, Times, AllBetween, Rearmed, Not32, Wrap32, Put, Place, Without, InRound;
      TimesNext(|timers|, callback);
      var n := Restamp();
      ghost var q, d, s := queue, due, now;
      SetStamp(n);
      QueueSize();
      if timely {
        AllAfterSet(q, d, stampTimer, s + UPDATE_PERIOD, queue, old(now), now, limit, roundStart, lag, callback, |timers|);
      }
    }

    /** While a callback runs. */
    ghost predicate InCall()
      reads this`queue, this`due, this`now, this`roundStart, this`limit
    {
      timely ==> Budget(lag, callback, |timers|) && AllInRound(queue, due, now, limit, roundStart, lag, callback, |timers|)
    }

    /** The new stamp. */
    method Restamp() returns (n: U32)
      requires stampTimer in timers && Linked() && ClockOk() && InOrder()
      requires forall t :: t in queue && t in due ==> due[t] >= stampTime + UPDATE_PERIOD
      requires timely ==> roundStart <= now && limit == roundStart + callback && callback < LATE
      modifies this`now, this`timeStamp, this`stampTime, this`limit, this`bootGap
      ensures Linked() && ClockOk() && InOrder() && n == Wrap32(now) && now >= old(now)
      ensures stampTime == now && bootGap == 0
      ensures timely ==> limit == old(limit)
      ensures !timely ==> limit == stampTime + UPDATE_PERIOD + LATE - 1
    {
      hide Linked, Sorted, Dated, Wrap32, Not32;
      n := TimeNow(false);
      DatedLater(queue, due, Deadlines(timers), stampTime, now);
      timeStamp := Not32(n);
      stampTime := now;
      bootGap := 0;
      if !timely {
        limit := stampTime + UPDATE_PERIOD + LATE - 1;
      }
    }

    lemma QueueSize()
      requires Linked()
      ensures |queue| <= |timers|
    {
      hide Linking, OthersInactive;
      forall t | t in queue
        ensures t in timers
      {
        var i := IndexOf(queue, t);
        ChainAt(head, queue, Links(timers), i);
      }
      assert Distinct(queue);
      QueueFits(queue, timers);
    }

    /** What a caller may ask for: any timer but the clock's own, a deadline not too far off,
        and in a timely world none that is past already. */
    ghost predicate Legal(a: Action) {
      && a.timer in timers && a.timer != stampTimer
      && (a.Set? ==> -FAR <= a.after < FAR && (timely ==> a.after >= 0))
    }

    /** One call of timer_set or timer_cancel, from the main program or a callback. */
    method Perform(a: Action) returns (ghost d: Timed)
      requires Serving() && Schedule() && phase != Between && Legal(a)
      modifies this`head, this`queue, this`due, this`now, this`armed, this`armedAt, this`fireAt, this`pending, this`limit, timers
      ensures Serving() && Schedule() && now >= old(now) && (old(Armed()) ==> Armed())
      ensures d.action == a && old(now) <= d.at <= now && Plan() == AfterOne(old(Plan()), d)
    {
      hide Serving, Armed, Members, Schedule, Agenda;
      match a {
        case Set(timer, after) =>
          ghost var s := SetAfter(timer, after);
          d := Timed(a, s);
          AgendaSet(old(queue), old(due), queue, timer, s + after);
        case Cancel(timer) =>
          CancelOne(timer);
          d := Timed(a, now);
          AgendaDrop(old(queue), due, queue, timer);
      }
    }

    /** timer_set of a time counted from now. */
    method SetAfter(timer: Timer, after: int) returns (ghost s: nat)
      requires Serving() && Schedule() && phase != Between && Legal(Set(timer, after))
      modifies this`head, this`queue, this`due, this`now, this`armed, this`armedAt, this`fireAt, this`pending, this`limit, timers
      ensures Serving() && Schedule() && old(now) <= s <= now && due == old(due)[timer := s + after]
      ensures Members(queue) == Members(old(queue)) + {timer}
      ensures old(Armed()) ==> Armed()
    {
      hide Chain, Sorted, Distinct, Dated, Wrap32, Not32, ArmedFor, Members, Times, InRound, AllBetween, Rearmed, Put, Place, Without;
      ghost var q, d := queue, due;
      s := SetLater(timer, after);
      if timely {
        QueueSize();
        if phase == Thread {
          ThreadGoesOn(d[q[0]], old(now), limit, old(fireAt), old(armed || pending), s + after, s, queue[0] == timer);
          limit := fireAt + lag;
          FirstDue(queue, due, stampTimer);
        } else {
          AllAfterSet(q, d, timer, s + after, queue, old(now), now, limit, roundStart, lag, callback, |timers|);
        }
      }
    }

    /** In the main program a timer has been set at `since`: either it is the first, or
        the one-shot is as it was, and the first is due no earlier. */
    lemma ThreadGoesOn(d: int, before: int, was: int, fire: nat, live: bool, at: int, since: int, first: bool)
      requires InThread(d, before, was, fire, live, lag) && since <= at && timely && now <= was
      requires queue != [] && queue[0] in due && (first ==> due[queue[0]] == at && Rearmed(at, since))
      requires !first ==> due[queue[0]] >= d && fireAt == fire && (live ==> armed || pending)
      ensures InThread(due[queue[0]], now, fireAt + lag, fireAt, armed || pending, lag)
    {
    }

    /** timer_set of a time counted from now, and what becomes of the one-shot and of the
        front of the list. */
    method SetLater(timer: Timer, after: int) returns (ghost s: nat)
      requires Serving() && Legal(Set(timer, after))
      modifies this`head, this`queue, this`due, this`now, this`armed, this`armedAt, this`fireAt, this`pending, timers
      ensures Serving() && old(now) <= s <= now && due == old(due)[timer := s + after]
      ensures Members(queue) == Members(old(queue)) + {timer}
      ensures old(Armed()) ==> Armed()
      ensures var q := Without(old(queue), timer);
              Sorted(q, old(due)) && queue == Put(q, Place(q, old(due), s + after), timer)
      ensures queue != [] && queue[0] in due
      ensures queue[0] == timer ==> Rearmed(s + after, s)
      ensures queue[0] != timer ==> armed == old(armed) && fireAt == old(fireAt) && pending == old(pending)
      ensures queue[0] != timer ==> old(queue != [] && queue[0] in due) && due[queue[0]] >= old(due[queue[0]])
    {
      hide Chain, Sorted, Distinct, Dated, Wrap32, Not32, Without, Place, Put, ArmedFor, Members, Rearmed;
      WithoutOther(queue, timer, stampTimer);
      ChainMembers(head, queue, Links(timers), stampTimer);
      var n := TimeNow(false);
      WrapAddInt(now, after);
      s := now;
      WithoutSorted(queue, due, timer);
      ghost var q, d, p := queue, due, Place(Without(queue, timer), due, now + after);
      FrontAfterSet(q, d, timer, p);
      TimerSet(timer, Wrap32(n + after), now + after);
      PutOther(Without(q, timer), p, timer, stampTimer);
      ChainMembers(head, queue, Links(timers), stampTimer);
      FirstDue(queue, due, stampTimer);
    }

    method CancelOne(timer: Timer)
      requires Serving() && Schedule() && phase != Between && Legal(Cancel(timer))
      modifies this`head, this`queue, timers`next
      ensures Serving() && Schedule() && Members(queue) == Members(old(queue)) - {timer}
      ensures old(Armed()) ==> Armed()
    {
      hide Chain, Sorted, Distinct, Dated, Wrap32, Not32, Without, ArmedFor, Members, Times, AllBetween, InRound;
      WithoutOther(queue, timer, stampTimer);
      ChainMembers(head, queue, Links(timers), stampTimer);
      WithoutSorted(queue, due, timer);
      ghost var q := queue;
      TimerCancel(timer);
      FirstDue(queue, due, stampTimer);
      if timely {
        QueueSize();
        if phase == Round {
          AllAfterDrop(q, due, timer, now, limit, roundStart, lag, callback, |timers|);
        }
      }
    }

    /** A callback: it may set and cancel timers, itself among them. */
    method RunCallback(actions: seq<Action>) returns (ghost doing: seq<Timed>)
      requires Serving() && Schedule() && phase == Round && forall a :: a in actions ==> Legal(a)
      modifies this`head, this`queue, this`due, this`now, this`armed, this`armedAt, this`fireAt, this`pending, this`limit, timers
      ensures Serving() && Schedule() && now >= old(now)
      ensures ActionsOf(doing) == actions && Plan() == AfterAll(old(Plan()), doing)
      ensures forall d :: d in doing ==> old(now) <= d.at <= now
    {
      hide Serving, Schedule, Plan, AfterOne;
      var i := 0;
      doing := [];
      while i < |actions|
        invariant 0 <= i <= |actions| && Serving() && Schedule() && now >= old(now)
        invariant |doing| == i && forall k :: 0 <= k < i ==> doing[k].action == actions[k]
        invariant forall d :: d in doing ==> old(now) <= d.at <= now
        invariant Plan() == AfterAll(old(Plan()), doing)
      {
        ghost var d := Perform(actions[i]);
        AfterMore(old(Plan()), doing, d);
        doing := doing + [d];
        i := i + 1;
      }
    }

    /** Takes the first timer out of the list. */
    method PopFirst(t: Timer)
      requires stampTimer in timers && Linked() && InOrder() && head == Ref(t) && queue != []
      modifies this`head, this`queue, timers`next
      ensures Linked() && InOrder() && queue == Cut(old(queue), 0)
    {
      hide Chain, Sorted, Distinct, Dated;
      ghost var q, links, h, d := queue, Links(timers), head, Deadlines(timers);
      ChainMembers(head, q, links, stampTimer);
      ChainAt(head, q, links, 0);
      head := t.next;
      t.next := Inactive;
      queue := Cut(q, 0);
      Removed(h, q, links, 0, head, Links(timers));
      CutSorted(q, due, 0);
      assert Deadlines(timers) == d;
      DatedCut(q, due, d, stampTime);
    }

    /** Takes the first timer out of the list and runs its callback. */
    method RunFirst(t: Timer, actions: seq<Action>) returns (ghost doing: seq<Timed>)
      requires Serving() && phase == Round && queue != [] && t == queue[0] && forall a :: a in actions ==> Legal(a)
      requires Starting()
      modifies this`head, this`queue, this`due, this`now, this`armed, this`armedAt, this`fireAt, this`pending, timers
      modifies this`timeStamp, this`stampTime, this`limit, this`bootGap
      ensures Serving() && Schedule() && now >= old(now)
      ensures Plan() == AfterAll(old(Plan()) - {t}, doing) && ActionsOf(doing) == Script(t, actions)
      ensures forall d :: d in doing ==> old(now) <= d.at <= now
    {
      hide Chain, Sorted, Distinct, Dated, Wrap32, Without, Place, AfterAll, Members, Times, AllBetween, AllInRound, Agenda;
      ChainMembers(head, queue, Links(timers), stampTimer);
      CutMembers(queue, 0, stampTimer);
      CutFirst(queue);
      FirstIsLeast(queue, due);
      ghost var q, d := queue, due;
      PopFirst(t);
      AgendaDrop(q, d, queue, t);
      if t == stampTimer {
        ghost var r := queue;
        TimeStampUpdate();
        doing := [Timed(Set(stampTimer, UPDATE_PERIOD), stampTime)];
        AgendaSet(r, d, queue, t, stampTime + UPDATE_PERIOD);
        AfterJustOne(Agenda(r, d), doing[0]);
      } else {
        doing := RunCallback(actions);
      }
    }

    /** What the callback of `t` does: the clock's own renews the stamp. */
    ghost function Script(t: Timer, actions: seq<Action>): seq<Action> {
      if t == stampTimer then [Set(stampTimer, UPDATE_PERIOD)] else actions
    }

    /** The schedule in a round before its callback is run. */
    ghost predicate Starting()
      reads this`queue, this`due, this`now, this`stampTime, this`roundStart, this`limit
    {
      if !timely then limit == stampTime + UPDATE_PERIOD + LATE - 1
      else
        && Budget(lag, callback, |timers|) && queue != []
        && AllInRound(Cut(queue, 0), due, now, limit, roundStart, lag, callback, |timers|)
        && forall t :: t in queue ==> t in due && limit <= due[t] + Late()
    }

    /** IRQ_timer begins a round of its loop. */
    method StartRound()
      requires Serving() && Schedule() && phase == Between
      modifies this`phase, this`roundStart, this`limit
      ensures Serving() && Starting() && phase == Round
    {
      hide InOrder, Linking, OthersInactive, Not32, Wrap32, Times, AllBetween, AllInRound;
      phase := Round;
      if timely {
        AllRound(queue, due, now, lag, callback, |timers|);
        roundStart := now;
        limit := now + callback;
      }
    }

    /** The reading of the clock in a round. */
    method ReadClock() returns (n: U32)
      requires Serving() && Starting()
      modifies this`now
      ensures Serving() && Starting() && now >= old(now) && n == Wrap32(now)
    {
      hide Linked, InOrder, Not32, Wrap32, Times, AllInRound;
      ghost var before := now;
      n := TimeNow(false);
      if timely {
        AllLater(Cut(queue, 0), due, before, now, limit, roundStart, lag, callback, |timers|);
      }
    }

    /** One round of the loop in IRQ_timer: either the first timer is not due, and the
        one-shot timer is set for it, or its callback is run. The list is never empty
        here, as the clock's own timer is in it. */
    method ServeFirst(actions: seq<Action>) returns (waiting: bool, ghost deed: Deed)
      requires Serving() && Schedule() && phase == Between && forall a :: a in actions ==> Legal(a)
      modifies this, timers
      ensures Serving() && Schedule() && now >= old(now) && phase == if waiting then Thread else Between
      ensures waiting ==> Armed() && armed && !pending && Plan() == old(Plan())
      ensures waiting ==> queue != [] && queue[0] in due && due[queue[0]] > old(now) + SLACK_TICKS
      ensures waiting ==> NotWoken(due[queue[0]])
      ensures !waiting ==> Scripted(deed, actions) && old(now) <= deed.at <= now
      ensures !waiting ==> InTurn(old(Plan()), deed, timely, Late()) && Plan() == AfterDeed(old(Plan()), deed)
    {
      hide Chain, Sorted, Distinct, Dated, Wrap32, Not32, TimeDiff, ArmedFor, Members, Schedule, Starting, Legal, InTurn, Agenda, AfterDeed;
      ChainMembers(head, queue, Links(timers), stampTimer);
      StartRound();
      var t := head.timer;
      var n := ReadClock();
      DiffIs(t, n);
      var delta := TimeDiff(n, t.deadline);
      if delta > SLACK_TICKS {
        Leave(delta);
        waiting := true;
        deed := Called(t, now, []);
      } else {
        deed := CallFirst(t, actions);
        waiting := false;
      }
    }

    /** A callback that does what it should. */
    ghost predicate Scripted(d: Deed, actions: seq<Action>) {
      d.Called? && ActionsOf(d.doing) == Script(d.timer, actions)
    }

    /** The callback of the first timer, which is due. */
    method CallFirst(t: Timer, actions: seq<Action>) returns (ghost deed: Deed)
      requires Serving() && Starting() && phase == Round && queue != [] && t == queue[0] && t in due
      requires due[t] - now <= SLACK_TICKS && forall a :: a in actions ==> Legal(a)
      modifies this, timers
      ensures Serving() && Schedule() && phase == Between && now >= old(now)
      ensures Scripted(deed, actions) && deed.timer == t && deed.at == old(now)
      ensures InTurn(old(Plan()), deed, timely, Late()) && Plan() == AfterDeed(old(Plan()), deed)
    {
      hide Serving, Starting, Schedule, Agenda, Legal, Script, AfterAll, Turn;
      TurnOf(t);
      ghost var at := now;
      ghost var doing := RunFirst(t, actions);
      deed := Called(t, at, doing);
      EndRound();
    }

    /** It is the turn of the first timer. */
    lemma TurnOf(t: Timer)
      requires Serving() && Starting() && queue != [] && t == queue[0] && t in due && due[t] - now <= SLACK_TICKS
      ensures Turn(Plan(), t, now, timely, Late())
    {
      hide Linked, Dated, Not32, Wrap32, Times, LateBy, Sorted, InRound;
      AgendaFirst(queue, due);
    }

    /** The callback has returned. */
    method EndRound()
      requires Serving() && Schedule() && phase == Round
      modifies this`phase
      ensures Serving() && Schedule() && phase == Between
    {
      hide Linked, InOrder, Not32, Wrap32, Times, AllBetween, AllInRound;
      if timely {
        AllEnd(queue, due, now, limit, roundStart, lag, callback, |timers|);
      }
      phase := Between;
    }

    /** IRQ_timer arms the one-shot for the first timer, and is done. */
    method Leave(delta: int)
      requires Serving() && Starting() && queue != [] && queue[0] in due
      requires delta == due[queue[0]] - now && SLACK_TICKS < delta < 0x8000_0000
      modifies this`now, this`armed, this`armedAt, this`fireAt, this`pending, this`limit, this`phase
      ensures Serving() && Schedule() && Armed() && armed && !pending && now >= old(now) && phase == Thread
      ensures NotWoken(due[queue[0]])
    {
      hide Linked, Sorted, Dated, Not32, Wrap32, Times, AllBetween, AllInRound, ArmedFor;
      FirstDue(queue, due, stampTimer);
      ReprogramTimer(delta);
      ArmedNow(queue, due, armed, armedAt, fireAt);
      phase := Thread;
      if timely {
        limit := fireAt + lag;
      }
    }

    /** IRQ_timer. The k-th callback it runs does `calls[k]`; callbacks that go on setting
        timers that are due can keep it busy for ever, and it is followed for as long as
        `calls` lasts. When it returns, all that was due when it was entered is done. */
    method IrqTimer(calls: seq<seq<Action>>) returns (finished: bool, ghost deeds: seq<Deed>)
      requires Serving() && Schedule() && phase == Thread && pending
      requires forall k, a :: 0 <= k < |calls| && a in calls[k] ==> Legal(a)
      modifies this, timers
      ensures Serving() && Schedule() && now >= old(now)
      ensures finished ==> Armed() && armed && !pending && phase == Thread
      ensures finished ==> queue != [] && queue[0] in due && due[queue[0]] > old(now) + SLACK_TICKS
      ensures finished ==> NotWoken(due[queue[0]])
      ensures !finished ==> |deeds| == |calls| && phase == Between
      ensures |deeds| <= |calls| && forall k :: 0 <= k < |deeds| ==> Scripted(deeds[k], calls[k])
      ensures AllInTurn(old(Plan()), deeds, timely, Late()) && Plan() == AfterDeeds(old(Plan()), deeds)
    {
      hide Serving, Armed, Schedule, Plan, AfterDeed, InTurn, Scripted, NotWoken;
      Enter();
      finished, deeds := false, [];
      var k := 0;
      while k < |calls| && !finished
        invariant 0 <= k <= |calls| && Serving() && Schedule() && now >= old(now)
        invariant finished ==> Armed() && armed && !pending && phase == Thread
        invariant finished ==> queue != [] && queue[0] in due && due[queue[0]] > old(now) + SLACK_TICKS
        invariant finished ==> NotWoken(due[queue[0]])
        invariant !finished ==> |deeds| == k && phase == Between
        invariant |deeds| <= k && forall k :: 0 <= k < |deeds| ==> Scripted(deeds[k], calls[k])
        invariant AllInTurn(old(Plan()), deeds, timely, Late()) && Plan() == AfterDeeds(old(Plan()), deeds)
        decreases |calls| - k, !finished
      {
        ghost var deed;
        finished, deed := ServeFirst(calls[k]);
        if !finished {
          DeedMore(old(Plan()), deeds, deed, timely, Late());
          deeds := deeds + [deed];
        }
        k := k + 1;
      }
    }

    /** The interrupt is taken. */
    method Enter()
      requires Serving() && Schedule() && phase == Thread && pending
      modifies this`pending, this`phase
      ensures Serving() && Schedule() && phase == Between && !pending
    {
      hide Linked, Dated, Sorted, Not32, Wrap32, Times, AllBetween, AllInRound;
      QueueSize();
      if timely {
        AllStart(queue, due, now, limit, fireAt, armed || pending, lag, callback, |timers|);
      }
      pending := false;
      phase := Between;
    }

    /** The one-shot timer expires. */
    method Expire()
      requires Valid() && armed && now >= fireAt
      modifies this`armed, this`pending
      ensures Valid() && pending
    {
      hide Serving;
      armed, pending := false, true;
    }

    /** In a timely world no timer that is set is ever overdue by more than its bound. */
    lemma NoneOverdue(t: Timer)
      requires Valid() && timely && t in queue
      ensures t in due && now <= due[t] + Late()
    {
      hide Linked, Dated, Sorted, Not32, Wrap32, Times;
      FirstDue(queue, due, t);
    }

    ghost predicate Possible(e: Event) {
      match e
      case Act(a) => Legal(a)
      case Wait => true
      case Expiry => true
      case Interrupt(calls) => forall k, a :: 0 <= k < |calls| && a in calls[k] ==> Legal(a)
    }

    /** What an event may do: an action is performed, callbacks are run as scripted. */
    ghost predicate Follows(e: Event, deeds: seq<Deed>) {
      match e
      case Act(a) => |deeds| == 1 && deeds[0].Did? && deeds[0].what.action == a
      case Wait => deeds == []
      case Expiry => deeds == []
      case Interrupt(calls) => |deeds| <= |calls| && forall k :: 0 <= k < |deeds| ==> Scripted(deeds[k], calls[k])
    }

    /** How things stand after an event. */
    ghost predicate Settled(e: Event)
      reads this`armed, this`pending, this`now, this`fireAt
    {
      && (e.Expiry? ==> pending || !armed || now < fireAt)
      && (e.Interrupt? ==> !pending)
    }

    /** Any event; `finished` unless the script of a busy interrupt gives out. */
    method Happen(e: Event) returns (finished: bool, ghost deeds: seq<Deed>)
      requires Valid() && Possible(e)
      modifies this, timers
      ensures Serving() && Schedule() && now >= old(now) && Follows(e, deeds)
      ensures finished ==> Valid() && Settled(e)
      ensures !finished ==> e.Interrupt? && |deeds| == |e.calls|
      ensures e.Interrupt? && old(pending) && finished ==>
          queue != [] && queue[0] in due && due[queue[0]] > old(now) + SLACK_TICKS
      ensures AllInTurn(old(Plan()), deeds, timely, Late()) && Plan() == AfterDeeds(old(Plan()), deeds)
    {
      hide Serving, Armed, Schedule, Agenda, AfterDeed, InTurn, Scripted;
      finished, deeds := true, [];
      match e {
        case Act(a) =>
          ghost var d := Perform(a);
          deeds := [Did(d)];
          JustOneDeed(old(Plan()), d, timely, Late());
        case Wait => Idle();
        case Expiry =>
          if armed && now >= fireAt {
            Expire();
          }
        case Interrupt(calls) =>
          if pending {
            finished, deeds := IrqTimer(calls);
          }
      }
    }

    /** Any run: whatever happens in whatever order, the clock stays right and the list
        sorted and armed. The timers set are those that the main program's actions and the
        callbacks leave set, with their deadlines; a callback is always that of a timer due
        first, not early and in a timely world not late. The run is followed to its end, or
        to where the script of a busy interrupt gives out. */
    method Run(es: seq<Event>) returns (served: nat, ghost parts: seq<seq<Deed>>)
      requires Valid() && forall e :: e in es ==> Possible(e)
      modifies this, timers
      ensures served <= |es| && Serving() && Schedule() && now >= old(now)
      ensures served == |es| ==> Valid() && (es != [] ==> Settled(es[|es| - 1]))
      ensures |parts| == served + if served < |es| then 1 else 0
      ensures forall i :: 0 <= i < |parts| ==> Follows(es[i], parts[i])
      ensures served < |es| ==> es[served].Interrupt? && |parts[served]| == |es[served].calls|
      ensures Plan() == AfterDeeds(old(Plan()), Joined(parts))
      ensures AllInTurn(old(Plan()), Joined(parts), timely, Late())
    {
      hide Valid, Serving, Armed, Schedule, Plan, AfterDeed, InTurn, Follows, Settled, Possible, Joined, AfterDeeds, AllInTurn;
      served, parts := 0, [];
      NothingYet(old(Plan()), timely, Late());
      while served < |es|
        invariant served <= |es| && Valid() && now >= old(now) && |parts| == served
        invariant served > 0 ==> Settled(es[served - 1])
        invariant forall i :: 0 <= i < |parts| ==> Follows(es[i], parts[i])
        invariant Plan() == AfterDeeds(old(Plan()), Joined(parts))
        invariant AllInTurn(old(Plan()), Joined(parts), timely, Late())
      {
        assert es[served] in es;
        var finished, deeds := Happen(es[served]);
        DeedsJoin(old(Plan()), Joined(parts), deeds, timely, Late());
        JoinedMore(parts, deeds);
        parts := parts + [deeds];
        if !finished {
          return;
        }
        served := served + 1;
      }
      ValidServing();
    }

    lemma ValidServing()
      requires Valid()
      ensures Serving() && Schedule()
    {
    }

    method Idle()
      requires Valid()
      modifies this`now
      ensures Valid() && now >= old(now)
    {
      hide Chain, Sorted, Distinct, Dated, Wrap32;
      var n := TimeNow(false);
    }
  }

  lemma AfterJustOne(m: map<Timer, int>, d: Timed)
    ensures AfterAll(m, [d]) == AfterOne(m, d)
  {
    assert [d] == [] + [d];
  }

  lemma JustOneDeed(m: map<Timer, int>, d: Timed, bounded: bool, late: int)
    ensures AfterDeeds(m, [Did(d)]) == AfterOne(m, d) && AllInTurn(m, [Did(d)], bounded, late)
  {
    DeedMore(m, [], Did(d), bounded, late);
    assert [Did(d)] == [] + [Did(d)];
  }

  lemma NothingYet(m: map<Timer, int>, bounded: bool, late: int)
    ensures Joined([]) == [] && AfterDeeds(m, []) == m && AllInTurn(m, [], bounded, late)
  {
  }
}
