/** Reading flux: the DMA capture ring, the encoder polled by the main loop, the byte
    ring, and the USB packets made from it. Sample times are unbounded counts of the
    72MHz sample clock, of which the hardware counter shows the remainder. */
module FluxReader {
  import opened Words
  import opened FluxCodec
  import opened ReadStream

  /** sample_us(200), sample_us(400). */
  const US200 := 14400
  const US400 := 28800

  const INT_MAX := 0x7fff_ffff

  datatype State = Reading | Draining | Zlp | Done

  /** A turn of a run: a flux transition, an index pulse, a poll of the main loop with the
      times at which it samples the DMA engine, the counter and the system clock. */
  datatype Turn =
    | Transition(at: nat)
    | IndexMark(at: nat)
    | Poll(t1: nat, t2: nat, now: int, txReady: bool)

  datatype Status = Okay | FluxOverflow | NoIndex

  /* ---- The byte ring ----------------------------------------------------------------- */

  /** The newest bytes of `out`, as many as the ring holds, are in `buf`. */
  ghost predicate Window(buf: seq<Byte>, out: seq<Byte>) {
    && buf != []
    && forall i :: 0 <= i < |out| && i >= |out| - |buf| ==> buf[i % |buf|] == out[i]
  }

  lemma WindowPut(buf: seq<Byte>, out: seq<Byte>, x: Byte)
    requires Window(buf, out)
    ensures Window(buf[|out| % |buf| := x], out + [x])
  {
    var b, o := buf[|out| % |buf| := x], out + [x];
    forall i | 0 <= i < |o| && i >= |o| - |b|
      ensures b[i % |b|] == o[i]
    {
      if i < |out| {
        DistinctSlots(i, |out|, |buf|);
      }
    }
  }

  /** A packet copied out of the ring in one or two pieces is the next part of the
      stream, as long as that part has not been overwritten. */
  lemma WindowCopy(buf: seq<Byte>, out: seq<Byte>, cons: nat, n: nat, p: seq<Byte>)
    requires Window(buf, out) && cons + n <= |out| <= cons + |buf| && |p| >= n
    requires var c := cons % |buf|;
      forall k :: 0 <= k < n ==> p[k] == buf[if c + k < |buf| then c + k else c + k - |buf|]
    ensures p[..n] == out[cons..cons + n]
  {
    forall k | 0 <= k < n
      ensures p[k] == out[cons + k]
    {
      SlotAfter(cons, k, |buf|);
    }
  }

  /* ---- Time modulo the counter ------------------------------------------------------- */

  /** (timcnt_t)(a - b) for readings of times less than one counter period apart. */
  lemma Elapsed(a: nat, b: nat, m: int)
    requires IsCounter(m) && b <= a < b + m
    ensures (a % m - b % m) % m == a - b
  {
    var j := b / m - a / m;
    assert a % m - b % m == a - b + m * j by {
      assert a == m * (a / m) + a % m;
      assert b == m * (b / m) + b % m;
      assert m * j == m * (b / m) - m * (a / m);
    }
    ModAddMultiple(a - b, j, m);
    QuotientUnique(a - b, m, 0, a - b);
  }

  /** A stream without a NUL that is heard as the given flux and index times. */
  predicate Tells(out: seq<Byte>, start: nat, times: seq<nat>, marks: seq<nat>, cursor: nat) {
    Hear(out, start) == Heard(Distinct(times), marks, cursor, []) && NoNul(out)
  }

  /* ---- What the turns of a run amount to ---------------------------------------------- */

  /** The flux transitions. */
  function Transitions(turns: seq<Turn>): (r: seq<nat>)
    ensures |r| <= |turns|
  {
    if turns == [] then []
    else
      var n := |turns| - 1;
      Transitions(turns[..n]) + match turns[n] case Transition(at) => [at] case _ => []
  }

  /** The index pulses. */
  function IndexMarks(turns: seq<Turn>): (r: seq<nat>)
    ensures |r| <= |turns|
  {
    if turns == [] then []
    else
      var n := |turns| - 1;
      IndexMarks(turns[..n]) + match turns[n] case IndexMark(at) => [at] case _ => []
  }

  /** The index pulses since the last poll; `before` are those that waited to begin with. */
  function Waiting(before: seq<nat>, turns: seq<Turn>): seq<nat> {
    if turns == [] then before
    else
      var n := |turns| - 1;
      match turns[n]
      case Transition(_) => Waiting(before, turns[..n])
      case IndexMark(at) => Waiting(before, turns[..n]) + [at]
      case Poll(_, _, _, _) => []
  }

  /** The index pulses reported: of those that waited for a poll, the last. */
  function Reported(before: seq<nat>, turns: seq<Turn>): seq<nat> {
    if turns == [] then []
    else
      var n := |turns| - 1;
      Reported(before, turns[..n]) + if turns[n].Poll? then LastOf(Waiting(before, turns[..n])) else []
  }

  function LastOf(s: seq<nat>): seq<nat> { if s == [] then [] else [s[|s| - 1]] }

  /** Overflow exactly if there was an overrun; otherwise no index exactly if one was asked for
      and none came within two seconds; otherwise the deadline was over. */
  predicate Verdict(status: Status, overrun: bool, pulses: nat, maxIndex: nat, deadline: int, begun: int, now: int, ms: nat) {
    && (status == FluxOverflow <==> overrun)
    && (status == NoIndex <==>
          !overrun && pulses == 0 < maxIndex != INT_MAX && now < deadline && now - begun > 2000 * ms)
    && (status == Okay ==> pulses < maxIndex && now >= deadline)
  }

  /** The number of index pulses asked for, and the time by which a read ends. */
  datatype Limits = Limits(maxIndex: nat, deadline: int)

  /** A poll that finds that many pulses leaves the time asked for, at most, to linger. */
  function NextLimits(l: Limits, pulses: nat, now: int, linger: nat): Limits {
    if pulses >= l.maxIndex then Limits(INT_MAX, Min(l.deadline, now + linger)) else l
  }

  /** The limits after the polls of `turns`, when there were `before` pulses to begin with. */
  function LimitsAt(l: Limits, before: nat, turns: seq<Turn>, linger: nat): Limits {
    if turns == [] then l
    else
      var n := |turns| - 1;
      var was := LimitsAt(l, before, turns[..n], linger);
      match turns[n]
      case Poll(_, _, now, _) => NextLimits(was, before + |IndexMarks(turns[..n])|, now, linger)
      case _ => was
  }

  /** A poll has no reason of its own to end the read. */
  predicate GoesOn(l: Limits, pulses: nat, begun: int, now: int, ms: nat) {
    && (pulses < l.maxIndex ==> now < l.deadline)
    && (pulses == 0 < l.maxIndex != INT_MAX && now < l.deadline ==> now - begun <= 2000 * ms)
  }

  /** The same, for a turn of a run. */
  predicate PollGoesOn(l: Limits, before: nat, turns: seq<Turn>, j: nat, linger: nat, begun: int, ms: nat)
    requires j < |turns|
  {
    turns[j].Poll? ==>
      GoesOn(LimitsAt(l, before, turns[..j], linger), before + |IndexMarks(turns[..j])|, begun, turns[j].now, ms)
  }

  /** The first poll to find the limit of index pulses reached is what starts the
      lingering; it can only bring the deadline forward, and happens once. */
  lemma {:induction false} LimitReached(l: Limits, before: nat, turns: seq<Turn>, linger: nat, k: nat)
    requires k <= |turns| && before + |IndexMarks(turns)| < INT_MAX
    requires forall j :: 0 <= j < k && turns[j].Poll? ==> before + |IndexMarks(turns[..j])| < l.maxIndex
    requires k < |turns| ==> turns[k].Poll? && before + |IndexMarks(turns[..k])| >= l.maxIndex
    ensures LimitsAt(l, before, turns, linger)
         == if k == |turns| then l else Limits(INT_MAX, Min(l.deadline, turns[k].now + linger))
  {
    if turns != [] {
      var n := |turns| - 1;
      var t := turns[..n];
      assert forall j :: 0 <= j <= n ==> t[..j] == turns[..j];
      LimitReached(l, before, t, linger, Min(k, n));
    }
  }

  lemma LimitsNext(l: Limits, before: nat, turns: seq<Turn>, n: nat, linger: nat)
    requires n < |turns|
    ensures LimitsAt(l, before, turns[..n + 1], linger) ==
        match turns[n]
        case Poll(_, _, now, _) =>
          NextLimits(LimitsAt(l, before, turns[..n], linger), before + |IndexMarks(turns[..n])|, now, linger)
        case _ => LimitsAt(l, before, turns[..n], linger)
    ensures |IndexMarks(turns[..n + 1])| == |IndexMarks(turns[..n])| + OneIf(turns[n].IndexMark?)
    ensures LimitsAt(l, before, turns[..0], linger) == l && |IndexMarks(turns[..0])| == 0
  {
    assert turns[..n + 1][..n] == turns[..n];
  }

  /** How many polls found the endpoint free when the deadline had passed. */
  function LateAndFree(turns: seq<Turn>, deadline: int): nat {
    if turns == [] then 0
    else
      var n := |turns| - 1;
      LateAndFree(turns[..n], deadline) + OneIf(turns[n].Poll? && turns[n].txReady && turns[n].now >= deadline)
  }

  function OneIf(b: bool): nat { if b then 1 else 0 }

  /** If no two pulses ever wait for the same poll, all are reported, in order, except
      one that the last poll has not seen. */
  lemma {:induction false} EveryPulseReported(before: seq<nat>, turns: seq<Turn>)
    requires forall i :: 0 <= i <= |turns| ==> |Waiting(before, turns[..i])| <= 1
    ensures Reported(before, turns) + Waiting(before, turns) == before + IndexMarks(turns)
  {
    assert turns[..|turns|] == turns;
    if turns != [] {
      var n := |turns| - 1;
      forall i | 0 <= i <= n
        ensures turns[..n][..i] == turns[..i]
      {
      }
      EveryPulseReported(before, turns[..n]);
      var w := Waiting(before, turns[..n]);
      assert |w| <= 1 && LastOf(w) == w;
      var marks := IndexMarks(turns[..n]);
      match turns[n] {
        case Transition(_) => assert marks + [] == marks;
        case IndexMark(at) => assert before + (marks + [at]) == before + marks + [at];
        case Poll(_, _, _, _) =>
      }
    }
  }

  /** Only pulses that happened are reported. */
  lemma {:induction false} ReportedHappened(before: seq<nat>, turns: seq<Turn>)
    ensures forall p :: p in Reported(before, turns) || p in Waiting(before, turns) ==> p in before + IndexMarks(turns)
  {
    if turns != [] {
      var n := |turns| - 1;
      ReportedHappened(before, turns[..n]);
      var w := Waiting(before, turns[..n]);
      forall p | p in Reported(before, turns) || p in Waiting(before, turns)
        ensures p in before + IndexMarks(turns)
      {
        if p !in Reported(before, turns[..n]) && p !in w {
          assert turns[n].IndexMark? && p == turns[n].at;
        }
      }
    }
  }

  class Reader {
    const m: int                  // one more than the largest timcnt_t
    const mps: nat                // usb_bulk_mps
    const linger: nat             // read.max_index_linger
    const begun: int              // flux_op.start
    const uBuf: array<Byte>
    const dmaBuf: array<int>
    const data: array<Byte>       // usb_packet.data

    var uCons: U32
    var uProd: U32
    var dmaCons: nat
    var prevSample: int           // dma.prev_sample
    var nrIndex: nat              // read.nr_index

    // The world: captures and index pulses so far, in absolute sample times.
    var captures: seq<nat>
    var pulses: seq<nat>
    var start: nat                // when the sample timer was started
    var sampled: nat              // when the DMA producer index was last sampled
    var counted: nat              // when the counter was last read
    var consumed: nat             // how many captures have been encoded

    var packetReady: bool         // usb_packet
    var packetLen: nat
    var state: State
    var status: Status            // flux_op.status

    var maxIndex: nat             // read.*, times on the unbounded system clock
    var deadline: int

    ghost var packets: seq<seq<Byte>>   // what usb_write was given
    ghost var cons: nat           // bytes of the stream made into packets
    ghost var prevAbs: nat        // the time `prevSample` stands for
    ghost var marks: seq<nat>     // index pulses encoded
    ghost var out: seq<Byte>      // every byte encoded

    ghost predicate Shape() {
      && IsCounter(m) && RING <= uBuf.Length < 0x8000_0000 && DividesTwo32(uBuf.Length)
      && dmaBuf.Length == RING && data.Length == RING && 0 < mps <= RING
      && dmaBuf as object != uBuf as object && data != uBuf && dmaBuf as object != data as object
    }

    /** The capture ring holds the low bits of the captures not yet encoded. */
    ghost predicate Captured()
      reads this`captures, this`consumed, this`dmaCons, dmaBuf
    {
      && dmaBuf.Length == RING && IsCounter(m)
      && consumed <= |captures| < consumed + RING && dmaCons == consumed % RING
      && forall i :: consumed <= i < |captures| ==> dmaBuf[i % RING] == captures[i] % m
    }

    /** The cursor stands for a time that nothing still to be encoded can precede, and
        trails the last reading of the counter by at most 400us. */
    ghost predicate Paced()
      reads this`captures, this`consumed, this`pulses, this`nrIndex, this`sampled, this`counted, this`prevAbs, this`prevSample
    {
      && IsCounter(m) && prevSample == prevAbs % m
      && prevAbs <= sampled <= counted <= prevAbs + US400
      && consumed <= |captures| && nrIndex <= |pulses|
      && (forall i, j :: 0 <= i < j < |captures| ==> captures[i] <= captures[j])
      && (forall i :: 0 <= i < consumed ==> captures[i] <= sampled)
      && (forall i :: consumed <= i < |captures| ==> captures[i] > sampled)
      && (forall i :: nrIndex <= i < |pulses| ==> pulses[i] > sampled)
    }

    /** What has been written says exactly when the captures and pulses happened. */
    ghost predicate Faithful()
      reads this`captures, this`consumed, this`prevAbs, this`marks, this`out, this`start
    {
      consumed <= |captures| && Tells(out, start, captures[..consumed], marks, prevAbs)
    }

    ghost predicate Stored()
      reads this`uProd, this`out, uBuf
    {
      Window(uBuf[..], out) && uProd == Wrap32(|out|)
    }

    /** floppy_read_prep, at sample time `at` and system time `now`; no limit on the number
        of index pulses, or on the time, is given as 0. */
    constructor (m: int, mps: nat, size: nat, at: nat, now: int, maxIndex: nat, ticks: nat, linger: nat)
      requires IsCounter(m) && 0 < mps <= RING <= size < 0x8000_0000 && DividesTwo32(size)
      ensures Valid() && state == Reading && start == at && captures == [] && pulses == [] && marks == [] && packets == []
      ensures this.maxIndex == (if maxIndex == 0 then INT_MAX else maxIndex) && this.linger == linger && begun == now
      ensures deadline == now + if ticks == 0 then INT_MAX else ticks
    {
      this.m, this.mps := m, mps;
      uBuf, dmaBuf, data := new Byte[size], new int[RING], new Byte[RING];
      uCons, uProd, dmaCons, prevSample, nrIndex := 0, 0, 0, at % m, 0;
      captures, pulses := [], [];
      start, sampled, counted, consumed, prevAbs, marks, out, packets, cons := at, at, at, 0, at, [], [], [], 0;
      packetReady, packetLen, state, status := false, 0, Reading, Okay;
      begun := now;
      this.maxIndex := if maxIndex == 0 then INT_MAX else maxIndex;
      deadline := now + if ticks == 0 then INT_MAX else ticks;
      this.linger := linger;
      new;
      hide *;
      FreshIsValid(at);
    }

    lemma FreshIsValid(at: nat)
      requires IsCounter(m) && 0 < mps <= RING <= uBuf.Length < 0x8000_0000 && DividesTwo32(uBuf.Length)
      requires dmaBuf.Length == RING && data.Length == RING
      requires dmaBuf as object != uBuf as object && data != uBuf && dmaBuf as object != data as object
      requires uCons == 0 && uProd == 0 && dmaCons == 0 && prevSample == at % m && nrIndex == 0
      requires captures == [] && pulses == [] && !packetReady && state == Reading && status == Okay
      requires start == at && sampled == at && counted == at && prevAbs == at
      requires consumed == 0 && marks == [] && out == [] && packets == [] && cons == 0
      ensures Valid()
    {
      hide Window, Tells, Flatten, Wrap32, DividesTwo32, IsCounter;
      StartsWell(uBuf[..], at);
      assert captures[..0] == [] && out[..0] == [];
    }

    /** The timer and DMA engine store a flux transition. They run ahead of the encoder,
        but are assumed not to lap it. */
    method Capture(at: nat)
      requires Valid() && state == Reading && |captures| + 1 < consumed + RING
      requires at > sampled && forall i :: 0 <= i < |captures| ==> captures[i] <= at
      modifies this`captures, dmaBuf
      ensures Valid() && captures == old(captures) + [at]
      ensures Unseen() == old(Unseen())
    {
      hide Tells, Stored, Sent, Room, DividesTwo32;
      var n := |captures|;
      assert (captures + [at])[..consumed] == captures[..consumed];
      forall i | consumed <= i < n
        ensures i % RING != n % RING
      {
        DistinctSlots(i, n, RING);
      }
      dmaBuf[n % RING] := at % m;
      captures := captures + [at];
    }

    /** IRQ_INDEX_changed counts an index pulse. */
    method IndexPulse(at: nat)
      requires Valid() && state == Reading && at > sampled
      modifies this`pulses
      ensures Valid() && pulses == old(pulses) + [at] && Unseen() == old(Unseen()) + [at]
    {
      hide Faithful, Stored, Sent, Room, DividesTwo32, Captured;
      pulses := pulses + [at];
    }

    /** What is assumed of the world: time moves on, polls come within 200us, captures do
        not lap the encoder. */
    predicate Possible(t: Turn)
      reads this`state, this`captures, this`pulses, this`consumed, this`sampled, this`counted
    {
      match t
      case Transition(at) =>
        && state == Reading && |captures| + 1 < consumed + RING && at > sampled
        && forall i :: 0 <= i < |captures| ==> captures[i] <= at
      case IndexMark(at) => state == Reading && at > sampled
      case Poll(t1, t2, now, txReady) =>
        state == Reading ==>
          && sampled <= t1 <= t2 <= t1 + US200 && counted <= t2 <= counted + US200
          && (forall i :: 0 <= i < |captures| ==> captures[i] <= t1)
          && (forall i :: 0 <= i < |pulses| ==> pulses[i] <= t1)
    }

    /** Any run, up to its end or to where the world does what is assumed not to happen.
        What a host hears in the packets of a read that ended well is every transition of
        the run and, of the index pulses that each poll found, the last. And a read ends,
        at the latest when the endpoint has been free often enough after the deadline. */
    method Run(turns: seq<Turn>, ms: nat) returns (n: nat, ghost last: nat)
      requires Valid()
      modifies this, uBuf, dmaBuf, data
      ensures Valid() && n <= |turns| && (n < |turns| ==> !Possible(turns[n]))
      ensures start == old(start) && old(packets) <= packets
      ensures captures == old(captures) + Transitions(turns[..n])
      ensures marks == old(marks) + Reported(old(Unseen()), turns[..n])
      ensures state == Done && status == Okay ==>
          Hear(Flatten(packets), start) == Heard(Distinct(captures), marks, prevAbs, [0])
      ensures state == Done ==> cons <= |out| && Flatten(packets) == out[..cons] + [0] && NoNul(out[..cons])
      ensures LateAndFree(turns[..n], old(deadline)) > uBuf.Length + 4 && |pulses| < INT_MAX ==> state == Done
      ensures old(state) == Reading ==> Course(old(Bounds()), |old(pulses)|, turns, n, last, ms)
    {
      hide Hear, Distinct, Flatten, Window, Wrap32, DividesTwo32, Captured, Paced, Sent, Room, Stored, Tells;
      hide Left, Transitions, Reported, Waiting, LateAndFree, Unseen, Judged, IndexMarks, LimitsAt, PollGoesOn, GoesOn;
      hide Shape, Faithful, Ended, NextLimits, LastOf;
      n, last := 0, 0;
      ghost var l0, p0 := Bounds(), |pulses|;
      RunBegins(turns);
      CourseBegins(turns, ms);
      while n < |turns| && Possible(turns[n])
        invariant n <= |turns| && Valid() && start == old(start)
        invariant old(packets) <= packets && deadline <= old(deadline)
        invariant captures == old(captures) + Transitions(turns[..n])
        invariant marks == old(marks) + Reported(old(Unseen()), turns[..n])
        invariant Unseen() == Waiting(old(Unseen()), turns[..n])
        invariant |pulses| < INT_MAX ==>
            state == Done || Left() + LateAndFree(turns[..n], old(deadline)) <= uBuf.Length + 5
        invariant old(state) == Reading ==> Course(l0, p0, turns, n, last, ms)
      {
        RunGoesOn(turns, n, old(Unseen()), old(deadline));
        LimitsNext(l0, p0, turns, n, linger);
        ghost var reading, was := state == Reading, Bounds();
        TakeTurn(turns[n], ms);
        if reading && state == Reading && old(state) == Reading {
          GoneOn(l0, p0, turns, n, ms, was);
          last := n + 1;
        }
        n := n + 1;
      }
      LeftIs();
      if state == Done {
        HostSeesTheEnd();
        if status == Okay {
          HostHears();
        }
      }
    }

    /** The course of a read over the first `n` turns. It went on for as long as no poll had
        reason to end it; if one did, it was turn `last`, and the verdict is on the limits as
        they were asked for at first and the polls before it left them. */
    ghost predicate Course(l: Limits, before: nat, turns: seq<Turn>, n: nat, last: nat, ms: nat)
      reads this`state, this`status, this`out, this`cons, this`pulses, this`maxIndex, this`deadline
    {
      && last <= n <= |turns| && (state == Reading <==> last == n)
      && (forall j :: 0 <= j < last ==> PollGoesOn(l, before, turns, j, linger, begun, ms))
      && |pulses| == before + |IndexMarks(turns[..last])|
      && Bounds() == LimitsAt(l, before, turns[..last], linger)
      && (state != Reading ==>
            turns[last].Poll? && Judged(turns[last].now, ms))
    }

    lemma GoneOn(l: Limits, before: nat, turns: seq<Turn>, n: nat, ms: nat, was: Limits)
      requires n < |turns| && was == LimitsAt(l, before, turns[..n], linger)
      requires turns[n].Poll? ==> |pulses| == before + |IndexMarks(turns[..n])| && GoesOn(was, |pulses|, begun, turns[n].now, ms)
      ensures PollGoesOn(l, before, turns, n, linger, begun, ms)
    {
    }

    lemma CourseBegins(turns: seq<Turn>, ms: nat)
      ensures state == Reading ==> Course(Bounds(), |pulses|, turns, 0, 0, ms)
    {
      assert turns[..0] == [];
    }

    /** A turn of a run, whatever it is. */
    method TakeTurn(t: Turn, ms: nat)
      requires Valid() && Possible(t)
      modifies this, uBuf, dmaBuf, data
      ensures Valid() && start == old(start) && old(packets) <= packets && deadline <= old(deadline)
      ensures captures == old(captures) + match t case Transition(at) => [at] case _ => []
      ensures pulses == old(pulses) + match t case IndexMark(at) => [at] case _ => []
      ensures marks == old(marks) + if t.Poll? then LastOf(old(Unseen())) else []
      ensures Unseen() == match t case IndexMark(at) => old(Unseen()) + [at] case Poll(_, _, _, _) => [] case _ => old(Unseen())
      ensures !t.Poll? ==> old(state) == Reading && state == Reading && Left() == old(Left()) && Bounds() == old(Bounds())
      ensures |pulses| < INT_MAX && old(state) != Done ==>
          Left() + OneIf(t.Poll? && t.txReady && t.now >= old(deadline)) <= old(Left())
      ensures old(state) == Done ==> state == Done
      ensures t.Poll? && old(state) == Reading ==> Judged(t.now, ms) && Limited(old(Bounds()), t.now)
      ensures t.Poll? && state == Reading ==> GoesOn(old(Bounds()), |pulses|, begun, t.now, ms)
      ensures state == Reading ==> old(state) == Reading
      ensures forall now :: old(state) != Reading && old(Judged(now, ms)) ==> Judged(now, ms) && Bounds() == old(Bounds())
    {
      hide Valid, Tells, Judged, GoesOn, Flatten, Avail;
      match t {
        case Transition(at) =>
          Capture(at);
        case IndexMark(at) =>
          IndexPulse(at);
        case Poll(t1, t2, now, txReady) =>
          PollOnce(t1, t2, now, ms, txReady);
      }
    }

    lemma RunBegins(turns: seq<Turn>)
      requires Valid()
      ensures Transitions(turns[..0]) == [] && Reported(Unseen(), turns[..0]) == []
      ensures Waiting(Unseen(), turns[..0]) == Unseen() && LateAndFree(turns[..0], deadline) == 0
      ensures Left() <= uBuf.Length + 5
    {
      hide Hear, Distinct, Flatten, Window, Wrap32, DividesTwo32, Captured, Paced, Sent, Stored, Tells;
    }

    lemma LeftIs()
      ensures state != Done ==> Left() > 0
    {
    }

    /** floppy_process, in the states of a read. */
    method PollOnce(t1: nat, t2: nat, now: int, ms: nat, txReady: bool)
      requires Valid() && Possible(Poll(t1, t2, now, txReady))
      modifies this, uBuf, data
      ensures Valid() && start == old(start) && captures == old(captures) && pulses == old(pulses)
      ensures old(packets) <= packets && Unseen() == [] && marks == old(marks) + LastOf(old(Unseen()))
      ensures deadline <= old(deadline)
      ensures |pulses| < INT_MAX && old(state) != Done ==>
          Left() + OneIf(txReady && now >= old(deadline)) <= old(Left())
      ensures old(state) == Done ==> state == Done
      ensures old(state) == Reading ==> Judged(now, ms) && Limited(old(Bounds()), now)
      ensures state == Reading ==> old(state) == Reading && GoesOn(old(Bounds()), |pulses|, begun, now, ms)
      ensures forall t :: old(state) != Reading && old(Judged(t, ms)) ==> Judged(t, ms) && Bounds() == old(Bounds())
    {
      hide Hear, Distinct, Flatten, Window, Wrap32, DividesTwo32, Captured, Paced, Sent, Room, Stored, Tells;
      match state {
        case Reading => FloppyRead(t1, t2, now, ms, txReady);
        case Draining => FloppyRead(t1, t2, now, ms, txReady);
        case Zlp => SendZlp(txReady);
        case Done =>
      }
    }

    /** What a host hears in the packets of a read that ended well: every flux transition
        up to the last poll, and every index pulse reported, at the times they happened. */
    lemma HostHears()
      requires Valid() && state == Done && status == Okay
      ensures Hear(Flatten(packets), start) == Heard(Distinct(captures), marks, prevAbs, [0])
    {
      hide Hear, Distinct, Flatten;
      assert out[..cons] == out && captures[..consumed] == captures;
      HearTerminator(out, start);
    }

    /** However it ended, the packets carry a NUL-free part of the stream and one NUL. */
    lemma HostSeesTheEnd()
      requires Valid() && state == Done
      ensures cons <= |out| && Flatten(packets) == out[..cons] + [0] && NoNul(out[..cons])
    {
      hide Hear, Distinct, Flatten;
    }

    /** u_buf[U_MASK(u_prod++)] = x. */
    method Put(x: Byte)
      requires Shape() && Stored()
      modifies this`uProd, this`out, uBuf
      ensures Stored() && out == old(out) + [x]
    {
      hide Window;
      MaskWrapped(|out|, uBuf.Length);
      WrapAdd(|out|, 1);
      WindowPut(uBuf[..], out, x);
      ghost var b := uBuf[..][|out| % uBuf.Length := x];
      uBuf[uProd % uBuf.Length] := x;
      assert uBuf[..] == b;
      uProd := Wrap32(uProd + 1);
      out := out + [x];
    }

    /** _write_28bit. */
    method Write28bit(x: U32)
      requires Shape() && Stored()
      modifies this`uProd, this`out, uBuf
      ensures Stored() && out == old(out) + Put28(x)
    {
      hide *;
      Put(Or1(2 * x));
      Put(Or1(x / 0x40));
      Put(Or1(x / 0x2000));
      Put(Or1(x / 0x10_0000));
      Bytes28(x);
    }

    method PutCommand(op: Byte, x: U32)
      requires Shape() && Stored()
      modifies this`uProd, this`out, uBuf
      ensures Stored() && out == old(out) + ([255, op] + Put28(x))
    {
      hide Window, Wrap32, Put28;
      Put(255);
      Put(op);
      Write28bit(x);
    }

    /** The three encodings of a time between transitions. */
    method PutSample(ticks: U32)
      requires Shape() && Stored()
      modifies this`uProd, this`out, uBuf
      ensures Stored() && out == old(out) + EncodeSample(ticks)
    {
      hide Window, Wrap32, Put28;
      if ticks == 0 {
      } else if ticks < 250 {
        Put(ticks);
      } else {
        var high := (ticks - 250) / 255;
        if high < 5 {
          Put(250 + high);
          Put(1 + (ticks - 250) % 255);
        } else {
          PutCommand(FLUXOP_SPACE, ticks - 249);
          Put(249);
        }
      }
    }

    /** rdata_encode_flux, first part: an index pulse seen since the last call. */
    method ReportIndex(ghost t1: nat)
      requires Shape() && Stored() && Paced() && Faithful()
      requires t1 <= counted + US200 && forall i :: nrIndex <= i < |pulses| ==> pulses[i] <= t1
      modifies this`uProd, this`out, this`nrIndex, this`marks, uBuf
      ensures Stored() && Paced() && Faithful() && nrIndex == |pulses|
      ensures marks == old(marks) + if old(nrIndex) < |pulses| then [pulses[|pulses| - 1]] else []
      ensures |old(out)| <= |out| <= |old(out)| + 6 && old(out) <= out
    {
      hide Window, Wrap32, Hear, Put28;
      if nrIndex != |pulses| {
        var p := pulses[|pulses| - 1];
        Elapsed(p, prevAbs, m);
        var ticks := (p % m - prevSample) % m;
        nrIndex := |pulses|;
        HearIndex(ticks, prevAbs);
        HearMore(out, IndexBytes(ticks), start, Hear(out, start), Hear(IndexBytes(ticks), prevAbs));
        PutCommand(FLUXOP_INDEX, ticks);
        marks := marks + [p];
      }
    }

    /** One round of the encoding loop: the next capture. */
    method EncodeNext()
      requires Shape() && Stored() && Captured() && Faithful() && consumed < |captures|
      requires prevSample == prevAbs % m && prevAbs <= captures[consumed] < prevAbs + Min(m, 0x1000_0000)
      requires captures[consumed] == prevAbs <==> consumed > 0 && captures[consumed] == captures[consumed - 1]
      modifies this`uProd, this`out, this`dmaCons, this`consumed, this`prevSample, this`prevAbs, uBuf
      ensures Stored() && Captured() && Faithful()
      ensures consumed == old(consumed) + 1 && prevAbs == captures[consumed - 1] && prevSample == prevAbs % m
      ensures |old(out)| <= |out| <= |old(out)| + 7 && old(out) <= out
    {
      hide Window, Wrap32, Hear, Distinct, EncodeSample;
      ghost var c := captures[consumed];
      var next := dmaBuf[dmaCons];
      Elapsed(c, prevAbs, m);
      var ticks := (next - prevSample) % m;
      HearSample(ticks, prevAbs);
      HearMore(out, EncodeSample(ticks), start, Hear(out, start), Hear(EncodeSample(ticks), prevAbs));
      DistinctNext(captures, consumed);
      PutSample(ticks);
      NextSlot(consumed);
      prevSample := next;
      prevAbs := c;
      dmaCons := (dmaCons + 1) % RING;
      consumed := consumed + 1;
    }

    /** The encoding loop: up to where the DMA engine's producer index was found. */
    method EncodeCaptures(ghost t1: nat)
      requires Shape() && Stored() && Captured() && Faithful() && Paced()
      requires sampled <= t1 <= counted + US200 && forall i :: 0 <= i < |captures| ==> captures[i] <= t1
      modifies this`uProd, this`out, this`dmaCons, this`consumed, this`prevSample, this`prevAbs, uBuf
      ensures Stored() && Captured() && Faithful() && consumed == |captures|
      ensures prevSample == prevAbs % m && old(prevAbs) <= prevAbs <= t1
      ensures |old(out)| <= |out| <= |old(out)| + 7 * (consumed - old(consumed)) && old(out) <= out
    {
      hide Window, Wrap32, Hear, Distinct, EncodeSample, Stored, Faithful;
      var prod := |captures| % RING;
      while dmaCons != prod
        invariant Stored() && Captured() && Faithful() && old(consumed) <= consumed
        invariant prevSample == prevAbs % m && old(prevAbs) <= prevAbs <= t1
        invariant if consumed == old(consumed) then prevAbs == old(prevAbs) else prevAbs == captures[consumed - 1]
        invariant |old(out)| <= |out| <= |old(out)| + 7 * (consumed - old(consumed)) && old(out) <= out
        decreases |captures| - consumed
      {
        if consumed == |captures| {
          assert false;
        }
        EncodeNext();
      }
      if consumed < |captures| {
        DistinctSlots(consumed, |captures|, RING);
        assert false;
      }
    }

    /** The end of rdata_encode_flux: after a long time without flux, some of it is
        reported on its own, which keeps the cursor within the counter's range. */
    method LongGap(t1: nat, t2: nat)
      requires Shape() && Stored() && Faithful() && prevSample == prevAbs % m
      requires prevAbs <= t1 <= t2 <= t1 + US200 && t2 <= prevAbs + US400 + US200
      modifies this`uProd, this`out, this`prevSample, this`prevAbs, uBuf
      ensures Stored() && Faithful() && prevSample == prevAbs % m
      ensures old(prevAbs) <= prevAbs <= t1 && t2 <= prevAbs + US400
      ensures |old(out)| <= |out| <= |old(out)| + 6 && old(out) <= out
    {
      hide Window, Wrap32, Hear, Distinct, Put28;
      Elapsed(t2, prevAbs, m);
      var curr := (t2 % m - prevSample) % m;
      if curr > US400 {
        HearSpace(US200, prevAbs);
        HearMore(out, SpaceBytes(US200), start, Hear(out, start), Hear(SpaceBytes(US200), prevAbs));
        PutCommand(FLUXOP_SPACE, US200);
        Advance(prevAbs, US200, m);
        prevSample := (prevSample + US200) % m;
        prevAbs := prevAbs + US200;
      }
    }

    /** rdata_encode_flux: the producer index is sampled at `t1`, the counter at `t2`.
        Polls must follow each other within 200us, by both times. */
    method RdataEncodeFlux(t1: nat, t2: nat)
      requires Shape() && Stored() && Captured() && Paced() && Faithful()
      requires sampled <= t1 <= t2 <= t1 + US200 && counted <= t2 <= counted + US200
      requires forall i :: 0 <= i < |captures| ==> captures[i] <= t1
      requires forall i :: 0 <= i < |pulses| ==> pulses[i] <= t1
      modifies this`uProd, this`out, this`nrIndex, this`marks, uBuf
      modifies this`dmaCons, this`consumed, this`prevSample, this`prevAbs, this`sampled, this`counted
      ensures Stored() && Captured() && Paced() && Faithful()
      ensures consumed == |captures| && nrIndex == |pulses| && sampled == t1 && counted == t2
      ensures marks == old(marks) + if old(nrIndex) < |pulses| then [pulses[|pulses| - 1]] else []
      ensures |old(out)| <= |out| <= |old(out)| + 7 * RING + 12 && old(out) <= out
    {
      hide Window, Wrap32, Hear, Distinct, Stored, Faithful;
      ReportIndex(t1);
      ghost var o1 := out;
      EncodeCaptures(t1);
      ghost var o2 := out;
      LongGap(t1, t2);
      PrefixTrans(o1, o2, out);
      sampled, counted := t1, t2;
    }

    /* ---- Packets ---------------------------------------------------------------------- */

    ghost function Pending(): seq<Byte>
      requires packetReady ==> packetLen <= data.Length
      reads this`packetReady, this`packetLen, data
    {
      if packetReady then data[..packetLen] else []
    }

    /** What was sent and what waits to be sent make up the stream so far. */
    ghost predicate Sent()
      reads this`out, this`cons, this`packets, this`packetReady, this`packetLen, data
    {
      && (packetReady ==> packetLen == mps <= data.Length)
      && cons <= |out| && Flatten(packets) + Pending() == out[..cons]
      && forall i :: 0 <= i < |packets| ==> |packets[i]| == mps
    }

    /** What is still to be sent is in the ring. A stream that was given up (`status` says
        why) is not continued. */
    ghost predicate Room()
      reads this`out, this`cons, this`uCons, this`uProd, this`status, this`state
    {
      if status == Okay then uCons == Wrap32(cons) && cons <= |out| <= cons + uBuf.Length
      else uCons == 0 && uProd == 0 && state == Draining
    }

    /** When the reading ends, nothing that has happened has been left out. */
    ghost predicate CaughtUp()
      reads this`state, this`consumed, this`captures, this`nrIndex, this`pulses
    {
      nrIndex <= |pulses| && (state != Reading ==> consumed == |captures| && nrIndex == |pulses|)
    }

    ghost predicate Valid()
      reads this, uBuf, dmaBuf, data
    {
      && Shape() && Faithful() && CaughtUp()
      && (state == Reading ==> Captured() && Paced() && status == Okay)
      && (state == Reading || state == Draining ==> Sent() && Room() && (status == Okay ==> Stored()))
      && (state == Zlp ==> Ended(packets + [[]]))
      && (state == Done ==> Ended(packets))
    }

    /** Bytes have been overwritten that were not made into packets. */
    ghost predicate Overrun()
      reads this`out, this`cons
    {
      |out| > cons + uBuf.Length
    }

    /** The verdict on a read that a poll at `now` has ended. */
    ghost predicate Judged(now: int, ms: nat)
      reads this`state, this`status, this`out, this`cons, this`pulses, this`maxIndex, this`deadline
    {
      state != Reading ==> Verdict(status, Overrun(), |pulses|, maxIndex, deadline, begun, now, ms)
    }

    /** The limits of the read as they now are. */
    ghost function Bounds(): Limits
      reads this`maxIndex, this`deadline
    {
      Limits(maxIndex, deadline)
    }

    /** The limits after a poll at `now`: a poll that ends the read leaves them. */
    ghost predicate Limited(was: Limits, now: int)
      reads this`maxIndex, this`deadline, this`pulses, this`state
    {
      Bounds() == if state == Reading then NextLimits(was, |pulses|, now, linger) else was
    }

    /** The transfer is over, and with an Okay status it was all of the stream. */
    ghost predicate Ended(ps: seq<seq<Byte>>)
      reads this`out, this`cons, this`status
    {
      cons <= |out| && (status == Okay ==> cons == |out|) && Closed(ps, out[..cons], mps)
    }

    /** Index pulses that no poll has seen. */
    ghost function Unseen(): seq<nat>
      requires nrIndex <= |pulses|
      reads this`pulses, this`nrIndex
    {
      pulses[nrIndex..]
    }

    /** How many polls with the endpoint free, the deadline over, are at most left. */
    ghost function Left(): nat
      reads this`state, this`maxIndex, this`packetReady, this`out, this`cons, this`status
    {
      match state
      case Reading => uBuf.Length + 4 + OneIf(maxIndex != INT_MAX)
      case Draining => Avail() + 2 + OneIf(packetReady)
      case Zlp => 1
      case Done => 0
    }

    /** Bytes encoded and not yet made into a packet, as the code computes them. */
    ghost function Avail(): nat
      reads this`out, this`cons, this`status
    {
      if status == Okay && cons <= |out| then |out| - cons else 0
    }

    /** The copy in make_read_packet, in two pieces where the ring wraps. */
    method CopyOut(c: nat, n: nat)
      requires Shape() && c < uBuf.Length && n <= mps
      modifies data
      ensures forall k :: 0 <= k < n ==> data[k] == uBuf[if c + k < uBuf.Length then c + k else c + k - uBuf.Length]
      ensures forall k :: n <= k < data.Length ==> data[k] == old(data[k])
    {
      hide DividesTwo32;
      var l := uBuf.Length - c;
      if l < n {
        forall k | 0 <= k < l {
          data[k] := uBuf[c + k];
        }
        forall k | l <= k < n {
          data[k] := uBuf[k - l];
        }
      } else {
        forall k | 0 <= k < n {
          data[k] := uBuf[c + k];
        }
      }
    }

    method CopyNext(n: nat)
      requires Shape() && Room() && n <= Avail() && n <= mps && cons <= |out|
      requires status == Okay ==> Stored()
      modifies data
      ensures data[..n] == out[cons..cons + n]
      ensures forall k :: n <= k < data.Length ==> data[k] == old(data[k])
    {
      hide Window, Wrap32, DividesTwo32;
      CopyOut(uCons % uBuf.Length, n);
      if status == Okay {
        MaskWrapped(cons, uBuf.Length);
        WindowCopy(uBuf[..], out, cons, n, data[..]);
        assert data[..][..n] == data[..n];
      } else {
        assert data[..n] == [] == out[cons..cons + n];
      }
    }

    /** make_read_packet. */
    method MakeReadPacket(n: nat)
      requires Shape() && Sent() && Room() && !packetReady && n <= Avail() && n <= mps
      requires status == Okay ==> Stored()
      modifies this`packetReady, this`packetLen, this`uCons, this`cons, data
      ensures packetReady && packetLen == n && cons == old(cons) + n <= |out|
      ensures data[..n] == out[old(cons)..cons] && Flatten(packets) + data[..n] == out[..cons]
      ensures Room() && (n == mps ==> Sent())
      ensures forall k :: n <= k < data.Length ==> data[k] == old(data[k])
    {
      hide Stored, Flatten, Wrap32, DividesTwo32;
      CopyNext(n);
      if status == Okay {
        WrapAdd(cons, n);
      } else {
        ZeroWraps();
      }
      assert out[..cons + n] == out[..cons] + out[cons..cons + n];
      uCons := Wrap32(uCons + n);
      cons := cons + n;
      packetReady := true;
      packetLen := n;
    }

    /** usb_write of the packet that is ready. */
    method SendPacket()
      requires Shape() && Sent() && packetReady
      modifies this`packets, this`packetReady
      ensures Sent() && !packetReady && packets == old(packets) + [data[..mps]] && old(packets) <= packets
    {
      hide Flatten;
      packets := packets + [data[..packetLen]];
      FlattenMore(old(packets), data[..packetLen]);
      packetReady := false;
    }

    /** The end of the stream: what is left, the ACK byte, and the end of the command. */
    method SendFinal(avail: nat)
      requires Valid() && state == Draining && !packetReady && avail == Avail() < mps
      modifies this`packets, this`packetReady, this`packetLen, this`uCons, this`uProd, this`cons, this`state, data
      ensures Valid() && (state == Zlp || state == Done) && cons == old(cons) + avail
      ensures packets == old(packets) + [out[old(cons)..old(cons) + avail] + [0]]
      ensures (state == Zlp <==> avail + 1 == mps) && uCons == 0 && uProd == 0
      ensures Overrun() == old(Overrun())
    {
      hide Window, Flatten, Closed, Faithful, Wrap32, DividesTwo32, Captured, Paced, Sent, Room, Stored, Shape;
      AvailIs();
      FinalData(avail);
      packets := packets + [data[..avail + 1]];
      uCons, uProd := 0, 0;
      state := if avail + 1 == mps then Zlp else Done;
      EndIsValid();
    }

    /** The last data packet: what is left of the stream, and a NUL. */
    method FinalData(avail: nat)
      requires Shape() && Sent() && Room() && (status == Okay ==> Stored())
      requires !packetReady && avail == Avail() < mps
      modifies this`packetReady, this`packetLen, this`uCons, this`cons, data
      ensures cons == old(cons) + avail <= |out| && (status == Okay ==> cons == |out|)
      ensures avail < data.Length && data[..avail + 1] == out[old(cons)..cons] + [0]
      ensures avail + 1 < mps ==> Closed(packets + [data[..avail + 1]], out[..cons], mps)
      ensures avail + 1 == mps ==> Closed(packets + [data[..avail + 1]] + [[]], out[..cons], mps)
    {
      hide Window, Flatten, Closed, Wrap32, DividesTwo32, Stored;
      FullPackets();
      ClearData();
      MakeReadPacket(avail);
      ghost var p := data[..avail];
      assert data[..avail + 1] == p + [0];
      FinalPacket(packets, p, out[..cons], mps);
    }

    lemma EndIsValid()
      requires Shape() && Faithful() && (state == Zlp || state == Done)
      requires consumed == |captures| && nrIndex == |pulses|
      requires cons <= |out| && (status == Okay ==> cons == |out|)
      requires Closed(if state == Zlp then packets + [[]] else packets, out[..cons], mps)
      ensures Valid()
    {
      hide Shape, Faithful, Closed;
    }

    lemma FullPackets()
      requires Sent()
      ensures forall i :: 0 <= i < |packets| ==> |packets[i]| == mps
    {
    }

    method ClearData()
      requires Shape() && Sent() && !packetReady
      modifies data
      ensures Sent() && forall k :: 0 <= k < mps ==> data[k] == 0
    {
      hide Flatten, DividesTwo32;
      forall k | 0 <= k < mps {
        data[k] := 0;
      }
    }

    /** ST_zlp. */
    method SendZlp(txReady: bool)
      requires Valid() && state == Zlp
      modifies this`packets, this`state
      ensures Valid() && (if txReady then state == Done && packets == old(packets) + [[]] else state == Zlp && packets == old(packets))
    {
      hide Faithful, Closed;
      if txReady {
        packets := packets + [[]];
        state := Done;
      }
    }

    /** Whether, and how, a poll ends the reading; times are on the system clock. */
    method FloppyReadChecks(now: int, ms: nat)
      requires state == Reading && status == Okay && Room()
      modifies this`deadline, this`maxIndex, this`state, this`status, this`uCons, this`uProd
      ensures Room() && status != FluxOverflow && (status == Okay ==> uProd == old(uProd))
      ensures (state == Reading && status == Okay) || state == Draining
      ensures state == Draining && status == Okay <==> nrIndex < old(maxIndex) && now >= old(deadline)
      ensures status == NoIndex <==>
                && nrIndex < old(maxIndex) && now < old(deadline)
                && |pulses| == 0 && old(maxIndex) != INT_MAX && now - begun > 2000 * ms
      ensures if nrIndex >= old(maxIndex) then maxIndex == INT_MAX && deadline == Min(old(deadline), now + linger)
              else maxIndex == old(maxIndex) && deadline == old(deadline)
      ensures nrIndex == |pulses| && !Overrun() ==> Judged(now, ms) && Limited(old(Bounds()), now)
      ensures nrIndex == |pulses| && state == Reading ==> GoesOn(old(Bounds()), |pulses|, begun, now, ms)
    {
      if nrIndex >= maxIndex {
        // The index limit is reached: linger for the time asked for, but no longer.
        var d := now + linger;
        if deadline - d > 0 {
          deadline := d;
        }
        maxIndex := INT_MAX;
      } else if now - deadline >= 0 {
        state := Draining;
      } else if |pulses| == 0 && maxIndex != INT_MAX && now - begun > 2000 * ms {
        status := NoIndex;
        state := Draining;
        uCons, uProd := 0, 0;
      }
    }

    /** Encodes what has been captured, and tells whether that overran the byte ring. */
    method EncodeMore(t1: nat, t2: nat) returns (overrun: bool)
      requires Valid() && state == Reading
      requires sampled <= t1 <= t2 <= t1 + US200 && counted <= t2 <= counted + US200
      requires forall i :: 0 <= i < |captures| ==> captures[i] <= t1
      requires forall i :: 0 <= i < |pulses| ==> pulses[i] <= t1
      modifies this`uProd, this`out, this`nrIndex, this`marks, uBuf
      modifies this`dmaCons, this`consumed, this`prevSample, this`prevAbs, this`sampled, this`counted
      ensures Captured() && Paced() && Faithful() && Stored() && Sent()
      ensures consumed == |captures| && nrIndex == |pulses|
      ensures marks == old(marks) + if old(nrIndex) < |pulses| then [pulses[|pulses| - 1]] else []
      ensures overrun <==> |out| > cons + uBuf.Length
      ensures !overrun ==> Room()
    {
      hide Window, Flatten, Closed, Faithful, Wrap32, DividesTwo32, Captured, Paced, Stored;
      ghost var before := out;
      RdataEncodeFlux(t1, t2);
      StillSent(before);
      WrapDistance(cons, |out| - cons);
      UProdIs();
      overrun := Wrap32(uProd - uCons) > uBuf.Length;
    }

    /** floppy_read in ST_read_flux: an overrun of the ring is noticed before any of the
        bytes it destroyed can be sent. */
    method ReadSome(t1: nat, t2: nat, now: int, ms: nat)
      requires Valid() && state == Reading
      requires sampled <= t1 <= t2 <= t1 + US200 && counted <= t2 <= counted + US200
      requires forall i :: 0 <= i < |captures| ==> captures[i] <= t1
      requires forall i :: 0 <= i < |pulses| ==> pulses[i] <= t1
      modifies this`uProd, this`uCons, this`out, this`nrIndex, this`marks, uBuf, this`state, this`status
      modifies this`dmaCons, this`consumed, this`prevSample, this`prevAbs, this`sampled, this`counted
      modifies this`deadline, this`maxIndex
      ensures Valid() && (state == Reading || state == Draining)
      ensures consumed == |captures| && nrIndex == |pulses|
      ensures marks == old(marks) + if old(nrIndex) < |pulses| then [pulses[|pulses| - 1]] else []
      ensures status == FluxOverflow <==> |out| > cons + uBuf.Length
      ensures status == Okay ==> (state == Draining <==> |pulses| < old(maxIndex) && now >= old(deadline))
      ensures status == NoIndex <==>
                && |out| <= cons + uBuf.Length && |pulses| == 0 < old(maxIndex) != INT_MAX
                && now < old(deadline) && now - begun > 2000 * ms
      ensures deadline <= old(deadline) && Judged(now, ms) && Limited(old(Bounds()), now)
      ensures state == Reading ==> GoesOn(old(Bounds()), |pulses|, begun, now, ms)
      ensures cons == old(cons)
    {
      hide Shape, Faithful, Captured, Paced, Stored, Sent, Ended, Wrap32, Judged, Limited, GoesOn, NextLimits, Room;
      var overrun := EncodeMore(t1, t2);
      Judge(overrun, now, ms);
      ReadingIsValid();
    }

    /** floppy_read after the encoding: an overflow, or the checks. */
    method Judge(overrun: bool, now: int, ms: nat)
      requires state == Reading && status == Okay && nrIndex == |pulses|
      requires (overrun <==> Overrun()) && (!overrun ==> Room())
      modifies this`deadline, this`maxIndex, this`state, this`status, this`uCons, this`uProd
      ensures Room() && (status == Okay ==> uProd == old(uProd))
      ensures (state == Reading && status == Okay) || state == Draining
      ensures status == FluxOverflow <==> Overrun()
      ensures status == Okay ==> (state == Draining <==> |pulses| < old(maxIndex) && now >= old(deadline))
      ensures status == NoIndex <==>
                && !Overrun() && |pulses| == 0 < old(maxIndex) != INT_MAX
                && now < old(deadline) && now - begun > 2000 * ms
      ensures deadline <= old(deadline) && Judged(now, ms) && Limited(old(Bounds()), now)
      ensures state == Reading ==> GoesOn(old(Bounds()), |pulses|, begun, now, ms)
    {
      hide Judged, Limited, GoesOn, NextLimits, Wrap32;
      if overrun {
        status := FluxOverflow;
        state := Draining;
        uCons, uProd := 0, 0;
        Overflowed(now, ms);
      } else {
        FloppyReadChecks(now, ms);
      }
    }

    lemma Overflowed(now: int, ms: nat)
      requires status == FluxOverflow && state == Draining && |out| > cons + uBuf.Length
      ensures Judged(now, ms) && Limited(Bounds(), now)
    {
    }

    lemma ReadingIsValid()
      requires Shape() && Faithful() && Sent() && Room() && (status == Okay ==> Stored())
      requires consumed == |captures| && nrIndex == |pulses|
      requires (state == Reading && status == Okay && Captured() && Paced()) || state == Draining
      ensures Valid()
    {
      hide Shape, Faithful, Captured, Paced, Stored, Sent, Room;
    }

    lemma UProdIs()
      requires Stored()
      ensures uProd == Wrap32(|out|)
    {
    }

    lemma StillSent(before: seq<Byte>)
      requires before <= out && cons <= |before|
      requires packetReady ==> packetLen == mps <= data.Length
      requires Flatten(packets) + Pending() == before[..cons]
      requires forall i :: 0 <= i < |packets| ==> |packets[i]| == mps
      ensures Sent()
    {
      assert before[..cons] == out[..cons];
    }

    /** floppy_read: one poll of the main loop. */
    method FloppyRead(t1: nat, t2: nat, now: int, ms: nat, txReady: bool)
      requires Valid() && (state == Reading || state == Draining)
      requires state == Reading ==>
          && sampled <= t1 <= t2 <= t1 + US200 && counted <= t2 <= counted + US200
          && (forall i :: 0 <= i < |captures| ==> captures[i] <= t1)
          && (forall i :: 0 <= i < |pulses| ==> pulses[i] <= t1)
      modifies this, uBuf, data
      ensures Valid()
      ensures captures == old(captures) && pulses == old(pulses) && start == old(start)
      ensures old(packets) <= packets
      ensures consumed == |captures| && nrIndex == |pulses|
      ensures old(state) == Reading ==> marks == old(marks) + if old(nrIndex) < |pulses| then [pulses[|pulses| - 1]] else []
      ensures old(state) == Draining ==> out == old(out) && marks == old(marks) && status == old(status)
      ensures state == Zlp || state == Done <==>
                old(state == Draining && !packetReady && Avail() < mps) && txReady
      ensures txReady && old(packetReady) ==> old(packets) < packets
      ensures state == Reading ==> Delivered(old(cons), |old(packets)|, old(packetReady), txReady)
      ensures deadline <= old(deadline)
      ensures |pulses| < INT_MAX ==> Left() + OneIf(txReady && now >= old(deadline)) <= old(Left())
      ensures old(state) == Reading ==> Judged(now, ms) && Limited(old(Bounds()), now)
      ensures state == Reading ==> old(state) == Reading && GoesOn(old(Bounds()), |pulses|, begun, now, ms)
      ensures forall t :: old(state) != Reading && old(Judged(t, ms)) ==> Judged(t, ms) && Bounds() == old(Bounds())
    {
      hide Shape, Faithful, Captured, Paced, Sent, Room, Stored, Ended, Judged, Left, Avail;
      if state == Reading {
        PollReading(t1, t2, now, ms, txReady);
      } else {
        PollDraining(now, ms, txReady);
      }
    }

    /** What a poll that goes on reading has made of the bytes from `from` on: a full packet
        if there was none waiting, and one sent if it could be. */
    ghost predicate Delivered(from: nat, sent: nat, waiting: bool, txReady: bool)
      reads this`out, this`cons, this`packets, this`packetReady
    {
      && from <= |out|
      && cons == from + (if !waiting && |out| - from >= mps then mps else 0)
      && (packetReady <==> (waiting || |out| - from >= mps) && !txReady)
      && |packets| == sent + if (waiting || |out| - from >= mps) && txReady then 1 else 0
    }

    /** A poll in ST_read_flux. */
    method PollReading(t1: nat, t2: nat, now: int, ms: nat, txReady: bool)
      requires Valid() && state == Reading
      requires sampled <= t1 <= t2 <= t1 + US200 && counted <= t2 <= counted + US200
      requires forall i :: 0 <= i < |captures| ==> captures[i] <= t1
      requires forall i :: 0 <= i < |pulses| ==> pulses[i] <= t1
      modifies this, uBuf, data
      ensures Valid() && (state == Reading || state == Draining)
      ensures captures == old(captures) && pulses == old(pulses) && start == old(start)
      ensures old(packets) <= packets && (txReady && old(packetReady) ==> old(packets) < packets)
      ensures consumed == |captures| && nrIndex == |pulses|
      ensures marks == old(marks) + if old(nrIndex) < |pulses| then [pulses[|pulses| - 1]] else []
      ensures deadline <= old(deadline) && Judged(now, ms) && Limited(old(Bounds()), now)
      ensures state == Reading ==> GoesOn(old(Bounds()), |pulses|, begun, now, ms)
      ensures state == Reading ==> Delivered(old(cons), |old(packets)|, old(packetReady), txReady)
      ensures |pulses| < INT_MAX ==> Left() + OneIf(txReady && now >= old(deadline)) <= old(Left())
    {
      hide Window, Flatten, Closed, Faithful, Wrap32, DividesTwo32, Captured, Paced, Verdict, Overrun, Stored, Sent, Ended, Tells;
      ReadSome(t1, t2, now, ms);
      Deliver(txReady);
    }

    /** A poll in ST_read_flux_drain. */
    method PollDraining(now: int, ms: nat, txReady: bool)
      requires Valid() && state == Draining
      modifies this`packets, this`packetReady, this`packetLen, this`uCons, this`uProd, this`cons, this`state, data
      ensures Valid() && old(packets) <= packets && (txReady && old(packetReady) ==> old(packets) < packets)
      ensures state == Zlp || state == Done <==> old(!packetReady && Avail() < mps) && txReady
      ensures state == Zlp || state == Done || state == Draining
      ensures Left() + OneIf(txReady) <= old(Left())
      ensures forall t :: old(Judged(t, ms)) ==> Judged(t, ms)
    {
      hide Window, Flatten, Closed, Faithful, Wrap32, DividesTwo32, Captured, Paced, Verdict, Overrun, Stored, Sent, Ended, Tells;
      AvailIs();
      var avail := Wrap32(uProd - uCons);
      if avail < mps && !packetReady && txReady {
        SendFinal(avail);
      } else {
        Deliver(txReady);
      }
    }

    /** The end of floppy_read: a full packet is made, and sent, as soon as it can be. */
    method Deliver(txReady: bool)
      requires Valid() && (state == Reading || state == Draining)
      modifies this`packets, this`packetReady, this`packetLen, this`uCons, this`cons, data
      ensures Valid() && old(packets) <= packets && Overrun() == old(Overrun())
      ensures state == Draining ==>
          Left() + OneIf(txReady && (old(packetReady) || old(Avail()) >= mps)) <= old(Left())
      ensures cons == old(cons) + if !old(packetReady) && old(Avail()) >= mps then mps else 0
      ensures |packets| == |old(packets)| + if txReady && (old(packetReady) || old(Avail()) >= mps) then 1 else 0
      ensures packetReady <==> (old(packetReady) || old(Avail()) >= mps) && !txReady
      ensures old(status) == Okay ==> old(cons) <= |out|
    {
      hide Window, Flatten, Closed, Faithful, Wrap32, DividesTwo32, Captured, Paced, Sent, Room;
      AvailIs();
      var avail := Wrap32(uProd - uCons);
      if !packetReady && avail >= mps {
        MakeReadPacket(mps);
      }
      if packetReady && txReady {
        SendPacket();
      }
    }

    /** The difference of the wrapped indexes is what is left to send. */
    lemma AvailIs()
      requires Shape() && Room() && (status == Okay ==> Stored())
      ensures Wrap32(uProd - uCons) == Avail() && (status == Okay ==> !Overrun() && cons + Avail() == |out|)
    {
      if status == Okay {
        WrapDistance(cons, |out| - cons);
      } else {
        ZeroWraps();
      }
    }
  }

  /** What one more turn adds to a run. */
  lemma RunGoesOn(turns: seq<Turn>, n: nat, before: seq<nat>, deadline: int)
    requires n < |turns|
    ensures Transitions(turns[..n + 1]) == Transitions(turns[..n])
        + match turns[n] case Transition(at) => [at] case _ => []
    ensures Reported(before, turns[..n + 1]) == Reported(before, turns[..n])
        + if turns[n].Poll? then LastOf(Waiting(before, turns[..n])) else []
    ensures turns[n].Transition? ==> Waiting(before, turns[..n + 1]) == Waiting(before, turns[..n])
    ensures turns[n].IndexMark? ==> Waiting(before, turns[..n + 1]) == Waiting(before, turns[..n]) + [turns[n].at]
    ensures turns[n].Poll? ==> Waiting(before, turns[..n + 1]) == []
    ensures LateAndFree(turns[..n + 1], deadline) == LateAndFree(turns[..n], deadline)
        + OneIf(turns[n].Poll? && turns[n].txReady && turns[n].now >= deadline)
  {
    assert turns[..n + 1][..n] == turns[..n];
  }

  /** (uint8_t)(1 | n). */
  function Or1(n: nat): Byte { (n / 2 * 2 + 1) % 256 }

  lemma Or1Is(n: nat)
    ensures Or1(n) == 2 * (n / 2 % 0x80) + 1
  {
  }

  /** Halving a quotient. */
  lemma HalfOf(x: nat, d: nat)
    requires d > 0
    ensures x / d / 2 == x / (2 * d)
  {
    var q := x / d;
    var h, r := q / 2, x % d + if q % 2 == 0 then 0 else d;
    assert x == d * q + x % d;
    assert d * (2 * h) == 2 * d * h;
    assert d * (2 * h + 1) == d * (2 * h) + d;
    QuotientUnique(x, 2 * d, h, r);
  }

  /** One byte of an N28 argument: `(uint8_t)(1 | (x >> k))` with d = 2^k. */
  lemma ByteOf28(x: nat, d: nat)
    requires d > 0
    ensures Or1(x / d) == 2 * (x / (2 * d) % 0x80) + 1
  {
    hide *;
    HalfOf(x, d);
    Or1Is(x / d);
  }

  lemma Bytes28(x: U32)
    ensures Put28(x) == [Or1(2 * x), Or1(x / 0x40), Or1(x / 0x2000), Or1(x / 0x10_0000)]
  {
    hide Or1;
    Or1Is(2 * x);
    assert 2 * x / 2 == x;
    ByteOf28(x, 0x40);
    ByteOf28(x, 0x2000);
    ByteOf28(x, 0x10_0000);
    var a, b := Put28(x), [Or1(2 * x), Or1(x / 0x40), Or1(x / 0x2000), Or1(x / 0x10_0000)];
    assert a[0] == b[0];
    assert a[1] == b[1];
    assert a[2] == b[2];
    assert a[3] == b[3];
  }

  lemma NextSlot(n: nat)
    ensures (n % RING + 1) % RING == (n + 1) % RING
  {
  }

  lemma PrefixTrans(a: seq<Byte>, b: seq<Byte>, c: seq<Byte>)
    requires a <= b <= c
    ensures a <= c
  {
  }

  /** A wrapped counter value, advanced. */
  lemma Advance(a: nat, n: nat, m: int)
    requires m > 0
    ensures (a % m + n) % m == (a + n) % m
  {
    assert a == m * (a / m) + a % m;
    ModAddMultiple(a % m + n, a / m, m);
  }

  /** Packets that carry `part` closed by a NUL: full ones and a last one that is not. */
  predicate Closed(ps: seq<seq<Byte>>, part: seq<Byte>, mps: nat) {
    && Flatten(ps) == part + [0]
    && ps != [] && |ps[|ps| - 1]| < mps
    && forall i :: 0 <= i < |ps| - 1 ==> |ps[i]| == mps
  }

  /** The last packet closes the stream, and an empty one follows if it is full. */
  lemma FinalPacket(ps: seq<seq<Byte>>, p: seq<Byte>, part: seq<Byte>, mps: nat)
    requires Flatten(ps) + p == part && |p| < mps
    requires forall i :: 0 <= i < |ps| ==> |ps[i]| == mps
    ensures |p| + 1 < mps ==> Closed(ps + [p + [0]], part, mps)
    ensures |p| + 1 == mps ==> Closed(ps + [p + [0]] + [[]], part, mps)
  {
    hide Flatten;
    FlattenMore(ps, p + [0]);
    FlattenMore(ps + [p + [0]], []);
  }

  lemma StartsWell(buf: seq<Byte>, at: nat)
    requires buf != []
    ensures Window(buf, []) && Tells([], at, [], [], at) && Flatten([]) == [] && Wrap32(0) == 0
  {
  }

  lemma ZeroWraps()
    ensures Wrap32(0) == 0
  {
  }

  predicate NoNul(b: seq<Byte>) { forall i :: 0 <= i < |b| ==> b[i] != 0 }
}
