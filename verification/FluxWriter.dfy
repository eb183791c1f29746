/** The write pipeline: USB packets, the `u_buf` byte ring with free-running
    32-bit indexes, the resumable flux decoder, and the 512-entry DMA ring. */
module FluxWriter {
  import opened Words
  import opened FluxCodec

  /** A turn of a run: a packet arrives at the endpoint, the main loop looks for one, the
      decoder finds output space, the DMA engine fetches samples. */
  datatype Turn = Arrive(rx: seq<Byte>) | Poll | Fill | Fetch(k: nat)

  /** A look at the DMA engine while its ring drains: how many samples it has fetched since
      the last, and whether an index pulse has come. */
  datatype Look = Look(fetched: nat, index: bool)

  /** A poll of floppy_write, with what has happened since the last. */
  datatype WritePoll = WritePoll(rx: seq<Byte>, rxReady: bool, fetched: nat, index: bool, looks: seq<Look>)

  /** How a write stands after a poll: it goes on, or the ring was still draining when last
      looked at; or it has ended, at an index pulse, with an error, or with all played. */
  datatype Progress = Writing | Emptying | AtIndex | Underflow | Bad | Played

  function Fetched(looks: seq<Look>): nat {
    if looks == [] then 0 else Fetched(looks[..|looks| - 1]) + looks[|looks| - 1].fetched
  }

  /** How the wait for the ring to drain ends, from `played` samples fetched of `filled`:
      at look `at`, the first that finds an index it has to stop at, before which as many
      samples have gone as had been fetched; or that finds all fetched; or not yet. */
  ghost predicate Drained(stop: bool, looks: seq<Look>, played: nat, filled: nat, end: Progress, at: nat, played': nat) {
    && at <= |looks|
    && (forall j :: 0 < j <= at ==> played + Fetched(looks[..j]) < filled)
    && (forall j :: 0 <= j < at ==> !(stop && looks[j].index))
    && match end
      case AtIndex => at < |looks| && stop && looks[at].index && played' == played + Fetched(looks[..at])
      case Played =>
        at < |looks| && !(stop && looks[at].index) && played + Fetched(looks[..at + 1]) >= filled && played' == filled
      case Emptying => at == |looks| && played' == played + Fetched(looks[..at])
      case _ => false
  }

  /** It stops at an index exactly if one is seen before all samples are known to be fetched. */
  lemma StopsAtIndex(stop: bool, looks: seq<Look>, played: nat, filled: nat, end: Progress, at: nat, played': nat)
    requires Drained(stop, looks, played, filled, end, at, played')
    ensures end == AtIndex <==>
        exists i :: 0 <= i < |looks| && stop && looks[i].index
          && forall j :: 0 < j <= i ==> played + Fetched(looks[..j]) < filled
  {
    hide Fetched;
  }

  /** No index has been seen by the looks up to `at`. */
  predicate NoIndexTo(looks: seq<Look>, at: nat) {
    at < |looks| && forall j :: 0 <= j <= at ==> !looks[j].index
  }

  /** What a write that stops at an index has seen of one: nothing before the poll it ended
      with, and nothing before all was fetched unless that is how it ended. */
  ghost predicate IndexSeen(p: WritePoll, end: Progress, at: nat) {
    && (end == AtIndex ==> p.index || (at < |p.looks| && p.looks[at].index))
    && (end != AtIndex && end != Bad ==> !p.index)
    && (end == Played ==> NoIndexTo(p.looks, at))
  }

  ghost predicate IndexAccount(polls: seq<WritePoll>, n: nat, end: Progress, at: nat) {
    && n <= |polls| && (n == 0 ==> end == Writing)
    && (forall k :: 0 <= k < n - 1 ==> !polls[k].index)
    && (n > 0 ==> IndexSeen(polls[n - 1], end, at))
  }

  lemma SeenNone(p: WritePoll, at: nat)
    ensures IndexSeen(p, Writing, at) ==> !p.index
  {
  }

  lemma FetchedNone(looks: seq<Look>)
    ensures Fetched(looks[..0]) == 0
  {
  }

  lemma FetchedNext(looks: seq<Look>, i: nat)
    requires i < |looks|
    ensures Fetched(looks[..i + 1]) == Fetched(looks[..i]) + looks[i].fetched
  {
    assert looks[..i + 1][..i] == looks[..i];
  }

  /** The entries left in the ring as the driver computes them: what is left, or what is
      left of the ring once the engine has run past the last entry. */
  lemma TodoIs(filled: nat, fetched: nat)
    requires filled - RING < fetched < filled + RING
    ensures (filled % RING - fetched % RING) % RING == if fetched <= filled then filled - fetched else filled - fetched + RING
  {
    var q := filled / RING - fetched / RING;
    assert filled % RING - fetched % RING == filled - fetched - RING * q;
    ModAddMultiple(filled - fetched, -q, RING);
    if fetched <= filled {
      QuotientUnique(filled - fetched, RING, 0, filled - fetched);
    } else {
      QuotientUnique(filled - fetched, RING, -1, filled - fetched + RING);
    }
  }

  /** The packets that arrive. */
  function Arrivals(turns: seq<Turn>): seq<seq<Byte>> {
    if turns == [] then []
    else Arrivals(turns[..|turns| - 1]) + if turns[|turns| - 1].Arrive? then [turns[|turns| - 1].rx] else []
  }

  /** How many are at the endpoint if each poll takes one. */
  function Backlog(turns: seq<Turn>): nat {
    if turns == [] then 0
    else
      var n := Backlog(turns[..|turns| - 1]);
      match turns[|turns| - 1]
      case Arrive(_) => n + 1
      case Poll => if n == 0 then 0 else n - 1
      case _ => n
  }

  lemma NoTurns(turns: seq<Turn>)
    ensures Arrivals(turns[..0]) == [] && Backlog(turns[..0]) == 0 && Flatten([]) == []
  {
  }

  lemma TakenOff(before: seq<Byte>, now: seq<Byte>, queue: seq<seq<Byte>>, left: seq<seq<Byte>>, rx: seq<Byte>, got: bool)
    requires now == before + if got then rx else []
    requires got ==> queue != [] && rx == queue[0]
    requires left == if got then queue[1..] else queue
    ensures now + Flatten(left) == before + Flatten(queue)
  {
    hide Flatten;
    if got {
      FlattenFirst(queue[0], queue[1..]);
      assert queue == [queue[0]] + queue[1..];
    }
  }

  /** Packets that are waiting, and one that may have arrived. */
  lemma OneArrived(before: seq<Byte>, now: seq<Byte>, queue: seq<seq<Byte>>, arrived: seq<seq<Byte>>, t: Turn)
    requires now + Flatten(queue) == before + Flatten(arrived)
    ensures t.Arrive? ==> now + Flatten(queue + [t.rx]) == before + Flatten(arrived + [t.rx])
    ensures queue + [] == queue
    ensures t.Arrive? ==> |Flatten(arrived + [t.rx])| == |Flatten(arrived)| + |t.rx|
  {
    hide Flatten;
    if t.Arrive? {
      FlattenMore(queue, t.rx);
      FlattenMore(arrived, t.rx);
      assert now + (Flatten(queue) + t.rx) == (now + Flatten(queue)) + t.rx;
      assert before + (Flatten(arrived) + t.rx) == (before + Flatten(arrived)) + t.rx;
    }
  }

  lemma NextTurn(turns: seq<Turn>, n: nat)
    requires n < |turns|
    ensures turns[n].Arrive? ==> Arrivals(turns[..n + 1]) == Arrivals(turns[..n]) + [turns[n].rx]
    ensures !turns[n].Arrive? ==> Arrivals(turns[..n + 1]) == Arrivals(turns[..n])
    ensures turns[n].Arrive? ==> Backlog(turns[..n + 1]) == Backlog(turns[..n]) + 1
    ensures turns[n].Poll? ==> Backlog(turns[..n + 1]) == if Backlog(turns[..n]) == 0 then 0 else Backlog(turns[..n]) - 1
    ensures turns[n].Fill? || turns[n].Fetch? ==> Backlog(turns[..n + 1]) == Backlog(turns[..n])
  {
    assert turns[..n + 1][..n] == turns[..n];
  }

  lemma FilledGrows(was: seq<nat>, done0: seq<nat>, buf: seq<nat>, done: seq<nat>, at: nat, n: nat)
    requires Filled(was, done0, buf, done, at, n)
    ensures done0 <= done && |done| == |done0| + n
  {
  }

  datatype FluxMode = ModeIdle | ModeOneShot | ModeAstable

  /* ---- What a suspended decoder still owes ------------------------------ */

  /** Samples that are due before the next token is read. */
  function Owed(mode: FluxMode, period: U32, ticks: U32, m: int): seq<nat>
    requires IsCounter(m)
    requires mode == ModeAstable ==> period > 0
  {
    match mode
    case ModeIdle => []
    case ModeOneShot => SplitSamples(ticks, m)
    case ModeAstable => Repeat(period - 1, ticks / period)
  }

  /** Ticks that are owed once those samples are out. */
  function Leaves(mode: FluxMode, period: U32, ticks: U32, m: int): U32
    requires IsCounter(m)
    requires mode == ModeAstable ==> period > 0
  {
    match mode
    case ModeIdle => ticks
    case ModeOneShot => SplitCarry(ticks, m)
    case ModeAstable => ticks % period
  }

  /** Everything a decoder suspended in `mode` goes on to produce from the
      bytes `b` it has not read yet. */
  function Tail(mode: FluxMode, period: U32, ticks: U32, b: seq<Byte>, m: int): Decoded
    requires IsCounter(m)
    requires mode == ModeAstable ==> period > 0
  {
    Before(Owed(mode, period, ticks, m), false, false, Decode(b, Leaves(mode, period, ticks, m), m))
  }

  lemma TailIdle(period: U32, ticks: U32, b: seq<Byte>, m: int)
    requires IsCounter(m)
    ensures Tail(ModeIdle, period, ticks, b, m) == Decode(b, ticks, m)
  {
    hide Decode;
    var d := Decode(b, ticks, m);
    assert [] + d.samples == d.samples;
  }

  lemma BeforeBefore(a: seq<nat>, s: bool, e: bool, a': seq<nat>, s': bool, e': bool, d: Decoded)
    ensures Before(a, s, e, Before(a', s', e', d)) == Before(a + a', s || s', e || e', d)
  {
  }

  lemma QuotientStep(t: int, d: int)
    requires d > 0 && t >= d
    ensures t / d == (t - d) / d + 1 && t % d == (t - d) % d
  {
    var q, r := (t - d) / d, (t - d) % d;
    assert t == d * (q + 1) + r by { assert t - d == d * q + r; }
    QuotientUnique(t, d, q + 1, r);
  }

  lemma OwedAstable(period: U32, ticks: U32, m: int)
    requires IsCounter(m) && MIN_PULSE <= period <= ticks
    ensures Owed(ModeAstable, period, ticks, m) == [period - 1] + Owed(ModeAstable, period, ticks - period, m)
    ensures Leaves(ModeAstable, period, ticks, m) == Leaves(ModeAstable, period, ticks - period, m)
  {
    var q := (ticks - period) / period;
    QuotientStep(ticks, period);
    RepeatFirst(period - 1, q + 1);
    hide Repeat;
    assert ticks / period == q + 1;
  }

  /** One more pulse of an astable region moves from owed to done. */
  lemma AstableStep(done: seq<nat>, stopped: bool, bad: bool, period: U32, ticks: U32, b: seq<Byte>, m: int)
    requires IsCounter(m) && MIN_PULSE <= period <= ticks
    ensures Before(done, stopped, bad, Tail(ModeAstable, period, ticks, b, m))
         == Before(done + [period - 1], stopped, bad, Tail(ModeAstable, period, ticks - period, b, m))
  {
    hide Decode, Owed, Leaves;
    OwedAstable(period, ticks, m);
    BeforeBefore([period - 1], false, false, Owed(ModeAstable, period, ticks - period, m), false, false,
                 Decode(b, Leaves(ModeAstable, period, ticks, m), m));
    BeforeBefore(done, stopped, bad, [period - 1], false, false, Tail(ModeAstable, period, ticks - period, b, m));
  }

  lemma AstableDone(period: U32, ticks: U32, b: seq<Byte>, m: int)
    requires IsCounter(m) && ticks < period
    ensures Tail(ModeAstable, period, ticks, b, m) == Tail(ModeIdle, period, ticks, b, m)
  {
    hide Decode;
    assert ticks / period == 0 && ticks % period == ticks by {
      QuotientUnique(ticks, period, 0, ticks);
    }
  }

  lemma OwedOneShot(period: U32, ticks: U32, m: int)
    requires IsCounter(m) && m <= ticks
    ensures Owed(ModeOneShot, period, ticks, m) == [m - 1] + Owed(ModeOneShot, period, ticks - m, m)
    ensures Leaves(ModeOneShot, period, ticks, m) == Leaves(ModeOneShot, period, ticks - m, m)
  {
    QuotientStep(ticks, m);
    RepeatFirst(m - 1, (ticks - m) / m + 1);
  }

  /** One more full counter period of a long one-shot moves from owed to done. */
  lemma OneShotStep(done: seq<nat>, stopped: bool, bad: bool, period: U32, ticks: U32, b: seq<Byte>, m: int)
    requires IsCounter(m) && m <= ticks
    ensures Before(done, stopped, bad, Tail(ModeOneShot, period, ticks, b, m))
         == Before(done + [m - 1], stopped, bad, Tail(ModeOneShot, period, ticks - m, b, m))
  {
    hide Decode, Owed, Leaves;
    OwedOneShot(period, ticks, m);
    BeforeBefore([m - 1], false, false, Owed(ModeOneShot, period, ticks - m, m), false, false,
                 Decode(b, Leaves(ModeOneShot, period, ticks, m), m));
    BeforeBefore(done, stopped, bad, [m - 1], false, false, Tail(ModeOneShot, period, ticks - m, b, m));
  }

  /** The last piece of a one-shot is a pulse unless it is too short; a one-shot
      with nothing left to play is idle. */
  lemma OneShotLast(done: seq<nat>, stopped: bool, bad: bool, period: U32, ticks: U32, b: seq<Byte>, m: int)
    requires IsCounter(m) && ticks < m
    ensures ticks > MIN_PULSE ==>
              Before(done, stopped, bad, Tail(ModeOneShot, period, ticks, b, m)) ==
              Before(done + [ticks - 1], stopped, bad, Tail(ModeOneShot, period, 0, b, m))
    ensures ticks <= MIN_PULSE ==> Tail(ModeOneShot, period, ticks, b, m) == Tail(ModeIdle, period, ticks, b, m)
  {
    hide Decode;
    assert ticks / m == 0 && ticks % m == ticks;
    assert SplitSamples(ticks, m) == if ticks > MIN_PULSE then [ticks - 1] else [];
    assert SplitSamples(0, m) == [];
    if ticks > MIN_PULSE {
      BeforeBefore(done, stopped, bad, [ticks - 1], false, false, Tail(ModeOneShot, period, 0, b, m));
    }
  }

  /** Bytes that arrive later extend both sides of the decoder's account alike. */
  lemma TailExtends(done: seq<nat>, stopped: bool, bad: bool, mode: FluxMode, period: U32, ticks: U32,
                    unread: seq<Byte>, hist: seq<Byte>, more: seq<Byte>, m: int)
    requires IsCounter(m)
    requires mode == ModeAstable ==> period > 0
    requires Before(done, stopped, bad, Tail(mode, period, ticks, unread, m)) == Decode(hist, 0, m)
    ensures Before(done, stopped, bad, Tail(mode, period, ticks, unread + more, m)) == Decode(hist + more, 0, m)
  {
    var owed, t := Owed(mode, period, ticks, m), Leaves(mode, period, ticks, m);
    hide Decode, Owed, Leaves;
    var d, h := Decode(unread, t, m), Decode(hist, 0, m);
    DecodeAppend(unread, more, t, m);
    DecodeAppend(hist, more, 0, m);
    var rest := Decode(d.rest + more, d.ticks, m);
    BeforeBefore(owed, false, false, d.samples, d.stopped, d.bad, rest);
    BeforeBefore(done, stopped, bad, owed + d.samples, d.stopped, d.bad, rest);
  }

  /** What is finished is a prefix of the whole, however the stream goes on. */
  lemma DoneIsPrefix(done: seq<nat>, stopped: bool, bad: bool, mode: FluxMode, period: U32, ticks: U32,
                     unread: seq<Byte>, hist: seq<Byte>, future: seq<Byte>, m: int)
    requires IsCounter(m)
    requires mode == ModeAstable ==> period > 0
    requires Before(done, stopped, bad, Tail(mode, period, ticks, unread, m)) == Decode(hist, 0, m)
    ensures done <= Decode(hist + future, 0, m).samples
    ensures LegalPulses(done, m)
  {
    hide Decode, Tail;
    TailExtends(done, stopped, bad, mode, period, ticks, unread, hist, future, m);
    DecodeLegal(hist + future, 0, m);
  }

  /** From a DMA buffer `was` and output `done0`, exactly `n` samples were added:
      they stand at `at`, and the rest of the buffer is untouched. */
  ghost predicate Filled(was: seq<nat>, done0: seq<nat>, buf: seq<nat>, done: seq<nat>, at: nat, n: nat) {
    && |was| == |buf| && at + n <= |buf|
    && done == done0 + buf[at..at + n]
    && forall j :: 0 <= j < |buf| && !(at <= j < at + n) ==> buf[j] == was[j]
  }

  lemma FilledNone(was: seq<nat>, done0: seq<nat>, at: nat)
    requires at <= |was|
    ensures Filled(was, done0, was, done0, at, 0)
  {
    assert done0 == done0 + was[at..at];
  }

  lemma FilledOne(was: seq<nat>, done0: seq<nat>, buf: seq<nat>, done: seq<nat>, at: nat, n: nat, v: nat)
    requires Filled(was, done0, buf, done, at, n) && at + n < |buf|
    ensures Filled(was, done0, buf[at + n := v], done + [v], at, n + 1)
  {
    var buf' := buf[at + n := v];
    SliceExtends(buf, buf', at, n);
    assert done + [v] == done0 + buf'[at..at + n + 1];
  }

  lemma SliceExtends(a: seq<nat>, b: seq<nat>, at: nat, n: nat)
    requires at + n < |a| == |b| && b == a[at + n := b[at + n]]
    ensures b[at..at + n + 1] == a[at..at + n] + [b[at + n]]
  {
  }

  lemma Waiting(prod: nat, cons: nat)
    requires cons <= prod <= cons + RING - 1
    ensures (prod % RING - cons % RING) % RING == prod - cons
  {
    var j := cons / RING - prod / RING;
    assert prod % RING - cons % RING == prod - cons + RING * j;
    ModAddMultiple(prod - cons, j, RING);
  }

  /** Room in the DMA ring, from the two wrapped indexes. */
  lemma RingRoom(prod: nat, cons: nat)
    requires cons <= prod <= cons + RING - 1
    ensures (cons % RING - prod % RING - 1) % RING == RING - 1 - (prod - cons)
  {
    var j := cons / RING - prod / RING;
    assert cons % RING - prod % RING - 1 == RING - 1 - (prod - cons) + RING * (-1 - j);
    ModAddMultiple(RING - 1 - (prod - cons), -1 - j, RING);
  }

  lemma RingFilled(was: seq<nat>, done0: seq<nat>, buf: seq<nat>, done: seq<nat>, at: nat, n: nat, played: nat)
    requires |was| == RING && Filled(was, done0, buf, done, at, n)
    requires at == |done0| % RING && played <= |done0| && |done0| + n <= played + RING - 1
    requires forall i :: played <= i < |done0| ==> was[i % RING] == done0[i]
    ensures |done| == |done0| + n && done0 <= done
    ensures (at + n) % RING == |done| % RING
    ensures forall i :: played <= i < |done| ==> buf[i % RING] == done[i]
  {
    forall i | played <= i < |done|
      ensures buf[i % RING] == done[i]
    {
      if i < |done0| {
        SlotAfter(i, |done0| - i, RING);
        assert !(at <= i % RING < at + n);
      } else {
        SlotAfter(|done0|, i - |done0|, RING);
      }
    }
  }

  /** A packet copied into free space, wrapping at the ring's end, extends the
      ring's contents and disturbs none of them. */
  lemma CopiedIn(was: seq<Byte>, buf: seq<Byte>, hist: seq<Byte>, cons: nat, packet: seq<Byte>, size: nat)
    requires |was| == |buf| == size > 0
    requires cons <= |hist| && |hist| - cons + |packet| <= size
    requires forall i :: cons <= i < |hist| ==> was[i % size] == hist[i]
    requires var p := |hist| % size;
             && (forall k :: 0 <= k < |packet| ==> buf[if p + k < size then p + k else p + k - size] == packet[k])
             && (forall j :: 0 <= j < size && !(p <= j < p + |packet|) && !(j < p + |packet| - size) ==> buf[j] == was[j])
    ensures forall i :: cons <= i < |hist| + |packet| ==> buf[i % size] == (hist + packet)[i]
  {
    var p := |hist| % size;
    forall i | cons <= i < |hist| + |packet|
      ensures buf[i % size] == (hist + packet)[i]
    {
      if i >= |hist| {
        SlotAfter(|hist|, i - |hist|, size);
      } else {
        SlotAfter(i, |hist| - i, size);
        var q := i % size;
        assert q + (|hist| - i) + |packet| <= q + size;
      }
    }
  }

  lemma PreviousIndex(n: nat)
    requires n > 0
    ensures Wrap32(Wrap32(n) - 1) == Wrap32(n - 1)
  {
    assert Wrap32(n) - 1 == n - 1 + TWO32 * (-(n / TWO32));
    ModAddMultiple(n - 1, -(n / TWO32), TWO32);
  }

  lemma {:induction false} NeverStops(b: seq<Byte>, ticks: U32, m: int)
    requires IsCounter(m)
    requires forall i :: 0 <= i < |b| ==> b[i] != 0
    ensures !Decode(b, ticks, m).stopped
    decreases |b|
  {
    match Lex(b, m) {
      case NeedMore =>
      case Lexed(t, len) =>
        NeverStops(b[len..], Carry(t, ticks, m), m);
    }
  }

  lemma EmptyNeverStops(ticks: U32, m: int)
    requires IsCounter(m)
    ensures !Decode([], ticks, m).stopped
  {
  }

  lemma NothingLeftStops(done: seq<nat>, stopped: bool, bad: bool, mode: FluxMode, period: U32, ticks: U32,
                         hist: seq<Byte>, m: int)
    requires IsCounter(m)
    requires mode == ModeAstable ==> period > 0
    requires Before(done, stopped, bad, Tail(mode, period, ticks, [], m)) == Decode(hist, 0, m)
    ensures stopped == Decode(hist, 0, m).stopped
  {
    hide Decode, Owed, Leaves;
    EmptyNeverStops(Leaves(mode, period, ticks, m), m);
  }

  /** A well-formed stream is known to have ended exactly when all of it is there. */
  lemma StopsExactly(body: seq<Byte>, arrived: seq<Byte>, m: int)
    requires IsCounter(m) && arrived <= body + [0]
    requires forall i :: 0 <= i < |body| ==> body[i] != 0
    requires Decode(body, 0, m).rest == []
    ensures Decode(arrived, 0, m).stopped <==> arrived == body + [0]
  {
    if arrived == body + [0] {
      hide Decode;
      DecodeAppend(body, [0], 0, m);
      assert [] + [0] == [0];
      NulStops(Decode(body, 0, m).ticks, m);
    } else {
      NeverStops(arrived, 0, m);
    }
  }

  lemma AllReadStops(done: seq<nat>, stopped: bool, bad: bool, mode: FluxMode, period: U32, ticks: U32,
                     hist: seq<Byte>, cons: nat, body: seq<Byte>, m: int)
    requires IsCounter(m) && cons == |hist| && hist <= body + [0] && (mode == ModeAstable ==> period > 0)
    requires Before(done, stopped, bad, Tail(mode, period, ticks, hist[cons..], m)) == Decode(hist, 0, m)
    requires (forall i :: 0 <= i < |body| ==> body[i] != 0) && Decode(body, 0, m).rest == []
    ensures stopped <==> hist == body + [0]
  {
    hide *;
    assert hist[cons..] == [];
    NothingLeftStops(done, stopped, bad, mode, period, ticks, hist, m);
    StopsExactly(body, hist, m);
  }

  lemma NulStops(ticks: U32, m: int)
    requires IsCounter(m)
    ensures Decode([0], ticks, m).stopped
  {
  }

  lemma EmptyNeedsMore(b: seq<Byte>, m: int)
    requires IsCounter(m) && b == []
    ensures Lex(b, m) == NeedMore
  {
  }

  lemma LexStop(b: seq<Byte>, m: int)
    requires Lex(b, m).Lexed? && Lex(b, m).token.Stop?
    ensures Lex(b, m).len == 1 && b[0] == 0
  {
  }

  lemma LexAstable(b: seq<Byte>, m: int)
    requires Lex(b, m).Lexed? && Lex(b, m).token.Astable?
    ensures MIN_PULSE <= Lex(b, m).token.p < m
  {
  }

  /** One idle-mode token: what the decoder must have produced after it. */
  lemma TokenTaken(done: seq<nat>, stopped: bool, bad: bool, period: U32, ticks: U32, unread: seq<Byte>, m: int)
    requires IsCounter(m) && Lex(unread, m).Lexed?
    ensures var l := Lex(unread, m);
            Before(done, stopped, bad, Tail(ModeIdle, period, ticks, unread, m)) ==
            Before(done + Samples(l.token, ticks, m), stopped || l.token.Stop?, bad || l.token.Invalid?,
              Decode(unread[l.len..], Carry(l.token, ticks, m), m))
  {
    var l := Lex(unread, m);
    hide Decode, Samples, Carry, Tail, Lex;
    TailIdle(period, ticks, unread, m);
    DecodeStep(unread, ticks, m);
    BeforeBefore(done, stopped, bad, Samples(l.token, ticks, m), l.token.Stop?, l.token.Invalid?,
                 Decode(unread[l.len..], Carry(l.token, ticks, m), m));
  }

  /* ---- The firmware's data structures -------------------------------------- */

  class Writer {
    const m: int               // one more than the largest timcnt_t
    const size: nat            // U_BUF_SZ
    const uBuf: array<Byte>
    const dmaBuf: array<nat>
    var uCons: U32
    var uProd: U32

    // struct write
    var isFinished: bool
    var astablePeriod: U32
    var ticks: U32
    var mode: FluxMode
    var badCommand: bool       // flux_op.status == ACK_BAD_COMMAND

    var dmaProd: U16
    var packet: seq<Byte>      // usb_packet.data[0..len]
    var ready: bool            // usb_packet.ready

    var played: nat            // how many samples the DMA engine has fetched

    ghost var hist: seq<Byte>  // every byte ever put into uBuf
    ghost var cons: nat        // how many of them have been consumed
    ghost var out: seq<nat>    // every sample decoded

    /** The byte ring: wrapped indexes, and no unread byte overwritten. */
    ghost predicate Ring()
      reads this`uCons, this`uProd, this`cons, this`hist, uBuf
    {
      && IsCounter(m)
      && RING <= size < TWO32 && DividesTwo32(size) && uBuf.Length == size
      && dmaBuf.Length == RING && dmaBuf as object != uBuf as object
      && cons <= |hist| <= cons + size
      && uCons == Wrap32(cons) && uProd == Wrap32(|hist|)
      && forall i :: cons <= i < |hist| ==> uBuf[i % size] == hist[i]
    }

    /** The refinement: what is decoded so far, followed by what the suspended
        decoder still owes, is the one-shot decode of everything received. */
    ghost predicate Valid()
      reads this`uCons, this`uProd, this`cons, this`hist, uBuf, this`mode, this`astablePeriod, this`ticks, this`isFinished, this`badCommand, this`out
    {
      && Ring()
      && (mode == ModeAstable ==> MIN_PULSE <= astablePeriod < m)
      && Before(out, isFinished, badCommand, Tail(mode, astablePeriod, ticks, hist[cons..], m)) == Decode(hist, 0, m)
    }

    /** The DMA ring: samples fetched and waiting are the decoder's, in order. */
    ghost predicate Streaming()
      reads this`played, this`out, this`dmaProd, dmaBuf
    {
      && dmaBuf.Length == RING
      && played <= |out| <= played + RING - 1
      && dmaProd as int == |out| % RING
      && forall i :: played <= i < |out| ==> dmaBuf[i % RING] == out[i]
    }

    constructor (m: int, size: nat)
      requires IsCounter(m) && RING <= size < TWO32 && DividesTwo32(size)
      ensures Valid() && Streaming() && fresh(uBuf) && fresh(dmaBuf)
      ensures this.m == m && this.size == size && hist == [] && out == [] && cons == 0 && !isFinished && !badCommand
    {
      this.m, this.size := m, size;
      uBuf := new Byte[size];
      dmaBuf := new nat[RING];
      uCons, uProd := 0, 0;
      isFinished, astablePeriod, ticks, mode, badCommand := false, 0, 0, ModeIdle, false;
      dmaProd, packet, ready := 0, [], false;
      hist, cons, out, played := [], 0, [], 0;
      new;
      TailIdle(0, 0, [], m);
      var d := Decode([], 0, m);
      assert [] + d.samples == d.samples;
    }

    /* -- u_buf access -- */

    method Available() returns (n: U32)
      requires Ring()
      ensures n == |hist| - cons
    {
      WrapDistance(cons, |hist| - cons);
      n := Wrap32(uProd - uCons);
    }

    method Peek(k: nat) returns (b: Byte)
      requires Ring() && cons + k < |hist|
      ensures b == hist[cons + k]
    {
      hide DividesTwo32, Wrap32;
      MaskWrapped(cons + k, size);
      WrapAdd(cons, k);
      b := uBuf[Wrap32(uCons + k) % size];
    }

    method Skip(k: nat)
      requires Ring() && cons + k <= |hist|
      modifies this`uCons, this`cons
      ensures Ring() && cons == old(cons) + k
    {
      hide DividesTwo32, Wrap32;
      WrapAdd(cons, k);
      uCons := Wrap32(uCons + k);
      cons := cons + k;
    }

    method NextByte() returns (b: Byte)
      requires Ring() && cons < |hist|
      modifies this`uCons, this`cons
      ensures Ring() && cons == old(cons) + 1 && b == hist[old(cons)]
    {
      b := Peek(0);
      Skip(1);
    }

    method Read28() returns (x: U32)
      requires Ring() && cons + 4 <= |hist|
      modifies this`uCons, this`cons
      ensures Ring() && cons == old(cons) + 4
      ensures x == Get28(hist[old(cons)..old(cons) + 4])
    {
      var b0 := NextByte();
      var b1 := NextByte();
      var b2 := NextByte();
      var b3 := NextByte();
      assert hist[old(cons)..old(cons) + 4] == [b0, b1, b2, b3];
      x := Get28([b0, b1, b2, b3]);
    }

    /** Takes the next token off the ring, unless its end has yet to arrive. */
    method ReadToken() returns (r: Lexed)
      requires Ring() && cons < |hist|
      modifies this`uCons, this`cons
      ensures r == Lex(hist[old(cons)..], m)
      ensures Ring() && cons == old(cons) + if r.Lexed? then r.len else 0
    {
      hide Get28;
      ghost var b := hist[cons..];
      var x := Peek(0);
      if x == 0 {
        Skip(1);
        return Lexed(Stop, 1);
      } else if x < 250 {
        Skip(1);
        return Lexed(Flux(x), 1);
      }
      var avail := Available();
      if x < 255 {
        if avail < 2 {
          return NeedMore;
        }
        Skip(1);
        var low := NextByte();
        return Lexed(Flux(250 + (x as int - 250) * 255 + low as int - 1), 2);
      }
      if avail < 6 {
        return NeedMore;
      }
      var op := Peek(1);
      Skip(2);
      assert b[2..6] == hist[cons..cons + 4];
      if op == FLUXOP_SPACE {
        var n := Read28();
        return Lexed(Space(n), 6);
      } else if op == FLUXOP_ASTABLE {
        var period := Read28();
        return Lexed(if period < MIN_PULSE || period >= m then Invalid else Astable(period), 6);
      } else {
        Skip(4);
        return Lexed(Invalid, 6);
      }
    }

    /* -- The resumable decoder -- */

    /** `*tbuf++ = v`. */
    method Put(at: nat, v: nat)
      requires dmaBuf.Length == RING && at < RING
      modifies dmaBuf, this`out
      ensures out == old(out) + [v]
      ensures dmaBuf[..] == old(dmaBuf[..])[at := v]
    {
      dmaBuf[at] := v;
      out := out + [v];
    }

    /** Plays out an astable region, or the part of it that fits. */
    method PlayAstable(at: nat, nr: nat) returns (n: nat)
      requires Valid() && mode == ModeAstable && 0 < nr && at + nr <= RING
      modifies this`mode, this`ticks, this`out, dmaBuf
      ensures Valid() && n <= nr
      ensures Filled(old(dmaBuf[..]), old(out), dmaBuf[..], out, at, n)
      ensures n < nr ==> mode == ModeIdle
    {
      hide Tail, Decode, Before, DividesTwo32, Wrap32, Filled;
      n := 0;
      ghost var rest, was, done := hist[cons..], dmaBuf[..], out;
      FilledNone(was, done, at);
      while ticks >= astablePeriod
        invariant Valid() && mode == ModeAstable && n < nr
        invariant Filled(was, done, dmaBuf[..], out, at, n)
        decreases ticks
      {
        AstableStep(out, isFinished, badCommand, astablePeriod, ticks, rest, m);
        FilledOne(was, done, dmaBuf[..], out, at, n, astablePeriod - 1);
        Put(at + n, astablePeriod - 1);
        ticks := ticks - astablePeriod;
        n := n + 1;
        if n == nr {
          return;
        }
      }
      AstableDone(astablePeriod, ticks, rest, m);
      mode := ModeIdle;
    }

    /** Plays the last piece of a long one-shot, unless it is too short: then it
        merges into what follows. */
    method FinishOneShot(at: nat) returns (played: bool)
      requires Valid() && mode == ModeOneShot && ticks < m && at < RING
      modifies this`ticks, this`out, dmaBuf
      ensures Valid() && Tail(ModeOneShot, astablePeriod, ticks, hist[cons..], m) == Tail(ModeIdle, astablePeriod, ticks, hist[cons..], m)
      ensures played ==> old(ticks) > 0 && out == old(out) + [old(ticks) - 1] && dmaBuf[..] == old(dmaBuf[..])[at := old(ticks) - 1]
      ensures !played ==> out == old(out) && dmaBuf[..] == old(dmaBuf[..])
    {
      hide Tail, Decode, Before, DividesTwo32, Wrap32;
      ghost var rest := hist[cons..];
      OneShotLast(out, isFinished, badCommand, astablePeriod, ticks, rest, m);
      played := ticks > MIN_PULSE;
      if played {
        Put(at, ticks - 1);
        ticks := 0;
        OneShotLast(out, isFinished, badCommand, astablePeriod, 0, rest, m);
      }
    }

    /** Plays out a one-shot too long for the counter, or the part of it that fits. */
    method PlayOneShot(at: nat, nr: nat) returns (n: nat)
      requires Valid() && mode == ModeOneShot && 0 < nr && at + nr <= RING
      modifies this`mode, this`ticks, this`out, dmaBuf
      ensures Valid() && n <= nr
      ensures Filled(old(dmaBuf[..]), old(out), dmaBuf[..], out, at, n)
      ensures n < nr ==> mode == ModeIdle
    {
      hide Tail, Decode, Before, DividesTwo32, Wrap32, Filled;
      n := 0;
      ghost var rest, was, done := hist[cons..], dmaBuf[..], out;
      FilledNone(was, done, at);
      while ticks >= m
        invariant Valid() && mode == ModeOneShot && n < nr
        invariant Filled(was, done, dmaBuf[..], out, at, n)
        decreases ticks
      {
        OneShotStep(out, isFinished, badCommand, astablePeriod, ticks, rest, m);
        FilledOne(was, done, dmaBuf[..], out, at, n, m - 1);
        Put(at + n, m - 1);
        ticks := ticks - m;
        n := n + 1;
        if n == nr {
          return;
        }
      }
      FilledOne(was, done, dmaBuf[..], out, at, n, if ticks > 0 then ticks - 1 else 0);
      var last := FinishOneShot(at + n);
      if last {
        n := n + 1;
        if n == nr {
          return;
        }
      }
      mode := ModeIdle;
    }

    /** Whether the decoder has nothing to do until more bytes arrive: the next
        token is incomplete and no flux is owed. */
    ghost predicate Starved()
      requires IsCounter(m)
      reads this`cons, this`hist, this`mode
    {
      cons <= |hist| && mode == ModeIdle && Lex(hist[cons..], m) == NeedMore
    }

    lemma NothingUnread()
      requires Ring() && uCons == uProd
      ensures cons == |hist| && Lex(hist[cons..], m) == NeedMore
    {
      WrapDistance(cons, |hist| - cons);
    }

    /** The byte last taken was a NUL, in idle mode. */
    ghost predicate AtNul()
      reads this`mode, this`cons, this`hist
    {
      mode == ModeIdle && 0 < cons <= |hist| && hist[cons - 1] == 0
    }

    lemma NulTaken()
      requires mode == ModeIdle && 0 < cons <= |hist| && hist[cons - 1] == 0
      ensures AtNul()
    {
    }

    /** A flux is due after `ticks`: merge it, defer it to the one-shot mode, or
        report it as a pulse. */
    method TakeFlux() returns (stop: bool, pulse: bool)
      requires Ring() && mode == ModeIdle
      requires Before(out + FluxSamples(ticks, m), isFinished, badCommand, Decode(hist[cons..], FluxCarry(ticks, m), m)) == Decode(hist, 0, m)
      modifies this`mode
      ensures stop ==> !pulse && mode == ModeOneShot
      ensures !stop ==> mode == ModeIdle
      ensures !pulse ==> Valid()
      ensures pulse ==>
        && Ring() && MIN_PULSE <= ticks < m
        && Before(out + [ticks - 1], isFinished, badCommand, Tail(ModeIdle, astablePeriod, 0, hist[cons..], m)) == Decode(hist, 0, m)
    {
      hide Decode, Before, DividesTwo32, Wrap32, SplitSamples, SplitCarry;
      ghost var rest := hist[cons..];
      stop, pulse := false, false;
      assert out + [] == out;
      if ticks < MIN_PULSE {
        TailIdle(astablePeriod, ticks, rest, m);
      } else if ticks >= m {
        mode := ModeOneShot;
        BeforeBefore(out, isFinished, badCommand, SplitSamples(ticks, m), false, false,
                     Decode(rest, SplitCarry(ticks, m), m));
        stop := true;
      } else {
        TailIdle(astablePeriod, 0, rest, m);
        pulse := true;
      }
    }

    /** One round of the decoder's main loop up to the flux it may play: `stop`
        for `goto out`, `pulse` when `ticks` is due as a pulse. */
    method TakeToken() returns (stop: bool, pulse: bool)
      requires Valid() && mode == ModeIdle && cons < |hist|
      modifies this`uCons, this`cons, this`isFinished, this`astablePeriod, this`mode, this`ticks, this`badCommand
      ensures old(cons) <= cons
      ensures old(isFinished) ==> isFinished
      ensures old(badCommand) ==> badCommand
      ensures !stop ==> old(cons) < cons && mode == ModeIdle && isFinished == old(isFinished) && badCommand == old(badCommand)
      ensures stop ==> Starved() || old(cons) < cons
      ensures isFinished && !old(isFinished) ==> AtNul()
      ensures stop ==> !pulse && (Starved() || mode != ModeIdle || (old(cons) < cons && (isFinished || badCommand)))
      ensures !pulse ==> Valid()
      ensures pulse ==>
        && Ring() && MIN_PULSE <= ticks < m
        && Before(out + [ticks - 1], isFinished, badCommand, Tail(ModeIdle, astablePeriod, 0, hist[cons..], m)) == Decode(hist, 0, m)
    {
      hide Decode, Before, DividesTwo32, Wrap32, Lex, Get28, Samples, Carry, Tail, AtNul;
      ghost var unread := hist[cons..];
      var r := ReadToken();
      if r == NeedMore {
        return true, false;
      }
      hide Starved;
      TokenTaken(out, isFinished, badCommand, astablePeriod, ticks, unread, m);
      assert unread[r.len..] == hist[cons..];
      if r.token.Stop? {
        LexStop(unread, m);
        NulTaken();
      } else if r.token.Astable? {
        LexAstable(unread, m);
      }
      stop, pulse := ActOn(r.token);
    }

    /** What a token that has been read makes the decoder do. */
    method ActOn(token: Token) returns (stop: bool, pulse: bool)
      requires Ring() && mode == ModeIdle && (token.Stop? ==> AtNul()) && (token.Astable? ==> MIN_PULSE <= token.p < m)
      requires Before(out + Samples(token, ticks, m), isFinished || token.Stop?, badCommand || token.Invalid?,
                      Decode(hist[cons..], Carry(token, ticks, m), m)) == Decode(hist, 0, m)
      modifies this`isFinished, this`astablePeriod, this`mode, this`ticks, this`badCommand
      ensures isFinished == (old(isFinished) || token.Stop?) && badCommand == (old(badCommand) || token.Invalid?)
      ensures token.Stop? ==> AtNul()
      ensures !stop ==> mode == ModeIdle && !token.Stop? && !token.Invalid?
      ensures stop ==> !pulse && (mode != ModeIdle || token.Stop? || token.Invalid?)
      ensures !pulse ==> Valid()
      ensures pulse ==>
        && Ring() && MIN_PULSE <= ticks < m
        && Before(out + [ticks - 1], isFinished, badCommand, Tail(ModeIdle, astablePeriod, 0, hist[cons..], m)) == Decode(hist, 0, m)
    {
      hide Decode, Before, DividesTwo32, Wrap32, FluxSamples, FluxCarry, Repeat;
      assert out + [] == out;
      match token {
        case Stop =>
          isFinished := true;
          TailIdle(astablePeriod, ticks, hist[cons..], m);
          return true, false;
        case Invalid =>
          badCommand := true;
          TailIdle(astablePeriod, ticks, hist[cons..], m);
          return true, false;
        case Astable(period) =>
          BeforeBefore(out, isFinished, badCommand, Repeat(period - 1, ticks / period), false, false,
                       Decode(hist[cons..], ticks % period, m));
          astablePeriod := period;
          mode := ModeAstable;
          return true, false;
        case Space(n) =>
          ticks := Wrap32(ticks + n);
          TailIdle(astablePeriod, ticks, hist[cons..], m);
          return false, false;
        case Flux(x) =>
          ticks := Wrap32(ticks + x);
          stop, pulse := TakeFlux();
      }
    }

    /** Plays the pulse that TakeToken found due. */
    method PlayPulse(at: nat)
      requires at < RING && Ring() && mode == ModeIdle && MIN_PULSE <= ticks < m
      requires Before(out + [ticks - 1], isFinished, badCommand, Tail(ModeIdle, astablePeriod, 0, hist[cons..], m)) == Decode(hist, 0, m)
      modifies this`ticks, this`out, dmaBuf
      ensures Valid() && out == old(out + [ticks - 1])
      ensures dmaBuf[..] == old(dmaBuf[..][at := ticks - 1])
    {
      hide Tail, Decode, Before, DividesTwo32, Wrap32;
      Put(at, ticks - 1);
      ticks := 0;
    }

    /** Finishes what the last call left suspended, or as much of it as fits. */
    method Resume(at: nat, nr: nat) returns (n: nat)
      requires Valid() && 0 < nr && at + nr <= RING
      modifies this`mode, this`ticks, this`out, dmaBuf
      ensures Valid() && n <= nr
      ensures Filled(old(dmaBuf[..]), old(out), dmaBuf[..], out, at, n)
      ensures n < nr ==> mode == ModeIdle
      ensures old(mode) == ModeIdle ==> n == 0 && out == old(out)
    {
      n := 0;
      FilledNone(dmaBuf[..], out, at);
      if mode == ModeAstable {
        n := PlayAstable(at, nr);
      } else if mode == ModeOneShot {
        n := PlayOneShot(at, nr);
      }
    }

    /** `_wdata_decode_flux`: fills at most `nr` entries from `at`. It stops short
        only for want of input, at a NUL, at an invalid command, or on entering
        an astable region or a long one-shot. */
    method DecodeFlux(at: nat, nr: nat) returns (n: nat)
      requires Valid() && at + nr <= RING
      modifies this`uCons, this`cons, this`isFinished, this`astablePeriod, this`mode, this`ticks,
               this`badCommand, this`out, dmaBuf
      ensures Valid() && n <= nr && old(cons) <= cons
      ensures Filled(old(dmaBuf[..]), old(out), dmaBuf[..], out, at, n)
      ensures old(isFinished) ==> isFinished
      ensures old(badCommand) ==> badCommand
      ensures n < nr ==> Starved() || mode != ModeIdle || (isFinished && old(cons) < cons) || (badCommand && old(cons) < cons)
      ensures n < nr ==> Starved() || old(cons) < cons
      ensures isFinished && !old(isFinished) ==> AtNul()
      ensures old(cons == |hist| && mode == ModeIdle) ==> out == old(out) && cons == old(cons) && mode == ModeIdle
    {
      hide Tail, Decode, Before, DividesTwo32, Wrap32, Lex, Samples, Carry, Filled;
      n := 0;
      ghost var was, done := dmaBuf[..], out;
      FilledNone(was, done, at);
      if nr == 0 {
        return;
      }
      n := Resume(at, nr);
      if n == nr {
        return;
      }
      while uCons != uProd
        invariant Valid() && n < nr && old(cons) <= cons
        invariant mode == ModeIdle   // ASSERT(write.flux_mode == FLUXMODE_idle)
        invariant isFinished == old(isFinished) && badCommand == old(badCommand)
        invariant Filled(was, done, dmaBuf[..], out, at, n)
        invariant old(cons == |hist| && mode == ModeIdle) ==> out == old(out) && cons == old(cons)
        decreases |hist| - cons
      {
        assert cons < |hist|;
        var stop, pulse := TakeToken();
        if stop {
          return;
        }
        if pulse {
          FilledOne(was, done, dmaBuf[..], out, at, n, ticks - 1);
          PlayPulse(at + n);
          n := n + 1;
          if n == nr {
            return;
          }
        }
      }
      NothingUnread();
    }

    /* -- The DMA ring -- */

    /** `wdata_decode_flux`: `ndtr` is the DMA engine's count-down of the entries
        left before its own wrap. The fill never reaches the entry the engine
        fetches next. */
    method FillDmaRing(ndtr: nat)
      requires Valid() && Streaming()
      requires ndtr <= RING && (RING - ndtr) % RING == played % RING
      modifies this`uCons, this`cons, this`isFinished, this`astablePeriod, this`mode, this`ticks,
               this`badCommand, this`out, this`dmaProd, dmaBuf
      ensures Valid() && Streaming() && old(out) <= out && old(cons) <= cons
      ensures old(isFinished) ==> isFinished
      ensures old(badCommand) ==> badCommand
      ensures isFinished && !old(isFinished) ==> AtNul()
      ensures old(cons == |hist| && mode == ModeIdle) ==> out == old(out) && cons == old(cons) && mode == ModeIdle
      ensures |out| % RING != 0 && |out| - played < RING - 1 ==>
                Starved() || mode != ModeIdle || (old(cons) < cons && (isFinished || badCommand))
    {
      hide Filled, Lex, Tail, Decode, Before, DividesTwo32, Wrap32, AtNul;
      ghost var was, done := dmaBuf[..], out;
      var dmaCons := (RING - ndtr) % RING;
      RingRoom(|out|, played);
      var nrToWrap := RING - dmaProd;
      var nrToCons := (dmaCons - dmaProd - 1) % RING;
      assert nrToCons == RING - 1 - (|out| - played);
      var nr := Min(nrToWrap, nrToCons);
      var n := DecodeFlux(dmaProd, nr);
      RingFilled(was, done, dmaBuf[..], out, dmaProd, n, played);
      dmaProd := (dmaProd + n) % RING;
    }

    /** The DMA engine fetches `k` samples that have been placed for it. */
    method HwPlay(k: nat)
      requires Valid() && Streaming() && played + k <= |out|
      modifies this`played
      ensures Valid() && Streaming() && played == old(played) + k
    {
      played := played + k;
    }

    /** What the DMA engine has fetched, over any run so far, is a prefix of the
        one-shot decode of the bytes received followed by any that may come. */
    lemma PlayedIsPrefix(future: seq<Byte>)
      requires Valid() && Streaming()
      ensures out[..played] <= out <= Decode(hist + future, 0, m).samples
      ensures LegalPulses(out, m)
    {
      DoneIsPrefix(out, isFinished, badCommand, mode, astablePeriod, ticks, hist[cons..], hist, future, m);
    }

    /** A starved decoder has produced the whole decode of what it was given, and
        knows exactly whether the end of stream or an invalid command was met. */
    lemma StarvedIsComplete()
      requires Valid() && Starved()
      ensures Decode(hist, 0, m) == Decoded(out, ticks, hist[cons..], isFinished, badCommand)
    {
      var rest := hist[cons..];
      TailIdle(astablePeriod, ticks, rest, m);
      assert Decode(rest, ticks, m) == Decoded([], ticks, rest, false, false);
      assert out + [] == out;
    }

    /* -- Receiving packets -- */

    /** Bytes taken from USB: those in the ring and those waiting for room. */
    ghost function Received(): seq<Byte>
      reads this`hist, this`ready, this`packet
    {
      hist + if ready then packet else []
    }

    /** `floppy_process_write_packet`: `rx` is the endpoint's next packet, if any.
        Returns whether it was taken. */
    method ProcessWritePacket(rx: seq<Byte>, rxReady: bool) returns (taken: bool)
      requires Valid() && |rx| <= RING && (ready ==> |packet| <= RING)
      modifies this`packet, this`ready, this`uProd, this`hist, uBuf
      ensures Valid() && (ready ==> |packet| <= RING)
      ensures taken == (rxReady && !old(ready)) && (!rxReady && !old(ready) ==> !ready)
      ensures Received() == old(Received()) + if taken then rx else []
      ensures old(hist) <= hist
      ensures ready ==> hist == old(hist) && |hist| - cons + |packet| > size
    {
      hide Tail, Decode, Before, DividesTwo32, Wrap32;
      taken := rxReady && !ready;
      if taken {
        packet := rx;
        ready := true;
      }
      if ready {
        var used := Available();
        if size - used >= |packet| {
          StorePacket();
        }
      }
    }

    /** What the last turn has achieved: the DMA ring is filled as far as there is input for
        it, up to its wrap or the next change of mode; as many samples as could be are fetched. */
    ghost predicate LastDone(t: Turn)
      reads this
    {
      && (t.Fill? ==> IsCounter(m))
      && (t.Fill? && |out| % RING != 0 && |out| - played < RING - 1 ==>
            Starved() || mode != ModeIdle || isFinished || badCommand)
      && (t.Fetch? ==> played >= Min(t.k, |out|))
    }

    /** A whole run, of packets that arrive at the endpoint, polls that look for one, output
        space found and samples fetched in any order: what was fetched is a prefix of what
        was decoded, and that of the one-shot decode of all bytes taken. The packets that
        are left at the endpoint are the last; and while all that came fits the ring, every
        poll takes one. */
    method Run(turns: seq<Turn>) returns (left: seq<seq<Byte>>)
      requires Valid() && Streaming() && (ready ==> |packet| <= RING)
      requires forall t :: t in turns && t.Arrive? ==> |t.rx| <= RING
      modifies this, uBuf, dmaBuf
      ensures Valid() && Streaming()
      ensures Received() + Flatten(left) == old(Received()) + Flatten(Arrivals(turns))
      ensures out[..played] <= out <= Decode(Received(), 0, m).samples && LegalPulses(out, m)
      ensures !old(ready) && |old(hist)| - old(cons) + |Flatten(Arrivals(turns))| <= size ==>
          !ready && |left| == Backlog(turns)
      ensures turns != [] ==> LastDone(turns[|turns| - 1])
    {
      hide Tail, Decode, Before, DividesTwo32, Wrap32, Ring, Starved, Valid, Streaming, Flatten, LastDone, Backlog, Arrivals;
      left := [];
      var i := 0;
      ghost var before := Received();
      NoTurns(turns);
      while i < |turns|
        invariant 0 <= i <= |turns| && Valid() && Streaming() && (ready ==> |packet| <= RING)
        invariant forall p :: p in left ==> |p| <= RING
        invariant Received() + Flatten(left) == before + Flatten(Arrivals(turns[..i]))
        invariant old(cons) <= cons
        invariant !old(ready) && |old(hist)| - old(cons) + |Flatten(Arrivals(turns[..i]))| <= size ==>
            !ready && |left| == Backlog(turns[..i])
        invariant i > 0 ==> LastDone(turns[i - 1])
      {
        NextTurn(turns, i);
        assert turns[i] in turns;
        OneArrived(before, Received(), left, Arrivals(turns[..i]), turns[i]);
        left := TakeTurn(turns[i], left);
        i := i + 1;
      }
      assert turns[..i] == turns;
      PlayedIsPrefix(if ready then packet else []);
    }

    /** One turn, with `queue` at the endpoint. */
    method TakeTurn(t: Turn, queue: seq<seq<Byte>>) returns (left: seq<seq<Byte>>)
      requires Valid() && Streaming() && (ready ==> |packet| <= RING) && forall p :: p in queue ==> |p| <= RING
      requires t.Arrive? ==> |t.rx| <= RING
      modifies this, uBuf, dmaBuf
      ensures Valid() && Streaming() && (ready ==> |packet| <= RING) && forall p :: p in left ==> |p| <= RING
      ensures Received() + Flatten(left) == old(Received()) + Flatten(queue + if t.Arrive? then [t.rx] else [])
      ensures !old(ready) && |old(hist)| - old(cons) + |Flatten(queue)| <= size ==>
          !ready && |left| == (match t
            case Arrive(_) => |queue| + 1
            case Poll => if queue == [] then 0 else |queue| - 1
            case _ => |queue|)
      ensures old(cons) <= cons && LastDone(t)
    {
      hide Tail, Decode, Before, DividesTwo32, Wrap32, Ring, Starved, Valid, Streaming, Flatten;
      left := queue;
      assert queue + [] == queue;
      match t {
        case Arrive(rx) =>
          left := queue + [rx];
        case Poll =>
          left := PollOnce(queue);
        case Fill =>
          FillUp();
        case Fetch(k) =>
          FetchSome(k);
      }
    }

    /** A poll with `queue` at the endpoint. */
    method PollOnce(queue: seq<seq<Byte>>) returns (left: seq<seq<Byte>>)
      requires Valid() && Streaming() && (ready ==> |packet| <= RING) && forall p :: p in queue ==> |p| <= RING
      modifies this`packet, this`ready, this`uProd, this`hist, uBuf
      ensures Valid() && Streaming() && (ready ==> |packet| <= RING) && forall p :: p in left ==> |p| <= RING
      ensures Received() + Flatten(left) == old(Received()) + Flatten(queue)
      ensures !old(ready) && |old(hist)| - cons + |Flatten(queue)| <= size ==>
          !ready && |left| == if queue == [] then 0 else |queue| - 1
    {
      hide Tail, Decode, Before, DividesTwo32, Wrap32, Ring, Starved, Valid, Flatten;
      var rx := if queue == [] then [] else queue[0];
      ghost var before := Received();
      var got := ProcessWritePacket(rx, queue != []);
      hide Streaming;
      left := if got then queue[1..] else queue;
      TakenOff(before, Received(), queue, left, rx, got);
    }

    method FillUp()
      requires Valid() && Streaming()
      modifies this`uCons, this`cons, this`isFinished, this`astablePeriod, this`mode, this`ticks,
               this`badCommand, this`out, this`dmaProd, dmaBuf
      ensures Valid() && Streaming() && old(out) <= out && old(cons) <= cons && IsCounter(m)
      ensures |out| % RING != 0 && |out| - played < RING - 1 ==>
                Starved() || mode != ModeIdle || (old(cons) < cons && (isFinished || badCommand))
    {
      hide Tail, Decode, Before, DividesTwo32, Wrap32, Starved, Streaming;
      FillDmaRing(RING - played % RING);
    }

    /** Up to `k` samples are fetched, but none that are not there. */
    method FetchSome(k: nat)
      requires Valid() && Streaming()
      modifies this`played
      ensures Valid() && Streaming() && played == old(played) + Min(k, |out| - old(played))
    {
      hide Tail, Decode, Before, DividesTwo32, Wrap32, Ring, Valid;
      var there := (dmaProd - played % RING) % RING;
      Waiting(|out|, played);
      HwPlay(Min(k, there));
    }

    /** Copies the packet to the ring, in two pieces where the ring wraps. */
    method StorePacket()
      requires Valid() && ready && |hist| - cons + |packet| <= size
      modifies this`ready, this`uProd, this`hist, uBuf
      ensures Valid() && !ready && hist == old(hist) + packet
    {
      hide Tail, Decode, Before, DividesTwo32, Wrap32;
      var n := |packet|;
      MaskWrapped(|hist|, size);
      var p := uProd % size;
      CopyAround(p);
      CopiedIn(old(uBuf[..]), uBuf[..], hist, cons, packet, size);
      WrapAdd(|hist|, n);
      TailExtends(out, isFinished, badCommand, mode, astablePeriod, ticks, hist[cons..], hist, packet, m);
      assert (hist + packet)[cons..] == hist[cons..] + packet;
      uProd := Wrap32(uProd + n);
      hist := hist + packet;
      ready := false;
    }

    /** The packet from slot `p` on, and on from the ring's start where it is too long. */
    method CopyAround(p: nat)
      requires p < uBuf.Length == size && |packet| <= size
      modifies uBuf
      ensures forall k :: 0 <= k < |packet| ==> uBuf[if p + k < size then p + k else p + k - size] == packet[k]
      ensures forall j :: 0 <= j < size && !(p <= j < p + |packet|) && !(j < p + |packet| - size) ==> uBuf[j] == old(uBuf[j])
    {
      var n, l := |packet|, size - p;
      if l < n {
        CopyIn(p, packet[..l]);
        CopyIn(0, packet[l..]);
      } else {
        CopyIn(p, packet);
      }
    }

    /** memcpy into the ring. */
    method CopyIn(p: nat, src: seq<Byte>)
      requires p + |src| <= uBuf.Length
      modifies uBuf
      ensures forall k :: 0 <= k < |src| ==> uBuf[p + k] == src[k]
      ensures forall j :: 0 <= j < uBuf.Length && !(p <= j < p + |src|) ==> uBuf[j] == old(uBuf[j])
    {
      forall k | 0 <= k < |src| {
        uBuf[p + k] := src[k];
      }
    }

    /* -- The write states -- */

    /** The peek of `floppy_write_wait_data`: has the whole stream arrived? */
    method EndSeen() returns (seen: bool)
      requires Valid()
      ensures seen == if cons == |hist| then isFinished else hist[|hist| - 1] == 0
    {
      hide Tail, Decode, Before, DividesTwo32, Wrap32;
      if uProd == uCons {
        NothingUnread();
        seen := isFinished;
      } else {
        seen := NewestIsNul();
      }
    }

    /** `u_buf[U_MASK(u_prod - 1)] == 0`. */
    method NewestIsNul() returns (nul: bool)
      requires Ring() && cons < |hist|
      ensures nul == (hist[|hist| - 1] == 0)
    {
      hide DividesTwo32, Wrap32;
      MaskWrapped(|hist| - 1, size);
      PreviousIndex(|hist|);
      nul := uBuf[Wrap32(uProd - 1) % size] == 0;
    }

    /** For a host stream with no NUL inside and no token cut by its end, the peek
        is right: it says yes exactly when the whole stream has arrived. */
    lemma EndSeenExactly(body: seq<Byte>)
      requires Valid() && hist <= body + [0]
      requires forall i :: 0 <= i < |body| ==> body[i] != 0
      requires Decode(body, 0, m).rest == []
      ensures (if cons == |hist| then isFinished else hist[|hist| - 1] == 0) <==> hist == body + [0]
    {
      hide Lex, Decode, Tail, Before, DividesTwo32, Wrap32, IsCounter;
      if cons == |hist| {
        AllReadStops(out, isFinished, badCommand, mode, astablePeriod, ticks, hist, cons, body, m);
      } else {
        LastByteTellsEnd(body, hist);
      }
    }

    /** `floppy_write_check_underflow`. */
    method CheckUnderflow() returns (under: bool)
      requires Valid()
      ensures cons <= |hist| && under == (cons == |hist| || (|hist| - cons < 16 && hist[|hist| - 1] != 0))
    {
      hide Tail, Decode, Before, DividesTwo32, Wrap32;
      var avail := Available();
      under := avail == 0;
      if !under && avail < 16 {
        var nul := NewestIsNul();
        under := !nul;
      }
    }

    /** Once a well-formed stream has wholly arrived, no underflow is declared
        before its NUL is decoded. */
    lemma NoFalseUnderflow(body: seq<Byte>)
      requires Valid() && hist == body + [0] && !isFinished
      requires forall i :: 0 <= i < |body| ==> body[i] != 0
      requires Decode(body, 0, m).rest == []
      ensures !(cons == |hist| || (|hist| - cons < 16 && hist[|hist| - 1] != 0))
    {
      EndSeenExactly(body);
    }

    /** A packet that finds no room never blocks the write: the decoder has a whole
        token to work on, and if the untouched DMA ring is full as well then the
        start condition of `floppy_write_wait_data` is met. */
    lemma BlockedPacketMeansReady()
      requires Valid() && Streaming() && |packet| <= RING && |hist| - cons + |packet| > size
      requires size >= RING + 6
      ensures !Starved()
      ensures played == 0 && |out| - played == RING - 1 ==> dmaProd == RING - 1 && |hist| - cons >= size - RING
    {
      hide Lex, Tail, Decode, Before, DividesTwo32, Wrap32;
    }

    /** One poll of `floppy_write_wait_data`: returns whether the write may start. */
    method WaitData(rx: seq<Byte>, rxReady: bool, threshold: nat) returns (taken: bool, start: bool)
      requires Valid() && Streaming() && played == 0 && |rx| <= RING && (ready ==> |packet| <= RING)
      modifies this`packet, this`ready, this`uProd, this`hist, uBuf,
               this`uCons, this`cons, this`isFinished, this`astablePeriod, this`mode, this`ticks,
               this`badCommand, this`out, this`dmaProd, dmaBuf
      ensures Valid() && Streaming() && played == 0 && (ready ==> |packet| <= RING)
      ensures Received() == old(Received()) + if taken then rx else []
      ensures old(out) <= out
      ensures start <==> !badCommand && ((dmaProd == RING - 1 && |hist| - cons >= threshold)
                           || (if cons == |hist| then isFinished else hist[|hist| - 1] == 0))
      ensures taken == (rxReady && !old(ready))
      ensures |out| % RING != 0 && |out| - played < RING - 1 ==>
                Starved() || mode != ModeIdle || (old(cons) < cons && (isFinished || badCommand))
    {
      hide Tail, Decode, Before, DividesTwo32, Wrap32, Lex;
      taken := ProcessWritePacket(rx, rxReady);
      FillDmaRing(RING);
      if badCommand {
        return taken, false;
      }
      var finished := EndSeen();
      var avail := Available();
      start := !((dmaProd != RING - 1 || avail < threshold) && !finished);
    }

    /* -- The write itself -- */

    /** One poll of `floppy_write`. */
    method FloppyWrite(rx: seq<Byte>, rxReady: bool, terminateAtIndex: bool, index: bool, looks: seq<Look>)
        returns (taken: bool, end: Progress, ghost at: nat)
      requires Valid() && Streaming() && |rx| <= RING && (ready ==> |packet| <= RING)
      requires forall l :: l in looks ==> l.fetched < RING
      modifies this`packet, this`ready, this`uProd, this`hist, uBuf, this`played,
               this`uCons, this`cons, this`isFinished, this`astablePeriod, this`mode, this`ticks,
               this`badCommand, this`out, this`dmaProd, dmaBuf
      ensures Valid() && Streaming() && (ready ==> |packet| <= RING) && old(hist) <= hist && old(out) <= out
      ensures Received() == (old(Received()) + if taken then rx else []) && taken == (rxReady && !old(ready))
      ensures old(isFinished) ==> isFinished
      ensures isFinished && !old(isFinished) ==> AtNul()
      ensures old(cons == |hist| && mode == ModeIdle) && hist == old(hist) ==> cons == |hist| && mode == ModeIdle
      ensures |out| % RING != 0 && |out| - old(played) < RING - 1 ==>
                Starved() || mode != ModeIdle || (old(cons) < cons && (isFinished || badCommand))
      ensures end == Bad <==> badCommand
      ensures !badCommand && terminateAtIndex && index ==> end == AtIndex && played == old(played)
      ensures end == Writing || end == Underflow <==> !badCommand && !isFinished && !(terminateAtIndex && index)
      ensures end == Writing || end == Underflow ==> played == old(played)
      ensures !badCommand && isFinished && !(terminateAtIndex && index) ==>
          Drained(terminateAtIndex, looks, old(played), |out|, end, at, played)
      ensures end == Underflow ==> cons == |hist| || (|hist| - cons < 16 && hist[|hist| - 1] != 0)
      ensures end == Writing ==> cons < |hist| && (|hist| - cons >= 16 || hist[|hist| - 1] == 0)
      ensures end == Played ==> isFinished && played == |out|
    {
      hide Tail, Decode, Before, DividesTwo32, Wrap32, Lex, Starved, Ring, Valid, AtNul, Fetched;
      at := 0;
      RingIs();
      taken := ProcessWritePacket(rx, rxReady);
      hide Received;
      FillDmaRing(RING - played % RING);
      hide Streaming;
      if badCommand {
        end := Bad;
        return;
      }
      if terminateAtIndex && index {
        end := AtIndex;
        return;
      }
      if !isFinished {
        var under := CheckUnderflow();
        end := if under then Underflow else Writing;
        return;
      }
      end, at := DrainRing(terminateAtIndex, looks);
    }

    lemma RingIs()
      requires Valid()
      ensures cons <= |hist|
    {
      hide Tail, Decode, Before, DividesTwo32, Wrap32;
    }

    /** The end of `floppy_write`: waits for the DMA ring to drain. Up to the first look the
        engine is assumed not to have run past what it was given; it may then, and the
        driver notices that more is left than before. */
    method DrainRing(terminateAtIndex: bool, looks: seq<Look>) returns (end: Progress, ghost at: nat)
      requires Valid() && Streaming() && forall l :: l in looks ==> l.fetched < RING
      modifies this`played
      ensures Valid() && Streaming()
      ensures Drained(terminateAtIndex, looks, old(played), |out|, end, at, played)
    {
      hide Tail, Decode, Before, DividesTwo32, Wrap32, Ring, Valid, Fetched;
      var there := (dmaProd - played % RING) % RING;
      Waiting(|out|, played);
      var f, todo, i := played, 0xffff, 0;
      FetchedNone(looks);
      while i < |looks|
        invariant 0 <= i <= |looks| && Valid() && Streaming() && played == old(played) <= f
        invariant f == old(played) + Fetched(looks[..i])
        invariant i == 0 ==> f <= |out| && todo == 0xffff
        invariant i > 0 ==> f < |out| && todo == |out| - f
        invariant forall j :: 0 < j <= i ==> old(played) + Fetched(looks[..j]) < |out|
        invariant forall j :: 0 <= j < i ==> !(terminateAtIndex && looks[j].index)
      {
        assert looks[i] in looks;
        if terminateAtIndex && looks[i].index {
          HwPlay(f - played);
          return AtIndex, i;
        }
        FetchedNext(looks, i);
        var prev := todo;
        f := f + if i == 0 then Min(looks[0].fetched, there) else looks[i].fetched;
        TodoIs(|out|, f);
        todo := (dmaProd - f % RING) % RING;
        if !(todo != 0 && todo <= prev) {
          HwPlay(there);
          return Played, i;
        }
        i := i + 1;
      }
      HwPlay(f - played);
      end, at := Emptying, i;
    }

    /** The bytes received are those of a host's stream, so far, and it is known to have
        ended only with all of it decoded. */
    ghost predicate Follows(body: seq<Byte>)
      reads this
    {
      && Received() <= body + [0]
      && (isFinished ==> hist == body + [0] && cons == |hist| && mode == ModeIdle)
    }

    /** A whole write of a well-formed stream that comes in packets, poll by poll, until it
        ends or its script does: if it ends well, and not at an index pulse, the engine has
        fetched every sample of the stream's one-shot decode; and it never underflows with
        all of the stream received. */
    method WriteStream(polls: seq<WritePoll>, terminateAtIndex: bool, packets: seq<seq<Byte>>, ghost body: seq<Byte>)
        returns (end: Progress, left: seq<seq<Byte>>, ghost n: nat, ghost at: nat)
      requires Valid() && Streaming() && (ready ==> |packet| <= RING) && Follows(body)
      requires forall p :: p in packets ==> |p| <= RING
      requires forall p :: p in polls ==> forall l :: l in p.looks ==> l.fetched < RING
      requires Received() + Flatten(packets) == body + [0]
      requires forall i :: 0 <= i < |body| ==> body[i] != 0
      requires Decode(body, 0, m).rest == []
      modifies this`packet, this`ready, this`uProd, this`hist, uBuf, this`played,
               this`uCons, this`cons, this`isFinished, this`astablePeriod, this`mode, this`ticks,
               this`badCommand, this`out, this`dmaProd, dmaBuf
      ensures Valid() && Streaming() && Follows(body) && Received() + Flatten(left) == body + [0]
      ensures end == Played ==> out[..played] == Decode(body + [0], 0, m).samples && LegalPulses(out, m)
      ensures end == Underflow ==> hist != body + [0]
      ensures if terminateAtIndex then IndexAccount(polls, n, end, at) else end != AtIndex && n <= |polls|
    {
      hide Tail, Decode, Before, DividesTwo32, Wrap32, Lex, Starved, Ring, Valid, Streaming, Flatten, Follows, LegalPulses, IndexSeen;
      left, end := packets, Writing;
      n, at := 0, 0;
      var i := 0;
      while i < |polls| && end == Writing
        invariant 0 <= i <= |polls| && n == i && Valid() && Streaming() && (ready ==> |packet| <= RING) && Follows(body)
        invariant forall p :: p in left ==> |p| <= RING
        invariant Received() + Flatten(left) == body + [0]
        invariant end == Played ==> isFinished && played == |out|
        invariant end == Underflow ==> hist != body + [0]
        invariant if terminateAtIndex then IndexAccount(polls, n, end, at) else end != AtIndex
      {
        assert polls[i] in polls;
        if terminateAtIndex && i > 0 {
          SeenNone(polls[i - 1], at);
        }
        end, left, at := WriteTurn(polls[i], terminateAtIndex, left, body);
        i := i + 1;
        n := n + 1;
      }
      if end == Played {
        FinishedIsComplete(body);
      }
    }

    /** One poll of a whole write, with `queue` at the endpoint. */
    method WriteTurn(p: WritePoll, terminateAtIndex: bool, queue: seq<seq<Byte>>, ghost body: seq<Byte>)
        returns (end: Progress, left: seq<seq<Byte>>, ghost at: nat)
      requires Valid() && Streaming() && (ready ==> |packet| <= RING) && Follows(body)
      requires (forall q :: q in queue ==> |q| <= RING) && forall l :: l in p.looks ==> l.fetched < RING
      requires Received() + Flatten(queue) == body + [0]
      requires (forall i :: 0 <= i < |body| ==> body[i] != 0) && Decode(body, 0, m).rest == []
      modifies this`packet, this`ready, this`uProd, this`hist, uBuf, this`played,
               this`uCons, this`cons, this`isFinished, this`astablePeriod, this`mode, this`ticks,
               this`badCommand, this`out, this`dmaProd, dmaBuf
      ensures Valid() && Streaming() && (ready ==> |packet| <= RING) && Follows(body)
      ensures (forall q :: q in left ==> |q| <= RING) && Received() + Flatten(left) == body + [0]
      ensures end == Played ==> isFinished && played == |out|
      ensures end == Underflow ==> hist != body + [0]
      ensures if terminateAtIndex then IndexSeen(p, end, at) else end != AtIndex
    {
      hide Tail, Decode, Before, DividesTwo32, Wrap32, Lex, Starved, Ring, Valid, Streaming, Flatten, AtNul, Fetched;
      FetchSome(p.fetched);
      var rx := if queue == [] then [] else queue[0];
      ghost var before, was := Received(), hist;
      ghost var finished, idle := isFinished, cons == |hist| && mode == ModeIdle;
      var taken;
      taken, end, at := FloppyWrite(rx, p.rxReady && queue != [], terminateAtIndex, p.index, p.looks);
      left := if taken then queue[1..] else queue;
      TakenOff(before, Received(), queue, left, rx, taken);
      StillFollows(body, was, finished, idle);
      if end == Underflow && hist == body + [0] {
        NoFalseUnderflow(body);
        assert false;
      }
    }

    lemma StillFollows(body: seq<Byte>, was: seq<Byte>, finished: bool, idle: bool)
      requires Received() <= body + [0] && was <= hist && (forall i :: 0 <= i < |body| ==> body[i] != 0)
      requires finished ==> was == body + [0] && idle
      requires idle && |was| == |hist| ==> cons == |hist| && mode == ModeIdle
      requires isFinished && !finished ==> AtNul()
      ensures Follows(body)
    {
      assert hist <= Received();
    }

    lemma FinishedIsComplete(body: seq<Byte>)
      requires Valid() && Streaming() && Follows(body) && isFinished
      ensures out == Decode(body + [0], 0, m).samples && LegalPulses(out, m)
    {
      hide Tail, Decode, Before, DividesTwo32, Wrap32, LegalPulses;
      EmptyNeedsMore(hist[cons..], m);
      StarvedIsComplete();
      PlayedIsPrefix([]);
    }

    /** One poll of `floppy_write_drain`: the rest of the stream is decoded into a
        DMA buffer no longer played, up to its NUL; then the status is sent. */
    method WriteDrain(rx: seq<Byte>, rxReady: bool, txReady: bool) returns (taken: bool, acked: bool)
      requires Valid() && |rx| <= RING && (ready ==> |packet| <= RING)
      modifies this`packet, this`ready, this`uProd, this`hist, uBuf,
               this`uCons, this`cons, this`isFinished, this`astablePeriod, this`mode, this`ticks,
               this`badCommand, this`out, dmaBuf
      ensures Valid() && (ready ==> |packet| <= RING)
      ensures Received() == old(Received()) + if taken then rx else []
      ensures acked == (old(isFinished) && txReady)
      ensures taken == (rxReady && !old(ready) && !old(isFinished))
      ensures old(isFinished) ==> !taken && hist == old(hist) && cons == old(cons) && isFinished
      ensures old(out) <= out && |out| <= |old(out)| + RING && old(cons) <= cons
      ensures !old(isFinished) ==> |out| == |old(out)| + RING || old(cons) < cons || Starved()
      ensures !rxReady && !old(ready) ==> hist == old(hist) && !ready
    {
      hide Tail, Decode, Before, DividesTwo32, Wrap32, Lex, Filled, Starved, Ring;
      taken := false;
      if !isFinished {
        taken := ProcessWritePacket(rx, rxReady);
        ghost var was, done := dmaBuf[..], out;
        var n := DecodeFlux(0, RING);
        FilledGrows(was, done, dmaBuf[..], out, 0, n);
        return taken, false;
      }
      acked := txReady;
    }

    /** The drain of a stream that has wholly arrived: after as many polls as there are
        bytes and samples left, and one more, it has been decoded to its end and the
        status is sent. */
    method DrainAll(polls: nat) returns (acked: bool)
      requires Valid() && !ready && Decode(hist, 0, m).stopped
      requires polls > |Decode(hist, 0, m).samples| - |out| + |hist| - cons + 1
      modifies this`packet, this`ready, this`uProd, this`hist, uBuf,
               this`uCons, this`cons, this`isFinished, this`astablePeriod, this`mode, this`ticks,
               this`badCommand, this`out, dmaBuf
      ensures Valid() && hist == old(hist) && acked && isFinished
      ensures out <= Decode(hist, 0, m).samples && old(out) <= out
    {
      hide Tail, Decode, Before, DividesTwo32, Wrap32, Lex, Starved, Ring;
      acked := false;
      var i := 0;
      while i < polls
        invariant 0 <= i <= polls && Valid() && !ready && hist == old(hist) && old(out) <= out
        invariant !isFinished ==> |out| + cons >= |old(out)| + old(cons) + i
        invariant !acked ==> |out| + cons + 1 >= |old(out)| + old(cons) + i
        invariant acked ==> isFinished
      {
        ghost var wasFinished := isFinished;
        var _, done := WriteDrain([], false, true);
        acked := done;
        if !wasFinished && !isFinished {
          NotStarved();
        }
        i := i + 1;
      }
      OutWithin();
    }

    lemma OutWithin()
      requires Valid()
      ensures cons <= |hist| && out <= Decode(hist, 0, m).samples
    {
      hide Tail, Decode, Before, DividesTwo32, Wrap32, Lex, Starved;
      assert hist + [] == hist;
      DoneIsPrefix(out, isFinished, badCommand, mode, astablePeriod, ticks, hist[cons..], hist, [], m);
    }

    /** Before its end, a decoder with all of a closed stream has something to do. */
    lemma NotStarved()
      requires Valid() && !isFinished && Decode(hist, 0, m).stopped
      ensures !Starved()
    {
      hide Tail, Decode, Before, DividesTwo32, Wrap32, Lex, Starved;
      if Starved() {
        StarvedIsComplete();
        assert false;
      }
    }
  }
}
