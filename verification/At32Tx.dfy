/** Transmission through a double-buffered AT32 endpoint: the thread in usbd_write,
    the interrupt handler and the hardware, step by step and in any order. */
module At32Tx {
  import opened Words
  import opened At32Ring

  /** The endpoint. `written` and `sent` record what usbd_write was given and what
      left on the wire, `taken` how many packets have left the software ring. */
  datatype State = State(
    ring: Pair, bufc: U16, bufp: U16, kick: bool, slots: U32,
    hw: Pair, dtog: bool, swBuf: bool, ctr: bool,
    thread: Thread, half: bool,
    written: seq<Packet>, sent: seq<Packet>, taken: nat)

  /** One atomic step of one of the three. */
  datatype Event =
    | Copy(p: Packet)   // usbd_write: data into the ring
    | Publish           // usbd_write: bufp++
    | Look              // usbd_write: the unmasked test of `kick`
    | Kick              // usbd_write: masked; up to the SW_BUF toggle
    | KickStuff         // usbd_write: the rest of the handler; unmask
    | Irq               // the interrupt, up to the SW_BUF toggle
    | IrqStuff          // the interrupt, its rest
    | Transmit          // hardware sends the buffer DTOG names

  /** usbd_configure_ep for an IN endpoint. */
  predicate Init(s: State) {
    && s.bufc == 0 && s.bufp == 0 && s.kick && s.slots == 0
    && s.dtog == s.swBuf && !s.ctr && s.thread == Idle && !s.half
    && s.written == [] && s.sent == [] && s.taken == 0
  }

  /** usbd_ep_tx_ready. */
  predicate TxReady(s: State) { Wrap16(s.bufp - s.bufc) < NBUF }

  /* ---- The code -------------------------------------------------------------- */

  /** stuff_dblbuf_tx_packet. */
  function Stuff(s: State): (t: State)
  {
    s.(hw := s.hw[Buffer(s.swBuf) := s.ring[Slot(s.bufc)]],
       bufc := Wrap16(s.bufc + 1), slots := Wrap32(s.slots + 1), taken := s.taken + 1)
  }

  /** handle_dblbuf_tx_transfer up to and including the toggle of SW_BUF. */
  function FirstHalf(s: State): (t: State)
  {
    var kick := s.bufc == s.bufp && s.slots == 0;
    var s1 := s.(kick := kick);
    if kick then s1
    else
      var s2 := if s1.slots == 0 then Stuff(s1) else s1;
      s2.(swBuf := !s2.swBuf)
  }

  /** The rest of handle_dblbuf_tx_transfer. */
  function SecondHalf(s: State): (t: State)
  {
    if s.slots == 1 && s.bufc != s.bufp then Stuff(s) else s
  }

  /** Whether the step can be taken: the thread waits while the interrupt handler
      runs, the handler does not run while masked or already running, and the
      hardware sends unless DTOG equals SW_BUF. */
  predicate Enabled(s: State, e: Event) {
    match e
    case Copy(p) => s.thread == Idle && !s.half && TxReady(s)
    case Publish => s.thread.Copied? && !s.half
    case Look => s.thread == Advanced && !s.half
    case Kick => s.thread == Seen && !s.half
    case KickStuff => s.thread == Kicking
    case Irq => s.ctr && !s.half && s.thread != Kicking
    case IrqStuff => s.half
    case Transmit => s.dtog != s.swBuf
  }

  function Next(s: State, e: Event): (t: State)
    requires Enabled(s, e)
  {
    match e
    case Copy(p) => s.(ring := s.ring[Slot(s.bufp) := p], thread := Copied(p))
    case Publish => s.(bufp := Wrap16(s.bufp + 1), thread := Advanced, written := s.written + [s.thread.p])
    case Look => s.(thread := if s.kick then Seen else Idle)
    case Kick =>
      if s.kick then
        var t := FirstHalf(s);
        t.(thread := if t.kick then Idle else Kicking)
      else s.(thread := Idle)
    case KickStuff => SecondHalf(s).(thread := Idle)
    case Irq =>
      var t := FirstHalf(s.(slots := Wrap32(s.slots - 1), ctr := false));
      t.(half := !t.kick)
    case IrqStuff => SecondHalf(s).(half := false)
    case Transmit => s.(sent := s.sent + [s.hw[Buffer(s.dtog)]], dtog := !s.dtog, ctr := true)
  }

  /* ---- The invariant ----------------------------------------------------------- */

  predicate InFlight(s: State) { s.dtog != s.swBuf }

  /** Inside the handler, past the toggle. */
  predicate Midway(s: State) { s.half || s.thread == Kicking }

  /** What the hardware buffers hold and have still to send. */
  function Unsent(s: State): seq<Packet>
  {
    (if InFlight(s) then [s.hw[Buffer(s.dtog)]] else [])
    + (if s.slots == 2 then [s.hw[Buffer(s.swBuf)]] else [])
  }

  /** The software ring holds the packets written and not yet taken. */
  predicate Queue(ring: Pair, bufc: U16, taken: nat, bufp: U16, written: seq<Packet>)
  {
    && taken <= |written| <= taken + NBUF
    && Counts(bufc, taken) && Counts(bufp, |written|)
    && forall i :: taken <= i < |written| ==> ring[Slot(i)] == written[i]
  }

  /** A packet being written is in the slot that the index is about to pass. */
  predicate Arriving(s: State)
  {
    s.thread.Copied? ==> |s.written| < s.taken + NBUF && s.ring[Slot(|s.written|)] == s.thread.p
  }

  /** `kick` tells an empty pipeline, and every filled slot is either in flight or
      announced by a pending CTR. */
  predicate SlotsOk(s: State) {
    && s.slots <= 2
    && (s.kick <==> s.slots == 0)
    && (s.slots == 0 ==> !InFlight(s) && !s.ctr)
    && (s.slots > 0 ==> (s.ctr <==> !InFlight(s)))
    && (Midway(s) ==> s.slots == 1)
    && !(s.half && s.thread == Kicking)
    && (s.kick && s.taken < |s.written| ==> s.thread == Advanced || s.thread == Seen)
  }

  predicate Conserved(s: State)
  {
    s.taken <= |s.written| && s.written[..s.taken] == s.sent + Unsent(s)
  }

  predicate Inv(s: State) {
    && Queue(s.ring, s.bufc, s.taken, s.bufp, s.written)
    && Arriving(s) && SlotsOk(s) && Conserved(s)
  }

  lemma InitInv(s: State)
    requires Init(s)
    ensures Inv(s)
  {
  }

  lemma QueueTake(ring: Pair, bufc: U16, taken: nat, bufp: U16, written: seq<Packet>)
    requires Queue(ring, bufc, taken, bufp, written) && taken < |written|
    ensures Queue(ring, Wrap16(bufc + 1), taken + 1, bufp, written)
    ensures ring[Slot(bufc)] == written[taken]
    ensures written[..taken + 1] == written[..taken] + [written[taken]]
  {
    hide Counts, Wrap16;
    CountsNext(bufc, taken);
    CountsSlot(bufc, taken);
  }

  lemma QueueCopy(ring: Pair, bufc: U16, taken: nat, bufp: U16, written: seq<Packet>, p: Packet)
    requires Queue(ring, bufc, taken, bufp, written) && |written| < taken + NBUF
    ensures var r := ring[Slot(bufp) := p];
            Queue(r, bufc, taken, bufp, written) && r[Slot(|written|)] == p
  {
    hide Counts;
    CountsSlot(bufp, |written|);
    if taken < |written| {
      Neighbours(taken);
    }
  }

  lemma QueuePublish(ring: Pair, bufc: U16, taken: nat, bufp: U16, written: seq<Packet>, p: Packet)
    requires Queue(ring, bufc, taken, bufp, written) && |written| < taken + NBUF
    requires ring[Slot(|written|)] == p
    ensures Queue(ring, bufc, taken, Wrap16(bufp + 1), written + [p])
  {
    hide Counts, Wrap16, Slot;
    CountsNext(bufp, |written|);
  }

  /** The tests on the wrapped indexes say what they mean. */
  lemma QueueTests(ring: Pair, bufc: U16, taken: nat, bufp: U16, written: seq<Packet>)
    requires Queue(ring, bufc, taken, bufp, written)
    ensures bufc == bufp <==> taken == |written|
    ensures Wrap16(bufp - bufc) == |written| - taken
  {
    CountsCompare(bufc, taken, bufp, |written|);
  }

  /* ---- Every step keeps it ------------------------------------------------------ */

  lemma CopyKeeps(s: State, p: Packet)
    requires Inv(s) && Enabled(s, Copy(p))
    ensures Inv(Next(s, Copy(p)))
  {
    hide Queue, Wrap16, Slot;
    QueueTests(s.ring, s.bufc, s.taken, s.bufp, s.written);
    QueueBounds(s.ring, s.bufc, s.taken, s.bufp, s.written);
    QueueCopy(s.ring, s.bufc, s.taken, s.bufp, s.written, p);
    assert Unsent(Next(s, Copy(p))) == Unsent(s);
  }

  lemma QueueBounds(ring: Pair, bufc: U16, taken: nat, bufp: U16, written: seq<Packet>)
    requires Queue(ring, bufc, taken, bufp, written)
    ensures taken <= |written| <= taken + NBUF
  {
  }

  lemma PublishKeeps(s: State)
    requires Inv(s) && Enabled(s, Publish)
    ensures Inv(Next(s, Publish))
  {
    hide Queue, Wrap16, Slot;
    QueueBounds(s.ring, s.bufc, s.taken, s.bufp, s.written);
    QueuePublish(s.ring, s.bufc, s.taken, s.bufp, s.written, s.thread.p);
    var t := Next(s, Publish);
    assert Unsent(t) == Unsent(s);
    assert t.written[..t.taken] == s.written[..s.taken];
  }

  /** The first half of the handler, entered with nothing in flight and no CTR. */
  lemma FirstHalfKeeps(s: State)
    requires Queue(s.ring, s.bufc, s.taken, s.bufp, s.written) && s.taken <= |s.written|
    requires !InFlight(s) && !s.ctr && s.slots <= 1
    requires s.written[..s.taken] == s.sent + if s.slots == 1 then [s.hw[Buffer(s.swBuf)]] else []
    ensures var t := FirstHalf(s);
            && Queue(t.ring, t.bufc, t.taken, t.bufp, t.written) && Conserved(t)
            && t.thread == s.thread && t.half == s.half && !t.ctr
            && t.ring == s.ring && t.written == s.written && t.taken >= s.taken
            && (t.kick <==> t.slots == 0) && (t.kick ==> t.taken == |t.written| && !InFlight(t))
            && (!t.kick ==> t.slots == 1 && InFlight(t))
  {
    hide Queue, Wrap16, Slot;
    QueueTests(s.ring, s.bufc, s.taken, s.bufp, s.written);
    QueueBounds(s.ring, s.bufc, s.taken, s.bufp, s.written);
    if s.slots == 0 && s.taken < |s.written| {
      QueueTake(s.ring, s.bufc, s.taken, s.bufp, s.written);
    }
  }

  /** The second half fills the buffer the hardware is not looking at, whether or not
      the hardware has finished with the other one meanwhile. */
  lemma SecondHalfKeeps(s: State)
    requires Inv(s) && Midway(s)
    ensures var t := SecondHalf(s);
            && Queue(t.ring, t.bufc, t.taken, t.bufp, t.written) && Conserved(t)
            && t.thread == s.thread && t.half == s.half && t.ctr == s.ctr && InFlight(t) == InFlight(s)
            && t.ring == s.ring && t.written == s.written && t.taken >= s.taken
            && !t.kick && 1 <= t.slots <= 2
  {
    hide Queue, Wrap16, Slot, Arriving;
    QueueTests(s.ring, s.bufc, s.taken, s.bufp, s.written);
    QueueBounds(s.ring, s.bufc, s.taken, s.bufp, s.written);
    if s.taken < |s.written| {
      QueueTake(s.ring, s.bufc, s.taken, s.bufp, s.written);
      assert Unsent(SecondHalf(s)) == Unsent(s) + [s.written[s.taken]];
    }
  }

  /** What double buffering is for: when the handler is done, either both hardware slots
      are filled or there is nothing left to fill them with. */
  lemma PipelineFull(s: State, e: Event)
    requires Inv(s) && Enabled(s, e) && (e == KickStuff || e == IrqStuff)
    ensures var t := Next(s, e); t.slots == NBUF || t.taken == |t.written|
    ensures Next(s, e).written == s.written
  {
    hide Queue, Slot, Arriving;
    QueueTests(s.ring, s.bufc, s.taken, s.bufp, s.written);
  }

  lemma KickKeeps(s: State)
    requires Inv(s) && Enabled(s, Kick)
    ensures Inv(Next(s, Kick))
  {
    hide Queue, FirstHalf, Slot;
    if s.kick {
      assert Unsent(s) == [];
      FirstHalfKeeps(s);
      var f, t := FirstHalf(s), Next(s, Kick);
      assert Unsent(t) == Unsent(f);
    } else {
      assert Unsent(Next(s, Kick)) == Unsent(s);
    }
  }

  lemma IrqKeeps(s: State)
    requires Inv(s) && Enabled(s, Irq)
    ensures Inv(Next(s, Irq))
  {
    hide Queue, FirstHalf, Slot;
    var b := s.(slots := Wrap32(s.slots - 1), ctr := false);
    assert Unsent(s) == if b.slots == 1 then [s.hw[Buffer(s.swBuf)]] else [];
    FirstHalfKeeps(b);
    var f, t := FirstHalf(b), Next(s, Irq);
    assert Unsent(t) == Unsent(f);
  }

  lemma StuffKeeps(s: State, e: Event)
    requires Inv(s) && Enabled(s, e) && (e == KickStuff || e == IrqStuff)
    ensures Inv(Next(s, e))
  {
    hide Queue, SecondHalf, Slot;
    SecondHalfKeeps(s);
    var f, t := SecondHalf(s), Next(s, e);
    assert Unsent(t) == Unsent(f);
  }

  lemma TransmitKeeps(s: State)
    requires Inv(s) && Enabled(s, Transmit)
    ensures Inv(Next(s, Transmit))
  {
    hide Queue, Slot;
    var t := Next(s, Transmit);
    assert Unsent(s) == [s.hw[Buffer(s.dtog)]] + Unsent(t);
  }

  lemma StepKeeps(s: State, e: Event)
    requires Inv(s) && Enabled(s, e)
    ensures Inv(Next(s, e))
  {
    hide *;
    match e
    case Copy(p) => CopyKeeps(s, p);
    case Publish => PublishKeeps(s);
    case Look => LookKeeps(s);
    case Kick => KickKeeps(s);
    case KickStuff => StuffKeeps(s, e);
    case Irq => IrqKeeps(s);
    case IrqStuff => StuffKeeps(s, e);
    case Transmit => TransmitKeeps(s);
  }

  lemma LookKeeps(s: State)
    requires Inv(s) && Enabled(s, Look)
    ensures Inv(Next(s, Look))
  {
    hide Queue, Slot;
    assert Unsent(Next(s, Look)) == Unsent(s);
  }

  /* ---- Runs ------------------------------------------------------------------------ */

  /** The states an endpoint can reach: any enabled steps in any order. */
  predicate Run(s: State, es: seq<Event>, t: State)
    decreases |es|
  {
    if es == [] then s == t
    else Enabled(s, es[0]) && Run(Next(s, es[0]), es[1..], t)
  }

  lemma {:induction false} RunKeeps(s: State, es: seq<Event>, t: State)
    requires Inv(s) && Run(s, es, t)
    ensures Inv(t)
    decreases |es|
  {
    hide Inv, Next, Enabled;
    if es != [] {
      StepKeeps(s, es[0]);
      RunKeeps(Next(s, es[0]), es[1..], t);
    }
  }

  /** The packets given to usbd_write, in the order of the calls. */
  function Given(es: seq<Event>): seq<Packet>
    decreases |es|
  {
    if es == [] then []
    else (if es[0].Copy? then [es[0].p] else []) + Given(es[1..])
  }

  function Written(s: State): seq<Packet> {
    s.written + if s.thread.Copied? then [s.thread.p] else []
  }

  lemma StepGiven(s: State, e: Event)
    requires Enabled(s, e)
    ensures Written(Next(s, e)) == Written(s) + Given([e])
  {
    hide Slot, Wrap16;
  }

  lemma {:induction false} RunGiven(s: State, es: seq<Event>, t: State)
    requires Run(s, es, t)
    ensures Written(t) == Written(s) + Given(es)
    decreases |es|
  {
    hide Next, Enabled, Written;
    if es != [] {
      StepGiven(s, es[0]);
      RunGiven(Next(s, es[0]), es[1..], t);
    }
  }

  /** In every interleaving, what has left is a prefix of what was given, in order;
      at most two packets wait in software and at most two in hardware; and an
      interrupt always finds a filled slot to release. */
  lemma InOrder(s: State, es: seq<Event>, t: State)
    requires Init(s) && Run(s, es, t)
    ensures t.sent <= Given(es)
    ensures |Given(es)| <= |t.sent| + 2 * NBUF
    ensures Wrap16(t.bufp - t.bufc) <= NBUF && t.slots <= NBUF
    ensures t.ctr ==> t.slots > 0
  {
    hide Next, Enabled, Slot, Wrap16;
    InitInv(s);
    RunKeeps(s, es, t);
    RunGiven(s, es, t);
    hide Run, Given;
    QueueTests(t.ring, t.bufc, t.taken, t.bufp, t.written);
    assert t.sent <= t.written[..t.taken] <= t.written <= Written(t);
  }

  /** No wake-up is lost: outside usbd_write and the handler, a packet that has not
      left means that one is in flight or that its interrupt is pending. */
  lemma NoLostWakeUp(s: State, es: seq<Event>, t: State)
    requires Init(s) && Run(s, es, t) && t.thread == Idle && !t.half
    ensures t.sent != Given(es) ==> InFlight(t) || t.ctr
    ensures InFlight(t) ==> Enabled(t, Transmit)
    ensures t.ctr ==> Enabled(t, Irq)
  {
    hide Next, Slot, Queue;
    InitInv(s);
    RunKeeps(s, es, t);
    RunGiven(s, es, t);
    QueueBounds(t.ring, t.bufc, t.taken, t.bufp, t.written);
    if t.slots == 0 {
      assert t.taken == |t.written| && Unsent(t) == [] && t.written[..t.taken] == t.written;
    }
  }

  /** Steps that need no further call of usbd_write. */
  predicate Own(e: Event) { e.Transmit? || e.Irq? || e.IrqStuff? }

  /** Bounds the steps the interrupt and the hardware can still take by themselves. */
  function Work(s: State): int {
    3 * (|s.written| - |s.sent|) + (if s.ctr then 2 else 0) + if s.half then 1 else 0
  }

  /** Left alone after any run, interrupt and hardware cannot stop before every packet
      has left. */
  lemma Drains(s: State, es: seq<Event>, t: State)
    requires Init(s) && Run(s, es, t) && t.thread == Idle && t.sent != Given(es)
    ensures Enabled(t, Transmit) || Enabled(t, Irq) || Enabled(t, IrqStuff)
  {
    hide Slot, Queue, Next, Inv;
    if !t.half {
      NoLostWakeUp(s, es, t);
    }
  }

  /** And each such step leaves less to do. */
  lemma OwnStepsEnd(s: State, es: seq<Event>, t: State, e: Event)
    requires Init(s) && Run(s, es, t) && Own(e) && Enabled(t, e)
    ensures 0 <= Work(Next(t, e)) < Work(t) && Next(t, e).thread == t.thread
  {
    hide Slot, Queue, Wrap16;
    InitInv(s);
    RunKeeps(s, es, t);
    StepKeeps(t, e);
    WorkBound(Next(t, e));
  }

  lemma WorkBound(s: State)
    requires Inv(s)
    ensures Work(s) >= 0
  {
    hide Slot, Queue;
    assert |s.written[..s.taken]| == |s.sent| + |Unsent(s)|;
  }

  /* ---- The driver's own state --------------------------------------------------------- */

  /** The endpoint as the firmware stores it, with the endpoint register's bits. */
  class Endpoint {
    const ring: array<Packet>     // tx_buf[]
    const hw: array<Packet>       // packet memory at addr_0 and addr_1
    var bufc: U16
    var bufp: U16
    var kick: bool
    var txHwSlots: U32
    var dtog: bool
    var swBuf: bool
    var ctr: bool

    ghost var thread: Thread
    ghost var half: bool
    ghost var written: seq<Packet>
    ghost var sent: seq<Packet>
    ghost var taken: nat

    ghost predicate Placed() {
      ring != hw && ring.Length == NBUF && hw.Length == NBUF
    }

    ghost function View(): (s: State)
      requires Placed()
      reads this, ring, hw
    {
      State(ring[..], bufc, bufp, kick, txHwSlots, hw[..], dtog, swBuf, ctr, thread, half, written, sent, taken)
    }

    ghost predicate Valid()
      reads this, ring, hw
    {
      Placed() && Inv(View())
    }

    /** usbd_configure_ep. */
    constructor ()
      ensures Valid() && Init(View()) && fresh(ring) && fresh(hw)
    {
      ring, hw := new Packet[NBUF](_ => []), new Packet[NBUF](_ => []);
      bufc, bufp, kick, txHwSlots, dtog, swBuf, ctr := 0, 0, true, 0, false, false, false;
      thread, half, written, sent, taken := Idle, false, [], [], 0;
      new;
      InitInv(View());
    }

    /** usbd_ep_tx_ready: exactly when the software ring has a free entry. */
    method EpTxReady() returns (ready: bool)
      requires Valid()
      ensures ready == TxReady(View()) && (ready <==> |written| - taken < NBUF)
    {
      QueueTests(ring[..], bufc, taken, bufp, written);
      ready := Wrap16(bufp - bufc) < NBUF;
    }

    method StuffDblbufTxPacket()
      requires Placed()
      modifies this, hw
      ensures View() == Stuff(old(View()))
    {
      hw[Buffer(swBuf)] := ring[Slot(bufc)];
      bufc := Wrap16(bufc + 1);
      txHwSlots := Wrap32(txHwSlots + 1);
      taken := taken + 1;
    }

    method ToggleSwBuf()
      requires Placed()
      modifies this, hw
      ensures View() == FirstHalf(old(View()))
    {
      kick := bufc == bufp && txHwSlots == 0;
      if kick {
        return;
      }
      if txHwSlots == 0 {
        StuffDblbufTxPacket();
      }
      swBuf := !swBuf;
    }

    method TopUp()
      requires Placed()
      modifies this, hw
      ensures View() == SecondHalf(old(View()))
    {
      if txHwSlots == 1 && bufc != bufp {
        StuffDblbufTxPacket();
      }
    }

    /** usbd_write: the packet goes into the ring, then the index moves. */
    method WriteCopy(p: Packet)
      requires Placed() && Enabled(View(), Copy(p))
      modifies ring, this`thread
      ensures View() == Next(old(View()), Copy(p))
    {
      ring[Slot(bufp)] := p;
      thread := Copied(p);
    }

    method WritePublish()
      requires Placed() && Enabled(View(), Publish)
      modifies this
      ensures View() == Next(old(View()), Publish)
    {
      written := written + [thread.p];
      bufp := Wrap16(bufp + 1);
      thread := Advanced;
    }

    /** usbd_write, interrupts masked: `kick` is tested again. */
    method WriteKick()
      requires Placed() && Enabled(View(), Kick)
      modifies this, hw
      ensures View() == Next(old(View()), Kick)
    {
      hide FirstHalf, Slot;
      if kick {
        ToggleSwBuf();
        thread := if kick then Idle else Kicking;
      } else {
        thread := Idle;
      }
    }

    /** IRQ_USB_HP, up to the toggle. */
    method IrqUsbHp()
      requires Placed() && Enabled(View(), Irq)
      modifies this, hw
      ensures View() == Next(old(View()), Irq)
    {
      hide FirstHalf, Slot;
      txHwSlots := Wrap32(txHwSlots - 1);
      ctr := false;
      ToggleSwBuf();
      half := !kick;
    }

    /** The hardware completes a transfer. */
    method Complete()
      requires Placed() && Enabled(View(), Transmit)
      modifies this
      ensures View() == Next(old(View()), Transmit)
    {
      sent := sent + [hw[Buffer(dtog)]];
      dtog := !dtog;
      ctr := true;
    }

    /** One step of whoever runs next. */
    method Step(e: Event)
      requires Valid() && Enabled(View(), e)
      modifies this, ring, hw
      ensures Valid() && View() == Next(old(View()), e)
    {
      StepKeeps(View(), e);
      hide Inv, FirstHalf, SecondHalf, Slot, Wrap16, Wrap32, TxReady;
      match e
      case Copy(p) => WriteCopy(p);
      case Publish => WritePublish();
      case Look => thread := if kick then Seen else Idle;
      case Kick => WriteKick();
      case KickStuff => TopUp(); thread := Idle;
      case Irq => IrqUsbHp();
      case IrqStuff => TopUp(); half := false;
      case Transmit => Complete();
    }
  }
}
