/** Reception through a double-buffered AT32 endpoint: the hardware, the interrupt
    handler and the thread in usbd_read, step by step and in any order. */
module At32Rx {
  import opened Words
  import opened At32Ring

  /** The endpoint. `accepted` and `delivered` record what the hardware took from the
      host and what usbd_read has returned and released; `stored` counts the packets
      that have reached the software ring. */
  datatype State = State(
    ring: Pair, bufc: U16, bufp: U16, kick: bool,
    hw: Pair, dtog: bool, swBuf: bool, ctr: bool,
    thread: Thread, half: bool,
    accepted: seq<Packet>, delivered: seq<Packet>, stored: nat)

  /** One atomic step. */
  datatype Event =
    | Copy                // usbd_read: data out of the ring
    | Release             // usbd_read: bufc++
    | Look                // usbd_read: the unmasked test of `kick`
    | Kick                // usbd_read: masked; up to the SW_BUF toggle
    | KickFetch           // usbd_read: the rest of the handler; unmask
    | Irq                 // the interrupt, up to the SW_BUF toggle
    | IrqFetch            // the interrupt, its rest
    | Receive(p: Packet)  // hardware fills the buffer DTOG names

  /** usbd_configure_ep for an OUT endpoint: DTOG clear, SW_BUF set. */
  predicate Init(s: State) {
    && s.bufc == 0 && s.bufp == 0 && !s.kick
    && !s.dtog && s.swBuf && !s.ctr && s.thread == Idle && !s.half
    && s.accepted == [] && s.delivered == [] && s.stored == 0
  }

  /** usbd_ep_rx_ready reports a packet. */
  predicate RxReady(s: State) { s.bufc != s.bufp }

  /** The hardware can take a packet; otherwise it answers NAK. */
  predicate Accepting(s: State) { s.dtog != s.swBuf }

  /* ---- The code -------------------------------------------------------------- */

  predicate RingFull(s: State) { Wrap16(s.bufp - s.bufc) == NBUF }

  /** handle_dblbuf_rx_transfer up to and including the toggle of SW_BUF. */
  function FirstHalf(s: State): State {
    if RingFull(s) then s.(ctr := false, kick := true)
    else s.(kick := false, ctr := false, swBuf := !s.swBuf)
  }

  /** The rest: the copy is from the buffer that SW_BUF did not name before the
      toggle, that is, the one it names now. */
  function SecondHalf(s: State): State {
    s.(ring := s.ring[Slot(s.bufp) := s.hw[Buffer(s.swBuf)]], bufp := Wrap16(s.bufp + 1), stored := s.stored + 1)
  }

  /** The thread waits while the interrupt handler runs; the handler does not run while
      masked or already running; the hardware takes a packet unless DTOG equals SW_BUF. */
  predicate Enabled(s: State, e: Event) {
    match e
    case Copy => s.thread == Idle && !s.half && RxReady(s)
    case Release => s.thread.Copied? && !s.half
    case Look => s.thread == Advanced && !s.half
    case Kick => s.thread == Seen && !s.half
    case KickFetch => s.thread == Kicking
    case Irq => s.ctr && !s.half && s.thread != Kicking
    case IrqFetch => s.half
    case Receive(p) => Accepting(s)
  }

  function Next(s: State, e: Event): State
    requires Enabled(s, e)
  {
    match e
    case Copy => s.(thread := Copied(s.ring[Slot(s.bufc)]))
    case Release =>
      s.(bufc := Wrap16(s.bufc + 1), thread := Advanced, delivered := s.delivered + [s.thread.p])
    case Look => s.(thread := if s.kick then Seen else Idle)
    case Kick =>
      if s.kick then
        var t := FirstHalf(s);
        t.(thread := if t.kick then Idle else Kicking)
      else s.(thread := Idle)
    case KickFetch => SecondHalf(s).(thread := Idle)
    case Irq =>
      var t := FirstHalf(s);
      t.(half := !t.kick)
    case IrqFetch => SecondHalf(s).(half := false)
    case Receive(p) =>
      s.(hw := s.hw[Buffer(s.dtog) := p], dtog := !s.dtog, ctr := true, accepted := s.accepted + [p])
  }

  /* ---- The invariant ----------------------------------------------------------- */

  /** Inside the handler, past the toggle: one buffer is being copied. */
  predicate Midway(s: State) { s.half || s.thread == Kicking }

  /** What the hardware buffers hold and the software ring does not have yet. */
  function Waiting(s: State): seq<Packet> {
    (if Midway(s) then [s.hw[Buffer(s.swBuf)]] else [])
    + (if Accepting(s) then [] else [s.hw[Buffer(!s.swBuf)]])
  }

  /** The software ring holds the packets stored and not yet released. */
  predicate Queue(ring: Pair, bufc: U16, released: nat, bufp: U16, stored: nat, accepted: seq<Packet>) {
    && released <= stored <= released + NBUF && stored <= |accepted|
    && Counts(bufc, released) && Counts(bufp, stored)
    && forall i :: released <= i < stored ==> ring[Slot(i)] == accepted[i]
  }

  /** Between memcpy and bufc++ the entry is still the thread's. */
  predicate Leaving(s: State) {
    s.thread.Copied? ==> |s.delivered| < s.stored <= |s.accepted| && s.thread.p == s.accepted[|s.delivered|]
  }

  /** A hardware buffer that is full and not being copied is announced by exactly one
      of CTR and `kick`; `kick` outside usbd_read tells a full software ring. */
  predicate SignalsOk(s: State) {
    && (Accepting(s) ==> !s.ctr && !s.kick)
    && (!Accepting(s) && !Midway(s) ==> s.ctr != s.kick)
    && (Midway(s) ==> (s.ctr <==> !Accepting(s)) && !s.kick && s.stored < |s.delivered| + NBUF)
    && !(s.half && s.thread == Kicking)
    && (s.kick && s.thread != Advanced && s.thread != Seen ==> s.stored == |s.delivered| + NBUF)
  }

  predicate Conserved(s: State) {
    s.stored <= |s.accepted| && s.accepted[s.stored..] == Waiting(s) && s.delivered <= s.accepted
  }

  predicate Inv(s: State) {
    && Queue(s.ring, s.bufc, |s.delivered|, s.bufp, s.stored, s.accepted)
    && Leaving(s) && SignalsOk(s) && Conserved(s)
  }

  lemma InitInv(s: State)
    requires Init(s)
    ensures Inv(s)
  {
  }

  lemma QueueBounds(ring: Pair, bufc: U16, released: nat, bufp: U16, stored: nat, accepted: seq<Packet>)
    requires Queue(ring, bufc, released, bufp, stored, accepted)
    ensures released <= stored <= released + NBUF && stored <= |accepted|
    ensures bufc == bufp <==> released == stored
    ensures Wrap16(bufp - bufc) == stored - released
    ensures released < stored ==> ring[Slot(bufc)] == accepted[released]
  {
    CountsCompare(bufc, released, bufp, stored);
    CountsSlot(bufc, released);
  }

  lemma QueueRelease(ring: Pair, bufc: U16, released: nat, bufp: U16, stored: nat, accepted: seq<Packet>)
    requires Queue(ring, bufc, released, bufp, stored, accepted) && released < stored
    ensures Queue(ring, Wrap16(bufc + 1), released + 1, bufp, stored, accepted)
  {
    hide Counts, Wrap16, Slot;
    CountsNext(bufc, released);
  }

  lemma QueueStore(ring: Pair, bufc: U16, released: nat, bufp: U16, stored: nat, accepted: seq<Packet>, p: Packet)
    requires Queue(ring, bufc, released, bufp, stored, accepted) && stored < released + NBUF
    requires stored < |accepted| && accepted[stored] == p
    ensures Queue(ring[Slot(bufp) := p], bufc, released, Wrap16(bufp + 1), stored + 1, accepted)
  {
    hide Counts, Wrap16;
    CountsSlot(bufp, stored);
    CountsNext(bufp, stored);
    if released < stored {
      Neighbours(released);
    }
  }

  lemma QueueAccept(ring: Pair, bufc: U16, released: nat, bufp: U16, stored: nat, accepted: seq<Packet>, p: Packet)
    requires Queue(ring, bufc, released, bufp, stored, accepted)
    ensures Queue(ring, bufc, released, bufp, stored, accepted + [p])
  {
    hide Counts, Slot;
  }

  /* ---- Every step keeps it ------------------------------------------------------ */

  lemma CopyKeeps(s: State)
    requires Inv(s) && Enabled(s, Copy)
    ensures Inv(Next(s, Copy))
  {
    hide Queue, Wrap16, Slot;
    QueueBounds(s.ring, s.bufc, |s.delivered|, s.bufp, s.stored, s.accepted);
  }

  lemma ReleaseKeeps(s: State)
    requires Inv(s) && Enabled(s, Release)
    ensures Inv(Next(s, Release))
  {
    hide Queue, Wrap16, Slot;
    QueueBounds(s.ring, s.bufc, |s.delivered|, s.bufp, s.stored, s.accepted);
    QueueRelease(s.ring, s.bufc, |s.delivered|, s.bufp, s.stored, s.accepted);
  }

  lemma FirstHalfKeeps(s: State, e: Event)
    requires Inv(s) && Enabled(s, e) && (e == Irq || e == Kick)
    ensures Inv(Next(s, e))
  {
    hide Queue, Wrap16, Slot;
    QueueBounds(s.ring, s.bufc, |s.delivered|, s.bufp, s.stored, s.accepted);
  }

  /** The packet stored is the oldest one that the hardware still holds, although
      the hardware may have filled its other buffer since the toggle. */
  lemma FetchKeeps(s: State, e: Event)
    requires Inv(s) && Enabled(s, e) && (e == KickFetch || e == IrqFetch)
    ensures Inv(Next(s, e))
  {
    hide Queue, Wrap16, Slot;
    assert s.accepted[s.stored] == s.accepted[s.stored..][0];
    QueueStore(s.ring, s.bufc, |s.delivered|, s.bufp, s.stored, s.accepted, s.hw[Buffer(s.swBuf)]);
    var t := Next(s, e);
    assert t.accepted[t.stored..] == s.accepted[s.stored..][1..];
  }

  lemma ReceiveKeeps(s: State, p: Packet)
    requires Inv(s) && Enabled(s, Receive(p))
    ensures Inv(Next(s, Receive(p)))
  {
    hide Queue, Slot;
    QueueAccept(s.ring, s.bufc, |s.delivered|, s.bufp, s.stored, s.accepted, p);
    var t := Next(s, Receive(p));
    assert t.accepted[t.stored..] == s.accepted[s.stored..] + [p];
  }

  lemma LookKeeps(s: State)
    requires Inv(s) && Enabled(s, Look)
    ensures Inv(Next(s, Look))
  {
    hide Queue, Slot;
  }

  lemma StepKeeps(s: State, e: Event)
    requires Inv(s) && Enabled(s, e)
    ensures Inv(Next(s, e))
  {
    hide *;
    match e
    case Copy => CopyKeeps(s);
    case Release => ReleaseKeeps(s);
    case Look => LookKeeps(s);
    case Kick => FirstHalfKeeps(s, e);
    case KickFetch => FetchKeeps(s, e);
    case Irq => FirstHalfKeeps(s, e);
    case IrqFetch => FetchKeeps(s, e);
    case Receive(p) => ReceiveKeeps(s, p);
  }

  /** A buffer being copied is never the one the hardware fills. */
  lemma NeverRefilledWhileCopied(s: State, p: Packet)
    requires Inv(s) && Midway(s) && Enabled(s, Receive(p))
    ensures Buffer(s.swBuf) != Buffer(s.dtog)
    ensures Next(s, Receive(p)).hw[Buffer(s.swBuf)] == s.hw[Buffer(s.swBuf)] == s.accepted[s.stored]
  {
    hide Queue, Slot;
    assert s.accepted[s.stored] == s.accepted[s.stored..][0];
  }

  /* ---- Runs ------------------------------------------------------------------------ */

  predicate Run(s: State, es: seq<Event>, t: State)
    decreases |es|
  {
    if es == [] then s == t
    else Enabled(s, es[0]) && Run(Next(s, es[0]), es[1..], t)
  }

  lemma {:induction false} RunKeeps(s: State, es: seq<Event>, t: State)
    requires Inv(s) && Run(s, es, t)
    ensures Inv(t)
    decreases |es|
  {
    hide Inv, Next, Enabled;
    if es != [] {
      StepKeeps(s, es[0]);
      RunKeeps(Next(s, es[0]), es[1..], t);
    }
  }

  /** The packets the host got acknowledged, in order. */
  function Taken(es: seq<Event>): seq<Packet>
    decreases |es|
  {
    if es == [] then []
    else (if es[0].Receive? then [es[0].p] else []) + Taken(es[1..])
  }

  lemma StepTaken(s: State, e: Event)
    requires Enabled(s, e)
    ensures Next(s, e).accepted == s.accepted + Taken([e])
  {
    hide Slot, Wrap16;
  }

  lemma {:induction false} RunTaken(s: State, es: seq<Event>, t: State)
    requires Run(s, es, t)
    ensures t.accepted == s.accepted + Taken(es)
    decreases |es|
  {
    hide Next, Enabled;
    if es != [] {
      StepTaken(s, es[0]);
      RunTaken(Next(s, es[0]), es[1..], t);
    }
  }

  /** What usbd_read has returned, counting a read that has only copied so far. */
  function Read(s: State): seq<Packet> {
    s.delivered + if s.thread.Copied? then [s.thread.p] else []
  }

  lemma ReadBounds(s: State)
    requires Inv(s)
    ensures Read(s) <= s.accepted && |s.accepted| <= |s.delivered| + 2 * NBUF
    ensures Wrap16(s.bufp - s.bufc) <= NBUF
  {
    hide Queue, Slot, Wrap16;
    QueueBounds(s.ring, s.bufc, |s.delivered|, s.bufp, s.stored, s.accepted);
    assert |s.accepted[s.stored..]| <= 2;
  }

  /** In every interleaving, what has been read is a prefix of what the host had
      accepted, in order, and at most four packets are still inside. */
  lemma InOrder(s: State, es: seq<Event>, t: State)
    requires Init(s) && Run(s, es, t)
    ensures Read(t) <= Taken(es)
    ensures |Taken(es)| <= |t.delivered| + 2 * NBUF
    ensures Wrap16(t.bufp - t.bufc) <= NBUF
  {
    assert s.accepted == [];
    InitInv(s);
    hide *;
    RunKeeps(s, es, t);
    RunTaken(s, es, t);
    ReadBounds(t);
    assert t.accepted == Taken(es);
  }

  /** Outside usbd_read and the handler, a hardware that refuses packets has its
      interrupt pending, or has a full ring behind it and `kick` set, so that the next
      usbd_read resumes the flow. */
  lemma StallIsRemembered(s: State, es: seq<Event>, t: State)
    requires Init(s) && Run(s, es, t) && t.thread == Idle && !t.half && !Accepting(t)
    ensures t.ctr != t.kick
    ensures t.ctr ==> Enabled(t, Irq)
    ensures t.kick ==> RingFull(t) && RxReady(t)
  {
    hide Slot, Wrap16, Queue;
    InitInv(s);
    RunKeeps(s, es, t);
    QueueBounds(t.ring, t.bufc, |t.delivered|, t.bufp, t.stored, t.accepted);
  }

  /** Steps of the firmware alone. */
  predicate Own(e: Event) { !e.Receive? }

  function Progress(t: Thread): nat {
    match t
    case Idle => 4
    case Copied(p) => 3
    case Advanced => 8
    case Seen => 7
    case Kicking => 6
  }

  /** Bounds the steps the firmware can still take before it must hear from the host. */
  function Work(s: State): int {
    12 * (|s.accepted| - |s.delivered|) + 3 * (|s.accepted| - s.stored) + Progress(s.thread)
    + (if s.ctr then 2 else 0) + if s.half then 1 else 0
  }

  lemma WorkBound(s: State)
    requires Inv(s)
    ensures Work(s) >= 0
  {
    hide Slot, Wrap16, Counts;
  }

  /** As long as the thread reads whatever is ready, the firmware stops only when every
      accepted packet has been read and the hardware is accepting again. */
  lemma FlowResumes(s: State, es: seq<Event>, t: State)
    requires Init(s) && Run(s, es, t)
    requires forall e :: Own(e) ==> !Enabled(t, e)
    ensures t.delivered == Taken(es) && Accepting(t)
  {
    hide Slot, Wrap16, Queue, Next;
    InitInv(s);
    RunKeeps(s, es, t);
    RunTaken(s, es, t);
    QueueBounds(t.ring, t.bufc, |t.delivered|, t.bufp, t.stored, t.accepted);
    assert !Enabled(t, Copy) && !Enabled(t, Release) && !Enabled(t, Look) && !Enabled(t, Kick);
    assert !Enabled(t, KickFetch) && !Enabled(t, Irq) && !Enabled(t, IrqFetch);
  }

  lemma WorkFalls(s: State, e: Event)
    requires Own(e) && Enabled(s, e)
    ensures Work(Next(s, e)) < Work(s)
  {
    hide Slot, Wrap16;
  }

  /** And it stops: each of its steps leaves less to do. */
  lemma OwnStepsEnd(s: State, es: seq<Event>, t: State, e: Event)
    requires Init(s) && Run(s, es, t) && Own(e) && Enabled(t, e)
    ensures 0 <= Work(Next(t, e)) < Work(t)
  {
    InitInv(s);
    hide *;
    RunKeeps(s, es, t);
    StepKeeps(t, e);
    WorkBound(Next(t, e));
    WorkFalls(t, e);
  }

  /* ---- The driver's own state --------------------------------------------------------- */

  /** The endpoint as the firmware stores it, with the endpoint register's bits. */
  class Endpoint {
    const ring: array<Packet>     // rx_buf[]
    const hw: array<Packet>       // packet memory at addr_0 and addr_1
    var bufc: U16
    var bufp: U16
    var kick: bool
    var dtog: bool
    var swBuf: bool
    var ctr: bool

    ghost var thread: Thread
    ghost var half: bool
    ghost var accepted: seq<Packet>
    ghost var delivered: seq<Packet>
    ghost var stored: nat

    ghost predicate Placed() {
      ring != hw && ring.Length == NBUF && hw.Length == NBUF
    }

    ghost function View(): (s: State)
      requires Placed()
      reads this, ring, hw
    {
      State(ring[..], bufc, bufp, kick, hw[..], dtog, swBuf, ctr, thread, half, accepted, delivered, stored)
    }

    ghost predicate Valid()
      reads this, ring, hw
    {
      Placed() && Inv(View())
    }

    /** usbd_configure_ep. */
    constructor ()
      ensures Valid() && Init(View()) && fresh(ring) && fresh(hw)
    {
      ring, hw := new Packet[NBUF](_ => []), new Packet[NBUF](_ => []);
      bufc, bufp, kick, dtog, swBuf, ctr := 0, 0, false, false, true, false;
      thread, half, accepted, delivered, stored := Idle, false, [], [], 0;
      new;
      InitInv(View());
    }

    /** usbd_ep_rx_ready: the length of the oldest packet not yet read, or -1. */
    method EpRxReady() returns (len: int)
      requires Valid() && thread == Idle
      ensures len == if |delivered| < stored then |accepted[|delivered|]| else -1
    {
      hide Slot, Wrap16;
      QueueBounds(ring[..], bufc, |delivered|, bufp, stored, accepted);
      len := if bufc != bufp then |ring[Slot(bufc)]| else -1;
    }

    /** handle_dblbuf_rx_transfer up to the toggle of SW_BUF. */
    method ToggleSwBuf()
      requires Placed()
      modifies this
      ensures View() == FirstHalf(old(View()))
    {
      ctr := false;
      if Wrap16(bufp - bufc) == NBUF {
        kick := true;
        return;
      }
      kick := false;
      swBuf := !swBuf;
    }

    /** Its copy out of packet memory. */
    method Fetch()
      requires Placed()
      modifies this, ring
      ensures View() == SecondHalf(old(View()))
    {
      hide Slot;
      ring[Slot(bufp)] := hw[Buffer(swBuf)];
      bufp := Wrap16(bufp + 1);
      stored := stored + 1;
    }

    /** usbd_read: the data, then the index. */
    method ReadCopy() returns (p: Packet)
      requires Placed() && Enabled(View(), Copy)
      modifies this`thread
      ensures View() == Next(old(View()), Copy) && thread == Copied(p)
    {
      p := ring[Slot(bufc)];
      thread := Copied(p);
    }

    method ReadRelease()
      requires Placed() && Enabled(View(), Release)
      modifies this
      ensures View() == Next(old(View()), Release)
    {
      delivered := delivered + [thread.p];
      bufc := Wrap16(bufc + 1);
      thread := Advanced;
    }

    /** usbd_read, interrupts masked: `kick` is tested again. */
    method ReadKick()
      requires Placed() && Enabled(View(), Kick)
      modifies this
      ensures View() == Next(old(View()), Kick)
    {
      hide FirstHalf, Slot;
      if kick {
        ToggleSwBuf();
        thread := if kick then Idle else Kicking;
      } else {
        thread := Idle;
      }
    }

    /** The hardware takes a packet from the host. */
    method Accept(p: Packet)
      requires Placed() && Enabled(View(), Receive(p))
      modifies this, hw
      ensures View() == Next(old(View()), Receive(p))
    {
      hw[Buffer(dtog)] := p;
      dtog := !dtog;
      ctr := true;
      accepted := accepted + [p];
    }

    /** One step of whoever runs next; a read returns the oldest packet not yet read. */
    method Step(e: Event) returns (p: Packet)
      requires Valid() && Enabled(View(), e)
      modifies this, ring, hw
      ensures Valid() && View() == Next(old(View()), e)
      ensures e == Copy ==> |delivered| < |accepted| && p == accepted[|delivered|]
    {
      StepKeeps(View(), e);
      p := [];
      if e == Copy {
        p := ReadCopy();
        assert Leaving(View());
        return;
      }
      hide Inv, FirstHalf, SecondHalf, Slot, Wrap16, RxReady;
      match e
      case Release => ReadRelease();
      case Look => thread := if kick then Seen else Idle;
      case Kick => ReadKick();
      case KickFetch => Fetch(); thread := Idle;
      case Irq => ToggleSwBuf(); half := !kick;
      case IrqFetch => Fetch(); half := false;
      case Receive(q) => Accept(q);
    }
  }
}
