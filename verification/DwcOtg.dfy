/** Credit-based reception on a DWC-OTG OUT endpoint: the driver arms the hardware
    for as many packets as its ring has room for. */
module DwcOtg {
  import opened Words

  /** The endpoint. `armed` packets may still arrive in the current transfer, `ending`
      says that the hardware has closed it; `fifo` holds packets not yet unloaded.
      `accepted` and `delivered` record what came in and what dwc_otg_read returned;
      `stored` counts the packets that have reached the ring. */
  datatype State = State(
    ring: seq<Packet>, rxc: U16, rxp: U16, active: bool,
    armed: nat, ending: bool, fifo: seq<Packet>,
    accepted: seq<Packet>, delivered: seq<Packet>, stored: nat)

  datatype Event =
    | Read                 // dwc_otg_read
    | Unload               // handle_rx_transfer, STS_DATA_UPDT
    | Complete             // handle_oepint with XFRC
    | Poll                 // handle_oepint without it
    | Receive(p: Packet)   // hardware takes a packet of at most `mps` bytes

  /** Ring sizes for which RX_MASK is a remainder that survives the 16-bit wrap. */
  ghost predicate RingSize(nr: nat) {
    0 < nr < 0x8000 && exists k: nat :: k * nr == 0x1_0000
  }

  /* ---- The code -------------------------------------------------------------- */

  /** prepare_rx: arm for all free entries, but only if more than half are free. */
  function PrepareRx(s: State): (t: State)
    ensures |t.ring| == |s.ring|
  {
    var nr := Wrap16(|s.ring| - Wrap16(s.rxp - s.rxc));
    if s.active || nr <= |s.ring| / 2 then s
    else s.(armed := nr, ending := false, active := true)
  }

  /** usbd_configure_ep for a fresh OUT endpoint. */
  function Configured(ring: seq<Packet>): State {
    PrepareRx(State(ring, 0, 0, false, 0, false, [], [], [], 0))
  }

  predicate RxReady(s: State) { s.rxc != s.rxp }

  /** The ASSERTs of handle_rx_transfer and handle_oepint are not preconditions here:
      NoOverflow shows that they hold. The hardware reports completion once the
      packets of the transfer have been unloaded. */
  predicate Enabled(s: State, mps: nat, e: Event) {
    match e
    case Read => RxReady(s)
    case Unload => s.fifo != []
    case Complete => s.ending && s.fifo == []
    case Poll => true
    case Receive(p) => s.armed > 0 && |p| <= mps
  }

  function Next(s: State, mps: nat, e: Event): (t: State)
    requires s.ring != [] && Enabled(s, mps, e)
    ensures |t.ring| == |s.ring|
  {
    match e
    case Read =>
      PrepareRx(s.(rxc := Wrap16(s.rxc + 1), delivered := s.delivered + [s.ring[s.rxc % |s.ring|]]))
    case Unload =>
      s.(ring := s.ring[s.rxp % |s.ring| := s.fifo[0]], rxp := Wrap16(s.rxp + 1),
         fifo := s.fifo[1..], stored := s.stored + 1)
    case Complete => PrepareRx(s.(active := false, ending := false))
    case Poll => PrepareRx(s)
    case Receive(p) =>
      // The last packet armed for, or a short one, ends the transfer.
      var last := s.armed == 1 || |p| < mps;
      s.(fifo := s.fifo + [p], accepted := s.accepted + [p],
         armed := if last then 0 else s.armed - 1, ending := last)
  }

  /* ---- The invariant ----------------------------------------------------------- */

  predicate Queue(ring: seq<Packet>, rxc: U16, released: nat, rxp: U16, stored: nat, accepted: seq<Packet>)
    requires ring != []
  {
    && released <= stored <= released + |ring| && stored <= |accepted|
    && Counts(rxc, released) && Counts(rxp, stored)
    && forall i :: released <= i < stored ==> ring[i % |ring|] == accepted[i]
  }

  /** Room is reserved for every packet that may still arrive; an idle endpoint has
      nothing under way and at least half its ring unread. */
  predicate Credits(s: State) {
    var pending := s.stored - |s.delivered|;
    && (s.active <==> s.armed > 0 || s.ending) && !(s.armed > 0 && s.ending)
    && (s.active ==> pending + |s.fifo| + s.armed <= |s.ring|)
    && (!s.active ==> s.fifo == [] && 2 * pending >= |s.ring|)
  }

  predicate Conserved(s: State) {
    s.stored <= |s.accepted| && s.accepted[s.stored..] == s.fifo && s.delivered <= s.accepted
  }

  ghost predicate Inv(s: State) {
    && RingSize(|s.ring|)
    && Queue(s.ring, s.rxc, |s.delivered|, s.rxp, s.stored, s.accepted)
    && Credits(s) && Conserved(s)
  }

  /* ---- The wrapped indexes ------------------------------------------------------- */

  lemma SlotWrapped(x: U16, n: nat, nr: nat)
    requires RingSize(nr) && Counts(x, n)
    ensures x % nr == n % nr
  {
    var k: nat :| k * nr == 0x1_0000;
    var q := n / 0x1_0000;
    assert n == x + nr * (k * q) by {
      assert 0x1_0000 * q == (nr * k) * q == nr * (k * q);
    }
    ModAddMultiple(x, k * q, nr);
  }

  lemma Pending(ring: seq<Packet>, rxc: U16, released: nat, rxp: U16, stored: nat, accepted: seq<Packet>)
    requires RingSize(|ring|) && Queue(ring, rxc, released, rxp, stored, accepted)
    ensures 0 < |ring| < 0x8000 && Wrap16(rxp - rxc) == stored - released <= |ring| && stored <= |accepted|
    ensures rxc == rxp <==> released == stored
    ensures released < stored ==> ring[rxc % |ring|] == accepted[released]
  {
    SlotWrapped(rxc, released, |ring|);
    var n := stored - released;
    var q, r := released / 0x1_0000, stored / 0x1_0000;
    assert rxp - rxc == n + 0x1_0000 * (q - r);
    ModAddMultiple(n, q - r, 0x1_0000);
  }

  lemma QueueRelease(ring: seq<Packet>, rxc: U16, released: nat, rxp: U16, stored: nat, accepted: seq<Packet>)
    requires ring != [] && Queue(ring, rxc, released, rxp, stored, accepted) && released < stored
    ensures Queue(ring, Wrap16(rxc + 1), released + 1, rxp, stored, accepted)
  {
    hide Counts, Wrap16;
    CountsNext(rxc, released);
  }

  lemma QueueStore(ring: seq<Packet>, rxc: U16, released: nat, rxp: U16, stored: nat, accepted: seq<Packet>, p: Packet)
    requires RingSize(|ring|) && Queue(ring, rxc, released, rxp, stored, accepted)
    requires stored < released + |ring| && stored < |accepted| && accepted[stored] == p
    ensures Queue(ring[rxp % |ring| := p], rxc, released, Wrap16(rxp + 1), stored + 1, accepted)
  {
    SlotWrapped(rxp, stored, |ring|);
    hide Counts, Wrap16;
    CountsNext(rxp, stored);
    var slot := stored % |ring|;
    forall i | released <= i < stored
      ensures i % |ring| != slot
    {
      DistinctSlots(i, stored, |ring|);
    }
  }

  lemma QueueAccept(ring: seq<Packet>, rxc: U16, released: nat, rxp: U16, stored: nat, accepted: seq<Packet>, p: Packet)
    requires ring != [] && Queue(ring, rxc, released, rxp, stored, accepted)
    ensures Queue(ring, rxc, released, rxp, stored, accepted + [p])
  {
    hide Counts;
  }

  /* ---- Every step keeps it ------------------------------------------------------ */

  /** prepare_rx restores the rule for idle endpoints, whatever room there is. */
  lemma PrepareKeeps(s: State)
    requires RingSize(|s.ring|) && Queue(s.ring, s.rxc, |s.delivered|, s.rxp, s.stored, s.accepted) && Conserved(s)
    requires !s.active ==> s.fifo == [] && s.armed == 0 && !s.ending
    requires s.active ==> Credits(s)
    ensures Inv(PrepareRx(s))
  {
    hide Queue, RingSize, Wrap16;
    Pending(s.ring, s.rxc, |s.delivered|, s.rxp, s.stored, s.accepted);
    Small(|s.ring| - (s.stored - |s.delivered|));
  }

  /** An idle endpoint is armed exactly when more than half its ring is free, and then for
      all that is free. */
  lemma ArmsForAllRoom(s: State)
    requires RingSize(|s.ring|) && Queue(s.ring, s.rxc, |s.delivered|, s.rxp, s.stored, s.accepted) && !s.active
    ensures var free := |s.ring| - (s.stored - |s.delivered|);
            && (PrepareRx(s).active <==> free > |s.ring| / 2)
            && (PrepareRx(s).active ==> PrepareRx(s).armed == free)
  {
    hide Queue, RingSize, Wrap16;
    Pending(s.ring, s.rxc, |s.delivered|, s.rxp, s.stored, s.accepted);
    Small(|s.ring| - (s.stored - |s.delivered|));
  }

  lemma Small(n: nat)
    requires n < 0x1_0000
    ensures Wrap16(n) == n
  {
  }

  lemma ReadKeeps(s: State, mps: nat)
    requires Inv(s) && Enabled(s, mps, Read)
    ensures Inv(Next(s, mps, Read))
  {
    hide Queue, RingSize, PrepareRx, Wrap16;
    Pending(s.ring, s.rxc, |s.delivered|, s.rxp, s.stored, s.accepted);
    QueueRelease(s.ring, s.rxc, |s.delivered|, s.rxp, s.stored, s.accepted);
    PrepareKeeps(s.(rxc := Wrap16(s.rxc + 1), delivered := s.delivered + [s.ring[s.rxc % |s.ring|]]));
  }

  lemma UnloadKeeps(s: State, mps: nat)
    requires Inv(s) && Enabled(s, mps, Unload)
    ensures Inv(Next(s, mps, Unload))
  {
    hide Queue, RingSize, Wrap16;
    Pending(s.ring, s.rxc, |s.delivered|, s.rxp, s.stored, s.accepted);
    assert s.accepted[s.stored] == s.accepted[s.stored..][0];
    QueueStore(s.ring, s.rxc, |s.delivered|, s.rxp, s.stored, s.accepted, s.fifo[0]);
    assert s.accepted[s.stored + 1..] == s.accepted[s.stored..][1..];
  }

  lemma ReceiveKeeps(s: State, mps: nat, p: Packet)
    requires Inv(s) && Enabled(s, mps, Receive(p))
    ensures Inv(Next(s, mps, Receive(p)))
  {
    hide Queue, RingSize;
    QueueAccept(s.ring, s.rxc, |s.delivered|, s.rxp, s.stored, s.accepted, p);
    assert (s.accepted + [p])[s.stored..] == s.accepted[s.stored..] + [p];
  }

  lemma OepintKeeps(s: State, mps: nat, e: Event)
    requires Inv(s) && Enabled(s, mps, e) && (e == Complete || e == Poll)
    ensures Inv(Next(s, mps, e))
  {
    hide Queue, RingSize, PrepareRx;
    PrepareKeeps(if e == Complete then s.(active := false, ending := false) else s);
  }

  lemma StepKeeps(s: State, mps: nat, e: Event)
    requires Inv(s) && Enabled(s, mps, e)
    ensures Inv(Next(s, mps, e))
  {
    hide *;
    match e
    case Read => ReadKeeps(s, mps);
    case Unload => UnloadKeeps(s, mps);
    case Complete => OepintKeeps(s, mps, e);
    case Poll => OepintKeeps(s, mps, e);
    case Receive(p) => ReceiveKeeps(s, mps, p);
  }

  lemma ConfiguredInv(ring: seq<Packet>)
    requires RingSize(|ring|)
    ensures Inv(Configured(ring))
  {
    hide RingSize, PrepareRx;
    PrepareKeeps(State(ring, 0, 0, false, 0, false, [], [], [], 0));
  }

  /* ---- Runs ------------------------------------------------------------------------ */

  predicate Run(s: State, mps: nat, es: seq<Event>, t: State)
    decreases |es|
  {
    if es == [] then s == t
    else s.ring != [] && Enabled(s, mps, es[0]) && Run(Next(s, mps, es[0]), mps, es[1..], t)
  }

  lemma {:induction false} RunKeeps(s: State, mps: nat, es: seq<Event>, t: State)
    requires Inv(s) && Run(s, mps, es, t)
    ensures Inv(t)
    decreases |es|
  {
    hide Inv, Next, Enabled;
    if es != [] {
      StepKeeps(s, mps, es[0]);
      RunKeeps(Next(s, mps, es[0]), mps, es[1..], t);
    }
  }

  function Taken(es: seq<Event>): seq<Packet>
    decreases |es|
  {
    if es == [] then []
    else (if es[0].Receive? then [es[0].p] else []) + Taken(es[1..])
  }

  lemma {:induction false} RunTaken(s: State, mps: nat, es: seq<Event>, t: State)
    requires Run(s, mps, es, t)
    ensures t.accepted == s.accepted + Taken(es)
    decreases |es|
  {
    hide Wrap16;
    if es != [] {
      RunTaken(Next(s, mps, es[0]), mps, es[1..], t);
    }
  }

  /** From configuration on, packets are read in the order in which they arrived, and
      the ring always has room for every packet the hardware may still deliver. */
  lemma InOrder(ring: seq<Packet>, mps: nat, es: seq<Event>, t: State)
    requires RingSize(|ring|) && Run(Configured(ring), mps, es, t)
    ensures t.delivered <= Taken(es)
    ensures |Taken(es)| + t.armed <= |t.delivered| + |t.ring|
  {
    hide Enabled, Next, Queue, RingSize;
    ConfiguredInv(ring);
    RunKeeps(Configured(ring), mps, es, t);
    RunTaken(Configured(ring), mps, es, t);
    hide Run, Taken;
    assert t.accepted == Taken(es);
    Pending(t.ring, t.rxc, |t.delivered|, t.rxp, t.stored, t.accepted);
    assert |t.accepted| == t.stored + |t.fifo|;
  }

  /** So the three ASSERTs never fire. */
  lemma NoOverflow(ring: seq<Packet>, mps: nat, es: seq<Event>, t: State)
    requires RingSize(|ring|) && Run(Configured(ring), mps, es, t)
    ensures Enabled(t, mps, Unload) ==> t.active && Wrap16(t.rxp - t.rxc) < |t.ring|
    ensures Enabled(t, mps, Complete) ==> t.active
  {
    hide Next, Queue, RingSize;
    ConfiguredInv(ring);
    RunKeeps(Configured(ring), mps, es, t);
    Pending(t.ring, t.rxc, |t.delivered|, t.rxp, t.stored, t.accepted);
  }

  /** An idle endpoint has at least half its ring unread, so there is something to
      read, and the read will arm it again in the end. */
  lemma IdleIsReadable(ring: seq<Packet>, mps: nat, es: seq<Event>, t: State)
    requires RingSize(|ring|) && Run(Configured(ring), mps, es, t) && !t.active
    ensures RxReady(t) && 2 * Wrap16(t.rxp - t.rxc) >= |t.ring|
  {
    hide Next, Queue, RingSize, Wrap16;
    ConfiguredInv(ring);
    RunKeeps(Configured(ring), mps, es, t);
    Pending(t.ring, t.rxc, |t.delivered|, t.rxp, t.stored, t.accepted);
  }

  /** When the driver has nothing left to do, everything that came in has been read
      and the hardware may go on receiving. */
  lemma NoDeadlock(ring: seq<Packet>, mps: nat, es: seq<Event>, t: State)
    requires RingSize(|ring|) && Run(Configured(ring), mps, es, t)
    requires !Enabled(t, mps, Read) && !Enabled(t, mps, Unload) && !Enabled(t, mps, Complete)
    ensures t.delivered == Taken(es) && t.armed > 0
  {
    hide Next, Queue, RingSize, Wrap16;
    ConfiguredInv(ring);
    RunKeeps(Configured(ring), mps, es, t);
    RunTaken(Configured(ring), mps, es, t);
    if !t.active {
      IdleIsReadable(ring, mps, es, t);
    }
    hide Run, Taken;
    assert t.accepted == Taken(es);
    Pending(t.ring, t.rxc, |t.delivered|, t.rxp, t.stored, t.accepted);
    assert |t.accepted[t.stored..]| == 0;
  }

  /** Driver steps that must come to an end by themselves. */
  function Work(s: State): int {
    2 * |s.fifo| + (s.stored - |s.delivered|) + if s.ending then 1 else 0
  }

  lemma OwnStepsEnd(ring: seq<Packet>, mps: nat, es: seq<Event>, t: State, e: Event)
    requires RingSize(|ring|) && Run(Configured(ring), mps, es, t) && Enabled(t, mps, e)
    requires t.ring != [] && (e == Read || e == Unload || e == Complete)
    ensures 0 <= Work(Next(t, mps, e)) < Work(t)
  {
    hide Queue, RingSize, Wrap16;
    ConfiguredInv(ring);
    RunKeeps(Configured(ring), mps, es, t);
    hide Run;
    Pending(t.ring, t.rxc, |t.delivered|, t.rxp, t.stored, t.accepted);
    StepKeeps(t, mps, e);
    var u := Next(t, mps, e);
    Pending(u.ring, u.rxc, |u.delivered|, u.rxp, u.stored, u.accepted);
  }

  /* ---- The driver's own state --------------------------------------------------------- */

  /** One OUT endpoint, with what the hardware holds for it. */
  class OutEndpoint {
    const ring: array<Packet>
    var rxc: U16
    var rxp: U16
    var rxActive: bool
    var armed: nat                // PKTCNT of the transfer under way
    var fifo: seq<Packet>         // received, not yet unloaded
    var ending: bool

    ghost var accepted: seq<Packet>
    ghost var delivered: seq<Packet>
    ghost var stored: nat

    ghost function View(): State
      reads this, ring
    {
      State(ring[..], rxc, rxp, rxActive, armed, ending, fifo, accepted, delivered, stored)
    }

    ghost predicate Valid()
      reads this, ring
    {
      Inv(View())
    }

    /** dwc_otg_configure_ep. */
    constructor (rxNr: nat)
      requires RingSize(rxNr)
      ensures Valid() && ring.Length == rxNr && View() == Configured(ring[..]) && fresh(ring)
    {
      ring := new Packet[rxNr](_ => []);
      rxc, rxp, rxActive, armed, fifo, ending := 0, 0, false, 0, [], false;
      accepted, delivered, stored := [], [], 0;
      new;
      ConfiguredInv(ring[..]);
      Prepare();
    }

    /** prepare_rx. */
    method Prepare()
      requires ring.Length > 0
      modifies this`rxActive, this`armed, this`ending
      ensures View() == PrepareRx(old(View()))
    {
      if rxActive {
        return;
      }
      var nr := Wrap16(ring.Length - Wrap16(rxp - rxc));
      if nr <= ring.Length / 2 {
        return;
      }
      armed, ending := nr, false;
      rxActive := true;
    }

    /** dwc_otg_ep_rx_ready. */
    method EpRxReady() returns (len: int)
      requires Valid()
      ensures len == if |delivered| < stored then |accepted[|delivered|]| else -1
    {
      Pending(ring[..], rxc, |delivered|, rxp, stored, accepted);
      len := if rxc != rxp then |ring[rxc % ring.Length]| else -1;
    }

    /** dwc_otg_read. */
    method ReadPacket() returns (p: Packet)
      requires Valid() && RxReady(View())
      modifies this
      ensures Valid() && View() == Next(old(View()), 0, Read)
      ensures p == old(accepted[|delivered|]) && delivered == old(delivered) + [p]
    {
      hide Queue, RingSize, Wrap16;
      Pending(ring[..], rxc, |delivered|, rxp, stored, accepted);
      StepKeeps(View(), 0, Read);
      p := ring[rxc % ring.Length];
      delivered := delivered + [p];
      rxc := Wrap16(rxc + 1);
      Prepare();
    }

    /** handle_rx_transfer, for a data packet. */
    method HandleRxTransfer()
      requires Valid() && fifo != []
      modifies this, ring
      ensures Valid() && View() == Next(old(View()), 0, Unload)
    {
      hide Queue, RingSize, Wrap16;
      Pending(ring[..], rxc, |delivered|, rxp, stored, accepted);
      StepKeeps(View(), 0, Unload);
      assert rxActive;
      assert Wrap16(rxp - rxc) < ring.Length;
      ring[rxp % ring.Length] := fifo[0];
      rxp := Wrap16(rxp + 1);
      fifo := fifo[1..];
      stored := stored + 1;
    }

    /** handle_oepint; `xfrc` is what the interrupt status says. */
    method HandleOepint(xfrc: bool)
      requires Valid() && (xfrc ==> ending && fifo == [])
      modifies this
      ensures Valid() && View() == Next(old(View()), 0, if xfrc then Complete else Poll)
    {
      hide Queue, RingSize, Wrap16;
      Pending(ring[..], rxc, |delivered|, rxp, stored, accepted);
      StepKeeps(View(), 0, if xfrc then Complete else Poll);
      if xfrc {
        assert rxActive;
        rxActive, ending := false, false;
      }
      Prepare();
    }
  }
}
