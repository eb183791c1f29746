/** The device state machine: which commands may touch the write gate, the head and the
    step line, when, and what the firmware knows about each drive's head position. Times
    are microseconds on an unbounded clock. */
module Device {
  import opened Words
  import opened Drive

  datatype Ack = Okay | BadCommand | NoIndex | NoTrk0 | FluxOverflow | FluxUnderflow | WrProt | NoUnit | NoBus | BadUnit | BadCylinder

  datatype Bus = NoneBus | IbmPc | Shugart

  datatype State =
    | Inactive | CommandWait | Zlp | ReadFlux | ReadFluxDrain
    | WriteFluxWaitData | WriteFluxWaitIndex | WriteFlux | WriteFluxDrain
    | EraseFlux | SourceBytes | SinkBytes | UpdateBootloader

  datatype Op = ReadOp | WriteOp | SeekOp | HeadOp

  /** delay_params: microseconds, but seekSettle and motorDelay in milliseconds. */
  datatype Delays = Delays(
    selectDelay: nat, stepDelay: nat, seekSettle: nat, motorDelay: nat, preWrite: nat, postWrite: nat)

  /** `astray` is not a variable of the firmware: a cylinder beyond the drive's last was
      asked for, and accepted, since the unit was initialised. */
  datatype Unit = Unit(cyl: int, initialised: bool, isFlippy: bool, motor: bool, astray: bool)

  /** Host commands that reach the drives, or the state machine; any other command, or a
      malformed one, changes nothing here. `wrprot` is the write-protect line. */
  datatype Command =
    | Seek(cyl: int)
    | Head(head: nat)
    | SetParams(delays: Delays)
    | Motor(unit: nat, on: bool)
    | ReadFluxCmd
    | WriteFluxCmd(wrprot: bool)
    | EraseFluxCmd(wrprot: bool, us: nat)
    | Select(unit: nat)
    | Deselect
    | SetBusType(bus: Bus)
    | Reset
    | NoClickStep
    | Transfer(into: State)   // source, sink or update: states that leave the drives alone
    | Other

  /** What a poll finds: how the flux stream, the clock and the USB endpoints stand. While
      reading, `bad` is an overflow of the byte ring, `finished` the deadline, and `late`
      an index that did not come; while writing, `bad` is an invalid command. */
  datatype Found = Found(bad: bool, ready: bool, finished: bool, late: bool)

  datatype Event =
    | Process(cmd: Command)   // a command, if one is being waited for
    | Poll(found: Found)      // one turn of the main loop otherwise
    | Watchdog
    | UsbReset
    | Configure
    | TimerFires              // op_delay_timer, if due
    | Wait(us: nat)

  /** What a run is about: the variables that events change, and the drives. */
  datatype View = View(
    state: State, status: Ack, wgate: bool, head: nat, bus: Bus, unitNr: int, units: seq<Unit>, pos: seq<int>,
    delays: Delays, eraseEnd: int, now: int)

  const FACTORY := Delays(10, 10000, 15, 750, 100, 1000)

  const FRESH := Unit(0, false, false, false, false)

  const UNITS := 4

  class Controller {
    const kinds: seq<Kind>              // the drives on the bus
    const last: seq<nat>                // their innermost cylinders
    const wired: set<(Bus, nat)>        // select lines this board can drive
    const motors: set<(Bus, nat)>       // motor lines this board can drive
    var pos: seq<int>                   // where their heads are
    var sensorOn: bool                  // the flippy track-0 line
    var now: int

    var state: State
    var wgate: bool
    var head: nat
    var dirIn: bool
    var busType: Bus
    var unitNr: int
    var units: seq<Unit>
    var delays: Delays
    var dirAt: int                      // when the direction line was last set
    var opMask: set<Op>
    var opDeadline: int
    var eraseEnd: int                   // flux_op.end
    var status: Ack

    ghost var trace: seq<Act>

    /** After floppy_init: drives anywhere, nothing known about them. */
    constructor (kinds: seq<Kind>, last: seq<nat>, wired: set<(Bus, nat)>, motors: set<(Bus, nat)>, pos: seq<int>, now: nat)
      requires |kinds| == UNITS && |pos| == UNITS && |last| == UNITS
      requires forall i :: 0 <= i < UNITS ==> last[i] >= 1 && pos[i] <= last[i]
      requires forall i :: 0 <= i < UNITS && kinds[i] == Standard ==> pos[i] >= 0
      ensures Valid() && trace == [] && state == Inactive && delays == FACTORY && opMask == {}
      ensures this.kinds == kinds && this.last == last && this.wired == wired && this.motors == motors && this.pos == pos
      ensures units == [FRESH, FRESH, FRESH, FRESH] && busType == NoneBus && unitNr == -1 && head == 0
    {
      this.kinds, this.last, this.wired, this.motors, this.pos, this.now := kinds, last, wired, motors, pos, now;
      sensorOn, state, wgate, head, dirIn := true, Inactive, false, 0, false;
      busType, unitNr, units := NoneBus, -1, [FRESH, FRESH, FRESH, FRESH];
      delays, opMask, opDeadline, eraseEnd, status, dirAt := FACTORY, {}, 0, 0, Okay, now - 10;
      trace := [];
    }

    /** Units that drive_select can select. */
    predicate Selectable(bus: Bus, nr: int) {
      0 <= nr < (match bus case NoneBus => 0 case IbmPc => 2 case Shugart => UNITS) && (bus, nr) in wired
    }

    ghost predicate Shape()
      reads this`pos, this`units, this`unitNr, this`busType
    {
      && |kinds| == UNITS && |last| == UNITS && |pos| == UNITS && |units| == UNITS
      && (forall i :: 0 <= i < UNITS ==> last[i] >= 1)
      && (unitNr == -1 || Selectable(busType, unitNr))
    }

    /** If `u` records a cylinder for drive `i`, that is where its head, `p`, is, unless
        it was led astray. */
    ghost predicate Known(i: nat, p: int, u: Unit, bus: Bus)
      requires i < |kinds| == |last|
    {
      && p <= last[i] && (kinds[i] == Standard ==> p >= 0) && (u.astray ==> u.initialised)
      && (u.initialised ==>
        && (u.cyl == p || u.astray) && Selectable(bus, i)
        && (u.isFlippy <==> kinds[i] == Flippy)
        && (u.cyl < 0 ==> u.isFlippy))
    }

    ghost predicate AllKnown(ps: seq<int>, us: seq<Unit>, bus: Bus)
      requires |kinds| == |last| == |ps| == |us|
    {
      forall i :: 0 <= i < |ps| ==> Known(i, ps[i], us[i], bus)
    }

    lemma KnownNext(ps: seq<int>, us: seq<Unit>, bus: Bus, i: nat, p: int, u: Unit)
      requires |kinds| == |last| == |ps| == |us| && AllKnown(ps, us, bus) && i < |ps| && Known(i, p, u, bus)
      ensures AllKnown(ps[i := p], us[i := u], bus)
    {
    }

    lemma KnownAt(ps: seq<int>, us: seq<Unit>, bus: Bus, i: nat)
      requires |kinds| == |last| == |ps| == |us| && AllKnown(ps, us, bus) && i < |ps|
      ensures Known(i, ps[i], us[i], bus)
    {
    }

    ghost predicate Tracking()
      reads this`pos, this`units, this`unitNr, this`busType
    {
      Shape() && AllKnown(pos, units, busType)
    }

    /** As long as a post-write delay runs, writing, seeking and head changes wait. */
    ghost predicate Holding()
      reads this`trace, this`now, this`opMask, this`opDeadline
    {
      && (trace != [] ==> trace[|trace| - 1].at <= now)
      && (now < HoldEnd(trace) ==> {WriteOp, SeekOp, HeadOp} <= opMask && opDeadline >= HoldEnd(trace))
    }

    ghost predicate Gated()
      reads this`trace, this`wgate
    {
      Safe(trace) && Gate(trace) == wgate
    }

    ghost predicate Valid()
      reads this
    {
      && Tracking() && sensorOn && Holding() && Gated()
      && (wgate <==> state == WriteFlux || state == EraseFlux)
      && (state == WriteFluxWaitIndex ==> now >= HoldEnd(trace))
    }

    /** delay_us, or anything else that takes time. */
    method Elapse(us: nat)
      requires Holding()
      modifies this`now
      ensures Holding() && now >= old(now) + us
    {
      now := now + us;
    }

    /* ---- Operation delays ---------------------------------------------------------------- */

    /** For `usec` from `since`, the operations in `mask` have been, or are being, held off. */
    ghost predicate Delayed(mask: set<Op>, since: int, usec: nat)
      reads this`now, this`opMask, this`opDeadline
    {
      now >= since + usec || (mask <= opMask && opDeadline >= since + usec)
    }

    /** Since `from`, nothing was done but stepping, if that. */
    ghost predicate Stepped(from: seq<Act>)
      reads this`trace, this`now
    {
      && from <= trace
      && forall i :: |from| <= i < |trace| ==> trace[i].StepPulse? && trace[i].at <= now
    }

    /** The settling time runs from the last step since `from`. */
    ghost predicate Settling(from: seq<Act>)
      reads this`trace, this`now, this`opMask, this`opDeadline, this`delays
    {
      |trace| > |from| ==>
        Delayed({ReadOp, WriteOp, SeekOp}, trace[|trace| - 1].at, 1000 * delays.seekSettle)
    }

    /** op_delay_async: a delay that is running is never shortened; very long delays are
        waited for on the spot. */
    method OpDelayAsync(mask: set<Op>, usec: nat)
      modifies this`now, this`opMask, this`opDeadline
      ensures usec > 1000000 ==> now >= old(now) + usec && opMask == old(opMask) && opDeadline == old(opDeadline)
      ensures usec <= 1000000 ==> now == old(now) && opMask == old(opMask) + mask && opDeadline >= now + usec
      ensures old(opMask) != {} ==> opDeadline >= old(opDeadline)
      ensures old(Holding()) ==> Holding()
      ensures Delayed(mask, old(now), usec)
    {
      if usec > 1000000 {
        now := now + usec;
        return;
      }
      var deadline := now + usec;
      if opMask != {} && opDeadline - deadline > 0 {
        deadline := opDeadline;
      }
      opMask := opMask + mask;
      opDeadline := deadline;
    }

    /** op_delay_timer, run when its time has come. */
    method OpDelayTimer()
      requires Holding() && now >= opDeadline
      modifies this`opMask
      ensures Holding() && opMask == {}
    {
      opMask := {};
    }

    /** op_delay_wait: the timer's interrupt ends the wait. */
    method OpDelayWait(mask: set<Op>)
      requires Holding()
      modifies this`now, this`opMask
      ensures Holding() && now >= old(now) && forall op :: op in mask ==> op !in opMask
      ensures if old(opMask) * mask == {} then now == old(now) && opMask == old(opMask)
              else now >= opDeadline && opMask == {}
      ensures WriteOp in mask || SeekOp in mask || HeadOp in mask ==> now >= HoldEnd(trace)
    {
      if opMask * mask != {} {
        Elapse(Max(0, opDeadline - now));
        OpDelayTimer();
      }
      Disjoint(mask, opMask);
      if WriteOp in mask || SeekOp in mask || HeadOp in mask {
        NoneLeft(mask, opMask);
      }
    }

    lemma Disjoint(mask: set<Op>, pending: set<Op>)
      requires pending * mask == {}
      ensures forall op :: op in mask ==> op !in pending
    {
      assert forall op :: op in mask && op in pending ==> op in pending * mask;
    }

    lemma NoneLeft(mask: set<Op>, pending: set<Op>)
      requires pending * mask == {} && (WriteOp in mask || SeekOp in mask || HeadOp in mask)
      ensures !({WriteOp, SeekOp, HeadOp} <= pending)
    {
      Disjoint(mask, pending);
    }

    /* ---- Moving the head -------------------------------------------------------------------- */

    /** step_dir_set. */
    method StepDirSet(inwards: bool)
      requires Holding()
      modifies this`dirIn, this`dirAt, this`now
      ensures Holding() && dirIn == inwards && now >= dirAt + 10 && dirAt == old(now)
    {
      dirIn := inwards;
      dirAt := now;
      Elapse(10);
    }

    /** The direction line is stable, and the drive has come to rest since it was last
        stepped, if that was the other way. */
    ghost predicate Rested(settle: nat)
      reads this`trace, this`now
    {
      trace != [] && trace[|trace| - 1].StepPulse? ==> now >= trace[|trace| - 1].at + settle
    }

    /** delay_ms of the settling time. */
    method Settle()
      requires Holding()
      modifies this`now
      ensures Holding() && now >= old(now) + 1000 * delays.seekSettle && Rested(1000 * delays.seekSettle)
    {
      hide HoldEnd;
      now := now + 1000 * delays.seekSettle;
    }

    /** step_once: one pulse on the step line. */
    method StepOnce()
      requires Shape() && Holding() && Gated() && !wgate && now >= HoldEnd(trace) && unitNr >= 0 && Steady()
      modifies this`pos, this`now, this`trace
      ensures Holding() && Gated() && now >= HoldEnd(trace) && now >= old(now) + 15 + delays.stepDelay
      ensures trace == old(trace) + [StepPulse(old(now))]
      ensures pos == old(pos)[unitNr := Moved(kinds[unitNr], last[unitNr], old(pos)[unitNr], sensorOn, dirIn)]
      ensures old(trace) <= trace
    {
      hide Gate, HoldEnd, Safe;
      TraceNext(trace, StepPulse(now));
      trace := trace + [StepPulse(now)];
      pos := pos[unitNr := Moved(kinds[unitNr], last[unitNr], pos[unitNr], sensorOn, dirIn)];
      Elapse(15 + delays.stepDelay);
    }

    /** get_trk0() == LOW, for the selected drive. */
    predicate Trk0()
      requires Shape() && unitNr >= 0
      reads this`pos, this`units, this`unitNr, this`busType, this`sensorOn
    {
      Sensor(kinds[unitNr], pos[unitNr], sensorOn)
    }

    /** What steps require, and leave as it was. */
    ghost predicate Stepping()
      reads this`trace, this`now, this`opMask, this`opDeadline, this`wgate, this`unitNr
    {
      Holding() && Gated() && !wgate && now >= HoldEnd(trace) && unitNr >= 0
    }

    /** The direction line has been stable long enough for a step. */
    ghost predicate Steady()
      reads this`now, this`dirAt
    {
      now >= dirAt + 10
    }

    /** One pulse to a drive about whose head nothing is known yet. */
    method Probe()
      requires Tracking() && Stepping() && Steady() && !units[unitNr].initialised
      modifies this`pos, this`now, this`trace
      ensures Tracking() && Stepping() && Steady() && now >= old(now) && trace == old(trace) + [StepPulse(old(now))]
      ensures pos == old(pos)[unitNr := Moved(kinds[unitNr], last[unitNr], old(pos)[unitNr], sensorOn, dirIn)]
      ensures old(trace) <= trace
    {
      hide AllKnown, Gated, Holding, HoldEnd;
      ghost var p := Moved(kinds[unitNr], last[unitNr], pos[unitNr], sensorOn, dirIn);
      KnownAt(pos, units, busType, unitNr);
      KnownNext(pos, units, busType, unitNr, p, units[unitNr]);
      assert units[unitNr := units[unitNr]] == units;
      StepOnce();
    }

    /** floppy_seek_initialise, first loop: outwards until the sensor answers. */
    method FindTrk0() returns (found: bool)
      requires Tracking() && sensorOn && Stepping() && !units[unitNr].initialised
      modifies this`pos, this`now, this`trace, this`dirIn, this`dirAt
      ensures Tracking() && Stepping() && Stepped(old(trace)) && now >= old(now) + 10
      ensures pos == old(pos)[unitNr := pos[unitNr]]
      ensures found ==> Trk0() && pos[unitNr] == Min(old(pos[unitNr]), 0)
      ensures found <==> old(pos[unitNr]) <= 255 && (kinds[unitNr] == Loose ==> old(pos[unitNr]) >= 0)
      ensures old(trace) <= trace
    {
      hide AllKnown, Gated, Holding, HoldEnd;
      StepDirSet(false);
      var nr := 0;
      while nr < 256
        invariant old(trace) <= trace
        invariant Tracking() && Stepping() && Steady() && !dirIn && Stepped(old(trace)) && now >= old(now) + 10
        invariant pos == old(pos)[unitNr := pos[unitNr]] && 0 <= nr <= 256
        invariant pos[unitNr] == old(pos[unitNr]) - nr
        invariant nr > 0 && (kinds[unitNr] == Loose ==> old(pos[unitNr]) >= 0) ==> pos[unitNr] >= 0
      {
        if Trk0() {
          return true;
        }
        Probe();
        nr := nr + 1;
      }
      found := false;
    }

    /** flippy_detect. */
    method FlippyDetect() returns (isFlippy: bool)
      requires Shape() && unitNr >= 0 && sensorOn && Trk0()
      modifies this`sensorOn
      ensures sensorOn && (isFlippy <==> kinds[unitNr] == Flippy)
    {
      sensorOn := false;
      isFlippy := !Trk0();
      sensorOn := true;
    }

    /** floppy_seek_initialise, second loop: a flippy drive may be anywhere at or outside
        cylinder 0, so inwards until the sensor lets go, at cylinder 1. */
    method FindCyl1() returns (found: bool)
      requires Tracking() && sensorOn && Stepping() && !units[unitNr].initialised
      requires kinds[unitNr] == Flippy && Trk0() && Rested(1000 * delays.seekSettle)
      modifies this`pos, this`now, this`trace, this`dirIn, this`dirAt
      ensures Tracking() && Stepping() && Stepped(old(trace)) && now >= old(now) + 10
      ensures pos == old(pos)[unitNr := pos[unitNr]]
      ensures found <==> pos[unitNr] == 1
      ensures found <==> old(pos[unitNr]) >= -9
      ensures old(trace) <= trace
    {
      hide AllKnown, Gated, Holding, HoldEnd;
      StepDirSet(true);
      var nr := 0;
      while nr < 10
        invariant old(trace) <= trace
        invariant 0 <= nr <= 10 && Tracking() && Stepping() && Steady() && dirIn && Stepped(old(trace)) && now >= old(now) + 10
        invariant pos == old(pos)[unitNr := pos[unitNr]]
        invariant pos[unitNr] == old(pos[unitNr]) + nr <= 0
      {
        Probe();
        if !Trk0() {
          return true;
        }
        nr := nr + 1;
      }
      found := false;
    }

    /** Where floppy_seek_initialise finds the head, and in what kind of drive. */
    method FindHead() returns (found: bool, cyl: int, isFlippy: bool)
      requires Tracking() && sensorOn && Stepping() && !units[unitNr].initialised
      modifies this`pos, this`now, this`trace, this`dirIn, this`dirAt, this`sensorOn
      ensures Tracking() && sensorOn && Stepping() && Stepped(old(trace)) && now >= old(now)
      ensures pos == old(pos)[unitNr := pos[unitNr]]
      ensures found ==> cyl == pos[unitNr] == (if isFlippy then 1 else 0) && (isFlippy <==> kinds[unitNr] == Flippy)
      ensures found <==> Findable(kinds[unitNr], old(pos[unitNr]))
      ensures old(trace) <= trace
    {
      hide Gated, Holding, HoldEnd;
      cyl, isFlippy := units[unitNr].cyl, units[unitNr].isFlippy;
      found := FindTrk0();
      if !found {
        return;
      }
      cyl := 0;
      isFlippy := FlippyDetect();
      KnownAt(pos, units, busType, unitNr);
      hide AllKnown;
      if isFlippy {
        Settle();
        found := FindCyl1();
        if found {
          cyl := 1;
        }
      }
    }

    /** A unit once its head has been found: at cylinder 0, or 1 of a flippy drive. */
    function Located(nr: nat, u: Unit): Unit
      requires nr < |kinds|
    {
      if u.initialised then u
      else u.(cyl := if kinds[nr] == Flippy then 1 else 0, initialised := true, isFlippy := kinds[nr] == Flippy, astray := false)
    }

    /** The answer to a seek for a selected unit, with its head at `p`. */
    function SeekAnswer(nr: nat, u: Unit, p: int, cyl: int): Ack
      requires nr < |kinds|
    {
      if !u.initialised && !Findable(kinds[nr], p) then NoTrk0
      else if cyl < (if Located(nr, u).isFlippy then -8 else 0) then BadCylinder
      else Okay
    }

    /** What a seek makes of the unit and of the head's position. */
    ghost predicate Sought(nr: nat, u: Unit, p: int, cyl: int, u': Unit, p': int)
      requires nr < |kinds| == |last|
    {
      && u'.motor == u.motor
      && match SeekAnswer(nr, u, p, cyl)
        case Okay =>
          var l := Located(nr, u);
          u' == l.(cyl := cyl, astray := l.astray || cyl > last[nr]) && (!l.astray ==> p' == Min(cyl, last[nr]))
        case BadCylinder => u' == Located(nr, u) && p' == if u.initialised then p else u'.cyl
        case _ => !u'.initialised && !u'.astray
    }

    /** floppy_seek_initialise. */
    method FloppySeekInitialise() returns (rc: Ack)
      requires Tracking() && sensorOn && Stepping() && !units[unitNr].initialised
      modifies this`pos, this`now, this`trace, this`dirIn, this`dirAt, this`units, this`sensorOn
      ensures Tracking() && sensorOn && Stepping() && Stepped(old(trace)) && now >= old(now)
      ensures |trace| > |old(trace)| ==> now >= trace[|trace| - 1].at + 1000 * delays.seekSettle
      ensures pos == old(pos)[unitNr := pos[unitNr]] && units == old(units)[unitNr := units[unitNr]]
      ensures rc == (if Findable(kinds[unitNr], old(pos[unitNr])) then Okay else NoTrk0)
      ensures rc == Okay ==>
          units[unitNr] == Located(unitNr, old(units[unitNr])) && pos[unitNr] == units[unitNr].cyl
      ensures units[unitNr].motor == old(units[unitNr].motor)
      ensures rc == Okay <==> units[unitNr].initialised
      ensures !units[unitNr].astray
      ensures old(trace) <= trace
    {
      hide AllKnown, Gated, Holding, HoldEnd;
      var u := unitNr;
      var found, cyl, isFlippy := FindHead();
      KnownAt(pos, units, busType, u);
      var unit := units[u].(cyl := cyl, isFlippy := isFlippy, initialised := found, astray := false);
      KnownNext(pos, units, busType, u, pos[u], unit);
      assert pos[u := pos[u]] == pos;
      units := units[u := unit];
      rc := if found then Okay else NoTrk0;
      Settle();
    }

    /** The stepping of floppy_seek: `nr` pulses in the direction set. */
    method StepMany(nr: nat)
      requires Shape() && Stepping() && Steady()
      modifies this`pos, this`now, this`trace
      ensures Shape() && Stepping() && Steady() && Stepped(old(trace)) && |trace| == |old(trace)| + nr && now >= old(now)
      ensures pos == old(pos)[unitNr := MovedBy(kinds[unitNr], last[unitNr], old(pos)[unitNr], sensorOn, dirIn, nr)]
      ensures old(trace) <= trace
    {
      hide Gated, Holding, HoldEnd;
      var k := nr;
      while k > 0
        invariant old(trace) <= trace
        invariant 0 <= k <= nr && Shape() && Stepping() && Steady() && Stepped(old(trace)) && |trace| == |old(trace)| + nr - k
        invariant now >= old(now)
        invariant pos == old(pos)[unitNr := MovedBy(kinds[unitNr], last[unitNr], old(pos)[unitNr], sensorOn, dirIn, nr - k)]
      {
        StepOnce();
        k := k - 1;
      }
    }

    /** The part of floppy_seek that moves the head of an initialised unit: one whose
        position is known ends at the cylinder, or at the last if that comes first. */
    method MoveHead(cyl: int)
      requires Tracking() && sensorOn && Stepping() && units[unitNr].initialised && cyl != units[unitNr].cyl
      requires cyl >= 0 || units[unitNr].isFlippy
      modifies this`pos, this`now, this`trace, this`dirIn, this`dirAt, this`sensorOn
      ensures Shape() && sensorOn && Stepping() && pos == old(pos)[unitNr := pos[unitNr]]
      ensures pos[unitNr] <= last[unitNr] && (kinds[unitNr] == Standard ==> pos[unitNr] >= 0)
      ensures !units[unitNr].astray ==> pos[unitNr] == Min(cyl, last[unitNr])
      ensures Stepped(old(trace)) && |trace| > |old(trace)| && now >= old(now) + 10
      ensures old(trace) <= trace
    {
      hide Gated, Holding, HoldEnd;
      var u := units[unitNr];
      KnownAt(pos, units, busType, unitNr);
      hide AllKnown, MovedBy;
      var nr;
      if u.cyl < cyl {
        nr := cyl - u.cyl;
        StepDirSet(true);
      } else {
        if cyl < 0 {
          sensorOn := false;
        }
        nr := u.cyl - cyl;
        StepDirSet(false);
      }
      MovedFar(kinds[unitNr], last[unitNr], pos[unitNr], sensorOn, dirIn, nr);
      StepMany(nr);
      sensorOn := true;
    }

    /** A unit at, or said to be at, a cylinder that was asked for. */
    function Reached(u: Unit, cyl: int, nr: nat): Unit
      requires nr < |last|
    {
      u.(cyl := cyl, astray := u.astray || cyl > last[nr])
    }

    method SeekTo(cyl: int)
      requires Tracking() && sensorOn && Stepping() && units[unitNr].initialised
      requires cyl >= 0 || units[unitNr].isFlippy
      modifies this`pos, this`now, this`trace, this`dirIn, this`dirAt, this`units, this`sensorOn, this`opMask, this`opDeadline
      ensures Tracking() && sensorOn && Stepping() && Stepped(old(trace)) && Settling(old(trace)) && now >= old(now)
      ensures units == old(units)[unitNr := Reached(old(units)[unitNr], cyl, unitNr)]
      ensures pos == old(pos)[unitNr := pos[unitNr]]
      ensures !old(units[unitNr].astray) ==> pos[unitNr] == Min(cyl, last[unitNr])
      ensures old(trace) <= trace
    {
      hide Gated, Holding, HoldEnd;
      var u := unitNr;
      KnownAt(pos, units, busType, u);
      ghost var ps, us, unit := pos, units, Reached(units[u], cyl, u);
      if units[u].cyl == cyl {
        assert units[u := unit] == units && pos[u := pos[u]] == pos;
        return;
      }
      MoveHead(cyl);
      KnownNext(ps, us, busType, u, pos[u], unit);
      hide AllKnown;
      OpDelayAsync({ReadOp, WriteOp, SeekOp}, 1000 * delays.seekSettle);
      units := units[u := Reached(units[u], cyl, u)];
    }

    /** floppy_seek. */
    method FloppySeek(cyl: int) returns (rc: Ack)
      requires Tracking() && sensorOn && Holding() && Gated() && !wgate
      modifies this`pos, this`now, this`trace, this`dirIn, this`dirAt, this`units, this`sensorOn, this`opMask, this`opDeadline
      ensures Tracking() && sensorOn && Holding() && Gated() && now >= old(now)
      ensures rc == Okay ==> unitNr >= 0 && Stepping() && units[unitNr].initialised && units[unitNr].cyl == cyl
      ensures rc == Okay && !old(units[unitNr].astray) ==> pos[unitNr] == Min(cyl, last[unitNr])
      ensures unitNr >= 0 ==> (units[unitNr].astray <==> old(units[unitNr].astray) || (rc == Okay && cyl > last[unitNr]))
      ensures unitNr < 0 ==> rc == NoUnit && units == old(units)
      ensures unitNr >= 0 ==> units == old(units)[unitNr := units[unitNr]]
      ensures rc == Okay || (rc == NoUnit && unitNr < 0) || rc == NoTrk0 || (rc == BadCylinder && cyl < 0)
      ensures unitNr >= 0 ==> (rc == NoTrk0 <==> !units[unitNr].initialised)
      ensures unitNr >= 0 && old(units)[unitNr].initialised ==>
          && units[unitNr].initialised && units[unitNr].isFlippy == old(units)[unitNr].isFlippy
          && (rc == Okay <==> cyl >= if units[unitNr].isFlippy then -8 else 0)
      ensures unitNr >= 0 ==> units[unitNr].motor == old(units)[unitNr].motor
      ensures unitNr >= 0 ==>
          && rc == SeekAnswer(unitNr, old(units[unitNr]), old(pos[unitNr]), cyl)
          && Sought(unitNr, old(units[unitNr]), old(pos[unitNr]), cyl, units[unitNr], pos[unitNr])
          && pos == old(pos)[unitNr := pos[unitNr]]
      ensures unitNr < 0 ==> pos == old(pos)
      ensures Stepped(old(trace)) && Settling(old(trace))
      ensures old(trace) <= trace
    {
      hide AllKnown, Gated, Holding, HoldEnd, Settling, Stepped;
      if unitNr < 0 {
        rc := NoUnit;
        NotStepped();
      } else {
        KnownAt(pos, units, busType, unitNr);
        rc := SeekUnit(cyl);
      }
    }

    lemma NotStepped()
      ensures Stepped(trace) && Settling(trace)
    {
    }

    /** floppy_seek, for the selected unit. */
    method SeekUnit(cyl: int) returns (rc: Ack)
      requires Tracking() && sensorOn && Holding() && Gated() && !wgate && unitNr >= 0
      modifies this`pos, this`now, this`trace, this`dirIn, this`dirAt, this`units, this`sensorOn, this`opMask, this`opDeadline
      ensures Tracking() && sensorOn && Holding() && Gated() && now >= old(now) && (rc == Okay ==> Stepping())
      ensures rc == SeekAnswer(unitNr, old(units[unitNr]), old(pos[unitNr]), cyl)
      ensures Sought(unitNr, old(units[unitNr]), old(pos[unitNr]), cyl, units[unitNr], pos[unitNr])
      ensures units == old(units)[unitNr := units[unitNr]] && pos == old(pos)[unitNr := pos[unitNr]]
      ensures Stepped(old(trace)) && Settling(old(trace)) && old(trace) <= trace
    {
      hide AllKnown, Gated, Sought, SeekAnswer, HoldEnd, Findable;
      OpDelayWait({SeekOp});
      hide Holding;
      ghost var u, p := units[unitNr], pos[unitNr];
      if !units[unitNr].initialised {
        rc := FloppySeekInitialise();
        if rc != Okay {
          SoughtNot(unitNr, u, p, cyl, units[unitNr], pos[unitNr]);
          return;
        }
      }
      if cyl < (if units[unitNr].isFlippy then -8 else 0) {
        SoughtBad(unitNr, u, p, cyl, units[unitNr], pos[unitNr]);
        return BadCylinder;
      }
      SeekTo(cyl);
      SoughtOkay(unitNr, u, p, cyl, units[unitNr], pos[unitNr]);
      rc := Okay;
    }

    lemma SoughtNot(nr: nat, u: Unit, p: int, cyl: int, u': Unit, p': int)
      requires nr < |kinds| == |last| && !u.initialised && !Findable(kinds[nr], p)
      requires u'.motor == u.motor && !u'.initialised && !u'.astray
      ensures SeekAnswer(nr, u, p, cyl) == NoTrk0 && Sought(nr, u, p, cyl, u', p')
    {
    }

    lemma SoughtBad(nr: nat, u: Unit, p: int, cyl: int, u': Unit, p': int)
      requires nr < |kinds| == |last| && (u.initialised || Findable(kinds[nr], p))
      requires u' == Located(nr, u) && p' == (if u.initialised then p else u'.cyl) && cyl < if u'.isFlippy then -8 else 0
      ensures SeekAnswer(nr, u, p, cyl) == BadCylinder && Sought(nr, u, p, cyl, u', p')
    {
    }

    lemma SoughtOkay(nr: nat, u: Unit, p: int, cyl: int, u': Unit, p': int)
      requires nr < |kinds| == |last| && (u.initialised || Findable(kinds[nr], p))
      requires cyl >= if Located(nr, u).isFlippy then -8 else 0
      requires u' == Reached(Located(nr, u), cyl, nr) && (!Located(nr, u).astray ==> p' == Min(cyl, last[nr]))
      ensures SeekAnswer(nr, u, p, cyl) == Okay && Sought(nr, u, p, cyl, u', p')
    {
    }

    /** A step out from cylinder 0, which a drive should ignore; one that does not is
        brought back. */
    method NudgeOut() returns (ignored: bool)
      requires Tracking() && Stepping() && sensorOn
      modifies this`pos, this`now, this`trace, this`dirIn, this`dirAt
      ensures Shape() && Stepping() && old(trace) <= trace && pos == old(pos)[unitNr := pos[unitNr]]
      ensures pos[unitNr] <= last[unitNr] && (kinds[unitNr] == Standard ==> pos[unitNr] >= 0)
      ensures old(pos[unitNr]) == 0 ==> pos[unitNr] == 0 && (ignored <==> kinds[unitNr] != Loose)
      ensures Stepped(old(trace)) && now >= old(now) + 10
      ensures |trace| == |old(trace)| + if ignored then 1 else 2
      ensures !ignored ==> now >= trace[|trace| - 1].at + 1000 * delays.seekSettle
    {
      hide Gated, Holding, HoldEnd;
      KnownAt(pos, units, busType, unitNr);
      hide AllKnown;
      StepDirSet(false);
      StepOnce();
      ignored := Trk0();
      if !ignored {
        Settle();
        BackIn();
      }
    }

    /** The step back in: the drive has come to rest before it, and does so after it. */
    method BackIn()
      requires Shape() && Stepping() && Rested(1000 * delays.seekSettle)
      modifies this`pos, this`now, this`trace, this`dirIn, this`dirAt
      ensures Shape() && Stepping() && |trace| == |old(trace)| + 1 && old(trace) <= trace && now >= old(now)
      ensures trace[|old(trace)|].StepPulse? && trace[|old(trace)|].at <= now && Rested(1000 * delays.seekSettle)
      ensures pos == old(pos)[unitNr := Moved(kinds[unitNr], last[unitNr], old(pos)[unitNr], sensorOn, true)]
    {
      hide Gated, Holding, HoldEnd;
      StepDirSet(true);
      StepOnce();
      Settle();
    }

    /** What floppy_noclick_step makes of a unit and its position: the drive is at cylinder
        0 afterwards, and refused if it has no stop there. */
    ghost predicate ClickedNot(nr: nat, u: Unit, p: int, u': Unit, p': int, rc: Ack)
      requires nr < |kinds| == |last|
    {
      if SeekAnswer(nr, u, p, 0) == NoTrk0 then rc == NoTrk0 && !u'.initialised && !u'.astray && u'.motor == u.motor
      else
        && u' == Located(nr, u).(cyl := 0) && (rc == Okay || rc == BadCylinder)
        && (!u'.astray ==> p' == 0 && (rc == BadCylinder <==> kinds[nr] == Loose))
    }

    /** floppy_noclick_step. */
    method FloppyNoClickStep() returns (rc: Ack)
      requires Tracking() && sensorOn && Holding() && Gated() && !wgate
      modifies this`pos, this`now, this`trace, this`dirIn, this`dirAt, this`units, this`sensorOn, this`opMask, this`opDeadline
      ensures Tracking() && sensorOn && Holding() && Gated() && old(trace) <= trace && now >= old(now)
      ensures rc == Okay || rc == BadCylinder <==> unitNr >= 0 && units[unitNr].initialised
      ensures rc == Okay || rc == BadCylinder ==> units[unitNr].cyl == 0
      ensures unitNr >= 0 && old(units[unitNr].initialised) ==> units[unitNr].initialised
      ensures (rc == Okay || rc == BadCylinder) && !units[unitNr].astray ==>
          pos[unitNr] == 0 && (rc == BadCylinder <==> kinds[unitNr] == Loose)
      ensures NoneAstray(old(units))
      ensures unitNr < 0 ==> rc == NoUnit && units == old(units) && pos == old(pos)
      ensures unitNr >= 0 ==>
          && units == old(units)[unitNr := units[unitNr]] && pos == old(pos)[unitNr := pos[unitNr]]
          && ClickedNot(unitNr, old(units[unitNr]), old(pos[unitNr]), units[unitNr], pos[unitNr], rc)
      ensures rc == Okay || rc == BadCylinder ==> |trace| > |old(trace)|
    {
      hide Gated, Holding, HoldEnd;
      rc := FloppySeek(0);
      if rc != Okay {
        return;
      }
      KnownAt(pos, units, busType, unitNr);
      ghost var p := pos;
      var ignored := NudgeOut();
      KnownNext(p, units, busType, unitNr, pos[unitNr], units[unitNr]);
      assert units[unitNr := units[unitNr]] == units;
      rc := if ignored then Okay else BadCylinder;
    }

    /** Units are astray that were before, and no others. */
    ghost predicate NoneAstray(was: seq<Unit>)
      reads this`units
    {
      |was| == |units| && forall i :: 0 <= i < |units| && units[i].astray ==> was[i].astray
    }

    /* ---- Selecting drives ------------------------------------------------------------------- */

    /** drive_deselect; its ASSERT is about the line that selected the drive. */
    method DriveDeselect()
      requires Tracking()
      modifies this`unitNr
      ensures Tracking() && unitNr == -1
    {
      hide AllKnown;
      if unitNr == -1 {
        return;
      }
      assert (busType, unitNr) in wired;
      unitNr := -1;
    }

    /** drive_select. */
    method DriveSelect(nr: nat) returns (rc: Ack)
      requires Tracking() && Holding()
      modifies this`unitNr, this`now
      ensures Tracking() && Holding() && now >= old(now)
      ensures unitNr == if Selectable(busType, nr) then nr else -1
      ensures unitNr >= 0 && unitNr != old(unitNr) ==> now >= old(now) + delays.selectDelay
      ensures rc == if Selectable(busType, nr) then Okay else if busType == NoneBus then NoBus else BadUnit
    {
      hide AllKnown;
      if nr == unitNr {
        return Okay;
      }
      DriveDeselect();
      if busType == NoneBus {
        return NoBus;
      }
      if nr >= (if busType == IbmPc then 2 else UNITS) || (busType, nr) !in wired {
        return BadUnit;
      }
      unitNr := nr;
      Elapse(delays.selectDelay);
      rc := Okay;
    }

    /** Units whose motor this board can switch; one line serves all Shugart units. */
    predicate HasMotor(bus: Bus, nr: nat) {
      match bus
      case NoneBus => false
      case IbmPc => nr < 2 && (bus, nr) in motors
      case Shugart => nr < UNITS && (bus, 0) in motors
    }

    /** The answer of drive_motor, and what it makes of the units. */
    function MotorAnswer(bus: Bus, us: seq<Unit>, unit: nat, on: bool): Ack
      requires |us| == UNITS
    {
      if bus == NoneBus then NoBus
      else if unit >= (if bus == IbmPc then 2 else UNITS) then BadUnit
      else
        var nr := if bus == Shugart then 0 else unit;
        if us[nr].motor != on && (bus, nr) !in motors then BadUnit else Okay
    }

    function SetMotor(bus: Bus, us: seq<Unit>, unit: nat, on: bool): seq<Unit>
      requires |us| == UNITS && unit < UNITS
    {
      var nr := if bus == Shugart then 0 else unit;
      us[nr := us[nr].(motor := on)]
    }

    /** drive_motor. */
    method DriveMotor(unit: nat, on: bool) returns (rc: Ack)
      requires Tracking() && Holding()
      modifies this`units, this`now
      ensures Tracking() && Holding() && now >= old(now)
      ensures forall i :: 0 <= i < UNITS ==> units[i] == old(units)[i].(motor := units[i].motor)
      ensures rc == Okay ==> unit < UNITS && units[if busType == Shugart then 0 else unit].motor == on
      ensures rc == MotorAnswer(busType, old(units), unit, on)
      ensures units == if rc == Okay then SetMotor(busType, old(units), unit, on) else old(units)
      ensures NoneAstray(old(units))
      ensures HasMotor(busType, unit) ==> rc == Okay
      ensures on && units != old(units) ==> now >= old(now) + 1000 * delays.motorDelay
      ensures forall i :: 0 <= i < UNITS && i != unit && !(busType == Shugart && i == 0) ==> units[i] == old(units)[i]
      ensures !on ==> forall i :: 0 <= i < UNITS && units[i].motor ==> old(units)[i].motor
    {
      hide AllKnown, Holding;
      if busType == NoneBus {
        return NoBus;
      }
      if unit >= (if busType == IbmPc then 2 else UNITS) {
        return BadUnit;
      }
      var nr := if busType == Shugart then 0 else unit;
      if units[nr].motor == on {
        return Okay;
      }
      if (busType, nr) !in motors {
        return BadUnit;
      }
      MotorKnown(nr, on);
      units := units[nr := units[nr].(motor := on)];
      if on {
        Elapse(1000 * delays.motorDelay);
      }
      rc := Okay;
    }

    lemma MotorKnown(nr: nat, on: bool)
      requires Tracking() && nr < UNITS
      ensures AllKnown(pos, units[nr := units[nr].(motor := on)], busType)
    {
      KnownAt(pos, units, busType, nr);
      KnownNext(pos, units, busType, nr, pos[nr], units[nr].(motor := on));
      assert pos[nr := pos[nr]] == pos;
    }

    /* ---- The write gate ------------------------------------------------------------------------ */

    /** floppy_flux_end: the gate goes off, and writing, seeking and head changes are held
        off for the post-write delay. */
    method FloppyFluxEnd()
      requires Holding() && Gated()
      modifies this`wgate, this`trace, this`now, this`opMask, this`opDeadline
      ensures Holding() && Gated() && !wgate && now >= old(now)
      ensures trace == if old(wgate) then old(trace) + [GateOff(old(now), delays.postWrite)] else old(trace)
      ensures old(trace) <= trace
    {
      if wgate {
        TraceNext(trace, GateOff(now, delays.postWrite));
        hide Gate, HoldEnd, Safe;
        wgate := false;
        trace := trace + [GateOff(now, delays.postWrite)];
        OpDelayAsync({WriteOp, SeekOp, HeadOp}, delays.postWrite);
      }
    }

    /** The gate goes on. */
    method StartWriting()
      requires Holding() && Gated() && !wgate && now >= HoldEnd(trace)
      modifies this`wgate, this`trace
      ensures Holding() && Gated() && wgate && trace == old(trace) + [GateOn(now)]
      ensures old(trace) <= trace
    {
      TraceNext(trace, GateOn(now));
      hide Gate, HoldEnd, Safe;
      wgate := true;
      trace := trace + [GateOn(now)];
    }

    /** One unit and its head when the drives have been quiesced: a negative cylinder is
        left for 0, and a motor that can be switched is off. */
    ghost predicate Quiet(bus: Bus, i: nat, u: Unit, p: int, u': Unit, p': int) {
      && u' == (if u.initialised && u.cyl < 0 then u.(cyl := 0) else u).(motor := u'.motor)
      && (u'.motor ==> u.motor) && (u'.motor && (bus == Shugart ==> i == 0) ==> !HasMotor(bus, i))
      && (if u.initialised && u.cyl < 0 then !u.astray ==> p' == 0 else p' == p)
    }

    /** All of them up to `n`; of the others at most the motors are off. */
    ghost predicate Quieted(bus: Bus, us: seq<Unit>, ps: seq<int>, us': seq<Unit>, ps': seq<int>, n: nat) {
      && |us| == |ps| == |us'| == |ps'| == UNITS
      && (forall i :: 0 <= i < n && i < UNITS ==> Quiet(bus, i, us[i], ps[i], us'[i], ps'[i]))
      && forall i :: n <= i < UNITS ==>
          us'[i] == us[i].(motor := us'[i].motor) && (us'[i].motor ==> us[i].motor) && ps'[i] == ps[i]
    }

    /** quiesce_drives: afterwards no drive is at a negative cylinder that is known of. */
    method QuiesceDrives()
      requires Tracking() && sensorOn && Holding() && Gated()
      modifies this`wgate, this`trace, this`now, this`opMask, this`opDeadline
      modifies this`pos, this`dirIn, this`dirAt, this`units, this`sensorOn, this`unitNr
      ensures Tracking() && sensorOn && Holding() && Gated() && !wgate && unitNr == -1 && now >= old(now)
      ensures NoneAstray(old(units))
      ensures Quieted(busType, old(units), old(pos), units, pos, UNITS)
      ensures forall i :: 0 <= i < UNITS && units[i].initialised ==> units[i].cyl >= 0
      ensures forall i :: 0 <= i < UNITS && units[i].motor && (busType == Shugart ==> i == 0) ==> !HasMotor(busType, i)
      ensures old(trace) <= trace
    {
      hide AllKnown, Holding, Gated, HoldEnd, HasMotor, Quiet;
      FloppyFluxEnd();
      var i := 0;
      while i < UNITS
        invariant old(trace) <= trace && now >= old(now)
        invariant 0 <= i <= UNITS && Tracking() && sensorOn && Holding() && Gated() && !wgate
        invariant Quieted(busType, old(units), old(pos), units, pos, i)
      {
        ghost var us, ps := units, pos;
        QuiesceUnit(i);
        QuietNext(busType, old(units), old(pos), us, ps, units, pos, i);
        i := i + 1;
      }
      QuietMeans(busType, old(units), old(pos), units, pos);
      DriveDeselect();
    }

    lemma QuietNext(bus: Bus, us0: seq<Unit>, ps0: seq<int>, us: seq<Unit>, ps: seq<int>, us': seq<Unit>, ps': seq<int>, i: nat)
      requires i < UNITS && Quieted(bus, us0, ps0, us, ps, i) && |us'| == |ps'| == UNITS
      requires Quiet(bus, i, us[i], ps[i], us'[i], ps'[i])
      requires forall k :: 0 <= k < UNITS && k != i ==>
          us'[k] == us[k].(motor := us'[k].motor) && (us'[k].motor ==> us[k].motor) && ps'[k] == ps[k]
      ensures Quieted(bus, us0, ps0, us', ps', i + 1)
    {
      hide HasMotor;
    }

    lemma QuietMeans(bus: Bus, us: seq<Unit>, ps: seq<int>, us': seq<Unit>, ps': seq<int>)
      requires Quieted(bus, us, ps, us', ps', UNITS)
      ensures forall i :: 0 <= i < UNITS && us'[i].initialised ==> us'[i].cyl >= 0
      ensures forall i :: 0 <= i < UNITS && us'[i].motor && (bus == Shugart ==> i == 0) ==> !HasMotor(bus, i)
      ensures forall i :: 0 <= i < UNITS && us'[i].astray ==> us[i].astray
    {
      hide HasMotor;
    }

    method QuiesceUnit(i: nat)
      requires Tracking() && sensorOn && Holding() && Gated() && !wgate && i < UNITS
      modifies this`trace, this`now, this`opMask, this`opDeadline
      modifies this`pos, this`dirIn, this`dirAt, this`units, this`sensorOn, this`unitNr
      ensures Tracking() && sensorOn && Holding() && Gated() && now >= old(now)
      ensures Quiet(busType, i, old(units[i]), old(pos[i]), units[i], pos[i])
      ensures forall k :: 0 <= k < UNITS && k != i ==>
          units[k] == old(units)[k].(motor := units[k].motor) && (units[k].motor ==> old(units)[k].motor) && pos[k] == old(pos)[k]
      ensures old(trace) <= trace
    {
      hide Holding, Gated;
      if units[i].initialised && units[i].cyl < 0 {
        KnownAt(pos, units, busType, i);
        hide AllKnown;
        var rc := DriveSelect(i);
        rc := FloppySeek(0);
      }
      if units[i].motor {
        var rc := DriveMotor(i, false);
      }
    }

    /* ---- Commands ---------------------------------------------------------------------------- */

    /** CMD_HEAD. */
    method ChangeHead(h: nat)
      requires Holding() && Gated() && !wgate
      modifies this`head, this`now, this`trace, this`opMask, this`opDeadline
      ensures Holding() && Gated() && head == h && now >= old(now)
      ensures old(head) == h ==> trace == old(trace) && now == old(now)
      ensures old(head) != h ==>
          && |trace| == |old(trace)| + 1 && old(trace) <= trace && trace[|old(trace)|].HeadChange?
          && Delayed({WriteOp}, trace[|old(trace)|].at, delays.preWrite)
      ensures old(trace) <= trace
    {
      hide Gate, HoldEnd, Safe;
      if head != h {
        OpDelayWait({HeadOp});
        TraceNext(trace, HeadChange(now));
        trace := trace + [HeadChange(now)];
        head := h;
        OpDelayAsync({WriteOp}, delays.preWrite);
      }
    }

    /** Heads known to be at a negative cylinder are taken to 0, and no other is moved. */
    ghost predicate LeftAt0(us: seq<Unit>, ps: seq<int>, ps': seq<int>) {
      && |us| == |ps| == |ps'| == UNITS
      && forall i :: 0 <= i < UNITS ==>
          if us[i].initialised && us[i].cyl < 0 then !us[i].astray ==> ps'[i] == 0 else ps'[i] == ps[i]
    }

    /** _set_bus_type. */
    method ChangeBus(bus: Bus)
      requires Tracking() && sensorOn && Holding() && Gated()
      modifies this`wgate, this`trace, this`now, this`opMask, this`opDeadline
      modifies this`pos, this`dirIn, this`dirAt, this`units, this`sensorOn, this`unitNr, this`busType
      ensures Tracking() && sensorOn && Holding() && Gated() && !wgate && unitNr == -1 && busType == bus
      ensures old(trace) <= trace && NoneAstray(old(units)) && now >= old(now)
      ensures units == [FRESH, FRESH, FRESH, FRESH] && LeftAt0(old(units), old(pos), pos)
    {
      hide Holding, Gated;
      QuiesceDrives();
      busType := bus;
      units := [FRESH, FRESH, FRESH, FRESH];
      forall i | 0 <= i < UNITS
        ensures Known(i, pos[i], units[i], busType)
      {
        KnownFresh(i);
      }
    }

    lemma KnownFresh(i: nat)
      requires Shape() && i < UNITS && units == [FRESH, FRESH, FRESH, FRESH]
      requires pos[i] <= last[i] && (kinds[i] == Standard ==> pos[i] >= 0)
      ensures Known(i, pos[i], units[i], busType)
    {
    }

    /** floppy_erase_prep. */
    method FloppyErasePrep(wrprot: bool, us: nat) returns (rc: Ack)
      requires Valid() && state == CommandWait
      modifies this`now, this`opMask, this`wgate, this`trace, this`state, this`status, this`eraseEnd
      ensures Valid() && (rc == if wrprot then WrProt else Okay) && old(trace) <= trace && now >= old(now)
      ensures status == (if wrprot then old(status) else Okay) && (wrprot ==> eraseEnd == old(eraseEnd))
      ensures if wrprot then !wgate && trace == old(trace) && state == old(state)
              else wgate && state == EraseFlux && eraseEnd == now + us && trace == old(trace) + [GateOn(now)]
    {
      hide AllKnown, Holding, Gated, HoldEnd;
      OpDelayWait({WriteOp});
      if wrprot {
        return WrProt;
      }
      StartWriting();
      state, status, eraseEnd := EraseFlux, Okay, now + us;
      rc := Okay;
    }

    ghost function Seen(): View
      reads this
    {
      View(state, status, wgate, head, busType, unitNr, units, pos, delays, eraseEnd, now)
    }

    ghost predicate Whole(v: View) {
      && |kinds| == |last| == |v.units| == |v.pos| == UNITS
      && (v.unitNr == -1 || 0 <= v.unitNr < UNITS)
    }

    /** What a command of the drives does to `v`, and how it is answered. */
    ghost predicate Drives(c: Command, v: View, w: View, rc: Ack)
      requires Whole(v) && Whole(w)
    {
      match c
      case Seek(cyl) =>
        if v.unitNr < 0 then rc == NoUnit && w == v
        else
          var i := v.unitNr;
          && rc == SeekAnswer(i, v.units[i], v.pos[i], cyl)
          && Sought(i, v.units[i], v.pos[i], cyl, w.units[i], w.pos[i])
          && w == v.(units := v.units[i := w.units[i]], pos := v.pos[i := w.pos[i]])
      case Head(h) => if h <= 1 then rc == Okay && w == v.(head := h) else rc == BadCommand && w == v
      case SetParams(d) => rc == Okay && w == v.(delays := d)
      case Motor(unit, on) =>
        && rc == MotorAnswer(v.bus, v.units, unit, on)
        && w == if rc == Okay then v.(units := SetMotor(v.bus, v.units, unit, on)) else v
      case Select(unit) =>
        && rc == (if Selectable(v.bus, unit) then Okay else if v.bus == NoneBus then NoBus else BadUnit)
        && w == v.(unitNr := if Selectable(v.bus, unit) then unit else -1)
      case Deselect => rc == Okay && w == v.(unitNr := -1)
      case SetBusType(bus) => rc == Okay && if bus == v.bus then w == v else Rebused(v, w, bus, v.delays)
      case Reset => rc == Okay && Rebused(v, w, NoneBus, FACTORY)
      case NoClickStep =>
        if v.unitNr < 0 then rc == NoUnit && w == v
        else
          var i := v.unitNr;
          && ClickedNot(i, v.units[i], v.pos[i], w.units[i], w.pos[i], rc)
          && w == v.(units := v.units[i := w.units[i]], pos := v.pos[i := w.pos[i]])
      case _ => rc == Okay && w == v
    }

    /** A change of bus forgets the drives, which have been quiesced. */
    ghost predicate Rebused(v: View, w: View, bus: Bus, delays: Delays) {
      && LeftAt0(v.units, v.pos, w.pos)
      && w == v.(bus := bus, unitNr := -1, units := [FRESH, FRESH, FRESH, FRESH], pos := w.pos, delays := delays)
    }

    /** What a command does to `v`, apart from the time it takes, and how it is answered. */
    ghost predicate Commanded(c: Command, v: View, w: View, rc: Ack)
      requires Whole(v) && Whole(w)
    {
      match c
      case ReadFluxCmd => rc == Okay && w == v.(state := ReadFlux, status := Okay)
      case WriteFluxCmd(wrprot) =>
        if wrprot then rc == WrProt && w == v else rc == Okay && w == v.(state := WriteFluxWaitData, status := Okay)
      case EraseFluxCmd(wrprot, us) =>
        if wrprot then rc == WrProt && w == v
        else rc == Okay && w == v.(state := EraseFlux, status := Okay, wgate := true, eraseEnd := w.eraseEnd)
      case Transfer(into) => rc == Okay && w == v.(state := AfterCommand(c))
      case _ => Drives(c, v, w, rc)
    }

    /** A cylinder that is asked for is one that every drive has. */
    predicate Within(c: Command) {
      c.Seek? ==> forall i :: 0 <= i < |last| ==> c.cyl <= last[i]
    }

    /** The commands of process_command that act on the drives at once. */
    method DriveCommand(c: Command) returns (rc: Ack)
      requires Tracking() && sensorOn && Holding() && Gated() && !wgate
      modifies this`wgate, this`trace, this`now, this`opMask, this`opDeadline, this`head, this`delays
      modifies this`pos, this`dirIn, this`dirAt, this`units, this`sensorOn, this`unitNr, this`busType
      ensures Tracking() && sensorOn && Holding() && Gated() && !wgate && old(trace) <= trace && now >= old(now)
      ensures Drives(c, old(Seen()).(now := now), Seen(), rc)
      ensures Within(c) ==> NoneAstray(old(units))
    {
      hide AllKnown, Holding, Gated, HoldEnd, Drives, NoneAstray;
      match c {
        case Seek(_) => rc := StepCommand(c);
        case NoClickStep => rc := StepCommand(c);
        case SetBusType(_) => rc := BusCommand(c);
        case Reset => rc := BusCommand(c);
        case Motor(_, _) => rc := LineCommand(c);
        case Select(_) => rc := LineCommand(c);
        case _ => rc := SimpleCommand(c);
      }
    }

    method StepCommand(c: Command) returns (rc: Ack)
      requires c.Seek? || c.NoClickStep?
      requires Tracking() && sensorOn && Holding() && Gated() && !wgate
      modifies this`wgate, this`trace, this`now, this`opMask, this`opDeadline, this`head, this`delays
      modifies this`pos, this`dirIn, this`dirAt, this`units, this`sensorOn, this`unitNr, this`busType
      ensures Tracking() && sensorOn && Holding() && Gated() && !wgate && old(trace) <= trace && now >= old(now)
      ensures Drives(c, old(Seen()).(now := now), Seen(), rc)
      ensures Within(c) ==> NoneAstray(old(units))
    {
      hide AllKnown, Holding, Gated, HoldEnd, Sought, ClickedNot, SeekAnswer, MotorAnswer, SetMotor, LeftAt0;
      if c.Seek? {
        rc := FloppySeek(c.cyl);
      } else {
        rc := FloppyNoClickStep();
      }
    }

    method BusCommand(c: Command) returns (rc: Ack)
      requires c.SetBusType? || c.Reset?
      requires Tracking() && sensorOn && Holding() && Gated() && !wgate
      modifies this`wgate, this`trace, this`now, this`opMask, this`opDeadline, this`head, this`delays
      modifies this`pos, this`dirIn, this`dirAt, this`units, this`sensorOn, this`unitNr, this`busType
      ensures Tracking() && sensorOn && Holding() && Gated() && !wgate && old(trace) <= trace && now >= old(now)
      ensures Drives(c, old(Seen()).(now := now), Seen(), rc)
      ensures Within(c) ==> NoneAstray(old(units))
    {
      hide AllKnown, Holding, Gated, HoldEnd, Sought, ClickedNot, SeekAnswer, MotorAnswer, SetMotor, LeftAt0;
      rc := Okay;
      if c.Reset? {
        delays := FACTORY;
        ChangeBus(NoneBus);
      } else if c.bus != busType {
        ChangeBus(c.bus);
      }
    }

    method LineCommand(c: Command) returns (rc: Ack)
      requires c.Motor? || c.Select?
      requires Tracking() && sensorOn && Holding() && Gated() && !wgate
      modifies this`wgate, this`trace, this`now, this`opMask, this`opDeadline, this`head, this`delays
      modifies this`pos, this`dirIn, this`dirAt, this`units, this`sensorOn, this`unitNr, this`busType
      ensures Tracking() && sensorOn && Holding() && Gated() && !wgate && old(trace) <= trace && now >= old(now)
      ensures Drives(c, old(Seen()).(now := now), Seen(), rc)
      ensures Within(c) ==> NoneAstray(old(units))
    {
      hide AllKnown, Holding, Gated, HoldEnd, Sought, ClickedNot, SeekAnswer, MotorAnswer, SetMotor, LeftAt0;
      if c.Motor? {
        rc := DriveMotor(c.unit, c.on);
      } else {
        rc := DriveSelect(c.unit);
      }
    }

    method SimpleCommand(c: Command) returns (rc: Ack)
      requires !c.Seek? && !c.NoClickStep? && !c.SetBusType? && !c.Reset? && !c.Motor? && !c.Select?
      requires Tracking() && sensorOn && Holding() && Gated() && !wgate
      modifies this`wgate, this`trace, this`now, this`opMask, this`opDeadline, this`head, this`delays
      modifies this`pos, this`dirIn, this`dirAt, this`units, this`sensorOn, this`unitNr, this`busType
      ensures Tracking() && sensorOn && Holding() && Gated() && !wgate && old(trace) <= trace && now >= old(now)
      ensures Drives(c, old(Seen()).(now := now), Seen(), rc)
      ensures Within(c) ==> NoneAstray(old(units))
    {
      hide AllKnown, Holding, Gated, HoldEnd, Sought, ClickedNot, SeekAnswer, MotorAnswer, SetMotor, LeftAt0;
      rc := Okay;
      match c {
        case Head(h) =>
          if h > 1 {
            return BadCommand;
          }
          ChangeHead(h);
        case SetParams(d) =>
          delays := d;
        case Deselect =>
          DriveDeselect();
        case _ =>
      }
    }

    lemma NoneNew(us: seq<Unit>)
      requires us == units
      ensures NoneAstray(us)
    {
    }

    /** The state after a command. */
    function AfterCommand(c: Command): State {
      match c
      case ReadFluxCmd => ReadFlux
      case WriteFluxCmd(wrprot) => if wrprot then CommandWait else WriteFluxWaitData
      case EraseFluxCmd(wrprot, us) => if wrprot then CommandWait else EraseFlux
      case Transfer(into) => if into.SourceBytes? || into.SinkBytes? || into.UpdateBootloader? then into else CommandWait
      case _ => CommandWait
    }

    /** process_command. */
    method ProcessCommand(c: Command) returns (rc: Ack)
      requires Valid() && state == CommandWait
      modifies this
      ensures Valid() && old(trace) <= trace
      ensures wgate ==> c.EraseFluxCmd? && !c.wrprot
      ensures now >= old(now) && Commanded(c, old(Seen()).(now := now), Seen(), rc)
      ensures c.EraseFluxCmd? && !c.wrprot ==> eraseEnd == now + c.us
      ensures Within(c) ==> NoneAstray(old(units))
      ensures c.ReadFluxCmd? ==> ReadOp !in opMask
      ensures state == AfterCommand(c)
    {
      hide AllKnown, Holding, Gated, HoldEnd, Drives, Within, NoneAstray;
      NoneNew(units);
      if c.ReadFluxCmd? || c.WriteFluxCmd? || c.EraseFluxCmd? {
        rc := FluxCommand(c);
      } else {
        rc := Okay;
        if !c.Transfer? {
          rc := DriveCommand(c);
        } else if c.into.SourceBytes? || c.into.SinkBytes? || c.into.UpdateBootloader? {
          state := c.into;
        }
      }
    }

    /** floppy_read_prep, floppy_write_prep and floppy_erase_prep. */
    method FluxCommand(c: Command) returns (rc: Ack)
      requires Valid() && state == CommandWait && (c.ReadFluxCmd? || c.WriteFluxCmd? || c.EraseFluxCmd?)
      modifies this`now, this`opMask, this`wgate, this`trace, this`state, this`status, this`eraseEnd
      ensures Valid() && old(trace) <= trace && (wgate ==> c.EraseFluxCmd? && !c.wrprot)
      ensures now >= old(now) && Commanded(c, old(Seen()).(now := now), Seen(), rc)
      ensures c.EraseFluxCmd? && !c.wrprot ==> eraseEnd == now + c.us
      ensures c.ReadFluxCmd? ==> ReadOp !in opMask
    {
      hide AllKnown, Holding, Gated, HoldEnd, Drives;
      rc := Okay;
      match c {
        case ReadFluxCmd =>
          OpDelayWait({ReadOp});
          state, status := ReadFlux, Okay;
        case WriteFluxCmd(wrprot) =>
          if wrprot {
            return WrProt;
          }
          state, status := WriteFluxWaitData, Okay;
        case EraseFluxCmd(wrprot, us) =>
          rc := FloppyErasePrep(wrprot, us);
      }
    }

    /* ---- The main loop -------------------------------------------------------------------------- */

    /** Ends a write, well or badly. */
    method EndWrite(result: Ack)
      requires Valid()
      modifies this`wgate, this`trace, this`now, this`opMask, this`opDeadline, this`state, this`status
      ensures Valid() && !wgate && state == WriteFluxDrain && old(trace) <= trace && status == result && now >= old(now)
    {
      hide AllKnown, Holding, Gated, HoldEnd;
      FloppyFluxEnd();
      status := result;
      state := WriteFluxDrain;
    }

    /** floppy_write_wait_data, once the stream is buffered (`ready`) or found `bad`. */
    method FloppyWriteWaitData(f: Found)
      requires Valid() && state == WriteFluxWaitData
      modifies this`wgate, this`trace, this`now, this`opMask, this`opDeadline, this`state, this`status
      ensures Valid() && !wgate && old(trace) <= trace && now >= old(now)
      ensures state == if f.bad then WriteFluxDrain else if f.ready then WriteFluxWaitIndex else WriteFluxWaitData
      ensures status == if f.bad then BadCommand else old(status)
      ensures state == WriteFluxWaitIndex ==> WriteOp !in opMask
    {
      hide AllKnown, Holding, Gated, HoldEnd;
      if f.bad {
        EndWrite(BadCommand);
      } else if f.ready {
        OpDelayWait({WriteOp});
        state := WriteFluxWaitIndex;
      }
    }

    /** floppy_write_wait_index: `ready` if the index has come, or is not waited for. */
    method FloppyWriteWaitIndex(f: Found)
      requires Valid() && state == WriteFluxWaitIndex
      modifies this`wgate, this`trace, this`now, this`opMask, this`opDeadline, this`state, this`status
      ensures Valid() && old(trace) <= trace && (wgate <==> f.ready) && now >= old(now)
      ensures status == if !f.ready && f.late then NoIndex else old(status)
      ensures state == if f.ready then WriteFlux else if f.late then WriteFluxDrain else WriteFluxWaitIndex
    {
      hide AllKnown, Holding, Gated, HoldEnd;
      if f.ready {
        StartWriting();
        state := WriteFlux;
      } else if f.late {
        EndWrite(NoIndex);
      }
    }

    /** floppy_write: until the stream is `finished` and played, `bad`, or runs dry (`late`). */
    method FloppyWrite(f: Found)
      requires Valid() && state == WriteFlux
      modifies this`wgate, this`trace, this`now, this`opMask, this`opDeadline, this`state, this`status
      ensures Valid() && old(trace) <= trace && (wgate <==> !f.bad && !f.finished && !f.late) && now >= old(now)
      ensures state == if f.bad || f.finished || f.late then WriteFluxDrain else WriteFlux
      ensures status == if f.bad then BadCommand else if !f.finished && f.late then FluxUnderflow else old(status)
    {
      hide AllKnown, Holding, Gated, HoldEnd;
      if f.bad {
        EndWrite(BadCommand);
      } else if f.finished {
        EndWrite(status);
      } else if f.late {
        EndWrite(FluxUnderflow);
      }
    }

    /** floppy_erase. */
    method FloppyErase()
      requires Valid() && state == EraseFlux
      modifies this`wgate, this`trace, this`now, this`opMask, this`opDeadline, this`state
      ensures Valid() && old(trace) <= trace && now >= old(now)
      ensures old(now) - eraseEnd >= 0 <==> !wgate
      ensures state == if wgate then EraseFlux else CommandWait
    {
      hide AllKnown, Holding, Gated, HoldEnd;
      if now - eraseEnd >= 0 {
        FloppyFluxEnd();
        state := CommandWait;
      }
    }

    /** floppy_configure. */
    method FloppyConfigure()
      requires Tracking() && sensorOn && Holding() && Gated()
      modifies this`wgate, this`trace, this`now, this`opMask, this`opDeadline, this`state
      ensures Valid() && !wgate && state == CommandWait && old(trace) <= trace && now >= old(now)
    {
      hide AllKnown, Holding, Gated, HoldEnd;
      FloppyFluxEnd();
      state := CommandWait;
    }

    /** The state after a poll, in each state; `over` if an erase has lasted its time. */
    function AfterPoll(s: State, f: Found, over: bool): State {
      match s
      case WriteFluxWaitData => if f.bad then WriteFluxDrain else if f.ready then WriteFluxWaitIndex else s
      case WriteFluxWaitIndex => if f.ready then WriteFlux else if f.late then WriteFluxDrain else s
      case WriteFlux => if f.bad || f.finished || f.late then WriteFluxDrain else s
      case EraseFlux => if over then CommandWait else s
      case ReadFlux => if f.bad || f.finished || f.late then ReadFluxDrain else s
      case ReadFluxDrain => if f.ready then (if f.finished then Zlp else CommandWait) else s
      case WriteFluxDrain => if !f.bad && f.finished && f.ready then CommandWait else s
      case Zlp => if f.ready then CommandWait else s
      case SourceBytes => if f.ready then CommandWait else s
      case SinkBytes => if f.ready then CommandWait else s
      case UpdateBootloader => if f.ready then CommandWait else s
      case _ => s
    }

    /** floppy_process, other than for commands. */
    method FloppyProcess(f: Found)
      requires Valid()
      modifies this
      ensures Valid() && old(trace) <= trace && units == old(units) && pos == old(pos)
      ensures wgate && !old(wgate) ==> old(state) == WriteFluxWaitIndex && f.ready && state == WriteFlux
      ensures !wgate && old(wgate) ==> state == WriteFluxDrain || (old(state) == EraseFlux && state == CommandWait)
      ensures now >= old(now) && Seen() == Polled(old(Seen()), f).(now := now)
    {
      hide AllKnown, Holding, Gated, HoldEnd;
      if state.EraseFlux? || state.ReadFlux? {
        TimedPoll(f);
      } else if state.WriteFluxWaitData? || state.WriteFluxWaitIndex? || state.WriteFlux? {
        WritePoll(f);
      } else {
        LastPoll(f);
      }
    }

    method TimedPoll(f: Found)
      requires Valid() && (state == EraseFlux || state == ReadFlux)
      modifies this`wgate, this`trace, this`now, this`opMask, this`opDeadline, this`state, this`status
      ensures Valid() && old(trace) <= trace
      ensures now >= old(now) && Seen() == Polled(old(Seen()), f).(now := now)
    {
      hide AllKnown, Holding, Gated, HoldEnd;
      match state {
        case EraseFlux => FloppyErase();
        case ReadFlux => FloppyRead(f);
      }
    }

    method WritePoll(f: Found)
      requires Valid() && (state == WriteFluxWaitData || state == WriteFluxWaitIndex || state == WriteFlux)
      modifies this`wgate, this`trace, this`now, this`opMask, this`opDeadline, this`state, this`status
      ensures Valid() && old(trace) <= trace
      ensures now >= old(now) && Seen() == Polled(old(Seen()), f).(now := now)
    {
      hide AllKnown, Holding, Gated, HoldEnd;
      match state {
        case WriteFluxWaitData => FloppyWriteWaitData(f);
        case WriteFluxWaitIndex => FloppyWriteWaitIndex(f);
        case WriteFlux => FloppyWrite(f);
      }
    }

    /** The states at the end of what a command has started. */
    method LastPoll(f: Found)
      requires Valid() && !state.EraseFlux? && !state.ReadFlux?
      requires !state.WriteFluxWaitData? && !state.WriteFluxWaitIndex? && !state.WriteFlux?
      modifies this`wgate, this`trace, this`now, this`opMask, this`opDeadline, this`state, this`status
      ensures Valid() && old(trace) <= trace
      ensures now >= old(now) && Seen() == Polled(old(Seen()), f).(now := now)
    {
      hide AllKnown, Holding, Gated, HoldEnd;
      match state {
        case ReadFluxDrain =>
          if f.ready {
            state := if f.finished then Zlp else CommandWait;
          }
        case WriteFluxDrain =>
          if f.bad {
            EndWrite(BadCommand);
          } else if f.finished && f.ready {
            state := CommandWait;
          }
        case Zlp | SourceBytes | SinkBytes | UpdateBootloader =>
          if f.ready {
            state := CommandWait;
          }
        case _ =>
      }
    }

    /** floppy_read in ST_read_flux. */
    method FloppyRead(f: Found)
      requires Valid() && state == ReadFlux
      modifies this`wgate, this`trace, this`now, this`opMask, this`opDeadline, this`state, this`status
      ensures Valid() && !wgate && old(trace) <= trace && now >= old(now)
      ensures state == if f.bad || f.finished || f.late then ReadFluxDrain else ReadFlux
      ensures status == if f.bad then FluxOverflow else if !f.finished && f.late then NoIndex else old(status)
    {
      hide AllKnown, Holding, Gated, HoldEnd;
      if f.bad || f.finished || f.late {
        FloppyFluxEnd();
        status := if f.bad then FluxOverflow else if f.finished then status else NoIndex;
        state := ReadFluxDrain;
      }
    }

    /** The status after a poll, which a read or write ends with. */
    function StatusAfter(s: State, f: Found, status: Ack): Ack {
      match s
      case ReadFlux => if f.bad then FluxOverflow else if !f.finished && f.late then NoIndex else status
      case WriteFluxWaitData => if f.bad then BadCommand else status
      case WriteFluxWaitIndex => if !f.ready && f.late then NoIndex else status
      case WriteFlux => if f.bad then BadCommand else if !f.finished && f.late then FluxUnderflow else status
      case WriteFluxDrain => if f.bad then BadCommand else status
      case _ => status
    }

    /** What a poll does, apart from the time it takes. */
    function Polled(v: View, f: Found): View {
      var s := AfterPoll(v.state, f, v.now >= v.eraseEnd);
      v.(state := s, status := StatusAfter(v.state, f, v.status), wgate := s == WriteFlux || s == EraseFlux)
    }

    /** A poll brings the device back to waiting for a command exactly so: when an erase has
        lasted its time, when the last packet of a read or of a transfer can be sent, and when
        a write has been decoded to its end and its status can be sent. */
    lemma BackToWait(s: State, f: Found, over: bool)
      requires s != CommandWait
      ensures AfterPoll(s, f, over) == CommandWait <==>
          match s
          case EraseFlux => over
          case ReadFluxDrain => f.ready && !f.finished
          case WriteFluxDrain => f.ready && f.finished && !f.bad
          case Zlp => f.ready
          case SourceBytes => f.ready
          case SinkBytes => f.ready
          case UpdateBootloader => f.ready
          case _ => false
    {
    }

    /** How many polls the states are from waiting for a command when nothing holds them up. */
    function Distance(s: State): nat {
      match s
      case Inactive => 0
      case CommandWait => 0
      case ReadFlux => 3
      case ReadFluxDrain => 2
      case WriteFluxWaitData => 4
      case WriteFluxWaitIndex => 3
      case WriteFlux => 2
      case WriteFluxDrain => 1
      case _ => 1
    }

    /** Nothing holds a poll up: the data is all there, the endpoints are free, and it is
        late enough for whatever is waited for. */
    predicate Unhindered(f: Found, over: bool) {
      f.ready && f.finished && !f.bad && f.late && over
    }

    /** Then it brings the device nearer to waiting for a command. */
    lemma NearerToWait(s: State, f: Found, over: bool)
      requires Unhindered(f, over) && Distance(s) > 0
      ensures Distance(AfterPoll(s, f, over)) < Distance(s)
    {
    }

    /** A poll finds a failure. */
    predicate Fails(s: State, f: Found) {
      match s
      case ReadFlux => f.bad || (!f.finished && f.late)
      case WriteFluxWaitData => f.bad
      case WriteFluxWaitIndex => !f.ready && f.late
      case WriteFlux => f.bad || (!f.finished && f.late)
      case WriteFluxDrain => f.bad
      case _ => false
    }

    function PolledAll(v: View, fs: seq<Found>): View {
      if fs == [] then v else Polled(PolledAll(v, fs[..|fs| - 1]), fs[|fs| - 1])
    }

    lemma OneFailure(v: View, f: Found)
      ensures Polled(v, f).status == Okay <==> v.status == Okay && !Fails(v.state, f)
    {
    }

    /** None of the polls does. */
    predicate AllWell(v: View, fs: seq<Found>) {
      if fs == [] then true
      else AllWell(v, fs[..|fs| - 1]) && !Fails(PolledAll(v, fs[..|fs| - 1]).state, fs[|fs| - 1])
    }

    /** The status of a read or write stays Okay exactly as long as no poll finds a failure,
        whichever states it goes through. */
    lemma {:induction false} OkayUnlessFailed(v: View, fs: seq<Found>)
      ensures PolledAll(v, fs).status == Okay <==> v.status == Okay && AllWell(v, fs)
    {
      if fs != [] {
        hide Polled, Fails;
        var n := |fs| - 1;
        OkayUnlessFailed(v, fs[..n]);
        OneFailure(PolledAll(v, fs[..n]), fs[n]);
      }
    }

    /** What an event does, from one view to the next, and how a command is answered. */
    ghost predicate Turn(e: Event, v: View, w: View, rc: Ack) {
      && Whole(v) && Whole(w) && w.now >= v.now
      && var u := v.(now := w.now);
        match e
        case Process(cmd) =>
          if v.state == CommandWait then
            Commanded(cmd, u, w, rc) && (cmd.EraseFluxCmd? && !cmd.wrprot ==> w.eraseEnd == w.now + cmd.us)
          else w == u
        case Poll(found) => w == (if v.state == CommandWait then v else Polled(v, found)).(now := w.now)
        case Watchdog => Quieted(v.bus, v.units, v.pos, w.units, w.pos, UNITS)
            && w == u.(state := CommandWait, wgate := false, unitNr := -1, units := w.units, pos := w.pos)
        case UsbReset => Quieted(v.bus, v.units, v.pos, w.units, w.pos, UNITS)
            && w == u.(state := Inactive, wgate := false, unitNr := -1, units := w.units, pos := w.pos)
        case Configure => w == u.(state := CommandWait, wgate := false)
        case TimerFires => w == u
        case Wait(us) => w == u && w.now >= v.now + us
    }

    /** Anything that can happen; `rc` is the answer to a command. */
    method Step(e: Event) returns (rc: Ack)
      requires Valid()
      modifies this
      ensures Valid() && old(trace) <= trace && Turn(e, old(Seen()), Seen(), rc)
      ensures e.TimerFires? && old(now) >= old(opDeadline) ==> opMask == {}
      ensures e.Process? ==> Within(e.cmd) ==> NoneAstray(old(units))
      ensures !e.Process? ==> NoneAstray(old(units))
      ensures e.Watchdog? || e.UsbReset? ==> forall i :: 0 <= i < UNITS && units[i].initialised ==> units[i].cyl >= 0
    {
      hide AllKnown, Holding, Gated, HoldEnd, Turn, NoneAstray, Within;
      if e.Process? || e.Poll? {
        rc := LoopStep(e);
      } else {
        rc := OtherStep(e);
      }
    }

    /** floppy_process. */
    method LoopStep(e: Event) returns (rc: Ack)
      requires Valid() && (e.Process? || e.Poll?)
      modifies this
      ensures Valid() && old(trace) <= trace && Turn(e, old(Seen()), Seen(), rc)
      ensures e.Process? ==> Within(e.cmd) ==> NoneAstray(old(units))
      ensures !e.Process? ==> NoneAstray(old(units))
    {
      hide AllKnown, Holding, Gated, HoldEnd, Commanded, Polled, NoneAstray, Within;
      NoneNew(units);
      rc := Okay;
      if e.Process? {
        if state == CommandWait {
          rc := ProcessCommand(e.cmd);
        }
      } else if state != CommandWait {
        FloppyProcess(e.found);
      }
    }

    /** What interrupts the loop, or passes between its turns. */
    method OtherStep(e: Event) returns (rc: Ack)
      requires Valid() && !e.Process? && !e.Poll?
      modifies this
      ensures Valid() && old(trace) <= trace && Turn(e, old(Seen()), Seen(), rc) && NoneAstray(old(units))
      ensures e.TimerFires? && old(now) >= old(opDeadline) ==> opMask == {}
      ensures e.Watchdog? || e.UsbReset? ==> forall i :: 0 <= i < UNITS && units[i].initialised ==> units[i].cyl >= 0
    {
      hide AllKnown, Holding, Gated, HoldEnd, Quieted, NoneAstray;
      NoneNew(units);
      rc := Okay;
      if e.Watchdog? || e.UsbReset? {
        EndAll(e);
        return;
      }
      match e {
        case Configure =>
          FloppyConfigure();
        case TimerFires =>
          if now >= opDeadline {
            OpDelayTimer();
          }
        case Wait(us) =>
          Elapse(us);
      }
    }

    /** The watchdog expires, or the bus is reset: whatever is going on ends, and the drives
        are quiesced. */
    method EndAll(e: Event)
      requires Valid() && (e.Watchdog? || e.UsbReset?)
      modifies this
      ensures Valid() && old(trace) <= trace && Turn(e, old(Seen()), Seen(), Okay) && NoneAstray(old(units))
      ensures forall i :: 0 <= i < UNITS && units[i].initialised ==> units[i].cyl >= 0
    {
      hide AllKnown, Holding, Gated, HoldEnd, Quieted, NoneAstray;
      if e.Watchdog? {
        FloppyConfigure();
      } else {
        state := Inactive;
      }
      QuiesceDrives();
    }

    /** Every run keeps everything: the gate is on exactly in the two writing states, no
        step or head change is made with the gate on, nor any of these or a new write
        before the post-write delay has ended; every recorded head position is true, as long
        as no cylinder is asked for beyond the last. And a run goes from view to view as its
        events demand, with an answer to each command. */
    method Run(es: seq<Event>) returns (ghost views: seq<View>, acks: seq<Ack>)
      requires Valid()
      modifies this
      ensures Valid() && old(trace) <= trace
      ensures wgate <==> state == WriteFlux || state == EraseFlux
      ensures Safe(trace)
      ensures forall i :: 0 <= i < UNITS && units[i].initialised ==> units[i].cyl == pos[i] || units[i].astray
      ensures (forall e :: e in es && e.Process? ==> Within(e.cmd)) ==> NoneAstray(old(units))
      ensures |views| == |es| + 1 && |acks| == |es| && views[0] == old(Seen()) && views[|es|] == Seen()
      ensures forall k :: 0 <= k < |es| ==> Turn(es[k], views[k], views[k + 1], acks[k])
    {
      hide AllKnown, Holding, Gated, HoldEnd, Turn;
      var k := 0;
      views, acks := [Seen()], [];
      while k < |es|
        invariant 0 <= k <= |es| && Valid() && old(trace) <= trace
        invariant (forall e :: e in es[..k] && e.Process? ==> Within(e.cmd)) ==> NoneAstray(old(units))
        invariant |views| == k + 1 && |acks| == k && views[0] == old(Seen()) && views[k] == Seen()
        invariant forall i :: 0 <= i < k ==> Turn(es[i], views[i], views[i + 1], acks[i])
      {
        assert es[k] in es[..k + 1] && forall e :: e in es[..k] ==> e in es[..k + 1];
        var rc := Step(es[k]);
        views, acks := views + [Seen()], acks + [rc];
        k := k + 1;
      }
      assert es[..k] == es;
      forall i | 0 <= i < UNITS
        ensures Known(i, pos[i], units[i], busType)
      {
        KnownAt(pos, units, busType, i);
      }
      assert Safe(trace) by { GatedSafe(); }
    }

    lemma GatedSafe()
      requires Gated()
      ensures Safe(trace)
    {
    }
  }

  /** A host asks a drive of 80 cylinders, with its head at cylinder 0, for cylinder 80: the
      answer is Okay, and the firmware believes the head to be where it cannot go. */
  method SeekBeyondTheLast() returns (c: Controller, rc: Ack)
    ensures |c.units| == |c.pos| == UNITS && rc == Okay
    ensures c.units[0].initialised && c.units[0].cyl == 80 && c.pos[0] == 79
  {
    var kinds := [Standard, Standard, Standard, Standard];
    c := new Controller(kinds, [79, 79, 79, 79], {(IbmPc, 0)}, {}, [0, 0, 0, 0], 0);
    c.busType, c.unitNr := IbmPc, 0;
    c.units := [Unit(0, true, false, false, false), FRESH, FRESH, FRESH];
    rc := c.FloppySeek(80);
  }
}
