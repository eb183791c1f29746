/** Floppy drives as the firmware meets them: head position, track-0 sensor, and the
    safety of what is done to a drive while it writes and shortly after. */
module Drive {
  import opened Words

  /** `Flippy` drives have the modified sensor that the firmware can switch off: with the
      sensor on they report cylinder 0 from there outwards, and refuse to step out.
      `Loose` drives have no stop at cylinder 0. */
  datatype Kind = Standard | Flippy | Loose

  /** The track-0 signal is asserted. */
  predicate Sensor(k: Kind, pos: int, sensorOn: bool) {
    match k
    case Standard => pos <= 0
    case Flippy => sensorOn && pos <= 0
    case Loose => pos == 0
  }

  /** Where one step pulse takes the head, in a drive whose innermost cylinder is `last`. */
  function Moved(k: Kind, last: nat, pos: int, sensorOn: bool, dirIn: bool): int {
    if dirIn then if pos >= last then pos else pos + 1
    else match k
      case Standard => if pos <= 0 then pos else pos - 1
      case Flippy => if sensorOn && pos <= 0 then pos else pos - 1
      case Loose => pos - 1
  }

  /** From here the firmware can find cylinder 0 in 256 steps, and on a flippy drive
      cylinder 1 in another ten. */
  predicate Findable(k: Kind, pos: int) {
    match k
    case Standard => pos <= 255
    case Flippy => -9 <= pos <= 255
    case Loose => 0 <= pos <= 255
  }

  /** Where `n` pulses take it. */
  function MovedBy(k: Kind, last: nat, pos: int, sensorOn: bool, dirIn: bool, n: nat): int {
    if n == 0 then pos else Moved(k, last, MovedBy(k, last, pos, sensorOn, dirIn, n - 1), sensorOn, dirIn)
  }

  /** Inwards, as far as the stop; outwards, as far as the drive lets it. */
  lemma {:induction false} MovedFar(k: Kind, last: nat, pos: int, sensorOn: bool, dirIn: bool, n: nat)
    requires pos <= last
    ensures MovedBy(k, last, pos, sensorOn, dirIn, n) <= last
    ensures dirIn ==> MovedBy(k, last, pos, sensorOn, dirIn, n) == Min(pos + n, last)
    ensures !dirIn && (k == Loose || (k == Flippy && !sensorOn) || pos - n >= 0) ==>
        MovedBy(k, last, pos, sensorOn, dirIn, n) == pos - n
    ensures k == Standard && pos >= 0 ==> MovedBy(k, last, pos, sensorOn, dirIn, n) >= 0
  {
    if n > 0 {
      MovedFar(k, last, pos, sensorOn, dirIn, n - 1);
    }
  }

  /** What reaches a drive, and when; `hold` is the post-write delay in force. */
  datatype Act =
    | StepPulse(at: int)
    | HeadChange(at: int)
    | GateOn(at: int)
    | GateOff(at: int, hold: nat)

  /** The write gate after these. */
  function Gate(tr: seq<Act>): bool {
    if tr == [] then false
    else match tr[|tr| - 1]
      case GateOn(at) => true
      case GateOff(at, hold) => false
      case _ => Gate(tr[..|tr| - 1])
  }

  /** When all the post-write delays so far will have ended. */
  function HoldEnd(tr: seq<Act>): int {
    if tr == [] then 0
    else
      var before := HoldEnd(tr[..|tr| - 1]);
      match tr[|tr| - 1]
      case GateOff(at, hold) => Max(before, at + hold)
      case _ => before
  }

  /** One after the other, nothing but switching the gate off was done while it was on,
      or before the delays had ended. */
  predicate Safe(tr: seq<Act>) {
    if tr == [] then true
    else
      var before := tr[..|tr| - 1];
      Safe(before) && (tr[|tr| - 1].GateOff? || (!Gate(before) && tr[|tr| - 1].at >= HoldEnd(before)))
  }

  lemma TraceNext(tr: seq<Act>, a: Act)
    ensures Gate(tr + [a]) == (match a case GateOn(at) => true case GateOff(at, hold) => false case _ => Gate(tr))
    ensures HoldEnd(tr + [a]) == if a.GateOff? then Max(HoldEnd(tr), a.at + a.hold) else HoldEnd(tr)
    ensures Safe(tr + [a]) <==> Safe(tr) && (a.GateOff? || (!Gate(tr) && a.at >= HoldEnd(tr)))
  {
    assert (tr + [a])[..|tr|] == tr;
  }

  lemma {:induction false} HoldEndCovers(tr: seq<Act>, i: nat)
    requires i < |tr| && tr[i].GateOff?
    ensures HoldEnd(tr) >= tr[i].at + tr[i].hold
  {
    if i < |tr| - 1 {
      HoldEndCovers(tr[..|tr| - 1], i);
    }
  }

  /** What safety means for any two things done, however far apart. */
  lemma {:induction false} SafeMeans(tr: seq<Act>, i: nat, j: nat)
    requires Safe(tr) && i < j < |tr| && !tr[j].GateOff?
    ensures !Gate(tr[..j])
    ensures tr[i].GateOff? ==> tr[j].at >= tr[i].at + tr[i].hold
  {
    var before := tr[..|tr| - 1];
    if j == |tr| - 1 {
      if tr[i].GateOff? {
        HoldEndCovers(before, i);
      }
    } else {
      SafeMeans(before, i, j);
      assert before[..j] == tr[..j];
    }
  }
}
