/** The byte stream of CMD_READ_FLUX as the host hears it: flux transitions and index
    pulses at absolute times, on an unbounded clock. */
module ReadStream {
  import opened Words
  import opened FluxCodec

  /** What a stream says, read from a given time on: when flux transitions and index
      pulses happened, the time it has come to, and what does not parse (a NUL and
      what follows it, a command cut short, or one that does not belong in a read). */
  datatype Heard = Heard(fluxes: seq<nat>, indexes: seq<nat>, cursor: nat, rest: seq<Byte>)

  function After(fluxes: seq<nat>, indexes: seq<nat>, h: Heard): Heard {
    Heard(fluxes + h.fluxes, indexes + h.indexes, h.cursor, h.rest)
  }

  datatype Word =
    | Gap(n: nat, len: nat)    // a transition n ticks on
    | Silence(n: nat)             // n ticks without one
    | Mark(n: nat)             // an index pulse n ticks on, leaving the cursor alone
    | NoWord                    // nothing that belongs here, or not all of it

  function First(b: seq<Byte>): (w: Word)
    ensures w.Gap? ==> 1 <= w.len <= |b|
    ensures w.Silence? || w.Mark? ==> |b| >= 6
  {
    if b == [] || b[0] == 0 then NoWord
    else if b[0] < 250 then Gap(b[0], 1)
    else if b[0] < 255 then
      if |b| < 2 || b[1] == 0 then NoWord else Gap(250 + (b[0] as int - 250) * 255 + b[1] as int - 1, 2)
    else if |b| < 6 then NoWord
    else if b[1] == FLUXOP_SPACE then Silence(Get28(b[2..6]))
    else if b[1] == FLUXOP_INDEX then Mark(Get28(b[2..6]))
    else NoWord
  }

  lemma FirstExtends(a: seq<Byte>, b: seq<Byte>)
    requires !First(a).NoWord?
    ensures First(a + b) == First(a)
  {
    if |a| >= 6 {
      assert (a + b)[2..6] == a[2..6];
    }
  }

  function Hear(b: seq<Byte>, cursor: nat): Heard
    decreases |b|
  {
    match First(b)
    case Gap(n, len) => After([cursor + n], [], Hear(b[len..], cursor + n))
    case Silence(n) => Hear(b[6..], cursor + n)
    case Mark(n) => After([], [cursor + n], Hear(b[6..], cursor))
    case NoWord => Heard([], [], cursor, b)
  }

  /** A stream that parses to its end can be heard in pieces. */
  lemma {:induction false} HearAppend(a: seq<Byte>, b: seq<Byte>, cursor: nat)
    requires Hear(a, cursor).rest == []
    ensures var h := Hear(a, cursor);
            Hear(a + b, cursor) == After(h.fluxes, h.indexes, Hear(b, h.cursor))
    decreases |a|
  {
    hide First, After;
    if First(a).NoWord? {
      assert a + b == b;
      NothingBefore(Hear(b, cursor));
    } else {
      FirstExtends(a, b);
      match First(a)
      case Gap(n, len) =>
        assert (a + b)[len..] == a[len..] + b;
        var h := Hear(a[len..], cursor + n);
        AfterAfter([cursor + n], [], h, Hear(b, h.cursor));
        HearAppend(a[len..], b, cursor + n);
      case Silence(n) =>
        assert (a + b)[6..] == a[6..] + b;
        HearAppend(a[6..], b, cursor + n);
      case Mark(n) =>
        assert (a + b)[6..] == a[6..] + b;
        var h := Hear(a[6..], cursor);
        AfterAfter([], [cursor + n], h, Hear(b, h.cursor));
        HearAppend(a[6..], b, cursor);
    }
  }

  lemma NothingBefore(h: Heard)
    ensures After([], [], h) == h
  {
  }

  lemma AfterAfter(f: seq<nat>, i: seq<nat>, g: Heard, h: Heard)
    ensures var e := After(f, i, g);
            && e.cursor == g.cursor && e.rest == g.rest
            && After(e.fluxes, e.indexes, h) == After(f, i, After(g.fluxes, g.indexes, h))
  {
    assert f + g.fluxes + h.fluxes == f + (g.fluxes + h.fluxes);
    assert i + g.indexes + h.indexes == i + (g.indexes + h.indexes);
  }

  /* ---- What the firmware writes -------------------------------------------------- */

  function SpaceBytes(n: U32): seq<Byte> { [255, FLUXOP_SPACE] + Put28(n) }

  function IndexBytes(n: U32): seq<Byte> { [255, FLUXOP_INDEX] + Put28(n) }

  /** A single word is heard as what it says. */
  lemma HearWord(b: seq<Byte>, cursor: nat)
    requires !First(b).NoWord? && (First(b).Gap? ==> First(b).len == |b|) && (!First(b).Gap? ==> |b| == 6)
    ensures Hear(b, cursor) == match First(b)
        case Gap(n, len) => Heard([cursor + n], [], cursor + n, [])
        case Silence(n) => Heard([], [], cursor + n, [])
        case Mark(n) => Heard([], [cursor + n], cursor, [])
  {
    hide First;
    match First(b)
    case Gap(n, len) => Ended(b[len..], cursor + n);
    case Silence(n) => Ended(b[6..], cursor + n);
    case Mark(n) => Ended(b[6..], cursor);
  }

  lemma Ended(b: seq<Byte>, cursor: nat)
    requires b == []
    ensures Hear(b, cursor) == Heard([], [], cursor, [])
  {
  }

  lemma HearSpace(n: U32, cursor: nat)
    requires n < 0x1000_0000
    ensures SpaceBytes(n) == [255, 2] + Put28(n)
    ensures Hear(SpaceBytes(n), cursor) == Heard([], [], cursor + n, [])
  {
    hide Get28, Put28, Hear;
    assert SpaceBytes(n)[2..6] == Put28(n);
    Get28Put28(n);
    HearWord(SpaceBytes(n), cursor);
  }

  lemma HearIndex(n: U32, cursor: nat)
    requires n < 0x1000_0000
    ensures IndexBytes(n) == [255, 1] + Put28(n)
    ensures Hear(IndexBytes(n), cursor) == Heard([], [cursor + n], cursor, [])
  {
    hide Get28, Put28, Hear;
    assert IndexBytes(n)[2..6] == Put28(n);
    Get28Put28(n);
    HearWord(IndexBytes(n), cursor);
  }

  /** A time between transitions is heard exactly, whichever form it takes. */
  lemma HearSample(t: U32, cursor: nat)
    requires t < 0x1000_0000
    ensures Hear(EncodeSample(t), cursor) == if t == 0 then Heard([], [], cursor, []) else Heard([cursor + t], [], cursor + t, [])
  {
    hide Get28, Put28, Hear;
    var b := EncodeSample(t);
    if t == 0 {
      Ended(b, cursor);
    } else if t < 1525 {
      HearWord(b, cursor);
    } else {
      var n: U32 := t - 249;
      assert b == SpaceBytes(n) + [249];
      HearSpace(n, cursor);
      HearWord([249], cursor + n);
      hide First, SpaceBytes, EncodeSample;
      HearAppend(SpaceBytes(n), [249], cursor);
    }
  }

  /** Capture times in order, the same instant counted once. */
  function Distinct(times: seq<nat>): (d: seq<nat>)
    decreases |times|
  {
    var n := |times|;
    if n < 2 then times
    else Distinct(times[..n - 1]) + if times[n - 1] == times[n - 2] then [] else [times[n - 1]]
  }

  /** Of times in order, these are the same ones, each once and in order. */
  lemma {:induction false} DistinctIs(times: seq<nat>)
    requires forall i, j :: 0 <= i < j < |times| ==> times[i] <= times[j]
    ensures forall t :: t in times <==> t in Distinct(times)
    ensures forall i, j :: 0 <= i < j < |Distinct(times)| ==> Distinct(times)[i] < Distinct(times)[j]
    ensures times != [] ==> Distinct(times) != [] && Distinct(times)[|Distinct(times)| - 1] == times[|times| - 1]
    decreases |times|
  {
    var n := |times|;
    if n >= 2 {
      var before := times[..n - 1];
      DistinctIs(before);
      assert times == before + [times[n - 1]] && before[n - 2] == times[n - 2];
    }
  }

  lemma DistinctNext(times: seq<nat>, k: nat)
    requires k < |times|
    ensures Distinct(times[..k + 1])
        == Distinct(times[..k]) + if k > 0 && times[k] == times[k - 1] then [] else [times[k]]
  {
    var a := times[..k + 1];
    assert a[..k] == times[..k] && a[k] == times[k];
    if k > 0 {
      assert a[k - 1] == times[k - 1];
    }
  }

  /** Extending a stream that parses to its end by one that does. */
  lemma HearMore(a: seq<Byte>, b: seq<Byte>, start: nat, h: Heard, g: Heard)
    requires Hear(a, start) == h && h.rest == [] && Hear(b, h.cursor) == g && g.rest == []
    ensures Hear(a + b, start) == Heard(h.fluxes + g.fluxes, h.indexes + g.indexes, g.cursor, [])
  {
    hide Hear;
    HearAppend(a, b, start);
  }

  /** The closing NUL is not part of what is heard, so a host can tell the stream's end. */
  lemma HearTerminator(a: seq<Byte>, start: nat)
    requires Hear(a, start).rest == []
    ensures var h := Hear(a, start); Hear(a + [0], start) == Heard(h.fluxes, h.indexes, h.cursor, [0])
  {
    HearAppend(a, [0], start);
  }
}
