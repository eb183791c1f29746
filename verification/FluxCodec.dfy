/** The flux byte stream of CMD_READ_FLUX and CMD_WRITE_FLUX: a reference
    decoder that sees the whole stream at once, and the encoder's image of one
    sample. The firmware's resumable loops are proved against these. */
module FluxCodec {
  import opened Words

  /** sample_ns(800) at 72 samples a microsecond. */
  const MIN_PULSE := 57

  /** ARRAY_SIZE(dma.buf). */
  const RING := 512

  const FLUXOP_INDEX: Byte := 1
  const FLUXOP_SPACE: Byte := 2
  const FLUXOP_ASTABLE: Byte := 3

  /** One more than the largest `timcnt_t`: 16-bit on F1 and AT32, 32-bit on F7. */
  predicate IsCounter(m: int) { m == 0x1_0000 || m == TWO32 }

  /* ---- N28 arguments ------------------------------------------------- */

  /** The four bytes `1 | (x << 1)`, `1 | (x >> 6)`, `1 | (x >> 13)`,
      `1 | (x >> 20)`: seven bits each, bit 0 always set. */
  function Put28(x: U32): (b: seq<Byte>)
    ensures |b| == 4
    ensures forall i :: 0 <= i < 4 ==> b[i] % 2 == 1
  {
    [ 2 * (x % 0x80) + 1,
      2 * (x / 0x80 % 0x80) + 1,
      2 * (x / 0x4000 % 0x80) + 1,
      2 * (x / 0x20_0000 % 0x80) + 1 ]
  }

  /** Bit 0 of each byte is dropped, the seven-bit groups are joined. */
  function Get28(b: seq<Byte>): (x: U32)
    requires |b| == 4
    ensures x < 0x1000_0000
  {
    b[0] as int / 2 + b[1] as int / 2 * 0x80 + b[2] as int / 2 * 0x4000 + b[3] as int / 2 * 0x20_0000
  }

  /** N28 keeps the low 28 bits and nothing else. */
  lemma Get28Put28(x: U32)
    ensures Get28(Put28(x)) == x % 0x1000_0000
  {
    var g0, g1, g2, g3 := x % 0x80, x / 0x80 % 0x80, x / 0x4000 % 0x80, x / 0x20_0000 % 0x80;
    assert x == x / 0x80 * 0x80 + g0;
    assert x / 0x80 == x / 0x4000 * 0x80 + g1;
    assert x / 0x4000 == x / 0x20_0000 * 0x80 + g2;
    assert x / 0x20_0000 == x / 0x1000_0000 * 0x80 + g3;
  }

  /** One group of seven bits, with what stands above and below it. */
  lemma Group(high: nat, g: nat, low: nat, d: nat)
    requires d > 0 && g < 0x80 && low < d
    ensures (d * (g + 0x80 * high) + low) / d % 0x80 == g
  {
    QuotientUnique(d * (g + 0x80 * high) + low, d, g + 0x80 * high, low);
    ModAddMultiple(g, high, 0x80);
  }

  /** The groups stand in the bytes least significant first. */
  lemma N28Positions(a: nat, b: nat, c: nat, d: nat)
    requires a < 0x80 && b < 0x80 && c < 0x80 && d < 0x80
    ensures var x := a + 0x80 * b + 0x4000 * c + 0x20_0000 * d;
            && Put28(x) == [2 * a + 1, 2 * b + 1, 2 * c + 1, 2 * d + 1]
            && Get28([2 * a + 1, 2 * b + 1, 2 * c + 1, 2 * d + 1]) == x
  {
    Group(b + 0x80 * c + 0x4000 * d, a, 0, 1);
    Group(c + 0x80 * d, b, a, 0x80);
    Group(d, c, a + 0x80 * b, 0x4000);
    Group(0, d, a + 0x80 * b + 0x4000 * c, 0x20_0000);
  }

  lemma N28Back(x: U32)
    requires x < 0x1000_0000
    ensures Get28(Put28(x)) == x
  {
    Get28Put28(x);
    hide *;
    assert x % 0x1000_0000 == x;
  }

  /* ---- Tokens -------------------------------------------------------- */

  datatype Token =
    | Flux(n: U32)      // flux transition n ticks on
    | Space(n: U32)     // n ticks without a transition
    | Astable(p: U32)   // spend the accumulated ticks on transitions of period p
    | Stop              // NUL: end of stream
    | Invalid           // unknown opcode, or an astable period out of range

  datatype Lexed = NeedMore | Lexed(token: Token, len: nat)

  /** The first token of `b`, or NeedMore if its last bytes are still to come. */
  function Lex(b: seq<Byte>, m: int): (r: Lexed)
    ensures r.Lexed? ==> 1 <= r.len <= |b|
    ensures r == NeedMore ==> |b| < 6
  {
    if |b| == 0 then NeedMore
    else if b[0] == 0 then Lexed(Stop, 1)
    else if b[0] < 250 then Lexed(Flux(b[0]), 1)
    else if b[0] < 255 then
      if |b| < 2 then NeedMore else Lexed(Flux(250 + (b[0] as int - 250) * 255 + b[1] as int - 1), 2)
    else if |b| < 6 then NeedMore
    else
      var n := Get28(b[2..6]);
      Lexed(if b[1] == FLUXOP_SPACE then Space(n)
            else if b[1] == FLUXOP_ASTABLE && MIN_PULSE <= n < m then Astable(n)
            else Invalid, 6)
  }

  /** More input never changes a token that is already complete. */
  lemma LexExtends(a: seq<Byte>, b: seq<Byte>, m: int)
    requires Lex(a, m).Lexed?
    ensures Lex(a + b, m) == Lex(a, m)
  {
    if |a| >= 6 {
      assert (a + b)[2..6] == a[2..6];
    }
  }

  /* ---- What each token plays ------------------------------------------ */

  function Repeat(x: nat, n: nat): (s: seq<nat>)
    ensures |s| == n && forall i :: 0 <= i < n ==> s[i] == x
  {
    seq(n, _ => x)
  }

  lemma RepeatFirst(x: nat, n: nat)
    requires n > 0
    ensures Repeat(x, n) == [x] + Repeat(x, n - 1)
  {
  }

  /** A time too long for the hardware counter: whole counter periods, then what
      is left unless that is too short to be a pulse of its own. */
  function SplitSamples(t: U32, m: int): (s: seq<nat>)
    requires IsCounter(m)
  {
    Repeat(m - 1, t / m) + if t % m > MIN_PULSE then [t % m - 1] else []
  }

  function SplitCarry(t: U32, m: int): (c: U32)
    requires IsCounter(m)
    ensures c <= MIN_PULSE
  {
    if t % m > MIN_PULSE then 0 else t % m
  }

  /** A flux transition after `t` accumulated ticks: merged into the next one when
      too short, split when too long. */
  function FluxSamples(t: U32, m: int): seq<nat>
    requires IsCounter(m)
  {
    if t < MIN_PULSE then [] else if t < m then [t - 1] else SplitSamples(t, m)
  }

  function FluxCarry(t: U32, m: int): U32
    requires IsCounter(m)
  {
    if t < MIN_PULSE then t else if t < m then 0 else SplitCarry(t, m)
  }

  /** Reload values played for `token` when `ticks` are already owed. */
  function Samples(token: Token, ticks: U32, m: int): seq<nat>
    requires IsCounter(m)
  {
    match token
    case Flux(n) => FluxSamples(Wrap32(ticks + n), m)
    case Astable(p) => if p == 0 then [] else Repeat(p - 1, ticks / p)
    case _ => []
  }

  /** Ticks still owed after `token`. */
  function Carry(token: Token, ticks: U32, m: int): U32
    requires IsCounter(m)
  {
    match token
    case Flux(n) => FluxCarry(Wrap32(ticks + n), m)
    case Space(n) => Wrap32(ticks + n)
    case Astable(p) => if p == 0 then ticks else ticks % p
    case _ => ticks
  }

  /* ---- The one-shot reference decoder ---------------------------------- */

  datatype Decoded = Decoded(
    samples: seq<nat>,  // timer reload values, in playing order
    ticks: U32,         // ticks owed at the end
    rest: seq<Byte>,    // a token whose end has not arrived
    stopped: bool,      // a NUL was met
    bad: bool)          // an invalid command was met

  function Before(s: seq<nat>, stopped: bool, bad: bool, d: Decoded): Decoded {
    Decoded(s + d.samples, d.ticks, d.rest, stopped || d.stopped, bad || d.bad)
  }

  function Decode(b: seq<Byte>, ticks: U32, m: int): Decoded
    requires IsCounter(m)
    decreases |b|
  {
    match Lex(b, m)
    case NeedMore => Decoded([], ticks, b, false, false)
    case Lexed(t, len) =>
      Before(Samples(t, ticks, m), t.Stop?, t.Invalid?, Decode(b[len..], Carry(t, ticks, m), m))
  }

  /** Decoding is incremental: a stream cut anywhere decodes as its first part
      followed by the second part, given the owed ticks and the cut token. */
  lemma {:induction false} DecodeAppend(a: seq<Byte>, b: seq<Byte>, ticks: U32, m: int)
    requires IsCounter(m)
    ensures var d := Decode(a, ticks, m);
            Decode(a + b, ticks, m) == Before(d.samples, d.stopped, d.bad, Decode(d.rest + b, d.ticks, m))
    decreases |a|
  {
    hide Lex, Samples, Carry;
    match Lex(a, m) {
      case NeedMore =>
        var e := Decode(a + b, ticks, m);
        assert [] + e.samples == e.samples;
      case Lexed(t, len) =>
        LexExtends(a, b, m);
        var tail := Decode(a[len..], Carry(t, ticks, m), m);
        var e := Decode(tail.rest + b, tail.ticks, m);
        DecodeAppend(a[len..], b, Carry(t, ticks, m), m);
        assert (a + b)[len..] == a[len..] + b;
        assert Samples(t, ticks, m) + (tail.samples + e.samples)
            == (Samples(t, ticks, m) + tail.samples) + e.samples;
    }
  }

  /* ---- What the bytes mean ------------------------------------------------- */

  /** `d` is what `e` is after `s` has been played. */
  ghost predicate Then(d: Decoded, s: seq<nat>, e: Decoded) {
    && d.samples == s + e.samples
    && d.ticks == e.ticks && d.rest == e.rest && d.stopped == e.stopped && d.bad == e.bad
  }

  /** A command with its argument, whatever follows. */
  function Command(op: Byte, x: U32, b: seq<Byte>): seq<Byte> { [255, op] + Put28(x) + b }

  lemma LexCommand(op: Byte, x: U32, b: seq<Byte>, m: int)
    requires IsCounter(m) && x < 0x1000_0000
    ensures op == 2 ==> Lex(Command(op, x, b), m) == Lexed(Space(x), 6)
    ensures op == 3 && 57 <= x < m ==> Lex(Command(op, x, b), m) == Lexed(Astable(x), 6)
    ensures op != 2 && (op == 3 ==> x < 57 || x >= m) ==> Lex(Command(op, x, b), m) == Lexed(Invalid, 6)
    ensures Command(op, x, b)[6..] == b
  {
    N28Back(x);
    hide Get28, Put28, Wrap32;
    var s := Command(op, x, b);
    assert s[2..6] == Put28(x) && s[6..] == b;
  }

  lemma NothingPlayed(d: Decoded)
    ensures Before([], false, false, d) == d && Before([], true, false, d) == d.(stopped := true)
    ensures Before([], false, true, d) == d.(bad := true)
  {
    assert [] + d.samples == d.samples;
  }

  lemma ThenBefore(s: seq<nat>, e: Decoded)
    ensures Then(Before(s, false, false, e), s, e)
  {
  }

  lemma DecodeSpace(n: U32, b: seq<Byte>, ticks: U32, m: int)
    requires IsCounter(m) && n < 0x1000_0000
    ensures Decode(Command(2, n, b), ticks, m) == Decode(b, Wrap32(ticks + n), m)
  {
    hide Decode, Command, Lex, Put28;
    LexCommand(2, n, b, m);
    DecodeStep(Command(2, n, b), ticks, m);
    NothingPlayed(Decode(b, Wrap32(ticks + n), m));
  }

  /** How many whole periods there are in a time, and what is left of it. */
  function Periods(t: U32, p: U32): (n: nat)
    requires p > 0
  {
    t / p
  }

  function Leftover(t: U32, p: U32): (c: U32)
    requires p > 0
  {
    t % p
  }

  lemma PlaysAstable(p: U32, ticks: U32, m: int)
    requires IsCounter(m) && p > 0
    ensures Samples(Astable(p), ticks, m) == Repeat(p - 1, Periods(ticks, p))
    ensures Carry(Astable(p), ticks, m) == Leftover(ticks, p)
  {
  }

  /** `n` and `c` are these: t == n * p + c. */
  lemma PeriodsAre(t: U32, p: U32)
    requires p > 0
    ensures t == Periods(t, p) * p + Leftover(t, p) && Leftover(t, p) < p
  {
  }

  lemma DecodeAstable(p: U32, b: seq<Byte>, ticks: U32, m: int)
    requires IsCounter(m) && 57 <= p < m && p < 0x1000_0000
    ensures Then(Decode(Command(3, p, b), ticks, m), Repeat(p - 1, Periods(ticks, p)), Decode(b, Leftover(ticks, p), m))
  {
    hide *;
    PlaysAstable(p, ticks, m);
    LexCommand(3, p, b, m);
    DecodeStep(Command(3, p, b), ticks, m);
    ThenBefore(Repeat(p - 1, Periods(ticks, p)), Decode(b, Leftover(ticks, p), m));
  }

  /** An astable region: the time it is given, on top of what is owed, is played at the
      period it names, and what does not make a period is carried on. */
  lemma AstableRegion(n: U32, p: U32, b: seq<Byte>, ticks: U32, m: int)
    requires IsCounter(m) && n < 0x1000_0000 && 57 <= p < m && p < 0x1000_0000
    ensures var t := Wrap32(ticks + n);
            Then(Decode(Command(2, n, Command(3, p, b)), ticks, m), Repeat(p - 1, Periods(t, p)), Decode(b, Leftover(t, p), m))
  {
    hide *;
    DecodeSpace(n, Command(3, p, b), ticks, m);
    DecodeAstable(p, b, Wrap32(ticks + n), m);
  }

  /** A period that is too short or too long, and a command that there is not, are errors
      that play nothing. */
  lemma InvalidCommand(op: Byte, x: U32, b: seq<Byte>, ticks: U32, m: int)
    requires IsCounter(m) && x < 0x1000_0000 && op != 2 && (op == 3 ==> x < 57 || x >= m)
    ensures Decode(Command(op, x, b), ticks, m) == Decode(b, ticks, m).(bad := true)
  {
    hide Decode, Command, Lex, Put28;
    LexCommand(op, x, b, m);
    DecodeStep(Command(op, x, b), ticks, m);
    NothingPlayed(Decode(b, ticks, m));
  }

  /** The pulses of a transition `u` ticks after the last: none if it comes too soon, one if
      it can be counted, and otherwise whole counter periods and what remains of it, if
      that is longer than the shortest pulse. */
  ghost predicate Pulses(u: U32, s: seq<nat>, owed: U32, m: int)
    requires m > 0
  {
    && (u < 57 ==> s == [] && owed == u)
    && (57 <= u < m ==> s == [u - 1] && owed == 0)
    && (u >= m && u % m > 57 ==> s == Repeat(m - 1, u / m) + [u % m - 1] && owed == 0)
    && (u >= m && u % m <= 57 ==> s == Repeat(m - 1, u / m) && owed == u % m)
  }

  lemma PulsesAre(u: U32, m: int)
    requires IsCounter(m)
    ensures Pulses(u, FluxSamples(u, m), FluxCarry(u, m), m)
  {
    hide Repeat;
    assert Repeat(m - 1, u / m) + [] == Repeat(m - 1, u / m);
  }

  lemma DecodeFluxOf(n: U32, len: nat, b: seq<Byte>, ticks: U32, m: int, s: seq<nat>, owed: U32)
    requires IsCounter(m) && Lex(b, m) == Lexed(Flux(n), len) && Pulses(Wrap32(ticks + n), s, owed, m)
    ensures Then(Decode(b, ticks, m), s, Decode(b[len..], owed, m))
  {
    DecodeStep(b, ticks, m);
    PulsesAre(Wrap32(ticks + n), m);
    hide Decode, FluxSamples, FluxCarry, Repeat, Lex;
    PulsesUnique(Wrap32(ticks + n), s, owed, FluxSamples(Wrap32(ticks + n), m), FluxCarry(Wrap32(ticks + n), m), m);
  }

  lemma PulsesUnique(u: U32, s: seq<nat>, owed: U32, s': seq<nat>, owed': U32, m: int)
    requires IsCounter(m) && Pulses(u, s, owed, m) && Pulses(u, s', owed', m)
    ensures s == s' && owed == owed'
  {
    hide Repeat;
  }

  /** A transition in one byte. */
  lemma DecodeShort(x: Byte, b: seq<Byte>, ticks: U32, m: int, s: seq<nat>, owed: U32)
    requires IsCounter(m) && 0 < x < 250 && Pulses(Wrap32(ticks + x), s, owed, m)
    ensures Then(Decode([x] + b, ticks, m), s, Decode(b, owed, m))
  {
    hide Decode, Pulses, Then;
    assert ([x] + b)[1..] == b;
    DecodeFluxOf(x, 1, [x] + b, ticks, m, s, owed);
  }

  /** And in two. */
  lemma DecodeLong(x: Byte, y: Byte, b: seq<Byte>, ticks: U32, m: int, s: seq<nat>, owed: U32)
    requires IsCounter(m) && 250 <= x < 255 && Pulses(Wrap32(ticks + (250 + (x - 250) * 255 + y - 1)), s, owed, m)
    ensures Then(Decode([x, y] + b, ticks, m), s, Decode(b, owed, m))
  {
    hide Decode, Pulses, Then;
    assert ([x, y] + b)[2..] == b;
    DecodeFluxOf(250 + (x - 250) * 255 + y - 1, 2, [x, y] + b, ticks, m, s, owed);
  }

  /** The end of the stream is a NUL; what a decoder would make of bytes after it does not
      depend on it. */
  lemma DecodeNul(b: seq<Byte>, ticks: U32, m: int)
    requires IsCounter(m)
    ensures Decode([0] + b, ticks, m) == Decode(b, ticks, m).(stopped := true)
  {
    assert ([0] + b)[1..] == b;
    DecodeStep([0] + b, ticks, m);
    hide Decode;
    NothingPlayed(Decode(b, ticks, m));
  }

  /** The tokens of a stream, in order: the stream's meaning apart from its bytes. */
  function Tokens(b: seq<Byte>, m: int): seq<Token>
    decreases |b|
  {
    match Lex(b, m)
    case NeedMore => []
    case Lexed(t, len) => [t] + Tokens(b[len..], m)
  }

  /* ---- Every sample is a legal pulse ------------------------------------ */

  ghost predicate LegalPulses(s: seq<nat>, m: int) {
    forall i :: 0 <= i < |s| ==> MIN_PULSE <= s[i] + 1 <= m
  }

  lemma SamplesLegal(t: Token, ticks: U32, m: int)
    requires IsCounter(m)
    requires t.Astable? ==> MIN_PULSE <= t.p < m
    ensures LegalPulses(Samples(t, ticks, m), m)
  {
  }

  /** Whatever the host sends, no reload value is shorter than MIN_PULSE or too
      wide for the timer. */
  lemma {:induction false} DecodeLegal(b: seq<Byte>, ticks: U32, m: int)
    requires IsCounter(m)
    ensures LegalPulses(Decode(b, ticks, m).samples, m)
    decreases |b|
  {
    match Lex(b, m) {
      case NeedMore =>
      case Lexed(t, len) =>
        SamplesLegal(t, ticks, m);
        DecodeLegal(b[len..], Carry(t, ticks, m), m);
    }
  }

  /* ---- No time is lost --------------------------------------------------- */

  /** Time taken to play reload values: each counts one tick more than its value. */
  function Duration(s: seq<nat>): nat {
    if s == [] then 0 else s[0] + 1 + Duration(s[1..])
  }

  lemma {:induction false} DurationAppend(a: seq<nat>, b: seq<nat>)
    ensures Duration(a + b) == Duration(a) + Duration(b)
  {
    if a == [] {
      assert a + b == b;
    } else {
      assert (a + b)[1..] == a[1..] + b;
      DurationAppend(a[1..], b);
    }
  }

  lemma {:induction false} DurationRepeat(x: nat, n: nat)
    ensures Duration(Repeat(x, n)) == n * (x + 1)
  {
    if n > 0 {
      RepeatFirst(x, n);
      DurationRepeat(x, n - 1);
      assert Repeat(x, n)[1..] == Repeat(x, n - 1);
    }
  }

  /** Ticks of flux and of empty space named by a list of tokens. */
  function TotalTicks(ts: seq<Token>): nat {
    if ts == [] then 0
    else TicksOf(ts[0]) + TotalTicks(ts[1..])
  }

  lemma SplitConserves(u: U32, m: int)
    requires IsCounter(m)
    ensures Duration(SplitSamples(u, m)) + SplitCarry(u, m) == u
  {
    var last := if u % m > MIN_PULSE then [u % m - 1] else [];
    assert Duration(last) + SplitCarry(u, m) == u % m;
    DurationAppend(Repeat(m - 1, u / m), last);
    DurationRepeat(m - 1, u / m);
    assert u == u / m * m + u % m;
  }

  lemma AstableConserves(p: U32, ticks: U32)
    requires p > 0
    ensures Duration(Repeat(p - 1, ticks / p)) + ticks % p == ticks
  {
    DurationRepeat(p - 1, ticks / p);
    assert ticks == p * (ticks / p) + ticks % p;
  }

  lemma FluxConserves(u: U32, m: int)
    requires IsCounter(m)
    ensures Duration(FluxSamples(u, m)) + FluxCarry(u, m) == u
  {
    hide SplitSamples, SplitCarry;
    if u >= m {
      SplitConserves(u, m);
    }
  }

  function TicksOf(t: Token): U32 {
    match t case Flux(n) => n case Space(n) => n case _ => 0
  }

  lemma TokenConserves(t: Token, ticks: U32, m: int)
    requires IsCounter(m)
    ensures Duration(Samples(t, ticks, m)) + Carry(t, ticks, m) == Wrap32(ticks + TicksOf(t))
  {
    hide FluxSamples, FluxCarry, Repeat;
    match t {
      case Flux(n) =>
        FluxConserves(Wrap32(ticks + n), m);
      case Astable(p) =>
        if p > 0 {
          AstableConserves(p, ticks);
        }
      case _ =>
    }
  }

  /** Equal as 32-bit words. */
  predicate Congruent(a: int, b: int) { Wrap32(a) == Wrap32(b) }

  lemma StepConserves(t: Token, ticks: U32, m: int, e: Decoded, ts: seq<Token>)
    requires IsCounter(m)
    requires Congruent(Duration(e.samples) + e.ticks, Carry(t, ticks, m) + TotalTicks(ts))
    ensures Congruent(Duration(Samples(t, ticks, m) + e.samples) + e.ticks, ticks + TotalTicks([t] + ts))
  {
    hide Samples, Carry, TicksOf, Congruent, Wrap32, IsCounter;
    var s := Samples(t, ticks, m);
    TokenConserves(t, ticks, m);
    DurationAppend(s, e.samples);
    assert ([t] + ts)[1..] == ts;
    ChainCongruent(Duration(s), Carry(t, ticks, m), ticks + TicksOf(t),
                   Duration(e.samples) + e.ticks, TotalTicks(ts));
  }

  /** Over any stream, playing time plus the owed ticks is the time the stream
      named, modulo the 32-bit word: merging short pulses, splitting long ones
      and astable regions neither lose nor invent time. */
  lemma {:induction false} DecodeConserves(b: seq<Byte>, ticks: U32, m: int)
    requires IsCounter(m)
    ensures var d := Decode(b, ticks, m);
            Congruent(Duration(d.samples) + d.ticks, ticks + TotalTicks(Tokens(b, m)))
    decreases |b|
  {
    hide Samples, Carry, Wrap32, IsCounter, Lex;
    match Lex(b, m) {
      case NeedMore =>
      case Lexed(t, len) =>
        var c := Carry(t, ticks, m);
        DecodeConserves(b[len..], c, m);
        StepConserves(t, ticks, m, Decode(b[len..], c, m), Tokens(b[len..], m));
    }
  }

  lemma ChainCongruent(s: int, c: int, x: int, e: int, t: int)
    requires s + c == Wrap32(x) && Congruent(e, c + t)
    ensures Congruent(s + e, x + t)
  {
    AddCongruent(e, c + t, s, TWO32);
    AddCongruent(x, x % TWO32, t, TWO32);
  }

  lemma AddCongruent(a: int, b: int, c: int, d: int)
    requires d > 0 && a % d == b % d
    ensures (a + c) % d == (b + c) % d
  {
    assert a - b == d * (a / d - b / d) by {
      assert a == d * (a / d) + a % d;
      assert b == d * (b / d) + b % d;
      assert d * (a / d) - d * (b / d) == d * (a / d - b / d);
    }
    ModAddMultiple(b + c, a / d - b / d, d);
  }

  /* ---- The encoder's image of a sample ------------------------------------ */

  /** Bytes emitted for one time between transitions. Zero times are dropped. */
  function EncodeSample(t: U32): (b: seq<Byte>)
    ensures |b| <= 7
    ensures forall i :: 0 <= i < |b| ==> b[i] != 0
  {
    if t == 0 then []
    else if t < 250 then [t]
    else
      var high := (t - 250) / 255;
      if high < 5 then [250 + high, 1 + (t - 250) % 255]
      else [255, FLUXOP_SPACE] + Put28(t - 249) + [249]
  }

  function EncodeSamples(ts: seq<U32>): (b: seq<Byte>)
    ensures forall i :: 0 <= i < |b| ==> b[i] != 0
  {
    if ts == [] then [] else EncodeSample(ts[0]) + EncodeSamples(ts[1..])
  }

  /** The time a host reads back for a sample: exact below 2^28 + 249, where N28
      begins to lose bits. */
  function Conveyed(t: U32): U32 {
    if t < 1525 then t else (t - 249) % 0x1000_0000 + 249
  }

  /** How the encoded forms read back: one token, or a space and a short flux. */
  lemma LexEncodedSample(t: U32, b: seq<Byte>, m: int)
    requires t > 0
    ensures var s := EncodeSample(t) + b;
            if t < 1525 then
              Lex(s, m) == Lexed(Flux(t), |EncodeSample(t)|) && s[|EncodeSample(t)|..] == b
            else
              && Lex(s, m) == Lexed(Space((t - 249) % 0x1000_0000), 6)
              && Lex(s[6..], m) == Lexed(Flux(249), 1)
              && s[6..][1..] == b
  {
    hide Get28, Put28;
    var s := EncodeSample(t) + b;
    if 250 <= t < 1525 {
      assert t == 250 + (t - 250) / 255 * 255 + (t - 250) % 255;
    } else if t >= 1525 {
      Get28Put28(t - 249);
      assert s[2..6] == Put28(t - 249);
      assert s[6..] == [249] + b;
    }
  }

  /** A space and then a flux play as one flux. */
  lemma SpaceThenFlux(n: U32, k: U32, ticks: U32, m: int)
    requires IsCounter(m) && n + k < TWO32
    ensures Samples(Flux(k), Carry(Space(n), ticks, m), m) == Samples(Flux(n + k), ticks, m)
    ensures Carry(Flux(k), Carry(Space(n), ticks, m), m) == Carry(Flux(n + k), ticks, m)
  {
    hide FluxSamples, FluxCarry;
    assert Wrap32(Carry(Space(n), ticks, m) + k) == Wrap32(ticks + (n + k));
  }

  lemma DecodeStep(b: seq<Byte>, ticks: U32, m: int)
    requires IsCounter(m) && Lex(b, m).Lexed?
    ensures var l := Lex(b, m);
            Decode(b, ticks, m) == Before(Samples(l.token, ticks, m), l.token.Stop?, l.token.Invalid?,
                                          Decode(b[l.len..], Carry(l.token, ticks, m), m))
  {
  }

  /** The bytes of one sample, followed by anything, decode as a flux of the
      conveyed time on top of the ticks owed. */
  lemma DecodeEncodedSample(t: U32, b: seq<Byte>, ticks: U32, m: int)
    requires IsCounter(m)
    ensures Decode(EncodeSample(t) + b, ticks, m)
         == if t == 0 then Decode(b, ticks, m)
            else Before(Samples(Flux(Conveyed(t)), ticks, m), false, false,
                        Decode(b, Carry(Flux(Conveyed(t)), ticks, m), m))
  {
    var s := EncodeSample(t) + b;
    if t == 0 {
      assert s == b;
    } else {
      LexEncodedSample(t, b, m);
      DecodeStep(s, ticks, m);
      if t >= 1525 {
        hide Lex, EncodeSample;
        var n := (t - 249) % 0x1000_0000;
        assert Samples(Space(n), ticks, m) == [];
        DecodeStep(s[6..], Carry(Space(n), ticks, m), m);
        SpaceThenFlux(n, 249, ticks, m);
        hide Samples, Carry, Decode;
        assert Conveyed(t) == n + 249;
      }
    }
  }

  /** The reload values are the samples themselves, each less one. */
  ghost predicate Recovers(s: seq<nat>, ts: seq<U32>) {
    |s| == |ts| && forall i :: 0 <= i < |s| ==> s[i] + 1 == ts[i]
  }

  ghost predicate Encodable(t: U32, m: int) {
    MIN_PULSE <= t < m && t < 0x1000_0000 + 249
  }

  lemma WholePulse(t: U32, m: int)
    requires IsCounter(m) && MIN_PULSE <= t < m
    ensures Samples(Flux(t), 0, m) == [t - 1] && Carry(Flux(t), 0, m) == 0
  {
  }

  /** A legal, encodable sample plays as itself and leaves nothing owed. */
  lemma DecodeEncodable(t: U32, b: seq<Byte>, m: int)
    requires IsCounter(m) && Encodable(t, m)
    ensures Decode(EncodeSample(t) + b, 0, m) == Before([t - 1], false, false, Decode(b, 0, m))
  {
    hide Decode, EncodeSample, Samples, Carry;
    DecodeEncodedSample(t, b, 0, m);
    WholePulse(t, m);
  }

  /** Round trip: samples within range come back exactly, with nothing left over. */
  lemma {:induction false} RoundTrip(ts: seq<U32>, m: int)
    requires IsCounter(m)
    requires forall i :: 0 <= i < |ts| ==> Encodable(ts[i], m)
    ensures var d := Decode(EncodeSamples(ts), 0, m);
            Recovers(d.samples, ts) && d == Decoded(d.samples, 0, [], false, false)
  {
    if ts != [] {
      hide Decode, EncodeSample;
      DecodeEncodable(ts[0], EncodeSamples(ts[1..]), m);
      RoundTrip(ts[1..], m);
    }
  }

  /** What one encoded sample shorter than the counter's period can add: at most
      one pulse, and at most MIN_PULSE ticks stay owed. */
  lemma AtMostOnePulse(t: U32, ticks: U32, m: int)
    requires IsCounter(m) && ticks <= MIN_PULSE && t < m
    ensures |Samples(Flux(Conveyed(t)), ticks, m)| <= 1
    ensures Carry(Flux(Conveyed(t)), ticks, m) <= MIN_PULSE
  {
    var n := Conveyed(t);
    assert n <= t;
    var u := Wrap32(ticks + n);
    if u >= m {
      assert u / m == 1 && u % m == u - m < MIN_PULSE;
    }
  }

  /** Samples from a counter of modulus m never decode to more pulses than
      there were samples, as long as no more than MIN_PULSE is owed. */
  lemma {:induction false} NeverMorePulses(ts: seq<U32>, ticks: U32, m: int)
    requires IsCounter(m) && ticks <= MIN_PULSE
    requires forall i :: 0 <= i < |ts| ==> ts[i] < m
    ensures |Decode(EncodeSamples(ts), ticks, m).samples| <= |ts|
  {
    if ts == [] {
    } else {
      hide Decode, EncodeSample, Samples, Carry, Conveyed, IsCounter;
      var t, b := ts[0], EncodeSamples(ts[1..]);
      DecodeEncodedSample(t, b, ticks, m);
      var c := if t == 0 then ticks else Carry(Flux(Conveyed(t)), ticks, m);
      AtMostOnePulse(t, ticks, m);
      NeverMorePulses(ts[1..], c, m);
    }
  }

  /** A first sample that is not a legal, encodable pulse is not recovered. */
  lemma BadSampleNotRecovered(ts: seq<U32>, m: int)
    requires IsCounter(m) && ts != [] && !Encodable(ts[0], m)
    requires forall i :: 0 <= i < |ts| ==> ts[i] < m
    ensures !Recovers(Decode(EncodeSamples(ts), 0, m).samples, ts)
  {
    hide Decode, EncodeSample;
    var t := ts[0];
    DecodeEncodedSample(t, EncodeSamples(ts[1..]), 0, m);
    if t < MIN_PULSE {
      NeverMorePulses(ts[1..], t, m);
    } else {
      hide Samples, Carry;
      assert 249 <= Conveyed(t) < t;
      WholePulse(Conveyed(t), m);
    }
  }

  /** Exactly when the round trip holds: samples of a counter of modulus m are
      recovered if and only if each is a legal pulse that N28 can carry. */
  lemma {:induction false} RoundTripExactly(ts: seq<U32>, m: int)
    requires IsCounter(m)
    requires forall i :: 0 <= i < |ts| ==> ts[i] < m
    ensures (forall i :: 0 <= i < |ts| ==> Encodable(ts[i], m))
       <==> Recovers(Decode(EncodeSamples(ts), 0, m).samples, ts)
  {
    hide Decode, EncodeSample;
    if forall i :: 0 <= i < |ts| ==> Encodable(ts[i], m) {
      RoundTrip(ts, m);
    } else if !Encodable(ts[0], m) {
      BadSampleNotRecovered(ts, m);
    } else {
      var d, e := Decode(EncodeSamples(ts), 0, m), Decode(EncodeSamples(ts[1..]), 0, m);
      var i :| 0 <= i < |ts| && !Encodable(ts[i], m);
      assert ts[1..][i - 1] == ts[i];
      RoundTripExactly(ts[1..], m);
      DecodeEncodable(ts[0], EncodeSamples(ts[1..]), m);
      assert d.samples == [ts[0] - 1] + e.samples;
      assert d.samples[1..] == e.samples;
    }
  }

  /** A NUL-free body closed by a NUL: the last byte of what has arrived is NUL
      exactly when everything has arrived. This is what the write path's peeks
      at the newest buffered byte rely on. */
  lemma LastByteTellsEnd(body: seq<Byte>, arrived: seq<Byte>)
    requires forall i :: 0 <= i < |body| ==> body[i] != 0
    requires arrived <= body + [0] && arrived != []
    ensures arrived[|arrived| - 1] == 0 <==> arrived == body + [0]
  {
    if |arrived| <= |body| {
      assert arrived[|arrived| - 1] == body[|arrived| - 1];
    }
  }
}
