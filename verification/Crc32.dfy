/** CRC-32/MPEG-2 (polynomial 0x04C11DB7, seed 0xFFFFFFFF, no reflection), the
    checksum of a whole update file. */
module Crc32 {
  import opened Division

  function Feed32(c: bv32, bit: bool): bv32 {
    if (c & 0x8000_0000 != 0) != bit then (c << 1) ^ 0x04C1_1DB7 else c << 1
  }

  function FeedAll32(c: bv32, bits: seq<bool>): bv32
    decreases |bits|
  {
    if bits == [] then c else FeedAll32(Feed32(c, bits[0]), bits[1..])
  }

  function Checksum32(d: seq<bv8>): bv32 { FeedAll32(0xFFFF_FFFF, BitsOf(d)) }

  function HighByte(c: bv32): bv8 { (c >> 24) as bv8 }

  function UpByte(c: bv32): bv32 { c << 8 }

  /** struct.pack(">I", c). */
  function BigEndian32(c: bv32): (b: seq<bv8>)
    ensures |b| == 4
  {
    [HighByte(c), HighByte(UpByte(c)), HighByte(UpByte(UpByte(c))), HighByte(UpByte(UpByte(UpByte(c))))]
  }

  lemma {:induction false} FeedAppend32(c: bv32, a: seq<bool>, b: seq<bool>)
    ensures FeedAll32(c, a + b) == FeedAll32(FeedAll32(c, a), b)
    decreases |a|
  {
    if a == [] {
      assert a + b == b;
    } else {
      assert (a + b)[1..] == a[1..] + b;
      FeedAppend32(Feed32(c, a[0]), a[1..], b);
    }
  }

  function Top32(c: bv32): bool { c & 0x8000_0000 != 0 }

  function Up32(c: bv32): bv32 { c << 1 }

  lemma FeedOwnTop(c: bv32)
    ensures Feed32(c, Top32(c)) == Up32(c)
  {
  }

  lemma OwnHighBits(c: bv32)
    ensures var s := Bits(HighByte(c));
            && s[0] == Top32(c)
            && s[1] == Top32(Up32(c))
            && s[2] == Top32(Up32(Up32(c)))
            && s[3] == Top32(Up32(Up32(Up32(c))))
  {
  }

  lemma OwnLowBits(c: bv32)
    ensures var s, x := Bits(HighByte(c)), Up32(Up32(Up32(Up32(c))));
            && s[4] == Top32(x)
            && s[5] == Top32(Up32(x))
            && s[6] == Top32(Up32(Up32(x)))
            && s[7] == Top32(Up32(Up32(Up32(x))))
  {
  }

  lemma UpEight(c: bv32)
    ensures Up32(Up32(Up32(Up32(Up32(Up32(Up32(Up32(c)))))))) == UpByte(c)
  {
  }

  lemma FeedFirst32(c: bv32, bits: seq<bool>)
    requires bits != [] && bits[0] == Top32(c)
    ensures FeedAll32(c, bits) == FeedAll32(Up32(c), bits[1..])
  {
    hide Top32, Up32, Feed32;
    FeedOwnTop(c);
  }

  /** A register fed its own top byte moves up by a byte. */
  lemma FeedOwnByte(c: bv32)
    ensures FeedAll32(c, Bits(HighByte(c))) == UpByte(c)
  {
    hide *;
    OwnHighBits(c);
    OwnLowBits(c);
    UpEight(c);
    var s := Bits(HighByte(c));
    var x := Up32(Up32(Up32(Up32(c))));
    FeedFirst32(c, s);
    FeedFirst32(Up32(c), s[1..]);
    FeedFirst32(Up32(Up32(c)), s[2..]);
    FeedFirst32(Up32(Up32(Up32(c))), s[3..]);
    FeedFirst32(x, s[4..]);
    FeedFirst32(Up32(x), s[5..]);
    FeedFirst32(Up32(Up32(x)), s[6..]);
    FeedFirst32(Up32(Up32(Up32(x))), s[7..]);
    assert s[1..][1..] == s[2..] && s[2..][1..] == s[3..] && s[3..][1..] == s[4..];
    assert s[4..][1..] == s[5..] && s[5..][1..] == s[6..] && s[6..][1..] == s[7..] && s[7..][1..] == [];
    FeedNone32(UpByte(c));
  }

  lemma FeedNone32(c: bv32)
    ensures FeedAll32(c, []) == c
  {
  }

  lemma UpWord(c: bv32)
    ensures UpByte(UpByte(UpByte(UpByte(c)))) == 0
  {
  }

  /** A file followed by its own CRC, high byte first, always checks as zero. */
  lemma AppendedCrc32IsZero(d: seq<bv8>)
    ensures Checksum32(d + BigEndian32(Checksum32(d))) == 0
  {
    var c := Checksum32(d);
    var b := BigEndian32(c);
    assert d + b == d + [b[0]] + [b[1]] + [b[2]] + [b[3]];
    var c1 := UpByte(c);
    var c2 := UpByte(c1);
    var c3 := UpByte(c2);
    UpWord(c);
    hide UpByte, HighByte, FeedAll32, Feed32, Bits;
    FeedByte(d, b[0]);
    FeedOwnByte(c);
    FeedByte(d + [b[0]], b[1]);
    FeedOwnByte(c1);
    FeedByte(d + [b[0]] + [b[1]], b[2]);
    FeedOwnByte(c2);
    FeedByte(d + [b[0]] + [b[1]] + [b[2]], b[3]);
    FeedOwnByte(c3);
  }

  lemma FeedByte(d: seq<bv8>, b: bv8)
    ensures Checksum32(d + [b]) == FeedAll32(Checksum32(d), Bits(b))
  {
    hide Bits, FeedAll32;
    BitsAppend(d, [b]);
    BitsOne(b);
    FeedAppend32(0xFFFF_FFFF, BitsOf(d), Bits(b));
  }

  /* ---- What it detects ------------------------------------------------------------ */

  function Add32(x: bv32, y: bv32): bv32 { x ^ y }

  function Weigh(b: bool, w: bv32): bv32 { if b then w else 0 }

  const POLY32: bv32 := 0x04C1_1DB7

  lemma FeedIs(c: bv32, b: bool)
    ensures Feed32(c, b) == Add32(Up32(c), Weigh(Top32(c) != b, POLY32))
  {
    AddZero32(Up32(c));
    hide Add32;
    if Top32(c) != b {
      FeedTakes(c, b);
    }
  }

  lemma FeedTakes(c: bv32, b: bool)
    requires Top32(c) != b
    ensures Feed32(c, b) == Add32(Up32(c), POLY32)
  {
  }

  lemma AddZero32(x: bv32)
    ensures Add32(x, 0) == x
  {
  }

  lemma AddSelf32(x: bv32)
    ensures Add32(x, x) == 0
  {
  }

  lemma AddSwap32(x: bv32, y: bv32)
    ensures Add32(x, y) == Add32(y, x)
  {
  }

  lemma AddRegroup32(x: bv32, y: bv32, z: bv32)
    ensures Add32(Add32(x, y), z) == Add32(x, Add32(y, z))
  {
  }

  lemma TopAdd(x: bv32, y: bv32)
    ensures Top32(Add32(x, y)) == (Top32(x) != Top32(y))
  {
  }

  lemma UpAdd(x: bv32, y: bv32)
    ensures Up32(Add32(x, y)) == Add32(Up32(x), Up32(y))
  {
  }

  lemma WeighAdd(a: bool, b: bool, w: bv32)
    ensures Add32(Weigh(a, w), Weigh(b, w)) == Weigh(a != b, w)
  {
    AddZero32(w);
    AddZero32(0);
    AddSwap32(0, w);
    AddSelf32(w);
    hide Add32;
  }

  lemma AddAcross(u: bv32, p: bv32, v: bv32, q: bv32)
    ensures Add32(Add32(u, p), Add32(v, q)) == Add32(Add32(u, v), Add32(p, q))
  {
    hide Add32;
    AddRegroup32(u, p, Add32(v, q));
    AddRegroup32(p, v, q);
    AddSwap32(p, v);
    AddRegroup32(v, p, q);
    AddRegroup32(u, v, Add32(p, q));
  }

  lemma FeedAddBit32(c: bv32, d: bv32, a: bool, b: bool)
    ensures Add32(Feed32(c, a), Feed32(d, b)) == Feed32(Add32(c, d), a != b)
  {
    hide *;
    FeedIs(c, a);
    FeedIs(d, b);
    FeedIs(Add32(c, d), a != b);
    TopAdd(c, d);
    UpAdd(c, d);
    AddAcross(Up32(c), Weigh(Top32(c) != a, POLY32), Up32(d), Weigh(Top32(d) != b, POLY32));
    WeighAdd(Top32(c) != a, Top32(d) != b, POLY32);
  }

  /** The register is linear: the difference of two registers is the register of the
      differences. */
  lemma {:induction false} FeedLinear32(c: bv32, d: bv32, x: seq<bool>, y: seq<bool>)
    requires |x| == |y|
    ensures Add32(FeedAll32(c, x), FeedAll32(d, y)) == FeedAll32(Add32(c, d), Differences(x, y))
    decreases |x|
  {
    if x != [] {
      FeedAddBit32(c, d, x[0], y[0]);
      hide Feed32, Add32;
      FeedLinear32(Feed32(c, x[0]), Feed32(d, y[0]), x[1..], y[1..]);
      assert Differences(x, y)[1..] == Differences(x[1..], y[1..]);
    }
  }

  lemma SameAdd(x: bv32, y: bv32)
    ensures Add32(x, y) == 0 <==> x == y
  {
    AddSelf32(y);
    AddRegroup32(x, y, y);
    AddZero32(x);
    AddSwap32(0, y);
    AddZero32(y);
    hide Add32;
  }

  /** A register can be traced back. */
  lemma FeedBack32(c: bv32, d: bv32, b: bool)
    requires Feed32(c, b) == Feed32(d, b)
    ensures c == d
  {
    hide *;
    FeedAddBit32(c, d, b, b);
    SameAdd(Feed32(c, b), Feed32(d, b));
    FeedZero(Add32(c, d));
    SameAdd(c, d);
  }

  lemma FeedZero(c: bv32)
    requires Feed32(c, false) == 0
    ensures c == 0
  {
  }

  lemma {:induction false} DifferenceStays32(c: bv32, d: bv32, b: seq<bool>)
    requires c != d
    ensures FeedAll32(c, b) != FeedAll32(d, b)
    decreases |b|
  {
    if b != [] {
      hide Feed32;
      if Feed32(c, b[0]) == Feed32(d, b[0]) {
        FeedBack32(c, d, b[0]);
        assert false;
      }
      DifferenceStays32(Feed32(c, b[0]), Feed32(d, b[0]), b[1..]);
    }
  }

  function Halved(w: bv32): bv32 { w >> 1 }

  /** Bits as a word, the first of weight `w`. */
  function Pack(e: seq<bool>, w: bv32): bv32
    decreases |e|
  {
    if e == [] then 0 else Add32(Weigh(e[0], w), Pack(e[1..], Halved(w)))
  }

  /** `w` can be halved and doubled again, `n` times over. */
  predicate Halves(w: bv32, n: nat)
    decreases n
  {
    n == 0 || (w != 0 && Up32(Halved(w)) == w && Halves(Halved(w), n - 1))
  }

  lemma UpWeigh(b: bool, w: bv32)
    requires Up32(Halved(w)) == w
    ensures Up32(Weigh(b, Halved(w))) == Weigh(b, w)
  {
  }

  /** A word packed one place lower, moved up. */
  lemma {:induction false} UpPack(e: seq<bool>, w: bv32)
    requires Halves(w, |e|)
    ensures Up32(Pack(e, Halved(w))) == Pack(e, w)
    decreases |e|
  {
    if e != [] {
      hide Up32, Halved, Add32, Weigh;
      UpWeigh(e[0], w);
      UpAdd(Weigh(e[0], Halved(w)), Pack(e[1..], Halved(Halved(w))));
      UpPack(e[1..], Halved(w));
    } else {
      assert Up32(0) == 0;
    }
  }

  const TOP32: bv32 := 0x8000_0000

  lemma TopHalves()
    ensures Halves(TOP32, 31)
  {
    assert Halves(0x80, 7);
    HalvesMore(0x8000, 7);
    HalvesMore(0x80_0000, 15);
    HalvesMore(0x8000_0000, 23);
  }

  /** Eight halvings more. */
  lemma HalvesMore(w: bv32, n: nat)
    requires w == 0x8000 || w == 0x80_0000 || w == 0x8000_0000
    requires Halves(w >> 8, n)
    ensures Halves(w, n + 8)
  {
    assert Halves(w >> 7, n + 1);
    assert Halves(w >> 6, n + 2);
    assert Halves(w >> 5, n + 3);
    assert Halves(w >> 4, n + 4);
    assert Halves(w >> 3, n + 5);
    assert Halves(w >> 2, n + 6);
    assert Halves(w >> 1, n + 7);
  }

  lemma {:induction false} HalvesFewer(w: bv32, n: nat, k: nat)
    requires Halves(w, n) && k <= n
    ensures Halves(w, k)
    decreases k
  {
    if k > 0 {
      HalvesFewer(Halved(w), n - 1, k - 1);
    }
  }

  lemma {:induction false} NoTopPack(e: seq<bool>, w: bv32)
    requires !Top32(w)
    ensures !Top32(Pack(e, w))
    decreases |e|
  {
    if e != [] {
      NoTopPack(e[1..], Halved(w));
      NoTopAdd32(Weigh(e[0], w), Pack(e[1..], Halved(w)));
    }
  }

  lemma NoTopAdd32(x: bv32, y: bv32)
    requires !Top32(x) && !Top32(y)
    ensures !Top32(Add32(x, y))
  {
  }

  /** A register that holds the bits it is fed: they go out as they come in. */
  lemma PackFeed(e: seq<bool>)
    requires 0 < |e| <= 32
    ensures Feed32(Pack(e, TOP32), e[0]) == Pack(e[1..], TOP32)
  {
    var rest := Pack(e[1..], Halved(TOP32));
    NoTopPack(e[1..], Halved(TOP32));
    TopHalves();
    HalvesFewer(TOP32, 31, |e| - 1);
    UpPack(e[1..], TOP32);
    OwnTop(e[0], rest);
  }

  lemma OwnTop(b: bool, rest: bv32)
    requires !Top32(rest)
    ensures Feed32(Add32(Weigh(b, TOP32), rest), b) == Up32(rest)
  {
  }

  lemma {:induction false} PackFeeds(e: seq<bool>)
    requires |e| <= 32
    ensures FeedAll32(Pack(e, TOP32), e) == 0
    decreases |e|
  {
    if e != [] {
      hide Feed32, Pack;
      PackFeed(e);
      PackFeeds(e[1..]);
    }
  }

  lemma {:induction false} PackNonzero(e: seq<bool>)
    requires |e| <= 32 && true in e
    ensures Pack(e, TOP32) != 0
    decreases |e|
  {
    if Pack(e, TOP32) == 0 {
      PackFeed(e);
      NoTopPack(e[1..], Halved(TOP32));
      TopIs(e[0], Pack(e[1..], Halved(TOP32)));
      assert !e[0];
      assert Feed32(0, false) == 0;
      PackNonzero(e[1..]);
      assert false;
    }
  }

  lemma TopIs(b: bool, rest: bv32)
    requires !Top32(rest)
    ensures Top32(Add32(Weigh(b, TOP32), rest)) == b
  {
  }

  /** Two messages that differ only within thirty-two consecutive bits never leave the
      same register. */
  lemma BurstDetected32(seed: bv32, a: seq<bool>, x: seq<bool>, y: seq<bool>, b: seq<bool>)
    requires |x| == |y| <= 32 && x != y
    ensures FeedAll32(seed, a + x + b) != FeedAll32(seed, a + y + b)
  {
    hide Feed32, FeedAll32, Pack;
    var c, e := FeedAll32(seed, a), Differences(x, y);
    assert true in e by {
      var i :| 0 <= i < |x| && x[i] != y[i];
      assert e[i];
    }
    PackFeeds(e);
    PackNonzero(e);
    DifferenceStays32(Pack(e, TOP32), 0, e);
    FeedLinear32(c, c, x, y);
    SameAdd(c, c);
    SameAdd(FeedAll32(c, x), FeedAll32(c, y));
    DifferenceStays32(FeedAll32(c, x), FeedAll32(c, y), b);
    FeedAppend32(seed, a + x, b);
    FeedAppend32(seed, a, x);
    FeedAppend32(seed, a + y, b);
    FeedAppend32(seed, a, y);
  }

  /** Any change confined to thirty-two consecutive bits changes the CRC. */
  lemma BurstErrorDetected32(d: seq<bv8>, e: seq<bv8>, lo: nat, hi: nat)
    requires |d| == |e| && d != e
    requires lo <= hi <= 8 * |d| && hi - lo <= 32
    requires forall i :: 0 <= i < 8 * |d| && !(lo <= i < hi) ==> BitsOf(d)[i] == BitsOf(e)[i]
    ensures Checksum32(d) != Checksum32(e)
  {
    hide FeedAll32, BitsOf;
    var x, y := BitsOf(d), BitsOf(e);
    if x == y {
      BitsInjective(d, e);
      assert false;
    }
    SameOutside(x, y, lo, hi);
    BurstDetected32(0xFFFF_FFFF, x[..lo], x[lo..hi], y[lo..hi], x[hi..]);
  }

  /* ---- Long division by x^32 + x^26 + .. + 1 ----------------------------------------- */

  /** A partial remainder times x, with the divisor taken off when it reaches x^32. */
  function Shift32(r: bv32): bv32 { Feed32(r, false) }

  /** One step of long division: bring down the next bit of the dividend. */
  function DivideStep32(r: bv32, bit: bool): bv32 { Add32(Shift32(r), Weigh(bit, 1)) }

  function Divide32(r: bv32, bits: seq<bool>): bv32
    decreases |bits|
  {
    if bits == [] then r else Divide32(DivideStep32(r, bits[0]), bits[1..])
  }

  function ShiftBy32(n: nat, c: bv32): bv32 { FeedAll32(c, Zeros(n)) }

  lemma {:induction false} DivideZeros32(n: nat, r: bv32)
    ensures Divide32(r, Zeros(n)) == ShiftBy32(n, r)
    decreases n
  {
    if n > 0 {
      assert Zeros(n)[1..] == Zeros(n - 1);
      AddZero32(Shift32(r));
      hide Feed32, Add32;
      DivideZeros32(n - 1, Shift32(r));
    }
  }

  lemma ShiftFirst32(n: nat, c: bv32)
    ensures ShiftBy32(n + 1, c) == ShiftBy32(n, Shift32(c))
  {
    hide Feed32;
    assert Zeros(n + 1)[1..] == Zeros(n);
  }

  lemma ShiftLast32(n: nat, c: bv32)
    ensures ShiftBy32(n + 1, c) == Shift32(ShiftBy32(n, c))
  {
    hide Feed32;
    assert Zeros(n + 1) == Zeros(n) + [false];
    FeedAppend32(c, Zeros(n), [false]);
    FeedOne32(ShiftBy32(n, c), false);
  }

  lemma FeedOne32(c: bv32, b: bool)
    ensures FeedAll32(c, [b]) == Feed32(c, b)
  {
    hide Feed32;
    assert [b][1..] == [];
  }

  lemma ShiftByAdd32(n: nat, x: bv32, y: bv32)
    ensures ShiftBy32(n, Add32(x, y)) == Add32(ShiftBy32(n, x), ShiftBy32(n, y))
  {
    hide Feed32, Add32, FeedAll32;
    FeedLinear32(x, y, Zeros(n), Zeros(n));
    assert Differences(Zeros(n), Zeros(n)) == Zeros(n);
  }

  /** Eight bits, one after the other. */
  function Feed8(c: bv32, s: seq<bool>): bv32
    requires |s| == 8
  {
    Feed32(Feed32(Feed32(Feed32(Feed32(Feed32(Feed32(Feed32(c, s[0]), s[1]), s[2]), s[3]), s[4]), s[5]), s[6]), s[7])
  }

  lemma FeedEight32(c: bv32, s: seq<bool>)
    requires |s| == 8
    ensures FeedAll32(c, s) == Feed8(c, s)
  {
    hide Feed32;
    var c1 := Feed32(c, s[0]);
    var c2 := Feed32(c1, s[1]);
    var c3 := Feed32(c2, s[2]);
    var c4 := Feed32(c3, s[3]);
    var c5 := Feed32(c4, s[4]);
    var c6 := Feed32(c5, s[5]);
    var c7 := Feed32(c6, s[6]);
    hide FeedAll32;
    FeedNext32(c, s, 0);
    FeedNext32(c1, s, 1);
    FeedNext32(c2, s, 2);
    FeedNext32(c3, s, 3);
    FeedNext32(c4, s, 4);
    FeedNext32(c5, s, 5);
    FeedNext32(c6, s, 6);
    FeedNext32(c7, s, 7);
    FeedNothing32(Feed32(c7, s[7]), s[8..]);
    assert s[0..] == s;
  }

  lemma FeedNext32(c: bv32, s: seq<bool>, k: nat)
    requires k < |s|
    ensures FeedAll32(c, s[k..]) == FeedAll32(Feed32(c, s[k]), s[k + 1..])
  {
    hide Feed32;
    assert s[k..][1..] == s[k + 1..];
  }

  lemma FeedNothing32(c: bv32, s: seq<bool>)
    requires s == []
    ensures FeedAll32(c, s) == c
  {
  }

  lemma ShiftSum32(a: nat, b: nat, c: bv32)
    ensures ShiftBy32(a + b, c) == ShiftBy32(b, ShiftBy32(a, c))
  {
    hide FeedAll32;
    assert Zeros(a + b) == Zeros(a) + Zeros(b);
    FeedAppend32(c, Zeros(a), Zeros(b));
  }

  lemma ShiftEight32(c: bv32)
    ensures ShiftBy32(8, c) == Feed8(c, Zeros(8))
  {
    FeedEight32(c, Zeros(8));
  }

  /** x^32 is the rest of the divisor in the quotient. */
  lemma ShiftOne32()
    ensures ShiftBy32(32, 1) == POLY32
  {
    hide ShiftBy32;
    ShiftSum32(24, 8, 1);
    ShiftSum32(16, 8, 1);
    ShiftSum32(8, 8, 1);
    ShiftEight32(0x0000_0001);
    ShiftEight32(0x0000_0100);
    ShiftEight32(0x0001_0000);
    ShiftEight32(0x0100_0000);
    assert Feed8(0x0000_0001, Zeros(8)) == 0x0000_0100;
    assert Feed8(0x0000_0100, Zeros(8)) == 0x0001_0000;
    assert Feed8(0x0001_0000, Zeros(8)) == 0x0100_0000;
    assert Feed8(0x0100_0000, Zeros(8)) == POLY32;
  }

  lemma {:induction false} ShiftZero32(n: nat)
    ensures ShiftBy32(n, 0) == 0
    decreases n
  {
    if n > 0 {
      assert Shift32(0) == 0;
      ShiftFirst32(n - 1, 0);
      ShiftZero32(n - 1);
    }
  }

  /** Dividing one more bit and then thirty-two zeros is feeding the register. */
  lemma DivideFeeds32(r: bv32, bit: bool)
    ensures ShiftBy32(32, DivideStep32(r, bit)) == Feed32(ShiftBy32(32, r), bit)
  {
    assert Feed32(0, true) == POLY32 && Feed32(0, false) == 0;
    hide Feed32, Add32, ShiftBy32;
    ShiftByAdd32(32, Shift32(r), Weigh(bit, 1));
    ShiftFirst32(32, r);
    ShiftLast32(32, r);
    ShiftOne32();
    ShiftZero32(32);
    FeedAddBit32(ShiftBy32(32, r), 0, false, bit);
    AddZero32(ShiftBy32(32, r));
  }

  /** For every initial remainder, feeding a message into the register is dividing it with
      thirty-two zeros behind it. The seed of all ones is the initial remainder that thirty-two
      zeros take to it. */
  lemma {:induction false} DivideIsFeedAll32(r: bv32, bits: seq<bool>)
    ensures Divide32(r, bits + Zeros(32)) == FeedAll32(ShiftBy32(32, r), bits)
    decreases |bits|
  {
    hide Feed32, Add32, ShiftBy32;
    if bits == [] {
      assert bits + Zeros(32) == Zeros(32);
      DivideZeros32(32, r);
    } else {
      assert (bits + Zeros(32))[1..] == bits[1..] + Zeros(32);
      DivideFeeds32(r, bits[0]);
      DivideIsFeedAll32(DivideStep32(r, bits[0]), bits[1..]);
    }
  }

  /* ---- The check value -------------------------------------------------------------------- */

  lemma CheckByte1()
    ensures FeedAll32(0xffff_ffff, Bits(0x31)) == 0x9efb_cf93
  {
    FeedEight32(0xffff_ffff, Bits(0x31));
    hide FeedAll32;
  }

  lemma CheckByte2()
    ensures FeedAll32(0x9efb_cf93, Bits(0x32)) == 0x3fec_5e6a
  {
    FeedEight32(0x9efb_cf93, Bits(0x32));
    hide FeedAll32;
  }

  lemma CheckByte3()
    ensures FeedAll32(0x3fec_5e6a, Bits(0x33)) == 0xd952_f164
  {
    FeedEight32(0x3fec_5e6a, Bits(0x33));
    hide FeedAll32;
  }

  lemma CheckByte4()
    ensures FeedAll32(0xd952_f164, Bits(0x34)) == 0xa695_c4aa
  {
    FeedEight32(0xd952_f164, Bits(0x34));
    hide FeedAll32;
  }

  lemma CheckByte5()
    ensures FeedAll32(0xa695_c4aa, Bits(0x35)) == 0xbd9a_b747
  {
    FeedEight32(0xa695_c4aa, Bits(0x35));
    hide FeedAll32;
  }

  lemma CheckByte6()
    ensures FeedAll32(0xbd9a_b747, Bits(0x36)) == 0xd8f0_6c8f
  {
    FeedEight32(0xbd9a_b747, Bits(0x36));
    hide FeedAll32;
  }

  lemma CheckByte7()
    ensures FeedAll32(0xd8f0_6c8f, Bits(0x37)) == 0x0d8a_14c4
  {
    FeedEight32(0xd8f0_6c8f, Bits(0x37));
    hide FeedAll32;
  }

  lemma CheckByte8()
    ensures FeedAll32(0x0d8a_14c4, Bits(0x38)) == 0x49e3_c2fb
  {
    FeedEight32(0x0d8a_14c4, Bits(0x38));
    hide FeedAll32;
  }

  lemma CheckByte9()
    ensures FeedAll32(0x49e3_c2fb, Bits(0x39)) == 0x0376_e6e7
  {
    FeedEight32(0x49e3_c2fb, Bits(0x39));
    hide FeedAll32;
  }

  lemma NextByte(d: seq<bv8>, b: bv8, c: bv32, c': bv32, e: seq<bv8>)
    requires Checksum32(d) == c && FeedAll32(c, Bits(b)) == c' && e == d + [b]
    ensures Checksum32(e) == c'
  {
    FeedByte(d, b);
  }

  lemma CheckNone()
    ensures Checksum32([]) == 0xffff_ffff
  {
  }

  lemma CheckTo1()
    ensures Checksum32([0x31]) == 0x9efb_cf93
  {
    hide Checksum32, FeedAll32, Bits;
    CheckNone();
    CheckByte1();
    NextByte([], 0x31, 0xffff_ffff, 0x9efb_cf93, [0x31]);
  }

  lemma CheckTo2()
    ensures Checksum32([0x31, 0x32]) == 0x3fec_5e6a
  {
    hide Checksum32, FeedAll32, Bits;
    CheckTo1();
    CheckByte2();
    NextByte([0x31], 0x32, 0x9efb_cf93, 0x3fec_5e6a, [0x31, 0x32]);
  }

  lemma CheckTo3()
    ensures Checksum32([0x31, 0x32, 0x33]) == 0xd952_f164
  {
    hide Checksum32, FeedAll32, Bits;
    CheckTo2();
    CheckByte3();
    NextByte([0x31, 0x32], 0x33, 0x3fec_5e6a, 0xd952_f164, [0x31, 0x32, 0x33]);
  }

  lemma CheckTo4()
    ensures Checksum32([0x31, 0x32, 0x33, 0x34]) == 0xa695_c4aa
  {
    hide Checksum32, FeedAll32, Bits;
    CheckTo3();
    CheckByte4();
    NextByte([0x31, 0x32, 0x33], 0x34, 0xd952_f164, 0xa695_c4aa, [0x31, 0x32, 0x33, 0x34]);
  }

  lemma CheckTo5()
    ensures Checksum32([0x31, 0x32, 0x33, 0x34, 0x35]) == 0xbd9a_b747
  {
    hide Checksum32, FeedAll32, Bits;
    CheckTo4();
    CheckByte5();
    NextByte([0x31, 0x32, 0x33, 0x34], 0x35, 0xa695_c4aa, 0xbd9a_b747, [0x31, 0x32, 0x33, 0x34, 0x35]);
  }

  lemma CheckTo6()
    ensures Checksum32([0x31, 0x32, 0x33, 0x34, 0x35, 0x36]) == 0xd8f0_6c8f
  {
    hide Checksum32, FeedAll32, Bits;
    CheckTo5();
    CheckByte6();
    NextByte([0x31, 0x32, 0x33, 0x34, 0x35], 0x36, 0xbd9a_b747, 0xd8f0_6c8f, [0x31, 0x32, 0x33, 0x34, 0x35, 0x36]);
  }

  lemma CheckTo7()
    ensures Checksum32([0x31, 0x32, 0x33, 0x34, 0x35, 0x36, 0x37]) == 0x0d8a_14c4
  {
    hide Checksum32, FeedAll32, Bits;
    CheckTo6();
    CheckByte7();
    NextByte([0x31, 0x32, 0x33, 0x34, 0x35, 0x36], 0x37, 0xd8f0_6c8f, 0x0d8a_14c4, [0x31, 0x32, 0x33, 0x34, 0x35, 0x36, 0x37]);
  }

  lemma CheckTo8()
    ensures Checksum32([0x31, 0x32, 0x33, 0x34, 0x35, 0x36, 0x37, 0x38]) == 0x49e3_c2fb
  {
    hide Checksum32, FeedAll32, Bits;
    CheckTo7();
    CheckByte8();
    NextByte([0x31, 0x32, 0x33, 0x34, 0x35, 0x36, 0x37], 0x38, 0x0d8a_14c4, 0x49e3_c2fb, [0x31, 0x32, 0x33, 0x34, 0x35, 0x36, 0x37, 0x38]);
  }

  lemma CheckTo9()
    ensures Checksum32([0x31, 0x32, 0x33, 0x34, 0x35, 0x36, 0x37, 0x38, 0x39]) == 0x0376_e6e7
  {
    hide Checksum32, FeedAll32, Bits;
    CheckTo8();
    CheckByte9();
    NextByte([0x31, 0x32, 0x33, 0x34, 0x35, 0x36, 0x37, 0x38], 0x39, 0x49e3_c2fb, 0x0376_e6e7, [0x31, 0x32, 0x33, 0x34, 0x35, 0x36, 0x37, 0x38, 0x39]);
  }

  /** The check value of CRC-32/MPEG-2: that of the nine characters 123456789. */
  lemma CheckValue32()
    ensures Checksum32([0x31, 0x32, 0x33, 0x34, 0x35, 0x36, 0x37, 0x38, 0x39]) == 0x0376_e6e7
  {
    hide Checksum32;
    CheckTo9();
  }
}
