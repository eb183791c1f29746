/** The firmware's table-driven CRC16-CCITT. */
module Crc {
  import opened Division

  /* ---- The table -------------------------------------------------------------- */

  const ROW0: seq<bv16> :=
    [ 0x0000, 0x1021, 0x2042, 0x3063, 0x4084, 0x50a5, 0x60c6, 0x70e7,
      0x8108, 0x9129, 0xa14a, 0xb16b, 0xc18c, 0xd1ad, 0xe1ce, 0xf1ef ]
  const ROW1: seq<bv16> :=
    [ 0x1231, 0x0210, 0x3273, 0x2252, 0x52b5, 0x4294, 0x72f7, 0x62d6,
      0x9339, 0x8318, 0xb37b, 0xa35a, 0xd3bd, 0xc39c, 0xf3ff, 0xe3de ]
  const ROW2: seq<bv16> :=
    [ 0x2462, 0x3443, 0x0420, 0x1401, 0x64e6, 0x74c7, 0x44a4, 0x5485,
      0xa56a, 0xb54b, 0x8528, 0x9509, 0xe5ee, 0xf5cf, 0xc5ac, 0xd58d ]
  const ROW3: seq<bv16> :=
    [ 0x3653, 0x2672, 0x1611, 0x0630, 0x76d7, 0x66f6, 0x5695, 0x46b4,
      0xb75b, 0xa77a, 0x9719, 0x8738, 0xf7df, 0xe7fe, 0xd79d, 0xc7bc ]
  const ROW4: seq<bv16> :=
    [ 0x48c4, 0x58e5, 0x6886, 0x78a7, 0x0840, 0x1861, 0x2802, 0x3823,
      0xc9cc, 0xd9ed, 0xe98e, 0xf9af, 0x8948, 0x9969, 0xa90a, 0xb92b ]
  const ROW5: seq<bv16> :=
    [ 0x5af5, 0x4ad4, 0x7ab7, 0x6a96, 0x1a71, 0x0a50, 0x3a33, 0x2a12,
      0xdbfd, 0xcbdc, 0xfbbf, 0xeb9e, 0x9b79, 0x8b58, 0xbb3b, 0xab1a ]
  const ROW6: seq<bv16> :=
    [ 0x6ca6, 0x7c87, 0x4ce4, 0x5cc5, 0x2c22, 0x3c03, 0x0c60, 0x1c41,
      0xedae, 0xfd8f, 0xcdec, 0xddcd, 0xad2a, 0xbd0b, 0x8d68, 0x9d49 ]
  const ROW7: seq<bv16> :=
    [ 0x7e97, 0x6eb6, 0x5ed5, 0x4ef4, 0x3e13, 0x2e32, 0x1e51, 0x0e70,
      0xff9f, 0xefbe, 0xdfdd, 0xcffc, 0xbf1b, 0xaf3a, 0x9f59, 0x8f78 ]
  const ROW8: seq<bv16> :=
    [ 0x9188, 0x81a9, 0xb1ca, 0xa1eb, 0xd10c, 0xc12d, 0xf14e, 0xe16f,
      0x1080, 0x00a1, 0x30c2, 0x20e3, 0x5004, 0x4025, 0x7046, 0x6067 ]
  const ROW9: seq<bv16> :=
    [ 0x83b9, 0x9398, 0xa3fb, 0xb3da, 0xc33d, 0xd31c, 0xe37f, 0xf35e,
      0x02b1, 0x1290, 0x22f3, 0x32d2, 0x4235, 0x5214, 0x6277, 0x7256 ]
  const ROWA: seq<bv16> :=
    [ 0xb5ea, 0xa5cb, 0x95a8, 0x8589, 0xf56e, 0xe54f, 0xd52c, 0xc50d,
      0x34e2, 0x24c3, 0x14a0, 0x0481, 0x7466, 0x6447, 0x5424, 0x4405 ]
  const ROWB: seq<bv16> :=
    [ 0xa7db, 0xb7fa, 0x8799, 0x97b8, 0xe75f, 0xf77e, 0xc71d, 0xd73c,
      0x26d3, 0x36f2, 0x0691, 0x16b0, 0x6657, 0x7676, 0x4615, 0x5634 ]
  const ROWC: seq<bv16> :=
    [ 0xd94c, 0xc96d, 0xf90e, 0xe92f, 0x99c8, 0x89e9, 0xb98a, 0xa9ab,
      0x5844, 0x4865, 0x7806, 0x6827, 0x18c0, 0x08e1, 0x3882, 0x28a3 ]
  const ROWD: seq<bv16> :=
    [ 0xcb7d, 0xdb5c, 0xeb3f, 0xfb1e, 0x8bf9, 0x9bd8, 0xabbb, 0xbb9a,
      0x4a75, 0x5a54, 0x6a37, 0x7a16, 0x0af1, 0x1ad0, 0x2ab3, 0x3a92 ]
  const ROWE: seq<bv16> :=
    [ 0xfd2e, 0xed0f, 0xdd6c, 0xcd4d, 0xbdaa, 0xad8b, 0x9de8, 0x8dc9,
      0x7c26, 0x6c07, 0x5c64, 0x4c45, 0x3ca2, 0x2c83, 0x1ce0, 0x0cc1 ]
  const ROWF: seq<bv16> :=
    [ 0xef1f, 0xff3e, 0xcf5d, 0xdf7c, 0xaf9b, 0xbfba, 0x8fd9, 0x9ff8,
      0x6e17, 0x7e36, 0x4e55, 0x5e74, 0x2e93, 0x3eb2, 0x0ed1, 0x1ef0 ]

  /** crc16tab, sixteen entries a row. */
  const CRC16TAB: seq<seq<bv16>> :=
    [ ROW0, ROW1, ROW2, ROW3, ROW4, ROW5, ROW6, ROW7, ROW8, ROW9, ROWA, ROWB, ROWC, ROWD, ROWE, ROWF ]

  /** A row is its own first entry added to row 0. */
  ghost predicate RowFollows(row: seq<bv16>, first: bv16) {
    |row| == 16 && row[0] == first && forall k :: 0 <= k < 16 ==> row[k] == first ^ ROW0[k]
  }

  lemma Row0Follows()
    ensures RowFollows(ROW0, ShiftBy(8, 0x0000))
  {
    assert ShiftBy(8, 0x0000) == ShiftBy(4, ShiftBy(4, 0x0000)) == ROW0[0];
  }

  lemma Row1Follows()
    ensures RowFollows(ROW1, ShiftBy(8, 0x1000))
  {
    assert ShiftBy(8, 0x1000) == ShiftBy(4, ShiftBy(4, 0x1000)) == ROW1[0];
  }

  lemma Row2Follows()
    ensures RowFollows(ROW2, ShiftBy(8, 0x2000))
  {
    assert ShiftBy(8, 0x2000) == ShiftBy(4, ShiftBy(4, 0x2000)) == ROW2[0];
  }

  lemma Row3Follows()
    ensures RowFollows(ROW3, ShiftBy(8, 0x3000))
  {
    assert ShiftBy(8, 0x3000) == ShiftBy(4, ShiftBy(4, 0x3000)) == ROW3[0];
  }

  lemma Row4Follows()
    ensures RowFollows(ROW4, ShiftBy(8, 0x4000))
  {
    assert ShiftBy(8, 0x4000) == ShiftBy(4, ShiftBy(4, 0x4000)) == ROW4[0];
  }

  lemma Row5Follows()
    ensures RowFollows(ROW5, ShiftBy(8, 0x5000))
  {
    assert ShiftBy(8, 0x5000) == ShiftBy(4, ShiftBy(4, 0x5000)) == ROW5[0];
  }

  lemma Row6Follows()
    ensures RowFollows(ROW6, ShiftBy(8, 0x6000))
  {
    assert ShiftBy(8, 0x6000) == ShiftBy(4, ShiftBy(4, 0x6000)) == ROW6[0];
  }

  lemma Row7Follows()
    ensures RowFollows(ROW7, ShiftBy(8, 0x7000))
  {
    assert ShiftBy(8, 0x7000) == ShiftBy(4, ShiftBy(4, 0x7000)) == ROW7[0];
  }

  lemma Row8Follows()
    ensures RowFollows(ROW8, ShiftBy(8, 0x8000))
  {
    assert ShiftBy(8, 0x8000) == ShiftBy(4, ShiftBy(4, 0x8000)) == ROW8[0];
  }

  lemma Row9Follows()
    ensures RowFollows(ROW9, ShiftBy(8, 0x9000))
  {
    assert ShiftBy(8, 0x9000) == ShiftBy(4, ShiftBy(4, 0x9000)) == ROW9[0];
  }

  lemma RowAFollows()
    ensures RowFollows(ROWA, ShiftBy(8, 0xA000))
  {
    assert ShiftBy(8, 0xA000) == ShiftBy(4, ShiftBy(4, 0xA000)) == ROWA[0];
  }

  lemma RowBFollows()
    ensures RowFollows(ROWB, ShiftBy(8, 0xB000))
  {
    assert ShiftBy(8, 0xB000) == ShiftBy(4, ShiftBy(4, 0xB000)) == ROWB[0];
  }

  lemma RowCFollows()
    ensures RowFollows(ROWC, ShiftBy(8, 0xC000))
  {
    assert ShiftBy(8, 0xC000) == ShiftBy(4, ShiftBy(4, 0xC000)) == ROWC[0];
  }

  lemma RowDFollows()
    ensures RowFollows(ROWD, ShiftBy(8, 0xD000))
  {
    assert ShiftBy(8, 0xD000) == ShiftBy(4, ShiftBy(4, 0xD000)) == ROWD[0];
  }

  lemma RowEFollows()
    ensures RowFollows(ROWE, ShiftBy(8, 0xE000))
  {
    assert ShiftBy(8, 0xE000) == ShiftBy(4, ShiftBy(4, 0xE000)) == ROWE[0];
  }

  lemma RowFFollows()
    ensures RowFollows(ROWF, ShiftBy(8, 0xF000))
  {
    assert ShiftBy(8, 0xF000) == ShiftBy(4, ShiftBy(4, 0xF000)) == ROWF[0];
  }

  /** `crc16tab[i]`. */
  function Crc16Tab(i: bv8): bv16 {
    CRC16TAB[(i >> 4) as int][(i & 15) as int]
  }

  lemma Row0Entries(k: bv8)
    requires k < 16
    ensures ROW0[k as int] == ShiftBy(8, (k as bv16) << 8)
  {
    if k == 0 { assert ShiftBy(8, 0x000) == 0x0000; }
    else if k == 1 { assert ShiftBy(8, 0x100) == 0x1021; }
    else if k == 2 { assert ShiftBy(8, 0x200) == 0x2042; }
    else if k == 3 { assert ShiftBy(8, 0x300) == 0x3063; }
    else if k == 4 { assert ShiftBy(8, 0x400) == 0x4084; }
    else if k == 5 { assert ShiftBy(8, 0x500) == 0x50a5; }
    else if k == 6 { assert ShiftBy(8, 0x600) == 0x60c6; }
    else if k == 7 { assert ShiftBy(8, 0x700) == 0x70e7; }
    else if k == 8 { assert ShiftBy(8, 0x800) == 0x8108; }
    else if k == 9 { assert ShiftBy(8, 0x900) == 0x9129; }
    else if k == 10 { assert ShiftBy(8, 0xa00) == 0xa14a; }
    else if k == 11 { assert ShiftBy(8, 0xb00) == 0xb16b; }
    else if k == 12 { assert ShiftBy(8, 0xc00) == 0xc18c; }
    else if k == 13 { assert ShiftBy(8, 0xd00) == 0xd1ad; }
    else if k == 14 { assert ShiftBy(8, 0xe00) == 0xe1ce; }
    else { assert k == 15; assert ShiftBy(8, 0xf00) == 0xf1ef; }
  }

  lemma RowOf(r: bv8)
    requires r < 16
    ensures RowFollows(CRC16TAB[r as int], ShiftBy(8, (r as bv16) << 12))
  {
    Row0Follows(); Row1Follows(); Row2Follows(); Row3Follows();
    Row4Follows(); Row5Follows(); Row6Follows(); Row7Follows();
    Row8Follows(); Row9Follows(); RowAFollows(); RowBFollows();
    RowCFollows(); RowDFollows(); RowEFollows(); RowFFollows();
    hide ShiftBy, RowFollows;
    if r == 0 {} else if r == 1 {} else if r == 2 {} else if r == 3 {}
    else if r == 4 {} else if r == 5 {} else if r == 6 {} else if r == 7 {}
    else if r == 8 {} else if r == 9 {} else if r == 10 {} else if r == 11 {}
    else if r == 12 {} else if r == 13 {} else if r == 14 {} else { assert r == 15; }
  }

  function AtTop(b: bv8): bv16 { (b as bv16) << 8 }

  function High(i: bv8): bv8 { i >> 4 }

  function Low(i: bv8): bv8 { i & 15 }

  function HighTop(i: bv8): bv16 { (High(i) as bv16) << 12 }

  function LowTop(i: bv8): bv16 { (Low(i) as bv16) << 8 }

  lemma HalvesSmall(i: bv8)
    ensures High(i) < 16 && Low(i) < 16
  {
  }

  /** The entry at a column of a row that follows row 0. */
  lemma RowEntry(row: seq<bv16>, first: bv16, k: nat)
    requires k < 16 && RowFollows(row, first)
    ensures row[k] == Add(first, ROW0[k])
  {
  }

  lemma EntryIs(i: bv8)
    ensures Crc16Tab(i) == Add(ShiftBy(8, HighTop(i)), ShiftBy(8, LowTop(i)))
  {
    hide Add, ShiftBy, RowFollows;
    HalvesSmall(i);
    RowOf(High(i));
    Row0Entries(Low(i));
    RowEntry(CRC16TAB[High(i) as int], ShiftBy(8, HighTop(i)), Low(i) as int);
  }

  lemma HalvesJoin(i: bv8)
    ensures Add(HighTop(i), LowTop(i)) == AtTop(i)
  {
  }

  /** Every table entry is its index divided eight places on. */
  lemma TableCorrect(i: bv8)
    ensures Crc16Tab(i) == ShiftBy(8, AtTop(i))
  {
    hide *;
    EntryIs(i);
    HalvesJoin(i);
    ShiftByAdd(8, HighTop(i), LowTop(i));
  }

  /** The loop body of `crc16_ccitt`. */
  function TableStep(crc: bv16, b: bv8): bv16 {
    Crc16Tab(TableIndex(crc, b)) ^ (crc << 8)
  }

  function TableIndex(crc: bv16, b: bv8): bv8 { (crc >> 8) as bv8 ^ b }

  /** The top bit of the addend is a bit fed to the register; the rest moves up. */
  lemma PeelTop(c: bv16, x: bv16)
    ensures Shift(Add(c, x)) == Add(Feed(c, Top(x)), Up(x))
  {
    var top := Bit(x & 0x8000 != 0, 0x8000);
    var low := x & 0x7fff;
    assert Add(top, low) == x;
    assert Shift(low) == x << 1;
    hide Shift, Add;
    AddRegroup(c, top, low);
    ShiftAdd(Add(c, top), low);
  }

  function Up(x: bv16): bv16 { x << 1 }

  function UpBy(n: nat, x: bv16): bv16
    decreases n
  {
    if n == 0 then x else UpBy(n - 1, Up(x))
  }

  function Top(x: bv16): bool { x & 0x8000 != 0 }

  /** The `n` top bits, most significant first. */
  function Tops(n: nat, x: bv16): seq<bool>
    decreases n
  {
    if n == 0 then [] else [Top(x)] + Tops(n - 1, Up(x))
  }

  /** Shifting a register with an addend feeds the addend's top bits. */
  lemma {:induction false} ShiftByFeeds(n: nat, c: bv16, x: bv16)
    ensures ShiftBy(n, Add(c, x)) == Add(FeedAll(c, Tops(n, x)), UpBy(n, x))
    decreases n
  {
    if n > 0 {
      PeelTop(c, x);
      hide Shift, Add, Feed, Up, Top;
      ShiftByFeeds(n - 1, Feed(c, Top(x)), Up(x));
      assert Tops(n, x)[1..] == Tops(n - 1, Up(x));
    }
  }

  lemma TopBits(b: bv8)
    ensures var x, s := AtTop(b), Bits(b);
            && s[0] == Top(x)
            && s[1] == Top(Up(x))
            && s[2] == Top(Up(Up(x)))
            && s[3] == Top(Up(Up(Up(x))))
            && s[4] == Top(Up(Up(Up(Up(x)))))
            && s[5] == Top(Up(Up(Up(Up(Up(x))))))
            && s[6] == Top(Up(Up(Up(Up(Up(Up(x)))))))
            && s[7] == Top(Up(Up(Up(Up(Up(Up(Up(x))))))))
    ensures Up(Up(Up(Up(Up(Up(Up(Up(AtTop(b))))))))) == 0
  {
  }

  lemma ByteTops(b: bv8)
    ensures Tops(8, AtTop(b)) == Bits(b) && UpBy(8, AtTop(b)) == 0
  {
    TopBits(b);
    hide Up, Top, Bits, Tops, UpBy, AtTop;
    var s, x0 := Bits(b), AtTop(b);
    TopsFirst(8, x0);
    TopsFirst(7, Up(x0));
    TopsFirst(6, Up(Up(x0)));
    TopsFirst(5, Up(Up(Up(x0))));
    TopsFirst(4, Up(Up(Up(Up(x0)))));
    TopsFirst(3, Up(Up(Up(Up(Up(x0))))));
    TopsFirst(2, Up(Up(Up(Up(Up(Up(x0)))))));
    TopsFirst(1, Up(Up(Up(Up(Up(Up(Up(x0))))))));
    TopsNone(Up(Up(Up(Up(Up(Up(Up(Up(x0)))))))));
  }

  lemma TopsFirst(n: nat, x: bv16)
    requires n > 0
    ensures Tops(n, x) == [Top(x)] + Tops(n - 1, Up(x)) && UpBy(n, x) == UpBy(n - 1, Up(x))
  {
  }

  lemma TopsNone(x: bv16)
    ensures Tops(0, x) == [] && UpBy(0, x) == x
  {
  }

  function LowByte(c: bv16): bv16 { c & 0xff }

  lemma SplitRegister(c: bv16, b: bv8)
    ensures Add(c, AtTop(b)) == Add(AtTop(TableIndex(c, b)), LowByte(c))
  {
    var high, low, top := (c >> 8) << 8, LowByte(c), AtTop(b);
    HighLow(c);
    HighIndex(c, b);
    hide *;
    AddRegroup(high, low, top);
    AddSwap(low, top);
    AddRegroup(high, top, low);
  }

  lemma HighLow(c: bv16)
    ensures Add((c >> 8) << 8, LowByte(c)) == c
  {
  }

  lemma HighIndex(c: bv16, b: bv8)
    ensures AtTop(TableIndex(c, b)) == Add((c >> 8) << 8, AtTop(b))
  {
  }

  lemma ShiftTwice(n: nat, c: bv16)
    ensures ShiftBy(n + 2, c) == ShiftBy(n, Shift(Shift(c)))
    ensures ShiftBy(0, c) == c
  {
  }

  /** Two places up, with nothing falling out at the top. */
  lemma TwoPlaces(y: bv16)
    requires y & 0xc000 == 0
    ensures Shift(Shift(y)) == y << 2
  {
  }

  lemma LowByteRoom(c: bv16)
    ensures var y := LowByte(c); y & 0xc000 == 0 && (y << 2) & 0xc000 == 0
  {
  }

  lemma LowByteMoreRoom(c: bv16)
    ensures var y := LowByte(c); ((y << 2) << 2) & 0xc000 == 0 && (((y << 2) << 2) << 2) & 0xc000 == 0
  {
  }

  lemma LowByteUp(c: bv16)
    ensures (((LowByte(c) << 2) << 2) << 2) << 2 == c << 8
  {
  }

  lemma LowByteShift(c: bv16)
    ensures ShiftBy(8, LowByte(c)) == c << 8
  {
    hide Shift, LowByte;
    var y := LowByte(c);
    LowByteRoom(c);
    LowByteMoreRoom(c);
    LowByteUp(c);
    TwoPlaces(y);
    TwoPlaces(y << 2);
    TwoPlaces((y << 2) << 2);
    TwoPlaces(((y << 2) << 2) << 2);
    ShiftTwice(6, y);
    ShiftTwice(4, y << 2);
    ShiftTwice(2, (y << 2) << 2);
    ShiftTwice(0, ((y << 2) << 2) << 2);
  }

  lemma TableStepParts(c: bv16, b: bv8)
    ensures TableStep(c, b) == Add(ShiftBy(8, AtTop(TableIndex(c, b))), ShiftBy(8, LowByte(c)))
  {
    assert TableStep(c, b) == Add(Crc16Tab(TableIndex(c, b)), c << 8);
    hide *;
    TableCorrect(TableIndex(c, b));
    LowByteShift(c);
  }

  /** One table step feeds one byte. */
  lemma TableStepFeeds(c: bv16, b: bv8)
    ensures TableStep(c, b) == FeedAll(c, Bits(b))
  {
    hide *;
    TableStepParts(c, b);
    ShiftByAdd(8, AtTop(TableIndex(c, b)), LowByte(c));
    SplitRegister(c, b);
    ShiftByFeeds(8, c, AtTop(b));
    ByteTops(b);
    AddZero(FeedAll(c, Bits(b)));
  }

  /* ---- crc16_ccitt ----------------------------------------------------------- */

  /** The CRC of a byte string: the remainder of its bits. */
  function Checksum(seed: bv16, d: seq<bv8>): bv16 { Remainder(seed, BitsOf(d)) }

  lemma ChecksumNone(seed: bv16)
    ensures Checksum(seed, []) == seed
  {
    hide *;
    assert Checksum(seed, []) == FeedAll(seed, BitsOf([])) by {
      FeedIsRemainder(seed, BitsOf([]));
      assert Checksum(seed, []) == Remainder(seed, BitsOf([])) by { ChecksumIs(seed, []); }
    }
    FeedNone(seed);
  }

  lemma ChecksumIs(seed: bv16, d: seq<bv8>)
    ensures Checksum(seed, d) == Remainder(seed, BitsOf(d))
  {
  }

  lemma FeedNone(seed: bv16)
    ensures FeedAll(seed, BitsOf([])) == seed
  {
  }

  /** One byte more is one table step more. */
  lemma ChecksumOneMore(seed: bv16, d: seq<bv8>, b: bv8)
    ensures Checksum(seed, d + [b]) == TableStep(Checksum(seed, d), b)
  {
    hide *;
    ChecksumIs(seed, d);
    ChecksumIs(seed, d + [b]);
    FeedIsRemainder(seed, BitsOf(d));
    FeedIsRemainder(seed, BitsOf(d + [b]));
    BitsAppend(d, [b]);
    BitsOne(b);
    FeedAppend(seed, BitsOf(d), Bits(b));
    TableStepFeeds(FeedAll(seed, BitsOf(d)), b);
  }

  /** The firmware's loop over `len` bytes from `at` computes the remainder. */
  method Crc16Ccitt(buf: array<bv8>, at: nat, len: nat, seed: bv16) returns (crc: bv16)
    requires at + len <= buf.Length
    ensures crc == Checksum(seed, buf[at..at + len])
  {
    hide *;
    crc := seed;
    ChecksumNone(seed);
    assert buf[at..at] == [];
    for i := 0 to len
      invariant crc == Checksum(seed, buf[at..at + i])
    {
      var b := buf[at + i];
      ChecksumOneMore(seed, buf[at..at + i], b);
      assert buf[at..at + i + 1] == buf[at..at + i] + [b];
      TableStepIs(crc, b);
      crc := Crc16Tab((crc >> 8) as bv8 ^ b) ^ (crc << 8);
    }
  }

  lemma TableStepIs(crc: bv16, b: bv8)
    ensures TableStep(crc, b) == Crc16Tab((crc >> 8) as bv8 ^ b) ^ (crc << 8)
  {
  }

  /* ---- What a zero CRC means --------------------------------------------------- */

  /** struct.pack(">H", crc). */
  function BigEndian(c: bv16): (b: seq<bv8>)
    ensures |b| == 2
  {
    [(c >> 8) as bv8, (c & 0xff) as bv8]
  }

  lemma StepsCancel(c: bv16)
    ensures TableStep(TableStep(c, BigEndian(c)[0]), BigEndian(c)[1]) == 0
  {
    assert TableIndex(c, BigEndian(c)[0]) == 0;
    assert Crc16Tab(0) == 0;
    assert TableStep(c, BigEndian(c)[0]) == c << 8;
    assert TableIndex(c << 8, BigEndian(c)[1]) == 0;
    assert c << 8 << 8 == 0;
  }

  /** Data followed by its own CRC, high byte first, always checks as zero. */
  lemma AppendedCrcIsZero(seed: bv16, d: seq<bv8>)
    ensures Checksum(seed, d + BigEndian(Checksum(seed, d))) == 0
  {
    var c := Checksum(seed, d);
    var b := BigEndian(c);
    assert d + b == d + [b[0]] + [b[1]];
    hide *;
    ChecksumOneMore(seed, d, b[0]);
    ChecksumOneMore(seed, d + [b[0]], b[1]);
    StepsCancel(c);
  }

  /** Any change confined to sixteen consecutive bits changes the CRC. */
  lemma BurstErrorDetected(seed: bv16, d: seq<bv8>, e: seq<bv8>, lo: nat, hi: nat)
    requires |d| == |e| && d != e
    requires lo <= hi <= 8 * |d| && hi - lo <= 16
    requires forall i :: 0 <= i < 8 * |d| && !(lo <= i < hi) ==> BitsOf(d)[i] == BitsOf(e)[i]
    ensures Checksum(seed, d) != Checksum(seed, e)
  {
    hide *;
    var x, y := BitsOf(d), BitsOf(e);
    if x == y {
      BitsInjective(d, e);
      assert false;
    }
    SameOutside(x, y, lo, hi);
    BurstDetected(seed, x[..lo], x[lo..hi], y[lo..hi], x[hi..]);
    ChecksumIs(seed, d);
    ChecksumIs(seed, e);
  }

  /** Two bytes close a message to a zero CRC if and only if they are its CRC. */
  lemma ZeroOnlyForOwnCrc(seed: bv16, d: seq<bv8>, b: seq<bv8>)
    requires |b| == 2
    ensures Checksum(seed, d + b) == 0 <==> b == BigEndian(Checksum(seed, d))
  {
    var own := BigEndian(Checksum(seed, d));
    hide *;
    AppendedCrcIsZero(seed, d);
    if b != own {
      assert (d + b)[|d|..] == b && (d + own)[|d|..] == own;
      BitsAppend(d, b);
      BitsAppend(d, own);
      BurstErrorDetected(seed, d + b, d + own, 8 * |d|, 8 * |d| + 16);
    }
  }
}
