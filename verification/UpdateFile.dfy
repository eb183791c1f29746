/** Single bytes as numbers, the conversion under struct.pack. */
module Bytes {
  import opened Words
  import opened Division

  /** The number with these binary digits, first one highest. */
  function Value(bits: seq<bool>): nat
    decreases |bits|
  {
    if bits == [] then 0
    else 2 * Value(bits[..|bits| - 1]) + if bits[|bits| - 1] then 1 else 0
  }

  /** The lowest `k` binary digits of `n`. */
  function Digits(n: nat, k: nat): (bits: seq<bool>)
    ensures |bits| == k
    decreases k
  {
    if k == 0 then [] else Digits(n / 2, k - 1) + [n % 2 == 1]
  }

  lemma {:induction false} DigitsValue(n: nat, k: nat)
    requires n < Pow2(k)
    ensures Value(Digits(n, k)) == n
    decreases k
  {
    if k > 0 {
      DigitsValue(n / 2, k - 1);
      assert Digits(n, k)[..k - 1] == Digits(n / 2, k - 1);
    }
  }

  lemma {:induction false} ValueFits(bits: seq<bool>)
    ensures Value(bits) < Pow2(|bits|)
    decreases |bits|
  {
    if bits != [] {
      ValueFits(bits[..|bits| - 1]);
    }
  }

  function Mask(bit: bool, mask: bv8): bv8 { if bit then mask else 0 }

  function Pack(d: seq<bool>): (b: bv8)
    requires |d| == 8
  {
    Mask(d[0], 0x80) | Mask(d[1], 0x40) | Mask(d[2], 0x20) | Mask(d[3], 0x10)
    | Mask(d[4], 0x08) | Mask(d[5], 0x04) | Mask(d[6], 0x02) | Mask(d[7], 0x01)
  }

  lemma PackBits(d: seq<bool>)
    requires |d| == 8
    ensures Bits(Pack(d)) == d
  {
  }

  function FromByte(b: bv8): (n: nat)
    ensures n < 256
  {
    ValueFits(Bits(b));
    assert Pow2(8) == 256;
    Value(Bits(b))
  }

  lemma {:induction false} BitWeighs(bits: seq<bool>, k: nat)
    requires k < |bits| && forall i :: 0 <= i < |bits| ==> (bits[i] <==> i == k)
    ensures Value(bits) == Pow2(|bits| - 1 - k)
    decreases |bits|
  {
    var n := |bits| - 1;
    if k < n {
      BitWeighs(bits[..n], k);
    } else {
      NoBits(bits[..n]);
    }
  }

  lemma {:induction false} NoBits(bits: seq<bool>)
    requires forall i :: 0 <= i < |bits| ==> !bits[i]
    ensures Value(bits) == 0
    decreases |bits|
  {
    if bits != [] {
      NoBits(bits[..|bits| - 1]);
    }
  }

  /** The bits of a byte weigh what they should. */
  lemma ByteWeights()
    ensures FromByte(0x01) == 1 && FromByte(0x02) == 2 && FromByte(0x04) == 4 && FromByte(0x08) == 8
    ensures FromByte(0x10) == 16 && FromByte(0x20) == 32 && FromByte(0x40) == 64 && FromByte(0x80) == 128
  {
    assert Pow2(1) == 2 && Pow2(2) == 4 && Pow2(3) == 8 && Pow2(4) == 16 && Pow2(5) == 32 && Pow2(6) == 64 && Pow2(7) == 128;
    hide Value, Pow2;
    BitWeighs(Bits(0x01), 7);
    BitWeighs(Bits(0x02), 6);
    BitWeighs(Bits(0x04), 5);
    BitWeighs(Bits(0x08), 4);
    BitWeighs(Bits(0x10), 3);
    BitWeighs(Bits(0x20), 2);
    BitWeighs(Bits(0x40), 1);
    BitWeighs(Bits(0x80), 0);
  }

  function ToByte(n: nat): (b: bv8)
    requires n < 256
    ensures FromByte(b) == n
  {
    DigitsValue(n, 8);
    PackBits(Digits(n, 8));
    Pack(Digits(n, 8))
  }
}

/** Update files: how mk_update.py builds and concatenates them, and the walk by
    which it verifies one. */
module UpdateFile {
  import opened Bytes
  import opened Division
  import opened Crc
  import opened Crc32

  datatype Option<T> = None | Some(value: T)

  /** An image to be packed: `sig` is b'BL' or b'GW' in a good one. */
  datatype Image = Image(dat: seq<bv8>, hwModel: nat, major: bv8, minor: bv8, sig: seq<bv8>)

  /** What the verifier prints for an entry. */
  datatype Listing = Listing(hwModel: nat, sig: seq<bv8>, major: bv8, minor: bv8, len: nat)

  const BL: seq<bv8> := [0x42, 0x4C]
  const GW: seq<bv8> := [0x47, 0x57]
  const MAGIC: seq<bv8> := [0x47, 0x57, 0x55, 0x50]

  /* ---- Little-endian fields ------------------------------------------------- */

  /** struct.pack("<H", n). */
  function Le16(n: nat): (b: seq<bv8>)
    requires n < 0x1_0000
    ensures |b| == 2
  {
    [ToByte(n % 256), ToByte(n / 256)]
  }

  function FromLe16(b: seq<bv8>): (n: nat)
    requires |b| == 2
    ensures n < 0x1_0000
  {
    FromByte(b[0]) + 256 * FromByte(b[1])
  }

  lemma Le16RoundTrip(n: nat)
    requires n < 0x1_0000
    ensures FromLe16(Le16(n)) == n
  {
    hide ToByte, FromByte;
  }

  /* ---- Building --------------------------------------------------------------- */

  /** The size limits, in KiB; None for an unknown model or signature. */
  function MaxKb(hwModel: nat, sig: seq<bv8>): Option<nat> {
    if hwModel == 1 && sig == BL then Some(8)
    else if hwModel == 1 && sig == GW then Some(56)
    else if (hwModel == 7 || hwModel == 4) && sig == BL then Some(16)
    else if (hwModel == 7 || hwModel == 4) && sig == GW then Some(48)
    else None
  }

  /** What mk_cat_entry accepts: its assertions and dictionary look-ups succeed. */
  predicate Packable(i: Image) {
    && MaxKb(i.hwModel, i.sig).Some?
    && |i.dat| % 4 == 0
    && |i.dat| <= MaxKb(i.hwModel, i.sig).value * 1024
  }

  /** The footer without its CRC. */
  function Trailer(i: Image): (b: seq<bv8>)
    requires i.hwModel < 0x1_0000
  {
    i.sig + [i.major, i.minor] + Le16(i.hwModel)
  }

  /** The part of an entry that the bootloader is sent and checks. */
  function Payload(i: Image): (b: seq<bv8>)
    requires i.hwModel < 0x1_0000
  {
    var covered := i.dat + Trailer(i);
    covered + BigEndian(Checksum(0xffff, covered))
  }

  /** `mk_cat_entry`. */
  function MkCatEntry(i: Image): (r: Option<seq<bv8>>) {
    if !Packable(i) then None
    else Some(Le16(|i.dat| + 8) + Le16(i.hwModel) + Payload(i))
  }

  /** A file's bytes before its CRC32 is put at the end: `new` for one image,
      `cat` for the entries of several. */
  function Body(entries: seq<bv8>): seq<bv8> { MAGIC + entries }

  /** main() appends the CRC32 of everything before it. */
  function Seal(body: seq<bv8>): seq<bv8> { body + BigEndian32(Checksum32(body)) }

  ghost predicate AllPackable(images: seq<Image>) {
    forall k :: 0 <= k < |images| ==> Packable(images[k])
  }

  /** The entries of several images, one after the other. */
  ghost function Entries(images: seq<Image>): seq<bv8>
    requires AllPackable(images)
  {
    if images == [] then [] else MkCatEntry(images[0]).value + Entries(images[1..])
  }

  /** The sealed file holding `images`. */
  ghost function FileOf(images: seq<Image>): seq<bv8>
    requires AllPackable(images)
  {
    Seal(Body(Entries(images)))
  }

  function ListingOf(i: Image): Listing {
    Listing(i.hwModel, i.sig, i.major, i.minor, |i.dat| + 8)
  }

  function Listings(images: seq<Image>): (r: seq<Listing>)
    ensures |r| == |images|
  {
    seq(|images|, k requires 0 <= k < |images| => ListingOf(images[k]))
  }

  /* ---- Opening a file ------------------------------------------------------------ */

  /** The magic and CRC32 tests shared by `cat` and `verify`, and `d[4:-4]`. */
  function Open(d: seq<bv8>): Option<seq<bv8>> {
    if |d| < 4 || d[..4] != MAGIC || Checksum32(d) != 0 then None
    else Some(if |d| < 8 then [] else d[4..|d| - 4])
  }

  lemma OpenSealed(entries: seq<bv8>)
    ensures Open(Seal(Body(entries))) == Some(entries)
  {
    var d := Seal(Body(entries));
    hide Checksum32, BigEndian32;
    AppendedCrc32IsZero(Body(entries));
    assert d[..4] == MAGIC;
    assert d[4..|d| - 4] == entries;
  }

  /** A file that opens, damaged within thirty-two consecutive bits, does not. */
  lemma DamagedFileRejected(d: seq<bv8>, e: seq<bv8>, lo: nat, hi: nat)
    requires Open(d).Some? && |d| == |e| && d != e
    requires lo <= hi <= 8 * |d| && hi - lo <= 32
    requires forall k :: 0 <= k < 8 * |d| && !(lo <= k < hi) ==> BitsOf(d)[k] == BitsOf(e)[k]
    ensures Open(e) == None
  {
    hide Checksum32, BitsOf;
    BurstErrorDetected32(d, e, lo, hi);
  }

  /** A file without the bytes GWUP in front is refused by both users. */
  lemma WrongMagicRejected(d: seq<bv8>)
    requires |d| < 4 || d[0] != 0x47 || d[1] != 0x57 || d[2] != 0x55 || d[3] != 0x50
    ensures Open(d) == None
  {
    if |d| >= 4 {
      var g := d[..4];
      assert g[0] == d[0] && g[1] == d[1] && g[2] == d[2] && g[3] == d[3];
    }
  }

  /* ---- The verifier's walk ------------------------------------------------------- */

  /** Python's d[a:b] for non-negative bounds. */
  function Slice(d: seq<bv8>, a: nat, b: nat): seq<bv8> {
    if a >= |d| || b <= a then [] else if b >= |d| then d[a..] else d[a..b]
  }

  /** One round of the loop in `_verify_upd`: the entry's listing and the bytes
      after it, or None where the script raises. */
  function WalkOne(d: seq<bv8>): (r: Option<(Listing, seq<bv8>)>)
    ensures r.Some? ==> |r.value.1| < |d|
  {
    if |d| < 4 then None
    else
      var updLen, hwModel := FromLe16(d[..2]), FromLe16(d[2..4]);
      // struct.unpack wants exactly four bytes; a start before 0 never yields them
      if updLen < 4 || updLen > |d| then None
      else
        var f := d[updLen - 4..updLen];
        if Checksum(0xffff, Slice(d, 4, updLen + 4)) != 0 then None
        else if (hwModel != 1 && hwModel != 7 && hwModel != 4) || (f[..2] != BL && f[..2] != GW) then None
        else Some((Listing(hwModel, f[..2], f[2], f[3], updLen), Slice(d, updLen + 4, |d|)))
  }

  /** An entry for an unknown model, or with an unknown signature, is rejected, whatever
      its checksum. */
  lemma UnknownRejected(d: seq<bv8>)
    requires |d| >= 4 && 4 <= FromLe16(d[..2]) <= |d|
    requires var f := d[FromLe16(d[..2]) - 4..FromLe16(d[..2])];
      || (FromLe16(d[2..4]) != 1 && FromLe16(d[2..4]) != 4 && FromLe16(d[2..4]) != 7)
      || (f[..2] != [0x42, 0x4C] && f[..2] != [0x47, 0x57])
    ensures WalkOne(d) == None
  {
    hide Checksum, FromLe16;
  }

  /** So is one whose length reaches beyond the file, or is too short for a footer. */
  lemma BadLengthRejected(d: seq<bv8>)
    requires |d| < 4 || FromLe16(d[..2]) < 4 || FromLe16(d[..2]) > |d|
    ensures WalkOne(d) == None
  {
    hide Checksum, FromLe16;
  }

  function Walk(d: seq<bv8>): Option<seq<Listing>>
    decreases |d|
  {
    if d == [] then Some([])
    else match WalkOne(d)
      case None => None
      case Some((l, rest)) =>
        match Walk(rest)
        case None => None
        case Some(ls) => Some([l] + ls)
  }

  /** `_verify_upd`, returning what it prints. */
  method VerifyUpd(file: seq<bv8>) returns (r: Option<seq<Listing>>)
    ensures r == match Open(file) case None => None case Some(e) => Walk(e)
  {
    hide Open, WalkOne;
    var contents := Open(file);
    if contents == None {
      return None;
    }
    var d, out := contents.value, [];
    assert match Walk(d) { case None => true case Some(ls) => [] + ls == ls };
    while d != []
      invariant Walk(contents.value) == match Walk(d) case None => None case Some(ls) => Some(out + ls)
      decreases |d|
    {
      var one := WalkOne(d);
      if one == None {
        return None;
      }
      var (l, rest) := one.value;
      assert match Walk(rest) { case None => true case Some(ls) => out + ([l] + ls) == (out + [l]) + ls };
      out := out + [l];
      d := rest;
    }
    assert out + [] == out;
    return Some(out);
  }

  /** `cat_upd`: the bodies of the files, one after the other; main() seals it. */
  method CatUpd(files: seq<seq<bv8>>) returns (r: Option<seq<bv8>>)
    ensures r == match Bodies(files) case None => None case Some(b) => Some(Seal(Body(b)))
  {
    hide Open, Seal;
    var dat := MAGIC;
    assert MAGIC == Body([]);
    ghost var done: seq<bv8> := [];
    assert files[0..] == files;
    assert match Bodies(files) { case None => true case Some(b) => [] + b == b };
    for i := 0 to |files|
      invariant dat == Body(done)
      invariant Bodies(files) == match Bodies(files[i..]) case None => None case Some(b) => Some(done + b)
    {
      assert files[i..][1..] == files[i + 1..];
      var e := Open(files[i]);
      if e == None {
        return None;
      }
      assert match Bodies(files[i + 1..]) { case None => true case Some(b) => done + (e.value + b) == (done + e.value) + b };
      assert Body(done) + e.value == Body(done + e.value);
      dat := dat + e.value;
      done := done + e.value;
    }
    assert done + [] == done;
    return Some(Seal(dat));
  }

  function Bodies(files: seq<seq<bv8>>): Option<seq<bv8>> {
    if files == [] then Some([])
    else match (Open(files[0]), Bodies(files[1..]))
      case (Some(e), Some(rest)) => Some(e + rest)
      case _ => None
  }

  /* ---- What is built is what is verified --------------------------------------------- */

  function Header(i: Image): (b: seq<bv8>)
    requires i.hwModel < 0x1_0000 && |i.dat| + 8 < 0x1_0000
    ensures |b| == 4
  {
    Le16(|i.dat| + 8) + Le16(i.hwModel)
  }

  /** Every field of an entry reads back: length and model in front, the data, and behind it
      the signature, the version and the model once more. */
  lemma EntryFields(i: Image)
    requires Packable(i)
    ensures MkCatEntry(i).Some? && |MkCatEntry(i).value| == |i.dat| + 12
    ensures var e, n := MkCatEntry(i).value, |i.dat|;
            && FromLe16(e[..2]) == n + 8 && FromLe16(e[2..4]) == i.hwModel
            && e[4..4 + n] == i.dat
            && e[4 + n..6 + n] == i.sig && e[6 + n] == i.major && e[7 + n] == i.minor
            && FromLe16(e[8 + n..10 + n]) == i.hwModel
  {
    hide Checksum, Le16, FromLe16, BigEndian;
    var e, n := MkCatEntry(i).value, |i.dat|;
    Le16RoundTrip(n + 8);
    Le16RoundTrip(i.hwModel);
    assert e == Le16(n + 8) + Le16(i.hwModel) + (i.dat + (i.sig + [i.major, i.minor] + Le16(i.hwModel)) + e[10 + n..]);
    assert e[..2] == Le16(n + 8) && e[2..4] == Le16(i.hwModel);
    assert e[4..4 + n] == i.dat && e[4 + n..6 + n] == i.sig;
    assert e[8 + n..10 + n] == Le16(i.hwModel);
  }

  /** The largest images: so many KiB for each model and signature, and nothing for others. */
  lemma SizeLimits(i: Image)
    ensures Packable(i) <==>
        && |i.dat| % 4 == 0
        && ((i.hwModel == 1 && i.sig == [0x42, 0x4C] && |i.dat| <= 8192)
            || (i.hwModel == 1 && i.sig == [0x47, 0x57] && |i.dat| <= 57344)
            || ((i.hwModel == 4 || i.hwModel == 7) && i.sig == [0x42, 0x4C] && |i.dat| <= 16384)
            || ((i.hwModel == 4 || i.hwModel == 7) && i.sig == [0x47, 0x57] && |i.dat| <= 49152))
  {
  }

  /** The bootloader's own test of a payload succeeds for every image packed. */
  lemma PayloadChecks(i: Image)
    requires Packable(i)
    ensures |Payload(i)| == |i.dat| + 8
    ensures Checksum(0xffff, Payload(i)) == 0
  {
    hide Checksum, BigEndian;
    AppendedCrcIsZero(0xffff, i.dat + Trailer(i));
  }

  /** What the walk finds where a header is followed by a payload of its length. */
  lemma WalkEntry(i: Image, payload: seq<bv8>, rest: seq<bv8>)
    requires Packable(i) && |payload| == |i.dat| + 8
    ensures Checksum(0xffff, payload) != 0 ==> WalkOne(Header(i) + payload + rest) == None
    ensures Checksum(0xffff, payload) == 0 && payload[|i.dat|..|i.dat| + 4] == i.sig + [i.major, i.minor] ==>
              WalkOne(Header(i) + payload + rest) == Some((ListingOf(i), rest))
  {
    hide Checksum, Le16, FromLe16;
    var d := Header(i) + payload + rest;
    var n := |i.dat| + 8;
    Le16RoundTrip(n);
    Le16RoundTrip(i.hwModel);
    assert d[..2] == Le16(n) && d[2..4] == Le16(i.hwModel);
    assert Slice(d, 4, n + 4) == payload;
    assert Slice(d, n + 4, |d|) == rest;
    assert d[n - 4..n] == payload[|i.dat|..|i.dat| + 4];
  }

  lemma EntryVerifies(i: Image, rest: seq<bv8>)
    requires Packable(i)
    ensures MkCatEntry(i).Some?
    ensures WalkOne(MkCatEntry(i).value + rest) == Some((ListingOf(i), rest))
  {
    var p := Payload(i);
    PayloadChecks(i);
    assert p[|i.dat|..|i.dat| + 4] == i.sig + [i.major, i.minor];
    hide Checksum, WalkOne, Payload;
    WalkEntry(i, p, rest);
  }

  /** A payload damaged within sixteen consecutive bits is never accepted. */
  lemma DamagedEntryRejected(i: Image, payload: seq<bv8>, rest: seq<bv8>, lo: nat, hi: nat)
    requires Packable(i) && |payload| == |Payload(i)| && payload != Payload(i)
    requires lo <= hi <= 8 * |payload| && hi - lo <= 16
    requires forall k :: 0 <= k < 8 * |payload| && !(lo <= k < hi) ==> BitsOf(payload)[k] == BitsOf(Payload(i))[k]
    ensures WalkOne(Header(i) + payload + rest) == None
  {
    hide Checksum, WalkOne, Payload, BitsOf, Header;
    PayloadChecks(i);
    BurstErrorDetected(0xffff, payload, Payload(i), lo, hi);
    WalkEntry(i, payload, rest);
  }

  /** An entry in front of bytes that walk to `ls` puts its listing in front. */
  lemma WalkFirst(i: Image, rest: seq<bv8>, ls: seq<Listing>)
    requires Packable(i) && Walk(rest) == Some(ls)
    ensures MkCatEntry(i).Some?
    ensures Walk(MkCatEntry(i).value + rest) == Some([ListingOf(i)] + ls)
  {
    EntryVerifies(i, rest);
    EntryNotEmpty(i);
    hide WalkOne, MkCatEntry, Packable, ListingOf;
    var d := MkCatEntry(i).value + rest;
    assert d != [];
  }

  lemma {:induction false} EntriesWalk(images: seq<Image>)
    requires AllPackable(images)
    ensures Walk(Entries(images)) == Some(Listings(images))
  {
    hide MkCatEntry, WalkOne, ListingOf, Packable;
    if images == [] {
    } else {
      EntriesWalk(images[1..]);
      WalkFirst(images[0], Entries(images[1..]), Listings(images[1..]));
      assert Listings(images) == [ListingOf(images[0])] + Listings(images[1..]);
    }
  }

  lemma EntryNotEmpty(i: Image)
    requires MkCatEntry(i).Some?
    ensures |MkCatEntry(i).value| >= 4
  {
    hide Checksum;
  }

  /** Every file built from packable images verifies, and the verifier lists
      exactly those images. */
  lemma FileVerifies(images: seq<Image>)
    requires AllPackable(images)
    ensures match Open(FileOf(images)) case None => false case Some(e) => Walk(e) == Some(Listings(images))
  {
    hide Open, Seal, Walk, Entries, AllPackable;
    EntriesWalk(images);
    OpenSealed(Entries(images));
  }

  function Concat<T>(groups: seq<seq<T>>): seq<T> {
    if groups == [] then [] else groups[0] + Concat(groups[1..])
  }

  lemma {:induction false} EntriesAppend(a: seq<Image>, b: seq<Image>)
    requires AllPackable(a) && AllPackable(b)
    ensures AllPackable(a + b) && Entries(a + b) == Entries(a) + Entries(b)
  {
    hide MkCatEntry, Packable;
    if a == [] {
      assert a + b == b;
    } else {
      EntriesAppend(a[1..], b);
      assert (a + b)[1..] == a[1..] + b;
    }
  }

  /** Concatenating files is building one file from all their images. */
  lemma {:induction false} CatIsFileOf(groups: seq<seq<Image>>, files: seq<seq<bv8>>)
    requires |groups| == |files|
    requires forall g :: 0 <= g < |groups| ==> AllPackable(groups[g]) && files[g] == FileOf(groups[g])
    ensures AllPackable(Concat(groups)) && Bodies(files) == Some(Entries(Concat(groups)))
  {
    if groups != [] {
      hide Open, Seal, Entries, Packable;
      CatIsFileOf(groups[1..], files[1..]);
      OpenSealed(Entries(groups[0]));
      EntriesAppend(groups[0], Concat(groups[1..]));
    }
  }
}
