/** The bootloader's streaming firmware update: packets of any size, staged in a
    small buffer, programmed into erased flash one halfword at a time. */
module FwUpdate {
  import opened Words
  import opened Crc
  import UpdateFile

  const U_BUF_SZ := 2048

  /** Longest packet the USB endpoint can deliver (USB_HS_MPS). */
  const MAX_PACKET := 512

  datatype Ack = Okay | BadCommand | OutOfFlash

  datatype State = CommandWait | Update

  /** What a poll finds: the packet that has arrived, if one has, and the endpoints. */
  datatype Poll = Poll(rx: seq<bv8>, rxReady: bool, txReady: bool)

  /** The bytes the host sends over these polls. */
  function Sent(polls: seq<Poll>): seq<bv8> {
    if polls == [] then []
    else Sent(polls[..|polls| - 1]) + if polls[|polls| - 1].rxReady then polls[|polls| - 1].rx else []
  }

  lemma SentMore(polls: seq<Poll>, n: nat)
    requires n < |polls|
    ensures Sent(polls[..n + 1]) == Sent(polls[..n]) + if polls[n].rxReady then polls[n].rx else []
  {
    assert polls[..n + 1][..n] == polls[..n];
  }

  lemma {:induction false} SentPrefix(polls: seq<Poll>, n: nat)
    requires n <= |polls|
    ensures Sent(polls[..n]) <= Sent(polls)
    decreases |polls| - n
  {
    if n < |polls| {
      SentMore(polls, n);
      SentPrefix(polls, n + 1);
    } else {
      assert polls[..n] == polls;
    }
  }

  /** At poll `k` all `len` bytes have been sent and there is room for the status byte. */
  predicate AllSentBy(polls: seq<Poll>, k: nat, len: nat) {
    k < |polls| && polls[k].txReady && |Sent(polls[..k + 1])| >= len
  }

  lemma AllSentIs(polls: seq<Poll>, k: nat, len: nat)
    requires k < |polls|
    ensures AllSentBy(polls, k, len) <==> polls[k].txReady && |Sent(polls[..k + 1])| >= len
  {
  }

  /** The answer to an update command for `len` bytes where `room` are available. */
  function Answer(len: nat, room: nat): Ack {
    if len % 4 != 0 then BadCommand else if len > room then OutOfFlash else Okay
  }

  /** `x` is a page boundary. */
  predicate PageAligned(x: nat, pageSize: nat) {
    pageSize > 0 && x % pageSize == 0
  }

  /** Bytes `[lo, hi)` of flash `f` are erased and not programmed since (`w` counts). */
  predicate Clear(f: seq<bv8>, w: seq<nat>, lo: nat, hi: nat)
    requires hi <= |f| == |w|
  {
    forall a :: lo <= a < hi ==> f[a] == 0xff && w[a] == 0
  }

  /** From `start` on, `f` holds the first `cur` accepted bytes, each programmed once,
      and is erased from there to the end of the region. */
  predicate Kept(f: seq<bv8>, w: seq<nat>, acc: seq<bv8>, start: nat, cur: nat, len: nat)
    requires cur <= |acc| && cur <= len && start + len <= |f| == |w|
  {
    && f[start..start + cur] == acc[..cur]
    && Clear(f, w, start + cur, start + len)
    && forall a :: start <= a < start + cur ==> w[a] == 1
  }

  /** `now` differs from `was` at most in `[at, at + n)`. */
  predicate Same<T(==)>(was: seq<T>, now: seq<T>, at: nat, n: nat) {
    |was| == |now| && forall a :: 0 <= a < |now| && !(at <= a < at + n) ==> now[a] == was[a]
  }

  /** Each byte of `[at, at + n)` has been programmed once, the others as often as before. */
  predicate OnceIn(w: seq<nat>, w': seq<nat>, at: nat, n: nat) {
    |w'| == |w| && forall a :: 0 <= a < |w'| ==> w'[a] == if at <= a < at + n then 1 else w[a]
  }

  /** From flash `f0`, the first `n` bytes of `buf` were programmed at `at`, once each. */
  predicate Written(f0: seq<bv8>, w0: seq<nat>, f: seq<bv8>, w: seq<nat>, buf: seq<bv8>, at: nat, n: nat)
    requires n <= |buf| && at + n <= |f0|
  {
    Same(f0, f, at, n) && OnceIn(w0, w, at, n) && f[at..at + n] == buf[..n]
  }

  lemma NothingWritten(f: seq<bv8>, w: seq<nat>, buf: seq<bv8>, at: nat)
    requires at <= |f|
    ensures Written(f, w, f, w, buf, at, 0)
  {
  }

  lemma StillBlank(f0: seq<bv8>, w0: seq<nat>, f: seq<bv8>, w: seq<nat>, buf: seq<bv8>, at: nat, n: nat, size: nat)
    requires n + 2 <= size <= |buf| && at + size <= |f0| == |w0| && Clear(f0, w0, at, at + size)
    requires Written(f0, w0, f, w, buf, at, n)
    ensures |f| == |w| == |f0| && w[at + n] == 0 && w[at + n + 1] == 0
    ensures f[at + n] == 0xff && f[at + n + 1] == 0xff
  {
  }

  lemma HalfwordWritten(f0: seq<bv8>, w0: seq<nat>, f: seq<bv8>, w: seq<nat>, buf: seq<bv8>, at: nat, n: nat)
    requires n + 2 <= |buf| && at + n + 2 <= |f0| == |w0| == |f| == |w|
    requires Written(f0, w0, f, w, buf, at, n) && w[at + n] == 0 && w[at + n + 1] == 0
    ensures Written(f0, w0, f[at + n := buf[n]][at + n + 1 := buf[n + 1]],
                    w[at + n := w[at + n] + 1][at + n + 1 := w[at + n + 1] + 1], buf, at, n + 2)
  {
    var g := f[at + n := buf[n]][at + n + 1 := buf[n + 1]];
    assert g[at..at + (n + 2)] == f[at..at + n] + [buf[n], buf[n + 1]];
  }

  predicate IsEven(n: nat) { n % 2 == 0 }

  /** `n & ~1`. */
  function EvenPart(n: nat): (e: nat)
    ensures e <= n <= e + 1 && IsEven(e)
    ensures n >= 2 ==> e >= 2
  {
    n - n % 2
  }

  lemma EvenSum(a: nat, b: nat)
    requires IsEven(a) && IsEven(b)
    ensures IsEven(a + b)
  {
  }

  class Updater {
    const start: nat          // FIRMWARE_START, as an offset into flash
    const pageSize: nat       // FLASH_PAGE_SIZE
    const flash: array<bv8>
    const uBuf: array<bv8>
    var uProd: nat
    var state: State
    var len: nat              // update.len
    var cur: nat              // update.cur

    ghost var writes: seq<nat>      // programmings of each byte's halfword since its last erase
    ghost var offered: seq<bv8>     // all bytes of all packets of this update

    ghost predicate Shape()
      reads this`writes
    {
      && pageSize > 0 && PageAligned(start, pageSize)
      && start <= flash.Length && PageAligned(flash.Length, pageSize)
      && flash.Length < 0x8000_0000
      && uBuf.Length == U_BUF_SZ && uBuf != flash
      && |writes| == flash.Length && IsEven(start)
    }

    /** Bytes `[lo, hi)` are erased and not programmed since. */
    ghost predicate Blank(lo: nat, hi: nat)
      requires Shape() && hi <= flash.Length
      reads this`writes, flash
    {
      Clear(flash[..], writes, lo, hi)
    }

    /** What of the offered bytes belongs to the update. */
    ghost function Accepted(): seq<bv8>
      reads this`offered, this`len
    {
      if |offered| <= len then offered else offered[..len]
    }

    ghost predicate Valid()
      reads this, flash, uBuf
    {
      && Shape()
      && (state == Update ==>
        && InFlash()
        && uProd <= 1 && cur + uProd == |Accepted()|
        && uBuf[..uProd] == Accepted()[cur..])
    }

    constructor (start: nat, pageSize: nat, flash: array<bv8>)
      requires pageSize > 0 && PageAligned(start, pageSize) && IsEven(start)
      requires start <= flash.Length < 0x8000_0000 && PageAligned(flash.Length, pageSize)
      ensures Valid() && state == CommandWait && this.flash == flash && this.start == start
    {
      this.start, this.pageSize, this.flash := start, pageSize, flash;
      uBuf := new bv8[U_BUF_SZ];
      uProd, state, len, cur := 0, CommandWait, 0, 0;
      writes := seq(flash.Length, _ => 1);
      offered := [];
    }

    /** `fpec_page_erase`. */
    method PageErase(p: nat)
      requires Shape() && p + pageSize <= flash.Length
      modifies flash, this`writes
      ensures Shape() && Blank(p, p + pageSize)
      ensures Same(old(flash[..]), flash[..], p, pageSize) && Same(old(writes), writes, p, pageSize)
    {
      hide PageAligned;
      forall a | p <= a < p + pageSize {
        flash[a] := 0xff;
      }
      ghost var was := writes;
      writes := seq(|was|, a requires 0 <= a < |was| => if p <= a < p + pageSize then 0 else was[a]);
    }

    /** `fpec_write`: halfword by halfword, each of them blank before. */
    method FpecWrite(size: nat, at: nat)
      requires Shape() && IsEven(size) && IsEven(at) && size <= U_BUF_SZ
      requires start <= at && at + size <= flash.Length && Blank(at, at + size)
      modifies flash, this`writes
      ensures Shape() && flash[at..at + size] == uBuf[..size]
      ensures Same(old(flash[..]), flash[..], at, size) && OnceIn(old(writes), writes, at, size)
    {
      hide PageAligned, Same, OnceIn, Clear;
      ghost var f0, w0 := flash[..], writes;
      NothingWritten(f0, w0, uBuf[..], at);
      var done := 0;
      while done != size
        invariant Shape() && IsEven(done) && done <= size
        invariant Written(f0, w0, flash[..], writes, uBuf[..], at, done)
        decreases size - done
      {
        ghost var f, w := flash[..], writes;
        StillBlank(f0, w0, f, w, uBuf[..], at, done, size);
        flash[at + done] := uBuf[done];
        flash[at + done + 1] := uBuf[done + 1];
        writes := w[at + done := w[at + done] + 1][at + done + 1 := w[at + done + 1] + 1];
        assert flash[..] == f[at + done := uBuf[done]][at + done + 1 := uBuf[done + 1]];
        HalfwordWritten(f0, w0, f, w, uBuf[..], at, done);
        done := done + 2;
      }
    }

    /** `erase_old_firmware`: whole pages from FIRMWARE_START until `len` is covered. */
    method EraseOldFirmware(len: nat)
      requires Shape() && start + len <= flash.Length
      modifies flash, this`writes
      ensures Shape() && Blank(start, start + len)
      ensures Same(old(flash[..]), flash[..], start, len + pageSize)
    {
      hide PageAligned, Clear, Same;
      var p := start;
      ghost var was := flash[..];
      ClearNone(was, writes, p);
      SameNone(was, p);
      while p < start + len
        invariant Shape() && start <= p <= flash.Length && PageAligned(p, pageSize)
        invariant Clear(flash[..], writes, start, p)
        invariant Same(was, flash[..], start, p - start) && p < start + len + pageSize
        decreases flash.Length - p
      {
        PageFits(p, pageSize, flash.Length);
        ghost var f, w := flash[..], writes;
        PageErase(p);
        ClearMore(f, w, flash[..], writes, start, p, pageSize);
        SameMore(was, f, flash[..], start, p, pageSize);
        p := p + pageSize;
      }
      ClearLess(flash[..], writes, start, p, start + len);
      SameWider(was, flash[..], start, p - start, start, len + pageSize);
    }

    /** `update_prep`. */
    method UpdatePrep(len: nat) returns (ack: Ack)
      requires Valid() && state == CommandWait && uProd <= U_BUF_SZ
      modifies this, flash
      ensures Valid()
      ensures ack == Answer(len, flash.Length - start)
      ensures ack == Okay ==> state == Update && this.len == len && offered == [] && Blank(start, start + len)
      ensures ack != Okay ==> state == CommandWait && flash[..] == old(flash[..])
      ensures Same(old(flash[..]), flash[..], start, len + pageSize)
    {
      hide PageAligned;
      if len % 4 != 0 {
        return BadCommand;
      }
      if len > flash.Length - start {
        return OutOfFlash;
      }
      EraseOldFirmware(len);
      state := Update;
      cur := 0;
      this.len := len;
      uProd := 0;      // end_command(), when the ack is sent
      offered := [];
      ack := Okay;
    }

    /** Takes the next packet into the staging buffer, clipped to what is wanted. */
    method TakePacket(rx: seq<bv8>)
      requires Valid() && state == Update && |rx| <= MAX_PACKET
      modifies this`uProd, this`offered, uBuf
      ensures Shape() && uProd <= MAX_PACKET + 1 && offered == old(offered) + rx
      ensures cur + uProd == |Accepted()| && old(Accepted()) <= Accepted()
      ensures uBuf[..uProd] == Accepted()[cur..]
    {
      hide PageAligned, Blank, Kept, Clear;
      ghost var before := Accepted();
      var n := Min(|rx|, len - cur - uProd);
      CopyRx(rx, n);
      hide Shape;
      AcceptMore(offered, rx, len);
      offered := offered + rx;
      assert (before + rx[..n])[cur..] == before[cur..] + rx[..n];
      uProd := uProd + n;
    }

    /** usb_read of the first `n` bytes. */
    method CopyRx(rx: seq<bv8>, n: nat)
      requires n <= |rx| && uProd + n <= uBuf.Length
      modifies uBuf
      ensures uBuf[..uProd + n] == old(uBuf[..uProd]) + rx[..n]
    {
      forall i | 0 <= i < n {
        uBuf[uProd + i] := rx[i];
      }
    }

    /** What is in flash and what is staged make up the accepted bytes; the rest of
        the region is blank. */
    ghost predicate InFlash()
      reads this`cur, this`len, this`offered, this`writes, flash
    {
      && Shape() && len % 4 == 0 && start + len <= flash.Length && IsEven(cur) && cur <= |Accepted()|
      && Kept(flash[..], writes, Accepted(), start, cur, len)
    }

    /** Programs the whole halfwords that are staged. */
    method Program() returns (nr: nat)
      requires InFlash() && 2 <= uProd <= MAX_PACKET + 1 && cur + uProd == |Accepted()|
      requires uBuf[..uProd] == Accepted()[cur..]
      modifies this`cur, this`writes, flash
      ensures InFlash() && nr == EvenPart(uProd) && cur == old(cur) + nr
      ensures Same(old(flash[..]), flash[..], start, len + pageSize)
    {
      hide PageAligned, Kept, Clear, Same, OnceIn, IsEven, EvenPart;
      nr := EvenPart(uProd);
      EvenSum(start, cur);
      EvenSum(cur, nr);
      ghost var was, w := flash[..], writes;
      NextBlank(was, w, Accepted(), start, cur, len, nr);
      FpecWrite(nr, start + cur);
      SameWider(was, flash[..], start + cur, nr, start, len + pageSize);
      Programmed(was, flash[..], w, writes, Accepted(), uBuf[..], uProd, start, cur, len, nr);
      cur := cur + nr;
    }

    /** The second half of `update_continue`'s staging: whole halfwords go to flash,
        an odd byte moves to the front of the buffer. */
    method Drain()
      requires InFlash() && state == Update && uProd <= MAX_PACKET + 1 && cur + uProd == |Accepted()|
      requires uBuf[..uProd] == Accepted()[cur..]
      modifies this`cur, this`uProd, this`writes, flash, uBuf
      ensures Valid()
      ensures Same(old(flash[..]), flash[..], start, len + pageSize)
    {
      hide PageAligned, Blank;
      if uProd >= 2 {
        var nr := Program();
        ghost var was := uBuf[..];
        uProd := uProd - nr;
        forall i | 0 <= i < uProd {
          uBuf[i] := uBuf[nr + i];
        }
        MovedDown(was, uBuf[..], uProd, nr, Accepted(), cur);
      }
    }

    /** How an update with `sent` ends: the region holds the first `len` bytes, each
        programmed once, if their checksum is zero, and is blank otherwise. */
    ghost predicate Outcome(len: nat, sent: seq<bv8>, result: bv8)
      reads this`writes, flash
    {
      && Shape() && len <= |sent| && start + len <= flash.Length
      && (result == 0 <==> Checksum(0xffff, sent[..len]) == 0)
      && (result == 0 ==> flash[start..start + len] == sent[..len])
      && (result == 0 ==> forall a :: start <= a < start + len ==> writes[a] == 1)
      && (result != 0 ==> Blank(start, start + len))
    }

    /** The end of an update: the whole image is checked where it lies in flash, and
        erased again if its checksum is not zero. */
    method Finish() returns (result: bv8)
      requires Valid() && state == Update && cur == len <= |offered|
      modifies this`state, this`uProd, this`writes, flash
      ensures Valid() && state == CommandWait && uProd == 0
      ensures Same(old(flash[..]), flash[..], start, len + pageSize)
      ensures Outcome(len, offered, result)
    {
      hide Checksum, PageAligned;
      assert Accepted()[..cur] == Accepted() == offered[..len];
      var crc := Crc16Ccitt(flash, start, len, 0xffff);
      result := if crc == 0 then 0 else 1;
      state := CommandWait;
      uProd := 0;
      if crc != 0 {
        EraseOldFirmware(len);
      }
    }

    /** The receiving half of `update_continue`. */
    method Stage(rx: seq<bv8>, rxReady: bool)
      requires Valid() && state == Update && |rx| <= MAX_PACKET
      modifies this`cur, this`uProd, this`writes, this`offered, flash, uBuf
      ensures Valid() && offered == old(offered) + if rxReady then rx else []
      ensures Same(old(flash[..]), flash[..], start, len + pageSize)
    {
      hide PageAligned;
      if rxReady {
        TakePacket(rx);
      }
      Drain();
    }

    /** `update_continue`: one poll with the packet that has arrived, if any.
        `result` is the byte sent when the update ends. */
    method UpdateContinue(rx: seq<bv8>, rxReady: bool, txReady: bool) returns (done: bool, result: bv8)
      requires Valid() && state == Update && |rx| <= MAX_PACKET
      modifies this`cur, this`uProd, this`writes, this`offered, this`state, flash, uBuf
      ensures Valid()
      ensures offered == old(offered) + if rxReady then rx else []
      ensures Same(old(flash[..]), flash[..], start, len + pageSize)
      ensures done == (|offered| >= len && txReady)
      ensures done <==> state == CommandWait
      ensures done ==> Outcome(len, offered, result)
    {
      hide Checksum, PageAligned, Blank;
      done, result := false, 0;
      Stage(rx, rxReady);
      if cur >= len && txReady {
        hide Outcome;
        done := true;
        result := Finish();
      }
    }

    /** A whole update, from the command to the status byte, over any polls. */
    method UpdateAll(len: nat, polls: seq<Poll>) returns (ack: Ack, done: bool, result: bv8, n: nat)
      requires Valid() && state == CommandWait && uProd <= U_BUF_SZ
      requires forall p :: p in polls ==> |p.rx| <= MAX_PACKET
      modifies this, flash, uBuf
      ensures Valid() && n <= |polls| && (done ==> ack == Okay)
      ensures Same(old(flash[..]), flash[..], start, len + pageSize)
      ensures ack == Answer(len, flash.Length - start) && (ack != Okay ==> flash[..] == old(flash[..]))
      ensures ack == Okay ==> (done <==> exists k :: 0 <= k < |polls| && AllSentBy(polls, k, len))
      ensures done ==> Outcome(len, Sent(polls[..n]), result)
    {
      hide Checksum, PageAligned, Blank, InFlash, Sent, AllSentBy, Outcome;
      done, result, n := false, 0, 0;
      ack := UpdatePrep(len);
      if ack != Okay {
        return;
      }
      SentNone(polls);
      while n < |polls| && !done
        invariant n <= |polls| && Valid() && this.len == len && (done <==> state == CommandWait)
        invariant offered == Sent(polls[..n])
        invariant done ==> n > 0 && AllSentBy(polls, n - 1, len)
        invariant !done ==> forall k :: 0 <= k < n ==> !AllSentBy(polls, k, len)
        invariant Same(old(flash[..]), flash[..], start, len + pageSize)
        invariant done ==> Outcome(len, offered, result)
        decreases |polls| - n
      {
        SentMore(polls, n);
        AllSentIs(polls, n, len);
        assert polls[n] in polls;
        done, result := UpdateContinue(polls[n].rx, polls[n].rxReady, polls[n].txReady);
        n := n + 1;
      }
    }

    /** An image packed by mk_update.py and streamed to its end is taken, and kept byte for
        byte, if and only if there is room for it and its footer. */
    method InstallPacked(i: UpdateFile.Image, polls: seq<Poll>) returns (ack: Ack, done: bool, result: bv8)
      requires Valid() && state == CommandWait && uProd <= U_BUF_SZ
      requires forall p :: p in polls ==> |p.rx| <= MAX_PACKET
      requires UpdateFile.Packable(i) && UpdateFile.Payload(i) <= Sent(polls)
      requires exists k :: 0 <= k < |polls| && AllSentBy(polls, k, |UpdateFile.Payload(i)|)
      modifies this, flash, uBuf
      ensures Valid()
      ensures |i.dat| + 8 <= flash.Length - start ==>
          ack == Okay && done && result == 0 && flash[start..start + |i.dat| + 8] == UpdateFile.Payload(i)
      ensures |i.dat| + 8 > flash.Length - start ==>
          ack == OutOfFlash && !done && flash[..] == old(flash[..])
    {
      hide Checksum, UpdateFile.Payload, Sent, PageAligned, Blank, InFlash, AllSentBy, Answer, Kept, Clear;
      var n;
      ghost var room := flash.Length - start;
      UpdateFile.PayloadChecks(i);
      PackedIsTakenExactly(i, room);
      ack, done, result, n := UpdateAll(|UpdateFile.Payload(i)|, polls);
      if done {
        SentPrefix(polls, n);
        PackedImageChecks(i, Sent(polls[..n]));
      }
    }
  }

  lemma SentNone(polls: seq<Poll>)
    ensures Sent(polls[..0]) == []
  {
  }

  lemma ClearNone(f: seq<bv8>, w: seq<nat>, p: nat)
    requires p <= |f| == |w|
    ensures Clear(f, w, p, p)
  {
  }

  lemma ClearLess(f: seq<bv8>, w: seq<nat>, lo: nat, hi: nat, less: nat)
    requires less <= hi <= |f| == |w| && Clear(f, w, lo, hi)
    ensures Clear(f, w, lo, less)
  {
  }

  lemma ClearMore(f: seq<bv8>, w: seq<nat>, f': seq<bv8>, w': seq<nat>, lo: nat, p: nat, n: nat)
    requires |f| == |w| == |f'| == |w'| && lo <= p && p + n <= |f|
    requires Clear(f, w, lo, p) && Clear(f', w', p, p + n) && Same(f, f', p, n) && Same(w, w', p, n)
    ensures Clear(f', w', lo, p + n)
  {
  }

  lemma SameNone(f: seq<bv8>, p: nat)
    ensures Same(f, f, p, 0)
  {
  }

  lemma SameMore(was: seq<bv8>, f: seq<bv8>, now: seq<bv8>, lo: nat, p: nat, n: nat)
    requires lo <= p && Same(was, f, lo, p - lo) && Same(f, now, p, n)
    ensures Same(was, now, lo, p + n - lo)
  {
  }

  lemma SameWider(was: seq<bv8>, now: seq<bv8>, at: nat, n: nat, lo: nat, k: nat)
    requires Same(was, now, at, n) && lo <= at && at + n <= lo + k
    ensures Same(was, now, lo, k)
  {
  }

  lemma NextBlank(f: seq<bv8>, w: seq<nat>, acc: seq<bv8>, start: nat, cur: nat, len: nat, nr: nat)
    requires cur + nr <= |acc| && cur + nr <= len && start + len <= |f| == |w| && Kept(f, w, acc, start, cur, len)
    ensures Clear(f, w, start + cur, start + cur + nr)
  {
  }

  lemma Programmed(was: seq<bv8>, now: seq<bv8>, w: seq<nat>, w': seq<nat>, acc: seq<bv8>, buf: seq<bv8>, prod: nat,
                   start: nat, cur: nat, len: nat, nr: nat)
    requires nr <= prod <= |buf| && cur + prod == |acc| <= len && start + len <= |was| == |w| == |w'|
    requires Kept(was, w, acc, start, cur, len) && buf[..prod] == acc[cur..]
    requires Same(was, now, start + cur, nr)
    requires now[start + cur..start + cur + nr] == buf[..nr]
    requires OnceIn(w, w', start + cur, nr)
    ensures Kept(now, w', acc, start, cur + nr, len)
  {
    assert now[start..start + cur] == was[start..start + cur];
    assert now[start..start + (cur + nr)] == now[start..start + cur] + now[start + cur..start + cur + nr];
    assert buf[..nr] == buf[..prod][..nr] == acc[cur..cur + nr];
    assert acc[..cur + nr] == acc[..cur] + acc[cur..cur + nr];
  }

  lemma MovedDown(was: seq<bv8>, buf: seq<bv8>, left: nat, nr: nat, acc: seq<bv8>, cur: nat)
    requires |was| == |buf| && left + nr <= |buf| && cur >= nr && cur + left == |acc|
    requires was[..left + nr] == acc[cur - nr..]
    requires forall i :: 0 <= i < left ==> buf[i] == was[nr + i]
    ensures buf[..left] == acc[cur..]
  {
    assert acc[cur..] == acc[cur - nr..][nr..];
  }

  lemma PageFits(p: nat, pageSize: nat, size: nat)
    requires PageAligned(p, pageSize) && PageAligned(size, pageSize) && p < size
    ensures p + pageSize <= size && PageAligned(p + pageSize, pageSize)
  {
    var k, j := p / pageSize, size / pageSize;
    assert p == pageSize * k && size == pageSize * j;
    assert size - p == pageSize * (j - k) by { assert pageSize * (j - k) == pageSize * j - pageSize * k; }
    if size - p < pageSize {
      SmallMultiple(pageSize, j - k);
      assert false;
    }
    ModAddMultiple(p, 1, pageSize);
  }

  lemma AcceptMore(before: seq<bv8>, rx: seq<bv8>, len: nat)
    ensures var a := if |before| <= len then before else before[..len];
            var n := Min(|rx|, len - |a|);
            (if |before + rx| <= len then before + rx else (before + rx)[..len]) == a + rx[..n]
  {
  }

  /** However much is sent after it, a packed image is checked with result zero. */
  lemma PackedImageChecks(i: UpdateFile.Image, sent: seq<bv8>)
    requires UpdateFile.Packable(i) && |UpdateFile.Payload(i)| <= |sent|
    requires UpdateFile.Payload(i) <= sent || sent <= UpdateFile.Payload(i)
    ensures sent[..|UpdateFile.Payload(i)|] == UpdateFile.Payload(i)
    ensures Checksum(0xffff, sent[..|UpdateFile.Payload(i)|]) == 0
  {
    hide Checksum;
    UpdateFile.PayloadChecks(i);
    var n := |UpdateFile.Payload(i)|;
    assert sent[..n] == UpdateFile.Payload(i);
  }

  /** A packed image is taken exactly where its data and footer fit. */
  lemma PackedIsTakenExactly(i: UpdateFile.Image, room: nat)
    requires UpdateFile.Packable(i)
    ensures Answer(|UpdateFile.Payload(i)|, room) == if |i.dat| + 8 <= room then Okay else OutOfFlash
  {
    hide Checksum, UpdateFile.Payload;
    UpdateFile.PayloadChecks(i);
  }

  /** What the limits of mk_update.py do not see: an STM32F1 image of the largest size
      allowed does not fit a part with 64 KiB of flash, of which the bootloader has 8. */
  lemma LargestImageRefused(dat: seq<bv8>, major: bv8, minor: bv8)
    requires |dat| == 56 * 1024
    ensures var i := UpdateFile.Image(dat, 1, major, minor, UpdateFile.GW);
            UpdateFile.Packable(i) && Answer(|UpdateFile.Payload(i)|, (64 - 8) * 1024) == OutOfFlash
  {
    hide UpdateFile.Payload;
    PackedIsTakenExactly(UpdateFile.Image(dat, 1, major, minor, UpdateFile.GW), (64 - 8) * 1024);
  }
}
