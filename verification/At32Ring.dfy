/** The two-entry software rings of a double-buffered AT32 endpoint, indexed by
    free-running 16-bit counters, and the two packet buffers the hardware owns. */
module At32Ring {
  import opened Words

  const NBUF := 2

  /** One packet per entry of a ring, or per hardware buffer. */
  type Pair = s: seq<Packet> | |s| == NBUF witness [[], []]

  /** Who is executing outside the interrupt, inside a read or a write. */
  datatype Thread =
    | Idle
    | Copied(p: Packet)   // data moved, index not yet advanced
    | Advanced            // index advanced, `kick` not yet looked at
    | Seen                // `kick` was seen set; interrupts are about to be masked
    | Kicking             // interrupts masked, between the halves of the handler

  /** BUF_MASK. */
  function Slot(n: nat): (k: nat)
    ensures k < NBUF
  {
    n % NBUF
  }

  /** The hardware buffer a DTOG or SW_BUF bit names. */
  function Buffer(bit: bool): (k: nat)
    ensures k < NBUF
  {
    if bit then 1 else 0
  }

  lemma CountsSlot(x: U16, n: nat)
    requires Counts(x, n)
    ensures Slot(x) == Slot(n)
  {
    var q := n / 0x1_0000;
    assert n == 2 * (0x8000 * q + x / 2) + x % 2;
    QuotientUnique(n, 2, 0x8000 * q + x / 2, x % 2);
  }

  /** Indexes at most NBUF apart compare, and subtract, as the counts they stand for. */
  lemma CountsCompare(x: U16, n: nat, y: U16, m: nat)
    requires Counts(x, n) && Counts(y, m) && n <= m <= n + NBUF
    ensures x == y <==> n == m
    ensures Wrap16(y - x) == m - n
  {
  }

  lemma Neighbours(n: nat)
    ensures Slot(n) != Slot(n + 1) && Slot(n + 2) == Slot(n)
  {
  }
}
