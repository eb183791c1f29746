/** The linked list of timers, and its order. */
module TimerList {
  import opened Words
  import opened TimeBase

  /** `struct timer *next`, with its marker for timers that are not in the list. */
  datatype Link = Inactive | Null | Ref(timer: Timer)

  class Timer {
    var deadline: U32
    var next: Link

    /** timer_init. */
    constructor ()
      ensures next == Inactive
    {
      deadline, next := 0, Inactive;
    }
  }

  /* ---- The list ------------------------------------------------------------------- */

  function LinkAt(q: seq<Timer>, i: nat): Link {
    if i < |q| then Ref(q[i]) else Null
  }

  predicate Distinct(q: seq<Timer>) {
    forall i, j :: 0 <= i < j < |q| ==> q[i] != q[j]
  }

  /** Every entry links to the one after it. */
  predicate Linking(q: seq<Timer>, links: map<Timer, Link>) {
    forall i :: 0 <= i < |q| ==> q[i] in links && links[q[i]] == LinkAt(q, i + 1)
  }

  predicate OthersInactive(q: seq<Timer>, links: map<Timer, Link>) {
    forall t :: t in links && t !in q ==> links[t] == Inactive
  }

  /** From `head` the links run through `q`, and all other timers are marked inactive. */
  predicate Chain(head: Link, q: seq<Timer>, links: map<Timer, Link>) {
    Distinct(q) && head == LinkAt(q, 0) && Linking(q, links) && OthersInactive(q, links)
  }

  ghost function Links(all: set<Timer>): map<Timer, Link>
    reads all`next
  {
    map t | t in all :: t.next
  }

  function Without(q: seq<Timer>, t: Timer): (r: seq<Timer>)
    ensures t !in q ==> r == q
    ensures forall u :: u in r ==> u in q
  {
    if q == [] then []
    else if q[0] == t then q[1..]
    else [q[0]] + Without(q[1..], t)
  }

  function Cut(q: seq<Timer>, i: nat): (r: seq<Timer>)
    requires i < |q|
    ensures |r| == |q| - 1
    ensures forall k :: 0 <= k < |r| ==> r[k] == if k < i then q[k] else q[k + 1]
  {
    q[..i] + q[i + 1..]
  }

  lemma {:induction false} WithoutAt(q: seq<Timer>, i: nat)
    requires i < |q| && Distinct(q)
    ensures Without(q, q[i]) == Cut(q, i)
    ensures q[i] !in Without(q, q[i])
  {
    if i == 0 {
      assert Cut(q, 0) == q[1..];
    } else {
      assert q[1..][i - 1] == q[i];
      WithoutAt(q[1..], i - 1);
      assert Cut(q, i) == [q[0]] + Cut(q[1..], i - 1);
    }
  }

  function Put(q: seq<Timer>, p: nat, t: Timer): (r: seq<Timer>)
    requires p <= |q|
    ensures |r| == |q| + 1
    ensures forall k :: 0 <= k < |r| ==> r[k] == if k < p then q[k] else if k == p then t else q[k - 1]
  {
    q[..p] + [t] + q[p..]
  }

  /** `l` differs from `links` at most for `t` and the entry before `i`, if any. */
  predicate SameBut(links: map<Timer, Link>, l: map<Timer, Link>, t: Timer, q: seq<Timer>, i: nat)
    requires i <= |q|
  {
    && l.Keys == links.Keys
    && forall u :: u in links && u != t && (i == 0 || u != q[i - 1]) ==> l[u] == links[u]
  }

  lemma CutMembers(q: seq<Timer>, i: nat, u: Timer)
    requires i < |q| && Distinct(q)
    ensures Distinct(Cut(q, i)) && (u in Cut(q, i) <==> u in q && u != q[i])
  {
    var r := Cut(q, i);
    if u in q && u != q[i] {
      var k :| 0 <= k < |q| && q[k] == u;
      assert r[if k < i then k else k - 1] == u;
    }
  }

  lemma PutMembers(q: seq<Timer>, p: nat, t: Timer, u: Timer)
    requires p <= |q| && Distinct(q) && t !in q
    ensures Distinct(Put(q, p, t)) && (u in Put(q, p, t) <==> u in q || u == t)
  {
    var r := Put(q, p, t);
    assert r[p] == t;
    if u in q {
      var k :| 0 <= k < |q| && q[k] == u;
      assert r[if k < p then k else k + 1] == u;
    }
  }

  /** Taking entry `i` out: its predecessor, or the head, skips it. */
  lemma Removed(head: Link, q: seq<Timer>, links: map<Timer, Link>, i: nat, head': Link, l: map<Timer, Link>)
    requires Chain(head, q, links) && i < |q|
    requires SameBut(links, l, q[i], q, i)
    requires l[q[i]] == Inactive
    requires if i == 0 then head' == links[q[0]] else head' == head && l[q[i - 1]] == links[q[i]]
    ensures Chain(head', Cut(q, i), l)
  {
    var r := Cut(q, i);
    CutMembers(q, i, q[i]);
    hide OthersInactive;
    forall k | 0 <= k < |r|
      ensures r[k] in l && l[r[k]] == LinkAt(r, k + 1)
    {
      var j := if k < i then k else k + 1;
      assert r[k] == q[j] && q[j] != q[i];
      if k != i - 1 {
        assert q[j] in links && (i > 0 ==> q[j] != q[i - 1]);
        assert l[q[j]] == links[q[j]] == LinkAt(q, j + 1);
      }
    }
    assert OthersInactive(r, l) by {
      UnlinkedOthers(q, links, i, l);
    }
  }

  lemma UnlinkedOthers(q: seq<Timer>, links: map<Timer, Link>, i: nat, l: map<Timer, Link>)
    requires i < |q| && Distinct(q) && OthersInactive(q, links) && q[i] in l
    requires SameBut(links, l, q[i], q, i)
    requires l[q[i]] == Inactive
    ensures OthersInactive(Cut(q, i), l)
  {
    forall u | u in l && u !in Cut(q, i)
      ensures l[u] == Inactive
    {
      CutMembers(q, i, u);
    }
  }

  /** Putting `t` before entry `p`. */
  lemma Inserted(head: Link, q: seq<Timer>, links: map<Timer, Link>, t: Timer, p: nat, head': Link, l: map<Timer, Link>)
    requires Chain(head, q, links) && t in links && t !in q && p <= |q|
    requires SameBut(links, l, t, q, p)
    requires l[t] == LinkAt(q, p)
    requires if p == 0 then head' == Ref(t) else head' == head && q[p - 1] in l && l[q[p - 1]] == Ref(t)
    ensures Chain(head', Put(q, p, t), l)
  {
    PutMembers(q, p, t, t);
    LinkedOthers(q, links, t, p, l);
    LinkedRest(q, links, t, p, l);
    PutLinking(q, p, t, l);
    assert LinkAt(Put(q, p, t), 0) == if p == 0 then Ref(t) else LinkAt(q, 0);
    hide OthersInactive, Linking, Distinct;
  }

  /** All entries from here on, except the one before the gap, link as they did. */
  predicate LinkingBut(q: seq<Timer>, p: nat, l: map<Timer, Link>) {
    forall j :: 0 <= j < |q| && j != p - 1 ==> q[j] in l && l[q[j]] == LinkAt(q, j + 1)
  }

  lemma LinkedRest(q: seq<Timer>, links: map<Timer, Link>, t: Timer, p: nat, l: map<Timer, Link>)
    requires Distinct(q) && Linking(q, links) && t !in q && p <= |q| && SameBut(links, l, t, q, p)
    ensures LinkingBut(q, p, l)
  {
    forall j | 0 <= j < |q| && j != p - 1
      ensures q[j] in l && l[q[j]] == LinkAt(q, j + 1)
    {
      assert q[j] in links && q[j] != t && (p > 0 ==> q[j] != q[p - 1]);
    }
  }

  lemma PutLinking(q: seq<Timer>, p: nat, t: Timer, l: map<Timer, Link>)
    requires p <= |q| && LinkingBut(q, p, l) && t in l && l[t] == LinkAt(q, p)
    requires p > 0 ==> q[p - 1] in l && l[q[p - 1]] == Ref(t)
    ensures Linking(Put(q, p, t), l)
  {
    var r := Put(q, p, t);
    forall k | 0 <= k < |r|
      ensures r[k] in l && l[r[k]] == LinkAt(r, k + 1)
    {
      if k != p && k != p - 1 {
        var j := if k < p then k else k - 1;
        assert r[k] == q[j] && LinkAt(r, k + 1) == LinkAt(q, j + 1);
      }
    }
  }

  lemma LinkedOthers(q: seq<Timer>, links: map<Timer, Link>, t: Timer, p: nat, l: map<Timer, Link>)
    requires p <= |q| && Distinct(q) && OthersInactive(q, links) && t !in q
    requires SameBut(links, l, t, q, p)
    ensures OthersInactive(Put(q, p, t), l)
  {
    forall u | u in l && u !in Put(q, p, t)
      ensures l[u] == Inactive
    {
      PutMembers(q, p, t, u);
    }
  }

  lemma ChainAt(head: Link, q: seq<Timer>, links: map<Timer, Link>, i: nat)
    requires Chain(head, q, links) && i < |q|
    ensures q[i] in links && links[q[i]] == LinkAt(q, i + 1)
  {
  }

  lemma ChainMembers(head: Link, q: seq<Timer>, links: map<Timer, Link>, t: Timer)
    requires Chain(head, q, links) && t in links
    ensures links[t] == Inactive <==> t !in q
    ensures head == LinkAt(q, 0) && Distinct(q)
  {
  }

  ghost function IndexOf(q: seq<Timer>, t: Timer): (i: nat)
    requires t in q
    ensures i < |q| && q[i] == t
  {
    var i :| 0 <= i < |q| && q[i] == t;
    i
  }

  /* ---- The order ------------------------------------------------------------------ */

  /** How far from now a deadline may be set, in either direction: nearly half the range
      of a word. */
  const FAR := 0x7f00_0000

  /** `due` gives each timer's deadline as an absolute time. */
  ghost predicate Sorted(q: seq<Timer>, due: map<Timer, int>) {
    && (forall i :: 0 <= i < |q| ==> q[i] in due)
    && forall i, j :: 0 <= i < j < |q| ==> due[q[i]] <= due[q[j]]
  }

  /** Where timer_set puts a timer due at `at`: before the first that is due no earlier. */
  ghost function Place(q: seq<Timer>, due: map<Timer, int>, at: int): (p: nat)
    requires Sorted(q, due)
    ensures p <= |q|
  {
    if q == [] || at <= due[q[0]] then 0
    else
      assert Sorted(q[1..], due);
      1 + Place(q[1..], due, at)
  }

  lemma {:induction false} PlaceIs(q: seq<Timer>, due: map<Timer, int>, at: int, i: nat)
    requires Sorted(q, due) && i <= |q|
    requires forall j :: 0 <= j < i ==> due[q[j]] < at
    requires i < |q| ==> at <= due[q[i]]
    ensures Place(q, due, at) == i
    decreases i
  {
    if i > 0 {
      assert forall j :: 0 <= j < i - 1 ==> q[1..][j] == q[j + 1];
      PlaceIs(q[1..], due, at, i - 1);
    }
  }

  lemma PutSorted(q: seq<Timer>, due: map<Timer, int>, t: Timer, at: int, p: nat)
    requires Sorted(q, due) && p <= |q| && t !in q
    requires forall j :: 0 <= j < p ==> due[q[j]] < at
    requires p < |q| ==> at <= due[q[p]]
    ensures Sorted(Put(q, p, t), due[t := at])
  {
    var r, d := Put(q, p, t), due[t := at];
    forall j | 0 <= j < |q|
      ensures q[j] in d && d[q[j]] == due[q[j]] && (j >= p ==> at <= due[q[j]])
    {
    }
  }

  lemma CutSorted(q: seq<Timer>, due: map<Timer, int>, i: nat)
    requires Sorted(q, due) && i < |q|
    ensures Sorted(Cut(q, i), due)
    ensures Cut(q, i) != [] ==> due[q[0]] <= due[Cut(q, i)[0]]
  {
  }

  lemma WithoutSorted(q: seq<Timer>, due: map<Timer, int>, t: Timer)
    requires Sorted(q, due) && Distinct(q)
    ensures Sorted(Without(q, t), due)
    ensures Without(q, t) != [] ==> q != [] && due[q[0]] <= due[Without(q, t)[0]]
  {
    if t in q {
      var i := IndexOf(q, t);
      WithoutAt(q, i);
      CutSorted(q, due, i);
    }
  }

  ghost function Deadlines(all: set<Timer>): map<Timer, U32>
    reads all`deadline
  {
    map t | t in all :: t.deadline
  }

  /** The timers in `q` hold the low 32 bits of absolute deadlines that are near enough
      for these to tell them apart for as long as the stamp taken at `base` is good. */
  ghost predicate Dated(q: seq<Timer>, due: map<Timer, int>, deadlines: map<Timer, U32>, base: int) {
    forall t :: t in q ==>
      && t in due && t in deadlines && deadlines[t] == Wrap32(due[t])
      && base - FAR <= due[t] < base + TWO24 + FAR
  }

  lemma DatedAt(q: seq<Timer>, due: map<Timer, int>, deadlines: map<Timer, U32>, base: int, t: Timer)
    requires Dated(q, due, deadlines, base) && t in q
    ensures t in due && t in deadlines && deadlines[t] == Wrap32(due[t])
    ensures base - FAR <= due[t] < base + TWO24 + FAR
  {
  }

  lemma DatedWithout(q: seq<Timer>, due: map<Timer, int>, deadlines: map<Timer, U32>, base: int, t: Timer, d: map<Timer, U32>)
    requires Dated(q, due, deadlines, base) && t !in Without(q, t) && d.Keys == deadlines.Keys
    requires forall u :: u in d && u != t ==> d[u] == deadlines[u]
    ensures Dated(Without(q, t), due, d, base)
  {
  }

  lemma DatedPut(q: seq<Timer>, due: map<Timer, int>, deadlines: map<Timer, U32>, base: int, t: Timer, at: int, p: nat)
    requires Dated(q, due, deadlines, base) && p <= |q| && t !in q && t in deadlines
    requires deadlines[t] == Wrap32(at) && base - FAR <= at < base + TWO24 + FAR
    ensures Dated(Put(q, p, t), due[t := at], deadlines, base)
  {
    hide Wrap32;
    var r := Put(q, p, t);
    forall u | u in r
      ensures u == t || u in q
    {
      var k :| 0 <= k < |r| && r[k] == u;
    }
  }

  /** The one-shot timer fires by the first deadline, or at once. */
  ghost predicate ArmedFor(q: seq<Timer>, due: map<Timer, int>, pending: bool, armed: bool, armedAt: int, fireAt: int) {
    q != [] && q[0] in due ==> pending || (armed && fireAt <= Max(due[q[0]], armedAt + 2))
  }

  lemma ArmedNow(q: seq<Timer>, due: map<Timer, int>, armed: bool, armedAt: int, fireAt: int)
    requires q != [] && q[0] in due && armed && fireAt <= Max(due[q[0]], armedAt + 2)
    ensures ArmedFor(q, due, false, armed, armedAt, fireAt)
  {
  }

  lemma SortedIn(q: seq<Timer>, due: map<Timer, int>)
    requires Sorted(q, due)
    ensures forall i :: 0 <= i < |q| ==> q[i] in due
  {
  }

  /** A fresh stamp is as good for all timers due no earlier than the clock's own was. */
  lemma DatedLater(q: seq<Timer>, due: map<Timer, int>, deadlines: map<Timer, U32>, base: int, base': int)
    requires Dated(q, due, deadlines, base) && base <= base' < base + TWO24
    requires forall t :: t in q && t in due ==> due[t] >= base + UPDATE_PERIOD
    ensures Dated(q, due, deadlines, base')
  {
  }

  /** Moving a timer to anywhere but the front leaves the setting good. */
  lemma StillArmed(q: seq<Timer>, due: map<Timer, int>, pending: bool, armed: bool, armedAt: int, fireAt: int,
                   t: Timer, at: int, p: nat)
    requires Sorted(q, due) && Distinct(q) && ArmedFor(q, due, pending, armed, armedAt, fireAt)
    requires t !in Without(q, t) && 0 < p <= |Without(q, t)|
    ensures ArmedFor(Put(Without(q, t), p, t), due[t := at], pending, armed, armedAt, fireAt)
  {
    WithoutSorted(q, due, t);
    var r := Without(q, t);
    assert r[0] in r && r[0] != t && Put(r, p, t)[0] == r[0];
    assert due[q[0]] <= due[r[0]];
  }

  /** Setting a timer leaves at the front that timer, or one due no earlier than before. */
  lemma FrontAfterSet(q: seq<Timer>, due: map<Timer, int>, u: Timer, p: nat)
    requires Sorted(q, due) && Distinct(q) && p <= |Without(q, u)|
    ensures var f := Put(Without(q, u), p, u)[0];
            f != u ==> q != [] && q[0] in due && f in due && due[q[0]] <= due[f]
  {
    WithoutSorted(q, due, u);
    var r := Without(q, u);
    if p > 0 {
      assert Put(r, p, u)[0] == r[0];
    }
  }

  lemma NotArmed(due: map<Timer, int>, pending: bool, armed: bool, armedAt: int, fireAt: int)
    ensures ArmedFor([], due, pending, armed, armedAt, fireAt)
  {
  }

  lemma FirstIsLeast(q: seq<Timer>, due: map<Timer, int>)
    requires Sorted(q, due) && q != []
    ensures forall t :: t in Cut(q, 0) ==> t in due && due[q[0]] <= due[t]
  {
    forall t | t in Cut(q, 0)
      ensures t in due && due[q[0]] <= due[t]
    {
      var k := IndexOf(Cut(q, 0), t);
      assert q[k + 1] == t;
    }
  }

  lemma DatedCut(q: seq<Timer>, due: map<Timer, int>, deadlines: map<Timer, U32>, base: int)
    requires Dated(q, due, deadlines, base) && q != []
    ensures Dated(Cut(q, 0), due, deadlines, base)
  {
    forall t | t in Cut(q, 0)
      ensures t in q
    {
      var k := IndexOf(Cut(q, 0), t);
      assert q[k + 1] == t;
    }
  }

  lemma PutIn(q: seq<Timer>, p: nat, t: Timer)
    requires p <= |q|
    ensures t in Put(q, p, t)
  {
    assert Put(q, p, t)[p] == t;
  }

  lemma PutOther(q: seq<Timer>, p: nat, t: Timer, u: Timer)
    requires p <= |q| && u in q
    ensures u in Put(q, p, t)
  {
    var k := IndexOf(q, u);
    assert Put(q, p, t)[if k < p then k else k + 1] == u;
  }

  /** The timers that are set. */
  ghost function Members(q: seq<Timer>): set<Timer> { set t | t in q }

  lemma WithoutMembers(q: seq<Timer>, t: Timer)
    requires Distinct(q)
    ensures Distinct(Without(q, t)) && Members(Without(q, t)) == Members(q) - {t}
  {
    if t in q {
      var i := IndexOf(q, t);
      WithoutAt(q, i);
      forall u
        ensures Distinct(Cut(q, i)) && (u in Cut(q, i) <==> u in q && u != t)
      {
        CutMembers(q, i, u);
      }
    }
  }

  lemma CutFirst(q: seq<Timer>)
    requires Distinct(q) && q != []
    ensures Members(Cut(q, 0)) == Members(q) - {q[0]}
  {
    forall u
      ensures u in Cut(q, 0) <==> u in q && u != q[0]
    {
      CutMembers(q, 0, u);
    }
  }

  lemma SetMembers(q: seq<Timer>, t: Timer, p: nat)
    requires Distinct(q) && p <= |Without(q, t)|
    ensures Members(Put(Without(q, t), p, t)) == Members(q) + {t}
  {
    WithoutMembers(q, t);
    var r := Without(q, t);
    assert t !in Members(r);
    forall u
      ensures u in Put(r, p, t) <==> u in r || u == t
    {
      PutMembers(r, p, t, u);
    }
    assert Members(Put(r, p, t)) == Members(r) + {t};
  }

  lemma {:induction false} WithoutOther(q: seq<Timer>, t: Timer, u: Timer)
    requires u in q && u != t
    ensures u in Without(q, t)
  {
    if q[0] != t && q[0] != u {
      WithoutOther(q[1..], t, u);
    }
  }

  /* ---- What is set, and for when ----------------------------------------------------- */

  /** What a callback, or the main program, does to the timers. */
  datatype Action = Set(timer: Timer, after: int) | Cancel(timer: Timer)

  /** It is done at a reading of the clock. */
  datatype Timed = Timed(action: Action, at: int)

  /** The main program acts, or the handler takes a timer out and runs its callback. */
  datatype Deed = Did(what: Timed) | Called(timer: Timer, at: int, doing: seq<Timed>)

  /** The timers that are set, each with its deadline. */
  ghost function Agenda(q: seq<Timer>, due: map<Timer, int>): map<Timer, int> {
    map t | t in Members(q) && t in due :: due[t]
  }

  ghost function AfterOne(m: map<Timer, int>, d: Timed): map<Timer, int> {
    match d.action
    case Set(timer, after) => m[timer := d.at + after]
    case Cancel(timer) => m - {timer}
  }

  ghost function AfterAll(m: map<Timer, int>, ds: seq<Timed>): map<Timer, int>
    decreases |ds|
  {
    if ds == [] then m else AfterOne(AfterAll(m, ds[..|ds| - 1]), ds[|ds| - 1])
  }

  ghost function AfterDeed(m: map<Timer, int>, d: Deed): map<Timer, int> {
    match d
    case Did(what) => AfterOne(m, what)
    case Called(timer, _, doing) => AfterAll(m - {timer}, doing)
  }

  ghost function AfterDeeds(m: map<Timer, int>, ds: seq<Deed>): map<Timer, int>
    decreases |ds|
  {
    if ds == [] then m else AfterDeed(AfterDeeds(m, ds[..|ds| - 1]), ds[|ds| - 1])
  }

  /** A callback is that of a timer due first, not more than SLACK_TICKS early, and if
      there is a bound not later than it allows. */
  ghost predicate Turn(m: map<Timer, int>, t: Timer, at: int, bounded: bool, late: int) {
    && t in m && (forall u :: u in m ==> m[t] <= m[u])
    && m[t] - SLACK_TICKS <= at && (bounded ==> at <= m[t] + late)
  }

  ghost predicate InTurn(m: map<Timer, int>, d: Deed, bounded: bool, late: int) {
    d.Called? ==> Turn(m, d.timer, d.at, bounded, late)
  }

  ghost predicate AllInTurn(m: map<Timer, int>, ds: seq<Deed>, bounded: bool, late: int)
    decreases |ds|
  {
    if ds == [] then true
    else
      var before := ds[..|ds| - 1];
      AllInTurn(m, before, bounded, late) && InTurn(AfterDeeds(m, before), ds[|ds| - 1], bounded, late)
  }

  lemma AfterMore(m: map<Timer, int>, ds: seq<Timed>, d: Timed)
    ensures AfterAll(m, ds + [d]) == AfterOne(AfterAll(m, ds), d)
  {
    assert (ds + [d])[..|ds|] == ds;
  }

  lemma DeedMore(m: map<Timer, int>, ds: seq<Deed>, d: Deed, bounded: bool, late: int)
    ensures AfterDeeds(m, ds + [d]) == AfterDeed(AfterDeeds(m, ds), d)
    ensures AllInTurn(m, ds + [d], bounded, late) <==>
        AllInTurn(m, ds, bounded, late) && InTurn(AfterDeeds(m, ds), d, bounded, late)
  {
    assert (ds + [d])[..|ds|] == ds;
  }

  lemma {:induction false} DeedsJoin(m: map<Timer, int>, ds: seq<Deed>, es: seq<Deed>, bounded: bool, late: int)
    ensures AfterDeeds(m, ds + es) == AfterDeeds(AfterDeeds(m, ds), es)
    ensures AllInTurn(m, ds, bounded, late) && AllInTurn(AfterDeeds(m, ds), es, bounded, late) ==>
        AllInTurn(m, ds + es, bounded, late)
    decreases |es|
  {
    hide AfterDeed, InTurn;
    if es == [] {
      assert ds + es == ds;
    } else {
      var n := |es| - 1;
      DeedsJoin(m, ds, es[..n], bounded, late);
      assert ds + es == (ds + es[..n]) + [es[n]];
      DeedMore(m, ds + es[..n], es[n], bounded, late);
    }
  }

  lemma AgendaSet(q: seq<Timer>, due: map<Timer, int>, q': seq<Timer>, t: Timer, at: int)
    requires Members(q') == Members(q) + {t}
    ensures Agenda(q', due[t := at]) == Agenda(q, due)[t := at]
  {
    hide Members;
  }

  lemma AgendaDrop(q: seq<Timer>, due: map<Timer, int>, q': seq<Timer>, t: Timer)
    requires Members(q') == Members(q) - {t}
    ensures Agenda(q', due) == Agenda(q, due) - {t}
  {
    hide Members;
  }

  /** The first of the list is due first. */
  lemma AgendaFirst(q: seq<Timer>, due: map<Timer, int>)
    requires Sorted(q, due) && q != []
    ensures q[0] in Agenda(q, due) && Agenda(q, due)[q[0]] == due[q[0]]
    ensures forall u :: u in Agenda(q, due) ==> due[q[0]] <= Agenda(q, due)[u]
  {
    forall u | u in Agenda(q, due)
      ensures due[q[0]] <= Agenda(q, due)[u]
    {
      FirstDue(q, due, u);
    }
  }

  /* ---- How many timers come first -------------------------------------------------- */

  /** How many entries are ahead of `t`. */
  function Ahead(q: seq<Timer>, t: Timer): (n: nat)
    ensures t in q ==> n < |q|
    ensures n <= |q|
  {
    if q == [] || q[0] == t then 0 else 1 + Ahead(q[1..], t)
  }

  lemma AheadCut(q: seq<Timer>, t: Timer)
    requires q != [] && q[0] != t
    ensures Ahead(q, t) == Ahead(Cut(q, 0), t) + 1
  {
    assert Cut(q, 0) == q[1..];
  }

  lemma {:induction false} AheadWithout(q: seq<Timer>, u: Timer, t: Timer)
    requires t != u
    ensures Ahead(Without(q, u), t) <= Ahead(q, t)
  {
    if q != [] && q[0] != u && q[0] != t {
      AheadWithout(q[1..], u, t);
      assert Without(q, u)[1..] == Without(q[1..], u);
    }
  }

  /** What is put in behind `t` does not come ahead of it. */
  lemma {:induction false} AheadPut(q: seq<Timer>, p: nat, u: Timer, t: Timer)
    requires p <= |q| && u != t
    ensures p > Ahead(q, t) ==> Ahead(Put(q, p, u), t) == Ahead(q, t)
  {
    if p > Ahead(q, t) && q[0] != t {
      AheadPut(q[1..], p - 1, u, t);
      assert Put(q, p, u)[1..] == Put(q[1..], p - 1, u);
    }
  }

  lemma {:induction false} PlaceBehind(q: seq<Timer>, due: map<Timer, int>, at: int, t: Timer)
    requires Sorted(q, due) && t in q && at > due[t]
    ensures Place(q, due, at) > Ahead(q, t)
  {
    FirstDue(q, due, t);
    if q[0] != t {
      PlaceBehind(q[1..], due, at, t);
    }
  }

  lemma FirstDue(q: seq<Timer>, due: map<Timer, int>, t: Timer)
    requires Sorted(q, due) && t in q
    ensures t in due && q[0] in due && due[q[0]] <= due[t] && Sorted(q[1..], due)
  {
    var i := IndexOf(q, t);
  }

  /** A timer set to be due later than `t` does not come ahead of it. */
  lemma AheadAfterSet(q: seq<Timer>, due: map<Timer, int>, u: Timer, at: int, t: Timer)
    requires u != t && t in q && Sorted(Without(q, u), due)
    ensures t in due && t in Put(Without(q, u), Place(Without(q, u), due, at), u)
    ensures at > due[t] ==> Ahead(Put(Without(q, u), Place(Without(q, u), due, at), u), t) <= Ahead(q, t)
  {
    var r := Without(q, u);
    var p := Place(r, due, at);
    WithoutOther(q, u, t);
    FirstDue(r, due, t);
    PutOther(r, p, u, t);
    if at > due[t] {
      hide Sorted, Place;
      PlaceBehind(r, due, at, t);
      AheadPut(r, p, u, t);
      AheadWithout(q, u, t);
    }
  }

  lemma {:induction false} QueueFits(q: seq<Timer>, all: set<Timer>)
    requires Distinct(q) && forall t :: t in q ==> t in all
    ensures |q| <= |all|
    decreases |q|
  {
    if q != [] {
      var n := |q| - 1;
      assert forall t :: t in q[..n] ==> t in all - {q[n]};
      QueueFits(q[..n], all - {q[n]});
    }
  }
}
