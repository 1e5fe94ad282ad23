/** Timers in intrusive lists: what their links say, and how lists are cut, spliced and read as entries. */
module TimerLinks {
  import opened TimerOrder

  /** The back link of a timer: unset, a flag for the head of either queue, or the timer before it. */
  datatype Link = Null | InMain | InFast | Node(timer: Timer)

  class Timer {
    var expires: int
    var next: Timer?
    var prev: Link

    constructor (expires: int)
      ensures this.expires == expires && next == null && prev == Null
    {
      this.expires, next, prev := expires, null, Null;
    }
  }

  /** A timer that fired, and when. */
  datatype Firing = Firing(entry: Entry<Timer>, at: int)

  ghost predicate NoDup(s: seq<Timer>) {
    forall i, j | 0 <= i < j < |s| :: s[i] != s[j]
  }

  ghost predicate Apart(a: seq<Timer>, b: seq<Timer>) {
    forall t | t in a :: t !in b
  }

  ghost function First(s: seq<Timer>, tail: Timer?): Timer? {
    if s == [] then tail else s[0]
  }

  ghost function After(s: seq<Timer>, i: int, tail: Timer?): Timer?
    requires 0 <= i < |s|
  {
    if i + 1 < |s| then s[i + 1] else tail
  }

  ghost function Before(flag: Link, s: seq<Timer>, i: int): Link
    requires 0 <= i < |s|
  {
    if i == 0 then flag else Node(s[i - 1])
  }

  /** The forward links run through `s` and leave it for `tail`. */
  ghost predicate Seg(s: seq<Timer>, tail: Timer?)
    reads (set t | t in s)`next
  {
    forall i | 0 <= i < |s| :: s[i].next == After(s, i, tail)
  }

  /** The forward links from `head` run through `s` and end there. */
  ghost predicate Linked(head: Timer?, s: seq<Timer>)
    reads (set t | t in s)`next
  {
    head == First(s, null) && Seg(s, null)
  }

  lemma SegJoin(a: seq<Timer>, b: seq<Timer>, tail: Timer?)
    ensures Seg(a + b, tail) <==> Seg(a, First(b, tail)) && Seg(b, tail)
  {
    var s := a + b;
    if Seg(s, tail) {
      forall i | 0 <= i < |b| ensures b[i].next == After(b, i, tail) {
        assert s[|a| + i].next == After(s, |a| + i, tail);
      }
      forall i | 0 <= i < |a| ensures a[i].next == After(a, i, First(b, tail)) {
        assert s[i].next == After(s, i, tail);
      }
    }
    if Seg(a, First(b, tail)) && Seg(b, tail) {
      forall i | 0 <= i < |s| ensures s[i].next == After(s, i, tail) {
        if i < |a| {
          assert a[i].next == After(a, i, First(b, tail));
        } else {
          assert b[i - |a|].next == After(b, i - |a|, tail);
        }
      }
    }
  }

  lemma SegOne(t: Timer, tail: Timer?)
    ensures Seg([t], tail) <==> t.next == tail
  {
    assert [t][0] == t;
  }

  ghost function LastLink(flag: Link, s: seq<Timer>): Link {
    if s == [] then flag else Node(s[|s| - 1])
  }

  /** Every back link names the timer before; the first one's is `flag`. */
  ghost predicate BackLinked(flag: Link, s: seq<Timer>)
    reads (set t | t in s)`prev
  {
    forall i | 0 <= i < |s| :: s[i].prev == Before(flag, s, i)
  }

  lemma BeforeJoin(flag: Link, a: seq<Timer>, b: seq<Timer>, i: int)
    requires 0 <= i < |a| + |b|
    ensures Before(flag, a + b, i)
         == if i < |a| then Before(flag, a, i) else Before(LastLink(flag, a), b, i - |a|)
    ensures (a + b)[i] == if i < |a| then a[i] else b[i - |a|]
  {
  }

  lemma BackSplits(flag: Link, a: seq<Timer>, b: seq<Timer>)
    requires BackLinked(flag, a + b)
    ensures BackLinked(flag, a) && BackLinked(LastLink(flag, a), b)
  {
    hide Before, LastLink;
    forall i | 0 <= i < |b| ensures b[i].prev == Before(LastLink(flag, a), b, i) {
      BeforeJoin(flag, a, b, |a| + i);
    }
    forall i | 0 <= i < |a| ensures a[i].prev == Before(flag, a, i) {
      BeforeJoin(flag, a, b, i);
    }
  }

  lemma BackJoins(flag: Link, a: seq<Timer>, b: seq<Timer>)
    requires BackLinked(flag, a) && BackLinked(LastLink(flag, a), b)
    ensures BackLinked(flag, a + b)
  {
    hide Before, LastLink;
    forall i | 0 <= i < |a + b| ensures (a + b)[i].prev == Before(flag, a + b, i) {
      BeforeJoin(flag, a, b, i);
    }
  }

  lemma BackJoin(flag: Link, a: seq<Timer>, b: seq<Timer>)
    ensures BackLinked(flag, a + b) <==> BackLinked(flag, a) && BackLinked(LastLink(flag, a), b)
  {
    hide BackLinked;
    if BackLinked(flag, a + b) { BackSplits(flag, a, b); }
    if BackLinked(flag, a) && BackLinked(LastLink(flag, a), b) { BackJoins(flag, a, b); }
  }

  /** Queued timers have a back link, so an unset one means that a timer is idle. */
  ghost predicate Marked(s: seq<Timer>)
    reads (set t | t in s)`prev
  {
    forall i | 0 <= i < |s| :: s[i].prev != Null
  }

  lemma MarkedHead(s: seq<Timer>)
    ensures s != [] ==> (Marked(s) <==> s[0].prev != Null && Marked(s[1..]))
    ensures s == [] ==> Marked(s)
  {
    assert s != [] ==> s == [s[0]] + s[1..];
  }

  lemma MarkedJoin(a: seq<Timer>, b: seq<Timer>)
    ensures Marked(a + b) <==> Marked(a) && Marked(b)
  {
    if Marked(a + b) {
      forall i | 0 <= i < |b| ensures b[i].prev != Null { assert (a + b)[|a| + i] == b[i]; }
      forall i | 0 <= i < |a| ensures a[i].prev != Null { assert (a + b)[i] == a[i]; }
    }
  }

  lemma BackOne(flag: Link, t: Timer)
    ensures BackLinked(flag, [t]) <==> t.prev == flag
  {
    assert [t][0] == t;
  }

  /** The queue as entries: each timer with its expiry time. */
  ghost function Snap(s: seq<Timer>): (r: seq<Entry<Timer>>)
    reads (set t | t in s)`expires
    ensures |r| == |s| && forall i | 0 <= i < |s| :: r[i] == Entry(s[i], s[i].expires)
  {
    if s == [] then [] else [Entry(s[0], s[0].expires)] + Snap(s[1..])
  }

  lemma TailOutside(q: seq<Timer>, f: Timer, tail: seq<Timer>)
    requires f !in tail && Apart(q, tail)
    ensures forall u | u in tail :: u != f && u !in q
  {
  }

  lemma HeadApart(q: seq<Timer>, rest: seq<Timer>)
    requires rest != [] && NoDup(rest) && Apart(q, rest)
    ensures rest[0] !in q && rest[0] !in rest[1..] && NoDup(rest[1..]) && Apart(q, rest[1..])
  {
    assert rest[0] in rest;
  }

  /** Cutting a queue: what stays true of the two parts when the links at the cut are rewritten. */
  lemma CutSeg(q: seq<Timer>, k: nat)
    requires k <= |q| && Seg(q, null)
    ensures Seg(q[k..], null) && (k > 0 ==> Seg(q[..k - 1], q[k - 1]))
  {
    hide Seg;
    assert q == q[..k] + q[k..];
    SegJoin(q[..k], q[k..], null);
    SegLast(q[..k], First(q[k..], null));
    assert k > 0 ==> q[..k][..k - 1] == q[..k - 1];
  }

  lemma SpliceSeg(a: seq<Timer>, t: Timer, b: seq<Timer>)
    requires Seg(b, null) && t.next == First(b, null)
    requires a != [] ==> Seg(a[..|a| - 1], a[|a| - 1]) && a[|a| - 1].next == t
    ensures Seg(a + [t] + b, null)
  {
    hide Seg;
    SegLast(a, t);
    SegOne(t, First(b, null));
    SegJoin(a, [t], First(b, null));
    SegJoin(a + [t], b, null);
  }

  lemma CutMarked(q: seq<Timer>, k: nat)
    requires k <= |q| && Marked(q)
    ensures Marked(q[..k]) && (k < |q| ==> Marked(q[k + 1..]))
  {
    hide Marked;
    assert q == q[..k] + q[k..];
    MarkedJoin(q[..k], q[k..]);
    MarkedHead(q[k..]);
    assert k < |q| ==> q[k..][1..] == q[k + 1..];
  }

  lemma SpliceMarked(a: seq<Timer>, t: Timer, b: seq<Timer>)
    requires Marked(a) && t.prev != Null && (b != [] ==> b[0].prev != Null && Marked(b[1..]))
    ensures Marked(a + [t] + b)
  {
    hide Marked;
    MarkedHead(b);
    MarkedHead([t]);
    MarkedHead([]);
    assert [t][1..] == [];
    MarkedJoin(a, [t]);
    MarkedJoin(a + [t], b);
  }

  lemma CutBack(flag: Link, q: seq<Timer>, k: nat)
    requires k <= |q|
    ensures BackLinked(flag, q) ==> BackLinked(flag, q[..k])
    ensures BackLinked(flag, q) && k < |q| ==> BackLinked(Node(q[k]), q[k + 1..])
  {
    hide BackLinked;
    assert q == q[..k] + q[k..];
    BackJoin(flag, q[..k], q[k..]);
    BackSplitHead(LastLink(flag, q[..k]), q[k..]);
    assert k < |q| ==> q[k..][1..] == q[k + 1..];
  }

  lemma SpliceBack(flag: Link, a: seq<Timer>, t: Timer, b: seq<Timer>)
    ensures
      && BackLinked(flag, a) && t.prev == (if a == [] then flag else Node(a[|a| - 1]))
      && (b != [] ==> b[0].prev == Node(t) && BackLinked(Node(b[0]), b[1..]))
      ==> BackLinked(flag, a + [t] + b)
  {
    hide BackLinked;
    BackOne(LastLink(flag, a), t);
    BackJoin(flag, a, [t]);
    BackSplitHead(Node(t), b);
    BackJoin(flag, a + [t], b);
  }

  function Entries(fs: seq<Firing>): (r: seq<Entry<Timer>>)
    ensures |r| == |fs| && forall i | 0 <= i < |fs| :: r[i] == fs[i].entry
  {
    seq(|fs|, i requires 0 <= i < |fs| => fs[i].entry)
  }

  /** Each firing came within the pass and not before the timer's time. */
  ghost predicate OnTime(fs: seq<Firing>, since: int, now: int) {
    forall i | 0 <= i < |fs| :: since <= fs[i].at <= now && fs[i].entry.expires <= fs[i].at
  }

  lemma EntriesNext(fs: seq<Firing>, f: Firing)
    ensures Entries(fs + [f]) == Entries(fs) + [f.entry]
  {
  }

  lemma NoFirings(q: seq<Entry<Timer>>, now: int)
    ensures Entries([]) + q == q && OnTime([], now, now)
  {
  }

  lemma NothingFired(fs: seq<Firing>, since: int, now: int)
    ensures OnTime(fs[|fs|..], since, now)
  {
  }

  lemma OnTimeMore(a: seq<Firing>, b: seq<Firing>, c: seq<Firing>, since: int, mid: int, now: int)
    requires a <= b <= c && since <= mid <= now && OnTime(b[|a|..], since, mid) && OnTime(c[|b|..], mid, now)
    ensures OnTime(c[|a|..], since, now)
  {
    forall i | |a| <= i < |c| ensures since <= c[i].at <= now && c[i].entry.expires <= c[i].at {
      if i < |b| {
        assert c[i] == b[|a|..][i - |a|];
      } else {
        assert c[i] == c[|b|..][i - |b|];
      }
    }
  }

  lemma OnTimePush(fs: seq<Firing>, f: Firing, since: int, now: int)
    requires OnTime(fs, since, f.at) && since <= f.at <= now && f.entry.expires <= f.at
    ensures OnTime(fs + [f], since, now)
  {
  }

  lemma EmptyBack()
    ensures BackLinked(InFast, [])
  {
  }

  lemma NoneDue(q: seq<Entry<Timer>>, now: int)
    requires Sorted(q) && (q != [] ==> q[0].expires > now)
    ensures forall i | 0 <= i < |q| :: q[i].expires > now
  {
  }

  ghost function IndexOf(s: seq<Timer>, t: Timer): (i: nat)
    requires t in s
    ensures i < |s| && s[i] == t
  {
    var i: nat :| i < |s| && s[i] == t;
    i
  }

  /** The queue with the timer taken out. */
  ghost function Without(s: seq<Timer>, t: Timer): (r: seq<Timer>) {
    if t in s then s[..IndexOf(s, t)] + s[IndexOf(s, t) + 1..] else s
  }

  /** The timer has neighbours on both sides. */
  ghost predicate Inner(s: seq<Timer>, t: Timer) {
    t in s && 0 < IndexOf(s, t) < |s| - 1
  }

  lemma IndexIs(s: seq<Timer>, k: nat)
    requires k < |s| && NoDup(s)
    ensures IndexOf(s, s[k]) == k
  {
  }

  lemma ApartIn(a: seq<Timer>, b: seq<Timer>, t: Timer)
    requires Apart(a, b)
    ensures !(t in a && t in b)
  {
  }

  lemma ApartSym(a: seq<Timer>, b: seq<Timer>)
    requires Apart(a, b)
    ensures Apart(b, a)
  {
  }

  /** Taking one timer out keeps a queue distinct, marked and sorted. */
  lemma RemoveAt(q: seq<Timer>, k: nat, f: seq<Timer>)
    requires k < |q| && NoDup(q) && Apart(q, f) && Marked(q)
    ensures NoDup(q[..k] + q[k + 1..]) && Apart(q[..k] + q[k + 1..], f) && Marked(q[..k] + q[k + 1..])
    ensures q[k] !in f && (forall i | 0 <= i < |q| && i != k :: q[i] != q[k])
    ensures Sorted(Snap(q)) ==> Sorted(Snap(q[..k] + q[k + 1..]))
    ensures forall u | u in q[..k] + q[k + 1..] :: u in q && u != q[k]
  {
    hide Snap;
    var r := q[..k] + q[k + 1..];
    forall i | 0 <= i < |r| ensures r[i] == q[if i < k then i else i + 1] {}
    forall i | 0 <= i < |r| ensures Snap(r)[i] == Snap(q)[if i < k then i else i + 1] {}
    assert q[k] in q;
  }

  lemma IdleOutside(t: Timer, s: seq<Timer>)
    requires t.prev == Null && Marked(s)
    ensures t !in s
  {
  }

  lemma HeadGone(q: seq<Timer>, f: seq<Timer>)
    requires q != [] && NoDup(q) && Apart(q, f)
    ensures q[0] !in q[1..] && q[0] !in f && NoDup(q[1..]) && Apart(q[1..], f)
  {
    assert q[0] in q;
  }

  lemma SortedTail(q: seq<Entry<Timer>>)
    requires Sorted(q) && q != []
    ensures Sorted(q[1..])
  {
  }

  lemma SpliceDistinct(q: seq<Timer>, t: Timer, k: nat, rest: seq<Timer>)
    requires k <= |q| && NoDup(q) && t !in q && t !in rest && Apart(q, rest)
    ensures NoDup(q[..k] + [t] + q[k..]) && Apart(q[..k] + [t] + q[k..], rest)
    ensures forall u :: u in q[..k] + [t] + q[k..] <==> u in q || u == t
  {
    var r := q[..k] + [t] + q[k..];
    assert q == q[..k] + q[k..];
    forall i, j | 0 <= i < j < |r| ensures r[i] != r[j] {
      assert r[i] == if i < k then q[i] else if i == k then t else q[i - 1];
      assert r[j] == if j < k then q[j] else if j == k then t else q[j - 1];
    }
  }

  lemma SnapEmpty()
    ensures Snap([]) == []
  {
  }

  lemma SnapJoin(a: seq<Timer>, b: seq<Timer>)
    ensures Snap(a + b) == Snap(a) + Snap(b)
  {
    hide Snap;
    forall i | 0 <= i < |a + b| ensures Snap(a + b)[i] == (Snap(a) + Snap(b))[i] {
      assert (a + b)[i] == if i < |a| then a[i] else b[i - |a|];
    }
  }

  lemma SnapSplice(q: seq<Timer>, t: Timer, k: nat)
    requires k <= |q|
    ensures Snap(q[..k] + [t] + q[k..]) == Snap(q)[..k] + [Entry(t, t.expires)] + Snap(q)[k..]
  {
    var a, b := q[..k], q[k..];
    assert q == a + b;
    assert Snap([t]) == [Entry(t, t.expires)];
    hide Snap;
    SnapJoin(a, b);
    SnapJoin(a, [t]);
    SnapJoin(a + [t], b);
  }

  lemma SnapTail(s: seq<Timer>)
    requires s != []
    ensures Snap(s)[0] == Entry(s[0], s[0].expires) && Snap(s)[1..] == Snap(s[1..])
  {
  }

  /** Behind all earlier timers, and before one that is not. */
  ghost predicate SlotFor(q: seq<Timer>, expires: int, k: nat)
    reads q
  {
    k <= |q| && (forall i | 0 <= i < k :: q[i].expires < expires) && (k < |q| ==> q[k].expires >= expires)
  }

  /** Splicing a timer in at its slot is insertion into the sorted entries. */
  lemma SnapInsert(q: seq<Timer>, t: Timer, k: nat, rest: seq<Timer>)
    requires k <= |q| && rest != [] && rest[0] == t && SlotFor(q, t.expires, k)
    ensures MergeBatch(Snap(q), Snap(rest)) == MergeBatch(Snap(q[..k] + [t] + q[k..]), Snap(rest[1..]))
  {
    hide InsertEntry, MergeBatch, Snap;
    InsertAt(Snap(q), Entry(t, t.expires), k);
    SnapSplice(q, t, k);
    SnapTail(rest);
    MergeStep(Snap(q), Snap(rest));
  }

  lemma SegLast(s: seq<Timer>, tail: Timer?)
    ensures s == [] ==> Seg(s, tail)
    ensures s != [] ==> (Seg(s, tail) <==> Seg(s[..|s| - 1], s[|s| - 1]) && s[|s| - 1].next == tail)
  {
    if s != [] {
      var n := |s| - 1;
      assert s == s[..n] + [s[n]];
      SegJoin(s[..n], [s[n]], tail);
      SegOne(s[n], tail);
    }
  }

  lemma BackSplitHead(flag: Link, s: seq<Timer>)
    ensures s != [] ==> (BackLinked(flag, s) <==> s[0].prev == flag && BackLinked(Node(s[0]), s[1..]))
    ensures s == [] ==> BackLinked(flag, s)
  {
    if s != [] {
      BackJoin(flag, [s[0]], s[1..]);
      BackOne(flag, s[0]);
      assert s == [s[0]] + s[1..];
    }
  }

  // ---- When a timer is not taken out ----

  /** A link that still leads to the timer shows that it has not been taken out. */
  lemma StillQueued(head: Timer?, q: seq<Timer>, t: Timer)
    requires NoDup(q) && t in q
    requires IndexOf(q, t) == 0 ==> head == t
    requires IndexOf(q, t) > 0 ==> q[IndexOf(q, t) - 1].next == t
    ensures !Linked(head, Without(q, t))
  {
    var k, r := IndexOf(q, t), Without(q, t);
    if k > 0 {
      assert r[k - 1] == q[k - 1];
      assert After(r, k - 1, null) == After(q, k, null) != t;
    }
  }

  lemma NextInQueue(q: seq<Timer>, t: Timer)
    requires NoDup(q) && t in q && Seg(q, null)
    ensures t.next == After(q, IndexOf(q, t), null) && t.next != t
    ensures IndexOf(q, t) > 0 ==> q[IndexOf(q, t) - 1].next == t
  {
    var k := IndexOf(q, t);
    if k > 0 { assert q[k - 1].next == After(q, k - 1, null); }
  }

  /** The links before a queued timer lead to it. */
  lemma UpTo(q: seq<Timer>, t: Timer)
    requires NoDup(q) && t in q && Seg(q, null)
    ensures var k := IndexOf(q, t); Seg(q[..k], t) && t !in q[..k]
  {
    var k := IndexOf(q, t);
    forall i | 0 <= i < k ensures q[..k][i].next == After(q[..k], i, t) {
      assert q[i].next == After(q, i, null);
    }
  }

  lemma WithoutKeeps(q: seq<Timer>, t: Timer)
    ensures forall u | u in q && u != t :: u in Without(q, t)
  {
    if t in q {
      var k := IndexOf(q, t);
      assert q == q[..k] + [t] + q[k + 1..];
    }
  }

  lemma WithoutIn(q: seq<Timer>, t: Timer)
    ensures forall i | 0 <= i < |Without(q, t)| :: Without(q, t)[i] in q
  {
  }

  /** Marks other than that of `u`. */
  ghost predicate MarkedBarring(s: seq<Timer>, u: Timer?)
    reads (set t | t in s && t != u)`prev
  {
    forall i | 0 <= i < |s| && s[i] != u :: s[i].prev != Null
  }

  lemma MarkedBut(s: seq<Timer>, u: Timer?)
    requires Marked(s)
    ensures MarkedBarring(s, u)
  {
  }

  lemma MarkedAll(s: seq<Timer>, u: Timer?)
    requires MarkedBarring(s, u) && (u != null ==> u.prev != Null)
    ensures Marked(s)
  {
  }

  lemma WithoutOutside(q: seq<Timer>, t: Timer)
    ensures t !in q ==> Without(q, t) == q
  {
  }

  /** With the head moved on to the timer's successor: the timer is out if it was the head. */
  lemma HeadMoved(q: seq<Timer>, t: Timer)
    requires NoDup(q) && Seg(q, null)
    ensures Linked(t.next, Without(q, t)) <==> if t in q then IndexOf(q, t) == 0 else t.next == First(q, null)
  {
    if t in q {
      NextInQueue(q, t);
      if IndexOf(q, t) == 0 {
        assert q == [t] + q[1..] && Without(q, t) == q[1..];
        SegJoin([t], q[1..], null);
      } else {
        StillQueued(t.next, q, t);
      }
    }
  }

  lemma HeadStays(head: Timer?, q: seq<Timer>, t: Timer)
    requires NoDup(q) && Linked(head, q)
    ensures Linked(head, Without(q, t)) <==> t !in q
  {
    if t in q {
      NextInQueue(q, t);
      StillQueued(head, q, t);
    }
  }

  /** All links but that of `u` are right. */
  ghost predicate LinkedBut(head: Timer?, q: seq<Timer>, u: Timer)
    reads (set x | x in q && x != u)`next
  {
    head == First(q, null) && forall i | 0 <= i < |q| && q[i] != u :: q[i].next == After(q, i, null)
  }

  lemma LinkedButOne(head: Timer?, q: seq<Timer>, u: Timer)
    requires Linked(head, q)
    ensures LinkedBut(head, q, u)
  {
  }

  lemma NextAfter(q: seq<Timer>, t: Timer)
    requires t in q && Seg(q, null)
    ensures t.next == After(q, IndexOf(q, t), null)
  {
  }

  /** After the link of `u` has been set to where `t` leads: `t` is out if `u` is the one before it. */
  lemma SkippedIff(head: Timer?, q: seq<Timer>, t: Timer, u: Timer)
    requires NoDup(q) && LinkedBut(head, q, u)
    requires t in q ==> u.next == After(q, IndexOf(q, t), null)
    ensures t in q ==> (Linked(head, Without(q, t)) <==> IndexOf(q, t) > 0 && q[IndexOf(q, t) - 1] == u)
    ensures Linked(head, q) <==> u !in q || u.next == After(q, IndexOf(q, u), null)
  {
    if t in q {
      var k := IndexOf(q, t);
      if k > 0 && q[k - 1] == u {
        var r := Without(q, t);
        forall i | 0 <= i < |r| ensures r[i].next == After(r, i, null) {
          if i < k {
            assert r[i] == q[i];
          } else {
            assert r[i] == q[i + 1];
          }
        }
      } else {
        StillQueued(head, q, t);
      }
    }
  }

  /** What the links lead through from the head is the beginning of every list they spell. */
  lemma {:induction false} PathIsPrefix(m: seq<Timer>, s: seq<Timer>, n: nat)
    requires n < |s| && m != [] && m[0] == s[0] && Seg(m, null) && Seg(s[..|s| - 1], s[|s| - 1])
    ensures n < |m| && m[n] == s[n]
    decreases n
  {
    if n > 0 {
      PathIsPrefix(m, s, n - 1);
      var p := s[..|s| - 1];
      assert p[n - 1].next == After(p, n - 1, s[|s| - 1]) == s[n];
      assert m[n - 1].next == After(m, n - 1, null);
    }
  }

  lemma SecondIs(head: Timer, f: seq<Timer>)
    requires Linked(head, f) && head.next != null
    ensures head.next in f
  {
  }

  /** A list is determined by its head. */
  lemma OneList(head: Timer?, a: seq<Timer>, b: seq<Timer>)
    requires Linked(head, a) && Linked(head, b)
    ensures a == b
  {
    if a != [] {
      SegPath(a);
      PathIsPrefix(b, a, |a| - 1);
      SegPath(b);
      PathIsPrefix(a, b, |b| - 1);
      forall i | 0 <= i < |a| ensures a[i] == b[i] { PathIsPrefix(b, a, i); }
    }
  }

  lemma SegPath(a: seq<Timer>)
    requires a != [] && Seg(a, null)
    ensures Seg(a[..|a| - 1], a[|a| - 1])
  {
    var p := a[..|a| - 1];
    forall i | 0 <= i < |p| ensures p[i].next == After(p, i, a[|a| - 1]) {
      assert a[i].next == After(a, i, null);
    }
  }

  /** All back links but that of `x` are right. */
  ghost predicate BackBut(flag: Link, r: seq<Timer>, x: Timer?)
    reads (set t | t in r && t != x)`prev
  {
    forall i | 0 <= i < |r| && r[i] != x :: r[i].prev == Before(flag, r, i)
  }

  /** Taking a timer out leaves only its successor's back link in doubt. */
  lemma BackButNext(flag: Link, q: seq<Timer>, t: Timer)
    requires NoDup(q) && Seg(q, null) && BackLinked(flag, q)
    ensures BackBut(flag, Without(q, t), t.next)
    ensures t in q ==> t.next == After(q, IndexOf(q, t), null)
    ensures t in q ==> t.prev == Before(flag, q, IndexOf(q, t))
  {
    if t in q {
      var k, r := IndexOf(q, t), Without(q, t);
      forall i | 0 <= i < |r| && r[i] != t.next ensures r[i].prev == Before(flag, r, i) {
        if i < k {
          assert r[i] == q[i];
        } else {
          assert r[i] == q[i + 1];
        }
      }
    }
  }

  lemma BackButAt(flag: Link, r: seq<Timer>, k: nat)
    requires k < |r| && NoDup(r) && BackBut(flag, r, r[k])
    ensures BackLinked(flag, r) <==> r[k].prev == Before(flag, r, k)
  {
  }

  lemma BackButOutside(flag: Link, r: seq<Timer>, x: Timer?)
    requires BackBut(flag, r, x) && (x == null || x !in r)
    ensures BackLinked(flag, r)
  {
  }

  lemma BackAfter(flag: Link, q: seq<Timer>, t: Timer, x: Timer?)
    requires NoDup(q) && BackBut(flag, Without(q, t), x) && (t in q ==> x == After(q, IndexOf(q, t), null))
    ensures t in q ==>
              var k := IndexOf(q, t);
              BackLinked(flag, Without(q, t)) <==> x == null || x.prev == if k == 0 then flag else Node(q[k - 1])
    ensures t !in q ==>
              (BackLinked(flag, Without(q, t)) <==> x == null || x !in q || x.prev == Before(flag, q, IndexOf(q, x)))
  {
    hide BackBut, BackLinked, NoDup, Without;
    var r := Without(q, t);
    WithoutDistinct(q, t);
    if x == null {
      BackButOutside(flag, r, x);
    } else if t in q {
      NextSlides(flag, q, t, x);
      BackButAt(flag, r, IndexOf(q, t));
    } else {
      WithoutOutside(q, t);
      if x in q {
        BackButAt(flag, q, IndexOf(q, x));
      } else {
        BackButOutside(flag, q, x);
      }
    }
  }

  /** The successor moves into the place of the timer taken out. */
  lemma NextSlides(flag: Link, q: seq<Timer>, t: Timer, x: Timer)
    requires t in q && x == After(q, IndexOf(q, t), null)
    ensures var k, r := IndexOf(q, t), Without(q, t);
      k < |r| && r[k] == x && Before(flag, r, k) == if k == 0 then flag else Node(q[k - 1])
  {
  }

  lemma WithoutDistinct(q: seq<Timer>, t: Timer)
    requires NoDup(q)
    ensures NoDup(Without(q, t))
  {
  }

  /** Whoever is first afterwards is marked as such. */
  lemma HeadBack(flag: Link, q: seq<Timer>, t: Timer, x: Timer?)
    requires NoDup(q) && BackBut(flag, Without(q, t), x) && !flag.Node?
    requires NextOut(flag, q, t, t.prev, x, if x == null then Null else x.prev)
    ensures Without(q, t) != [] ==> Without(q, t)[0].prev == flag
  {
    var r := Without(q, t);
    if r != [] && x != null && r[0] == x {
      if t in q {
        NextSlides(flag, q, t, x);
        WithoutDistinct(q, t);
        assert IndexOf(q, t) == 0;
      } else {
        IndexIs(q, 0);
      }
    }
  }

  lemma OneBefore(q: seq<Timer>, t: Timer)
    requires NoDup(q) && t in q
    ensures IndexOf(q, t) > 0 ==> q[IndexOf(q, t) - 1] != t
    ensures IndexOf(q, t) < |q| - 1 <==> After(q, IndexOf(q, t), null) != null
  {
  }

  /**
   * Before a deletion with exact back links: where a timer with back link `tp` and successor `x`, itself with
   * back link `xp`, stands with respect to a queue.
   */
  ghost predicate NextIn(flag: Link, other: Link, q: seq<Timer>, t: Timer, tp: Link, x: Timer?, xp: Link) {
    && (t in q ==> x == After(q, IndexOf(q, t), null) && tp == Before(flag, q, IndexOf(q, t)) && xp == Node(t))
    && (t !in q && x != null && x in q ==> xp == Before(flag, q, IndexOf(q, x)))
    && (t !in q && x != null && x in q && tp == flag ==> Before(flag, q, IndexOf(q, x)) == flag)
    && (tp == other && x != null ==> x !in q)
  }

  /** And after it. */
  ghost predicate NextOut(flag: Link, q: seq<Timer>, t: Timer, tp: Link, x: Timer?, xp: Link) {
    && (t in q ==>
          && x == After(q, IndexOf(q, t), null) && tp == Before(flag, q, IndexOf(q, t))
          && (x != null ==> xp == if tp.Node? then Node(t) else flag))
    && (t !in q && x != null && x in q ==> xp == Before(flag, q, IndexOf(q, x)))
  }

  lemma NextStep(flag: Link, other: Link, q: seq<Timer>, t: Timer, tp: Link, x: Timer?, xp: Link)
    requires NextIn(flag, other, q, t, tp, x, xp) && !flag.Node? && !other.Node? && other != flag
    ensures NextOut(flag, q, t, tp, x, if x == null then Null else if tp == flag || tp == other then tp else xp)
  {
  }

  // ---- Queues ----

  /** Timers are queued once, in one queue, and marked as queued; the main queue is sorted. */
  ghost predicate Listed(m: seq<Timer>, f: seq<Timer>)
    reads (set t | t in m)`prev, (set t | t in f)`prev, (set t | t in m)`expires
  {
    NoDup(m) && NoDup(f) && Apart(m, f) && Marked(m) && Marked(f) && Sorted(Snap(m))
  }

  lemma WithoutPart(q: seq<Timer>, t: Timer, f: seq<Timer>)
    requires NoDup(q) && Apart(q, f) && Marked(q)
    ensures var r := Without(q, t);
      && NoDup(r) && Apart(r, f) && Marked(r) && (Sorted(Snap(q)) ==> Sorted(Snap(r)))
      && t !in r && forall u | u in r :: u in q
  {
    hide NoDup, Apart, Marked, Sorted, Snap;
    if t in q { RemoveAt(q, IndexOf(q, t), f); }
  }

  lemma ListedWithout(m: seq<Timer>, f: seq<Timer>, t: Timer)
    requires Listed(m, f)
    ensures Listed(Without(m, t), Without(f, t)) && t !in Without(m, t) && t !in Without(f, t)
  {
    hide NoDup, Apart, Marked, Sorted, Snap, Without;
    WithoutPart(m, t, f);
    ApartSym(Without(m, t), f);
    WithoutPart(f, t, Without(m, t));
    ApartSym(Without(f, t), Without(m, t));
  }

  /** The timer is queued once, and this is where. */
  lemma SplitAt(q: seq<Timer>, t: Timer)
    requires t in q && NoDup(q)
    ensures var k := IndexOf(q, t);
      q == q[..k] + [t] + q[k + 1..] && t !in q[..k] && t !in q[k + 1..]
  {
  }

  lemma SnapWithout(q: seq<Timer>, t: Timer)
    requires NoDup(q)
    ensures Snap(Without(q, t)) == Minus(Snap(q), {t})
    ensures t in q ==>
              var k := IndexOf(q, t);
              && Snap(q) == Snap(q[..k]) + [Entry(t, t.expires)] + Snap(q[k + 1..])
              && Snap(Without(q, t)) == Snap(q[..k]) + Snap(q[k + 1..])
  {
    hide Snap, Minus, NoDup;
    if t in q {
      var k := IndexOf(q, t);
      var a, b := q[..k], q[k + 1..];
      SplitAt(q, t);
      SnapJoin(a, b);
      SnapJoin(a + [t], b);
      SnapJoin(a, [t]);
      SnapOne(t);
      MinusNone(Snap(a), {t});
      MinusNone(Snap(b), {t});
      MinusOne(Entry(t, t.expires), {t});
      MinusAppend(Snap(a), [Entry(t, t.expires)], {t});
      MinusAppend(Snap(a) + [Entry(t, t.expires)], Snap(b), {t});
    } else {
      MinusNone(Snap(q), {t});
    }
  }

  lemma SnapOne(t: Timer)
    ensures Snap([t]) == [Entry(t, t.expires)]
  {
  }

  lemma SnapHas(q: seq<Timer>, t: Timer)
    ensures HasItem(Snap(q), t) <==> t in q
  {
    if t in q { assert Snap(q)[IndexOf(q, t)].item == t; }
  }

  /** A timer with neighbours on both sides, in the queue's entries. */
  lemma WithinIs(q: seq<Timer>, t: Timer)
    requires NoDup(q)
    ensures (exists k | 0 < k < |Snap(q)| - 1 :: Snap(q)[k].item == t) <==> Inner(q, t)
  {
    if Inner(q, t) { assert Snap(q)[IndexOf(q, t)].item == t; }
    forall k | 0 < k < |q| - 1 && q[k] == t ensures Inner(q, t) { IndexIs(q, k); }
  }

  lemma SnapOnce(q: seq<Timer>)
    requires NoDup(q)
    ensures Once(Snap(q))
  {
  }

  /** Walk a queue in search of a timer, and see whether its back link is right. */
  method Seek(head: Timer?, flag: Link, t: Timer, ghost q: seq<Timer>) returns (found: bool, clean: bool)
    requires Linked(head, q) && NoDup(q)
    ensures found <==> t in q
    ensures clean <==> t in q && t.prev == Before(flag, q, IndexOf(q, t))
  {
    var cur, link := head, flag;
    ghost var k := 0;
    while cur != null && cur != t
      invariant k <= |q| && t !in q[..k] && cur == (if k < |q| then q[k] else null)
      invariant link == if k == 0 then flag else Node(q[k - 1])
      decreases |q| - k
    {
      assert q[k].next == After(q, k, null);
      link := Node(cur);
      cur := cur.next;
      k := k + 1;
    }
    found := cur != null;
    clean := found && t.prev == link;
    if found { IndexIs(q, k); }
  }
}
