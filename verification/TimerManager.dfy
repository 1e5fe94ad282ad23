/** The timer manager: two intrusive linked lists, one for new timers and one sorted by expiry. */
module TimerManager {
  import opened TimerOrder
  import opened TimerLinks
  import opened TimerTrace

  class TimerManager {
    var fastQueue: Timer?
    var mainQueue: Timer?
    var sysUptime: int

    /** Every timer the program has, the two queues in order, and all firings so far. */
    ghost const all: set<Timer>
    ghost var main: seq<Timer>
    ghost var fast: seq<Timer>
    ghost var fired: seq<Firing>
    /** The entries ever added, and those taken out by a deletion. */
    ghost var added: multiset<Entry<Timer>>
    ghost var deleted: multiset<Entry<Timer>>

    ghost predicate Members(s: seq<Timer>) {
      forall i | 0 <= i < |s| :: s[i] in all
    }

    /** The links and the marks of the timers spell these two queues. */
    ghost predicate Queues(m: seq<Timer>, f: seq<Timer>)
      reads this`mainQueue, this`fastQueue, all`next, all`prev, all`expires
    {
      Members(m) && Members(f) && Listed(m, f) && Linked(mainQueue, m) && Linked(fastQueue, f)
    }

    ghost predicate Valid()
      reads this`main, this`fast, this`mainQueue, this`fastQueue, all`next, all`prev, all`expires
    {
      Queues(main, fast)
    }

    ghost predicate BackExact()
      requires Members(main) && Members(fast)
      reads this`main, this`fast, all`prev
    {
      BackLinked(InMain, main) && BackLinked(InFast, fast)
    }

    /** Every entry ever added has fired, waits in a queue or was deleted, as often as it was added. */
    ghost predicate Conserved()
      requires Members(main) && Members(fast)
      reads this`main, this`fast, this`fired, this`added, this`deleted, all`expires
    {
      Balanced(Entries(fired), Snap(main), Snap(fast), deleted, added)
    }

    ghost predicate Queued(t: Timer)
      reads this`main, this`fast
    {
      t in main || t in fast
    }

    /** The state as a value. */
    ghost function Seen(): View
      requires Members(main) && Members(fast)
      reads this`main, this`fast, this`sysUptime, all`expires, all`prev
    {
      View(Snap(main), Snap(fast), sysUptime, BackExact())
    }

    constructor (ghost all: set<Timer>)
      ensures Valid() && this.all == all && main == [] && fast == [] && fired == [] && sysUptime == 0
      ensures BackExact() && Conserved() && added == deleted == multiset{}
    {
      fastQueue, mainQueue, sysUptime := null, null, 0;
      this.all, main, fast, fired := all, [], [], [];
      added, deleted := multiset{}, multiset{};
    }

    method Interrupt()
      requires Valid()
      modifies this`sysUptime
      ensures Valid() && sysUptime == old(sysUptime) + 1
    {
      sysUptime := sysUptime + 1;
    }

    // ---- Adding ----

    /** The assignments of an addition. */
    method Push(timer: Timer)
      requires timer in all && (fastQueue == null || fastQueue in all)
      modifies this`fastQueue, all`next, all`prev
      ensures fastQueue == timer && timer.next == old(fastQueue)
      ensures forall t | t in all && t != timer :: t.next == old(t.next)
      ensures forall t | t in all && t != timer && t != old(fastQueue) :: t.prev == old(t.prev)
      ensures if old(fastQueue) == null then timer.prev == InFast
              else old(fastQueue).prev == Node(timer) && (old(fastQueue) != timer ==> timer.prev == InFast)
    {
      timer.next := fastQueue;
      timer.prev := InFast;
      if fastQueue != null {
        fastQueue.prev := Node(timer);
      }
      fastQueue := timer;
    }

    /** What an addition leaves alone. */
    method PushOn(timer: Timer, ghost m: seq<Timer>, ghost f: seq<Timer>)
      requires timer in all && (fastQueue == null || fastQueue in all) && timer !in m && timer !in f
      requires Members(m) && Members(f)
      modifies this`fastQueue, all`next, all`prev
      ensures fastQueue == timer && timer.next == old(fastQueue)
      ensures forall t | t in all && t != timer :: t.next == old(t.next)
      ensures forall t | t in all && t != timer && t != old(fastQueue) :: t.prev == old(t.prev)
      ensures Linked(mainQueue, m) <==> old(Linked(mainQueue, m))
      ensures Linked(timer.next, f) <==> old(Linked(fastQueue, f))
      ensures old(Queues(m, f)) ==>
                && Marked(m) && (BackLinked(InMain, m) <==> old(BackLinked(InMain, m))) && timer.prev == InFast
                && (f != [] ==> f[0].prev == Node(timer) && Marked(f[1..]))
                && (f != [] ==> (BackLinked(Node(f[0]), f[1..]) <==> old(BackLinked(Node(f[0]), f[1..]))))
    {
      hide Seg, BackLinked, Sorted, Snap, Marked;
      MarkedHead(f);
      if f != [] && Apart(m, f) { ApartIn(m, f, f[0]); }
      Push(timer);
    }

    /**
     * Push a timer on the front of the fast queue. For a timer that is not queued this is all that happens to
     * the queues; one that is queued already leaves links that spell no queues at all.
     */
    method AddTimer(timer: Timer)
      requires Valid() && timer in all
      modifies this`fastQueue, this`fast, this`added, all`next, all`prev
      ensures fast == [timer] + old(fast) && (Valid() <==> !old(Queued(timer)))
      ensures old(Queued(timer)) ==> forall m, f :: !Queues(m, f)
      ensures added == old(added) + multiset{Entry(timer, timer.expires)}
      ensures forall t | t in all && t != timer :: t.next == old(t.next)
      ensures forall t | t in all && t != timer && t != old(fastQueue) :: t.prev == old(t.prev)
      ensures !old(Queued(timer)) ==> Snap(fast) == [Entry(timer, timer.expires)] + old(Snap(fast))
      ensures !old(Queued(timer)) && old(BackExact()) ==> BackExact()
      ensures !old(Queued(timer)) && old(Conserved()) ==> Conserved()
    {
      hide *;
      ghost var was := fast;
      ListedNow();
      QueuedIs(timer);
      BooksAre();
      BacksAre();
      AddReady(timer);
      ghost var again, sm, sf := Queued(timer), Snap(main), Snap(fast);
      PushHere(timer);
      assert Snap(main) == sm && Snap(was) == sf;
      fast := [timer] + was;
      added := added + multiset{Entry(timer, timer.expires)};
      ValidIs();
      if again {
        AddedTwice(timer, was);
      } else {
        Added(timer, was);
        BooksAre();
        BacksAre();
      }
    }

    /** The links after an addition, of an idle timer and of a queued one. */
    method PushHere(timer: Timer)
      requires Valid() && timer in all && Members(main) && Members(fast)
      modifies this`fastQueue, all`next, all`prev
      ensures fastQueue == timer && timer.next == old(fastQueue)
      ensures forall t | t in all && t != timer :: t.next == old(t.next)
      ensures forall t | t in all && t != timer && t != old(fastQueue) :: t.prev == old(t.prev)
      ensures !Queued(timer) ==>
                && Linked(mainQueue, main) && Linked(timer.next, fast) && Marked(main) && timer.prev == InFast
                && (fast != [] ==> fast[0].prev == Node(timer) && Marked(fast[1..]))
      ensures !Queued(timer) && old(BackExact()) ==>
                BackLinked(InMain, main) && (fast == [] || BackLinked(Node(fast[0]), fast[1..]))
      ensures timer in main ==> Seg(main[..IndexOf(main, timer)], timer) && mainQueue == main[0]
      ensures timer in fast ==> Seg(fast[..IndexOf(fast, timer)], timer) && timer.next == fast[0]
    {
      hide *;
      ghost var m, f := if Queued(timer) then [] else main, if Queued(timer) then [] else fast;
      ListedNow();
      QueuedIs(timer);
      BacksAre();
      AddReady(timer);
      PushOn(timer, m, f);
    }

    /** What an addition does not touch. */
    lemma AddReady(timer: Timer)
      requires Valid() && timer in all
      ensures BackLinked(InFast, fast)
         <==> fast == [] || (fast[0].prev == InFast && BackLinked(Node(fast[0]), fast[1..]))
      ensures timer in main ==>
                && Seg(main[..IndexOf(main, timer)], timer) && timer !in main[..IndexOf(main, timer)]
                && mainQueue == main[0]
      ensures timer in fast ==>
                && Seg(fast[..IndexOf(fast, timer)], timer) && timer !in fast[..IndexOf(fast, timer)]
                && fastQueue == fast[0]
      ensures Conserved() ==> Balanced(Entries(fired), Snap(main), [Entry(timer, timer.expires)] + Snap(fast), deleted,
                                       added + multiset{Entry(timer, timer.expires)})
      ensures fastQueue == null || fastQueue in all
      ensures NoDup(main) && NoDup(fast) && Apart(main, fast) && Sorted(Snap(main)) && Members([])
      ensures Linked(mainQueue, main) && Linked(fastQueue, fast)
    {
      hide Seg, BackLinked, Sorted, Snap, Marked, Balanced, Entries;
      BackSplitHead(InFast, fast);
      if timer in main { UpTo(main, timer); }
      if timer in fast { UpTo(fast, timer); }
      if Conserved() {
        BalanceAdd(Entries(fired), Snap(main), Snap(fast), deleted, added, Entry(timer, timer.expires));
      }
    }

    lemma Added(timer: Timer, was: seq<Timer>)
      requires timer in all && timer !in main && timer !in was && fast == [timer] + was && Members(main) && Members(was)
      requires NoDup(main) && NoDup(was) && Apart(main, was) && Marked(main) && Sorted(Snap(main))
      requires Linked(mainQueue, main) && fastQueue == timer && Linked(timer.next, was)
      requires timer.prev == InFast && (was != [] ==> was[0].prev == Node(timer) && Marked(was[1..]))
      ensures Valid() && Members(fast) && Snap(fast) == [Entry(timer, timer.expires)] + Snap(was)
      ensures BackLinked(InFast, fast) <==> was == [] || BackLinked(Node(was[0]), was[1..])
    {
      hide Seg, BackLinked, Sorted, Snap, Marked;
      SegOne(timer, First(was, null));
      SegJoin([timer], was, null);
      BackOne(InFast, timer);
      BackJoin(InFast, [timer], was);
      BackSplitHead(Node(timer), was);
      MarkedHead(was);
      MarkedHead(fast);
      SnapTail(fast);
      assert fast[1..] == was;
    }

    /** A timer pushed while it is queued is met from both heads, or twice from one. */
    lemma AddedTwice(timer: Timer, was: seq<Timer>)
      requires fastQueue == timer && (timer in main || timer in was)
      requires timer in main ==> Seg(main[..IndexOf(main, timer)], timer) && mainQueue == main[0]
      requires timer in was ==> Seg(was[..IndexOf(was, timer)], timer) && timer.next == was[0]
      ensures forall m, f :: !Queues(m, f)
    {
      hide Seg, Sorted, Snap, Marked;
      forall m: seq<Timer>, f: seq<Timer> ensures !Queues(m, f) {
        if Queues(m, f) {
          if timer in main {
            var k := IndexOf(main, timer);
            var s := main[..k] + [timer];
            assert s[..k] == main[..k] && s[0] == main[0];
            PathIsPrefix(m, s, k);
            ApartIn(m, f, timer);
          } else {
            var k := IndexOf(was, timer);
            var s := [timer] + was[..k] + [timer];
            assert s[..k + 1] == [timer] + was[..k];
            SegOne(timer, First(was[..k], timer));
            SegJoin([timer], was[..k], timer);
            PathIsPrefix(f, s, k + 1);
          }
        }
      }
    }

    // ---- A pass ----

    /** The timers around slot `k` of the main queue. */
    ghost predicate IsSlot(k: nat, previous: Timer?, current: Timer?)
      reads this`main
    {
      && k <= |main|
      && previous == (if k == 0 then null else main[k - 1])
      && current == First(main[k..], null)
    }

    /** Walk past the timers that expire before `expires`. */
    method FindSlot(expires: int) returns (previous: Timer?, current: Timer?, ghost k: nat)
      requires Members(main) && Linked(mainQueue, main)
      ensures IsSlot(k, previous, current) && SlotFor(main, expires, k)
    {
      previous, current, k := null, mainQueue, 0;
      while current != null && current.expires < expires
        invariant IsSlot(k, previous, current)
        invariant forall i | 0 <= i < k :: main[i].expires < expires
        decreases |main| - k
      {
        assert main[k].next == After(main, k, null);
        previous := current;
        current := current.next;
        k := k + 1;
      }
    }

    /** Splice a timer into slot `k`. */
    method InsertTimer(t: Timer, previous: Timer?, current: Timer?, ghost k: nat)
      requires Members(main) && NoDup(main) && Linked(mainQueue, main) && IsSlot(k, previous, current)
      requires t in all && t !in main && Marked(main)
      modifies this`mainQueue, this`main, all`next, all`prev
      ensures main == old(main[..k] + [t] + main[k..]) && Linked(mainQueue, main)
      ensures forall u | u in all && u != t && u !in old(main) :: u.next == old(u.next) && u.prev == old(u.prev)
      ensures Marked(main)
      ensures old(BackLinked(InMain, main)) ==> BackLinked(InMain, main)
    {
      hide Seg, BackLinked, LastLink, Marked;
      ghost var a, b := main[..k], main[k..];
      CutMarked(main, k);
      assert k > 0 ==> a[..k - 1] == main[..k - 1];
      assert k < |main| ==> b[1..] == main[k + 1..];
      CutSeg(main, k);
      CutBack(InMain, main, k);
      if previous == null {
        mainQueue := t;
        t.prev := InMain;
        mainQueue.next := current;
        if current != null { current.prev := Node(t); }
      } else {
        previous.next := t;
        t.prev := Node(previous);
        previous.next.next := current;
        if current != null { current.prev := Node(previous.next); }
      }
      main := a + [t] + b;
      SpliceSeg(a, t, b);
      SpliceBack(InMain, a, t, b);
      SpliceMarked(a, t, b);
    }

    /** In the middle of a merge: `rest`, linked from `f`, is still to be moved. */
    ghost predicate Merging(f: Timer?, rest: seq<Timer>)
      reads this`mainQueue, this`main, all`next, all`prev
    {
      && Members(main) && NoDup(main) && Linked(mainQueue, main)
      && Members(rest) && NoDup(rest) && Linked(f, rest) && Apart(main, rest)
      && Marked(main)
    }

    /** Move one timer to its place and step to the next. */
    method MergeOne(f: Timer, ghost rest: seq<Timer>) returns (next: Timer?)
      requires Merging(f, rest) && rest != []
      modifies this`mainQueue, this`main, all`next, all`prev
      ensures Merging(next, rest[1..])
      ensures MergeBatch(Snap(main), Snap(rest[1..])) == MergeBatch(old(Snap(main)), Snap(rest))
      ensures forall t | t in all && t !in main :: t !in old(main) && t != f && t.prev == old(t.prev)
      ensures old(BackLinked(InMain, main)) ==> BackLinked(InMain, main)
    {
      hide *;
      ghost var was, tail := main, rest[1..];
      MergeReady(f, rest);
      var previous, current, k := FindSlot(f.expires);
      SlotWithin(k, previous, current);
      SnapInsert(main, f, k, rest);
      next := f.next;
      ghost var sm, st := Snap(was[..k] + [f] + was[k..]), Snap(tail);
      SpliceDistinct(was, f, k, tail);
      SpliceMembers(was, f, k);
      InsertTimer(f, previous, current, k);
      assert Snap(main) == sm && Snap(tail) == st;
      MergeDone(next, tail);
    }

    lemma SpliceMembers(s: seq<Timer>, t: Timer, k: nat)
      requires Members(s) && t in all && k <= |s|
      ensures Members(s[..k] + [t] + s[k..])
    {
    }

    lemma SlotWithin(k: nat, previous: Timer?, current: Timer?)
      requires IsSlot(k, previous, current)
      ensures k <= |main|
    {
    }

    lemma MergeReady(f: Timer, rest: seq<Timer>)
      requires Merging(f, rest) && rest != []
      ensures rest[0] == f && f in all && f !in main && f !in rest[1..]
      ensures Members(main) && NoDup(main) && Linked(mainQueue, main) && Marked(main)
      ensures Members(rest[1..]) && NoDup(rest[1..]) && Apart(main, rest[1..])
      ensures Seg(rest[1..], null) && f.next == First(rest[1..], null)
      ensures forall u | u in rest[1..] :: u != f && u !in main && u in all
    {
      hide Seg, NoDup, Apart, Marked;
      HeadApart(main, rest);
      assert rest == [f] + rest[1..];
      SegJoin([f], rest[1..], null);
      SegOne(f, First(rest[1..], null));
      TailOutside(main, f, rest[1..]);
    }

    lemma MergeDone(next: Timer?, tail: seq<Timer>)
      requires Members(main) && NoDup(main) && Linked(mainQueue, main) && Marked(main)
      requires Members(tail) && NoDup(tail) && Apart(main, tail) && Seg(tail, null) && next == First(tail, null)
      ensures Merging(next, tail)
    {
      hide Seg, NoDup, Apart, Marked;
    }

    /** Move every timer of the fast queue to its place in the main queue, the latest addition first. */
    method MergeFast()
      requires Valid()
      modifies this`fastQueue, this`mainQueue, this`main, this`fast, all`next, all`prev
      ensures Valid() && fast == [] && Snap(main) == MergeBatch(old(Snap(main)), old(Snap(fast)))
      ensures forall t | t in all && t !in main :: t.prev == old(t.prev)
      ensures old(BackLinked(InMain, main)) ==> BackLinked(InMain, main)
    {
      hide *;
      ghost var goal := MergeBatch(Snap(main), Snap(fast));
      ListedNow();
      AllMerging();
      MergeSorts(Snap(main), Snap(fast));
      var f := fastQueue;
      fastQueue := null;
      ghost var rest := fast;
      fast := [];
      while f != null
        invariant fast == [] && fastQueue == null && Merging(f, rest)
        invariant MergeBatch(Snap(main), Snap(rest)) == goal
        invariant forall t | t in all && t !in main :: t.prev == old(t.prev)
        invariant old(BackLinked(InMain, main)) ==> BackLinked(InMain, main)
        decreases |rest|
      {
        MergingIs(f, rest);
        f := MergeOne(f, rest);
        rest := rest[1..];
      }
      MergingIs(f, rest);
      SnapEmpty();
      MergeNone(Snap(main));
      AllMerged();
    }

    lemma AllMerging()
      requires Valid()
      ensures Merging(fastQueue, fast) && Sorted(Snap(main))
    {
      hide Seg, Marked, NoDup, Apart, Sorted, Snap;
    }

    lemma MergingIs(f: Timer?, rest: seq<Timer>)
      requires Merging(f, rest)
      ensures f == null <==> rest == []
    {
      hide Seg, Marked, NoDup, Apart;
    }

    lemma AllMerged()
      requires Merging(null, []) && Sorted(Snap(main)) && fastQueue == null && fast == []
      ensures Valid()
    {
      hide Seg, Sorted, Snap, Marked;
      MarkedHead([]);
    }

    /** Take the head off the main queue; it becomes idle. */
    method PopHead() returns (current: Timer)
      requires Valid() && main != []
      modifies this`mainQueue, this`main, all`next, all`prev
      ensures Valid() && current == old(main[0]) && main == old(main[1..])
      ensures current.prev == Null && current.next == null
      ensures old(BackLinked(InMain, main)) ==> BackLinked(InMain, main)
      ensures old(BackLinked(InFast, fast)) ==> BackLinked(InFast, fast)
    {
      hide Seg, BackLinked, Sorted, Snap, Marked, NoDup, Apart;
      ghost var was, tail := main, main[1..];
      assert was == [was[0]] + tail;
      HeadGone(was, fast);
      SegJoin([was[0]], tail, null);
      SegOne(was[0], First(tail, null));
      MarkedHead(was);
      MarkedHead(tail);
      BackSplitHead(InMain, was);
      BackSplitHead(Node(was[0]), tail);
      SnapTail(was);
      SortedTail(Snap(was));
      current := mainQueue;
      mainQueue := mainQueue.next;
      current.prev := Null;
      current.next := null;
      if mainQueue != null {
        mainQueue.prev := InMain;
      }
      main := tail;
      MarkedHead(tail);
      BackSplitHead(InMain, tail);
    }

    // ---- Removal ----

    /** A queued timer whose back link is right. */
    ghost predicate Clean(t: Timer)
      reads this`main, this`fast, t`prev
    {
      || (t in main && t.prev == Before(InMain, main, IndexOf(main, t)))
      || (t in fast && t.prev == Before(InFast, fast, IndexOf(fast, t)))
    }

    /** Deleting the timer writes nothing that a queue depends on, or only what is there already. */
    ghost predicate Harmless(t: Timer)
      reads this`main, this`fast, this`mainQueue, this`fastQueue, t`prev, t`next, all`next
    {
      match t.prev
      case Null => true
      case InMain => t.next == mainQueue
      case InFast => t.next == fastQueue
      case Node(u) => u in all ==> (u !in main && u !in fast) || u.next == t.next
    }

    /** Deletion takes this timer out: a queued one by a right back link, any other by doing no harm. */
    ghost predicate Removable(t: Timer)
      reads this`main, this`fast, this`mainQueue, this`fastQueue, t`prev, t`next, all`next
    {
      if Queued(t) then Clean(t) else Harmless(t)
    }

    /** The timer's own links lead to timers of the program. */
    ghost predicate Inside(t: Timer)
      reads t`prev, t`next
    {
      t in all && (t.next == null || t.next in all) && (t.prev.Node? ==> t.prev.timer in all)
    }

    /** What is left to show once the marks are known to be right. */
    lemma ByLinks(t: Timer)
      requires Members(main) && Members(fast) && Listed(main, fast)
      ensures Queues(Without(main, t), Without(fast, t))
         <==> Linked(mainQueue, Without(main, t)) && Linked(fastQueue, Without(fast, t))
      ensures Queues(main, fast) <==> Linked(mainQueue, main) && Linked(fastQueue, fast)
      ensures t !in Without(main, t) && t !in Without(fast, t)
    {
      hide Linked, Listed;
      ListedWithout(main, fast, t);
      WithoutIn(main, t);
      WithoutIn(fast, t);
    }

    /** The main queue is said to begin behind this timer. */
    method DropMainHead(timer: Timer)
      requires Valid() && Inside(timer) && timer.prev == InMain
      modifies this`mainQueue, all`prev
      ensures Queues(Without(main, timer), Without(fast, timer)) <==> old(Removable(timer))
      ensures Listed(main, fast)
      ensures Valid() <==> old(Harmless(timer))
      ensures mainQueue == timer.next && timer.prev == old(timer.prev)
      ensures forall t | t in all && t != mainQueue :: t.prev == old(t.prev)
      ensures mainQueue != null ==> mainQueue.prev == InMain
    {
      hide Seg, Sorted, Snap, Marked, NoDup, Apart, Without;
      HeadMoved(main, timer);
      HeadStays(fastQueue, fast, timer);
      ApartIn(main, fast, timer);
      WithoutOutside(main, timer);
      MarkedBut(main, timer.next);
      MarkedBut(fast, timer.next);
      mainQueue := timer.next;
      if mainQueue != null {
        mainQueue.prev := InMain;
      }
      MarkedAll(main, timer.next);
      MarkedAll(fast, timer.next);
      ByLinks(timer);
    }

    method DropFastHead(timer: Timer)
      requires Valid() && Inside(timer) && timer.prev == InFast
      modifies this`fastQueue, all`prev
      ensures Queues(Without(main, timer), Without(fast, timer)) <==> old(Removable(timer))
      ensures Listed(main, fast)
      ensures Valid() <==> old(Harmless(timer))
      ensures fastQueue == timer.next && timer.prev == old(timer.prev)
      ensures forall t | t in all && t != fastQueue :: t.prev == old(t.prev)
      ensures fastQueue != null ==> fastQueue.prev == InFast
    {
      hide Seg, Sorted, Snap, Marked, NoDup, Apart, Without;
      HeadMoved(fast, timer);
      HeadStays(mainQueue, main, timer);
      ApartIn(main, fast, timer);
      WithoutOutside(fast, timer);
      MarkedBut(main, timer.next);
      MarkedBut(fast, timer.next);
      fastQueue := timer.next;
      if fastQueue != null {
        fastQueue.prev := InFast;
      }
      MarkedAll(main, timer.next);
      MarkedAll(fast, timer.next);
      ByLinks(timer);
    }

    /** Make the timer before skip this one; the timer after is not told. */
    method Bypass(timer: Timer)
      requires Valid() && Inside(timer) && timer.prev.Node?
      modifies all`next
      ensures Queues(Without(main, timer), Without(fast, timer)) <==> old(Removable(timer))
      ensures Listed(main, fast)
      ensures Valid() <==> old(Harmless(timer))
      ensures forall t | t in all :: t.next == if timer.prev == Node(t) then old(timer.next) else old(t.next)
    {
      hide Seg, Sorted, Snap, Marked, NoDup, Apart, Without, LinkedBut;
      ghost var u := timer.prev.timer;
      LinkedButOne(mainQueue, main, u);
      LinkedButOne(fastQueue, fast, u);
      if timer in main { NextAfter(main, timer); }
      if timer in fast { NextAfter(fast, timer); }
      if u in main { NextAfter(main, u); }
      if u in fast { NextAfter(fast, u); }
      ApartIn(main, fast, timer);
      ApartIn(main, fast, u);
      timer.prev.timer.next := timer.next;
      SkippedIff(mainQueue, main, timer, u);
      SkippedIff(fastQueue, fast, timer, u);
      WithoutOutside(main, timer);
      WithoutOutside(fast, timer);
      ByLinks(timer);
    }

    /** The assignments of a deletion. */
    method Unlink(timer: Timer)
      requires Valid() && Inside(timer)
      modifies this`mainQueue, this`fastQueue, all`next, all`prev
      ensures Queues(Without(main, timer), Without(fast, timer)) <==> old(Removable(timer))
      ensures Listed(main, fast)
      ensures Valid() <==> old(Harmless(timer))
      ensures forall t | t in all :: t.next == if old(timer.prev) == Node(t) then old(timer.next) else old(t.next)
      ensures forall t | t in all && t != old(timer.next) :: t.prev == old(t.prev)
      ensures timer.prev == old(timer.prev)
      ensures old(timer.next) != null ==>
                timer.next.prev
                == if timer.prev == InMain || timer.prev == InFast then timer.prev else old(timer.next.prev)
      ensures mainQueue == if timer.prev == InMain then timer.next else old(mainQueue)
      ensures fastQueue == if timer.prev == InFast then timer.next else old(fastQueue)
      ensures timer.next == old(timer.next)
    {
      hide Queues, Without, Clean, Removable;
      if timer.prev == InMain {
        DropMainHead(timer);
      } else if timer.prev == InFast {
        DropFastHead(timer);
      } else if timer.prev != Null {
        Bypass(timer);
      } else {
        NothingDone(timer);
      }
    }

    lemma NothingDone(timer: Timer)
      requires Valid() && timer.prev == Null
      ensures Queues(Without(main, timer), Without(fast, timer)) && Listed(main, fast)
      ensures Removable(timer) && Harmless(timer)
    {
      hide Seg, Sorted, Snap, NoDup, Apart, Without;
      IdleOutside(timer, main);
      IdleOutside(timer, fast);
      WithoutOutside(main, timer);
      WithoutOutside(fast, timer);
    }

    /**
     * Delete a timer, queued or not, in any state. It is out of its queue, and the rest is as before, exactly if
     * it was removable; the queues are just as before exactly if the deletion was harmless. Its own links stay.
     */
    method DelTimer(timer: Timer)
      requires Valid() && Inside(timer)
      modifies this`mainQueue, this`fastQueue, this`main, this`fast, this`deleted, all`next, all`prev
      ensures Queues(Without(old(main), timer), Without(old(fast), timer)) <==> old(Removable(timer))
      ensures Queues(old(main), old(fast)) <==> old(Harmless(timer))
      ensures Listed(old(main), old(fast))
      ensures main == if old(Removable(timer)) then Without(old(main), timer) else old(main)
      ensures fast == if old(Removable(timer)) then Without(old(fast), timer) else old(fast)
      ensures old(Removable(timer) && BackExact()) ==>
                (BackExact() <==> !Inner(old(main), timer) && !Inner(old(fast), timer))
      ensures old(Removable(timer) && Conserved()) ==> Conserved()
      ensures deleted == Noted(old(deleted), Entry(timer, timer.expires), old(Clean(timer)))
      ensures forall t | t in all :: t.next == if old(timer.prev) == Node(t) then old(timer.next) else old(t.next)
      ensures old(timer.prev.Node?) ==> forall t | t in all :: t.prev == old(t.prev)
      ensures old(timer.prev.Node?) ==> mainQueue == old(mainQueue) && fastQueue == old(fastQueue)
      ensures (fastQueue == null || fastQueue in all) && timer.prev == old(timer.prev)
      ensures old(Removable(timer) && BackExact()) && fast != [] ==> fast[0].prev == InFast
    {
      hide *;
      ghost var m, f, out, clean := main, fast, Removable(timer), Clean(timer);
      MembersOf(timer);
      DelAccounts(timer);
      ghost var sm, sf, e := Snap(Without(m, timer)), Snap(Without(f, timer)), Entry(timer, timer.expires);
      ghost var right := Balanced(Entries(fired), sm, sf, Noted(deleted, e, clean), added);
      UnlinkBack(timer);
      assert Snap(Without(m, timer)) == sm && Snap(Without(f, timer)) == sf;
      deleted := Noted(deleted, Entry(timer, timer.expires), clean);
      if out {
        main, fast := Without(m, timer), Without(f, timer);
      }
      BooksAre();
      BacksAre();
    }

    lemma MembersOf(t: Timer)
      requires Valid()
      ensures Members(main) && Members(fast) && Members(Without(main, t)) && Members(Without(fast, t))
      ensures Valid() <==> Queues(main, fast)
    {
      hide Seg, Sorted, Snap, Marked, NoDup, Apart, Without;
      WithoutIn(main, t);
      WithoutIn(fast, t);
    }

    lemma BooksAre()
      requires Members(main) && Members(fast)
      ensures Conserved() <==> Balanced(Entries(fired), Snap(main), Snap(fast), deleted, added)
    {
    }

    lemma BacksAre()
      requires Members(main) && Members(fast)
      ensures BackExact() <==> BackLinked(InMain, main) && BackLinked(InFast, fast)
    {
    }

    /** What becomes of the back links. */
    method UnlinkBack(timer: Timer)
      requires Valid() && Inside(timer) && Members(main) && Members(fast)
      modifies this`mainQueue, this`fastQueue, all`next, all`prev
      ensures Queues(Without(main, timer), Without(fast, timer)) <==> old(Removable(timer))
      ensures Listed(main, fast)
      ensures Queues(main, fast) <==> old(Harmless(timer))
      ensures forall t | t in all :: t.next == if old(timer.prev) == Node(t) then old(timer.next) else old(t.next)
      ensures old(timer.prev.Node?) ==> forall t | t in all :: t.prev == old(t.prev)
      ensures old(timer.prev.Node?) ==> mainQueue == old(mainQueue) && fastQueue == old(fastQueue)
      ensures fastQueue == null || fastQueue in all
      ensures timer.prev == old(timer.prev)
      ensures old(Removable(timer) && BackExact()) ==>
                (BackLinked(InMain, Without(main, timer)) && BackLinked(InFast, Without(fast, timer))
                 <==> !Inner(main, timer) && !Inner(fast, timer))
      ensures old(Removable(timer) && BackExact()) && Without(fast, timer) != [] ==>
                Without(fast, timer)[0].prev == InFast
    {
      hide Seg, Sorted, Snap, Marked, NoDup, Apart, Without, BackLinked, Harmless, Inner, Removable;
      hide NextIn, NextOut, BackBut;
      ghost var x, check := timer.next, Removable(timer) && BackExact();
      ghost var xp := if x == null then Node(timer) else x.prev;
      if check {
        BacksReady(timer);
        NextStep(InMain, InFast, main, timer, timer.prev, x, xp);
        NextStep(InFast, InMain, fast, timer, timer.prev, x, xp);
      }
      Unlink(timer);
      if check { BacksDone(timer, x); }
    }

    /** What the books say once the timer is out. */
    lemma DelAccounts(timer: Timer)
      requires Valid()
      ensures Conserved() && Removable(timer) ==>
                Balanced(Entries(fired), Snap(Without(main, timer)), Snap(Without(fast, timer)),
                         Noted(deleted, Entry(timer, timer.expires), Clean(timer)), added)
    {
      hide Seg, Sorted, Snap, Marked, NoDup, Balanced, Entries, Harmless;
      ApartIn(main, fast, timer);
      WithoutOutside(main, timer);
      WithoutOutside(fast, timer);
      if timer in main {
        SnapWithout(main, timer);
        var k := IndexOf(main, timer);
        BalanceDelete(Entries(fired), Snap(main[..k]), Entry(timer, timer.expires), Snap(main[k + 1..]), Snap(fast),
                      deleted, added);
      } else if timer in fast {
        SnapWithout(fast, timer);
        var k := IndexOf(fast, timer);
        BalanceDelete(Entries(fired), Snap(fast[..k]), Entry(timer, timer.expires), Snap(fast[k + 1..]), Snap(main),
                      deleted, added);
      }
    }

    lemma BacksReady(timer: Timer)
      requires Valid() && BackExact() && Removable(timer)
      ensures BackBut(InMain, Without(main, timer), timer.next) && BackBut(InFast, Without(fast, timer), timer.next)
      ensures var x, xp := timer.next, if timer.next == null then Node(timer) else timer.next.prev;
        NextIn(InMain, InFast, main, timer, timer.prev, x, xp) && NextIn(InFast, InMain, fast, timer, timer.prev, x, xp)
    {
      hide Seg, Sorted, Snap, Marked, Without, BackBut;
      BackButNext(InMain, main, timer);
      BackButNext(InFast, fast, timer);
    }

    lemma BacksDone(timer: Timer, x: Timer?)
      requires Members(main) && Members(fast) && NoDup(main) && NoDup(fast) && Apart(main, fast)
      requires BackBut(InMain, Without(main, timer), x) && BackBut(InFast, Without(fast, timer), x)
      requires var xp := if x == null then Null else x.prev;
        NextOut(InMain, main, timer, timer.prev, x, xp) && NextOut(InFast, fast, timer, timer.prev, x, xp)
      ensures BackLinked(InMain, Without(main, timer)) && BackLinked(InFast, Without(fast, timer))
         <==> !Inner(main, timer) && !Inner(fast, timer)
      ensures Without(fast, timer) != [] ==> Without(fast, timer)[0].prev == InFast
    {
      hide Without, BackBut, BackLinked, NoDup, Apart;
      HeadBack(InFast, fast, timer, x);
      BackAfter(InMain, main, timer, x);
      BackAfter(InFast, fast, timer, x);
      if timer in main { OneBefore(main, timer); }
      if timer in fast { OneBefore(fast, timer); }
    }

    /**
     * Re-queue a timer with a new expiry time. It is out of whichever queue it was in and on the front of the fast
     * one, with the new time, and the queues are in order, exactly if it was removable.
     */
    method ModTimer(timer: Timer, expires: int)
      requires Valid() && Inside(timer)
      modifies this`mainQueue, this`fastQueue, this`main, this`fast, this`added, this`deleted,
               all`next, all`prev, timer`expires
      ensures main == Without(old(main), timer) && fast == [timer] + Without(old(fast), timer)
      ensures timer.expires == expires && (Valid() <==> old(Removable(timer)))
      ensures timer !in main && timer !in fast[1..]
      ensures old(Removable(timer) && BackExact()) ==>
                (BackExact() <==> !Inner(old(main), timer) && !Inner(old(fast), timer))
      ensures old(Removable(timer) && Conserved()) ==> Conserved()
      ensures deleted == Noted(old(deleted), Entry(timer, old(timer.expires)), old(Clean(timer)))
      ensures added == old(added) + multiset{Entry(timer, expires)}
      ensures Snap(main) == old(Snap(Without(main, timer)))
      ensures Snap(fast) == [Entry(timer, expires)] + old(Snap(Without(fast, timer)))
      ensures old(timer.prev.Node?) ==>
                forall t | t in all && t != timer && t != old(fastQueue) :: t.prev == old(t.prev)
    {
      hide *;
      ghost var m, f, out := Without(main, timer), Without(fast, timer), Removable(timer);
      MembersOf(timer);
      OutOf(timer);
      ghost var m0, f0, exact := main, fast, BackExact();
      ghost var sm, sf := Snap(m), Snap(f);
      DelTimer(timer);
      assert Snap(m) == sm && Snap(f) == sf;
      ListedWithout(m0, f0, timer);
      if out {
        BacksAre();
        BooksAre();
      }
      assert out && exact ==>
          && (BackLinked(InMain, m) && BackLinked(InFast, f) <==> !Inner(m0, timer) && !Inner(f0, timer))
          && (f != [] ==> f[0].prev == InFast);
      Readd(timer, expires, m, f, out);
      NotBehind(timer, f);
    }

    /** Set the new time of a timer that has been taken out, and add it again. */
    method Readd(timer: Timer, expires: int, ghost m: seq<Timer>, ghost f: seq<Timer>, ghost out: bool)
      requires timer in all && (fastQueue == null || fastQueue in all) && timer !in m && timer !in f
      requires Members(m) && Members(f) && Listed(m, f) && (Queues(m, f) <==> out)
      requires out ==> main == m && fast == f
      modifies this`fastQueue, this`main, this`fast, this`added, all`next, all`prev, timer`expires
      ensures main == m && fast == [timer] + f && timer.expires == expires && (Valid() <==> out)
      ensures added == old(added) + multiset{Entry(timer, expires)}
      ensures forall t | t in all && t != timer && t != old(fastQueue) :: t.prev == old(t.prev)
      ensures Members(main) && Members(fast)
      ensures Snap(main) == old(Snap(m)) && Snap(fast) == [Entry(timer, expires)] + old(Snap(f))
      ensures out && old(f != [] ==> f[0].prev == InFast) ==>
                (BackExact() <==> old(BackLinked(InMain, m) && BackLinked(InFast, f)))
      ensures old(Balanced(Entries(fired), Snap(m), Snap(f), deleted, added)) ==> Conserved()
    {
      hide *;
      ghost var books, sharp := Balanced(Entries(fired), Snap(m), Snap(f), deleted, added),
          BackLinked(InMain, m) && BackLinked(InFast, f);
      Retime(timer, expires, m, f);
      assert sharp <==> BackLinked(InMain, m) && BackLinked(InFast, f);
      if books { BalanceAdd(Entries(fired), Snap(m), Snap(f), deleted, added, Entry(timer, expires)); }
      Requeue(timer, m, f, out);
      BooksAre();
    }

    lemma NotBehind(timer: Timer, f: seq<Timer>)
      requires fast == [timer] + f && timer !in f
      ensures timer !in fast[1..]
    {
      assert fast[1..] == f;
    }

    /** A timer that is not queued may be given another time. */
    method Retime(timer: Timer, expires: int, ghost m: seq<Timer>, ghost f: seq<Timer>)
      requires timer in all && timer !in m && timer !in f && Members(m) && Members(f) && Listed(m, f)
      modifies timer`expires
      ensures timer.expires == expires && Listed(m, f) && (Queues(m, f) <==> old(Queues(m, f)))
      ensures Snap(m) == old(Snap(m)) && Snap(f) == old(Snap(f))
    {
      hide Seg, Sorted, Snap, Marked, NoDup, Apart;
      timer.expires := expires;
    }

    lemma OutOf(t: Timer)
      requires Valid()
      ensures t !in Without(main, t) && t !in Without(fast, t) && (Inside(t) ==> t in all)
    {
      hide Seg, Sorted, Snap, Marked, NoDup, Apart, Without;
      ByLinks(t);
    }

    /** The addition that follows a deletion, which may or may not have left queues. */
    method Requeue(timer: Timer, ghost m: seq<Timer>, ghost f: seq<Timer>, ghost out: bool)
      requires timer in all && (fastQueue == null || fastQueue in all) && timer !in m && timer !in f
      requires Members(m) && Members(f) && Listed(m, f) && (Queues(m, f) <==> out)
      requires out ==> main == m && fast == f
      modifies this`fastQueue, this`main, this`fast, this`added, all`next, all`prev
      ensures main == m && fast == [timer] + f && (Valid() <==> out)
      ensures added == old(added) + multiset{Entry(timer, timer.expires)}
      ensures forall t | t in all && t != timer && t != old(fastQueue) :: t.prev == old(t.prev)
      ensures Members(main) && Members(fast)
      ensures Snap(main) == old(Snap(m)) && Snap(fast) == [Entry(timer, timer.expires)] + old(Snap(f))
      ensures out && old(f != [] ==> f[0].prev == InFast) ==>
                (BackExact() <==> old(BackLinked(InMain, m) && BackLinked(InFast, f)))
    {
      hide *;
      BackSplitHead(InFast, f);
      ListIs(m, f);
      ghost var sm, sf := Snap(m), Snap(f);
      PushOn(timer, m, f);
      assert Snap(m) == sm && Snap(f) == sf;
      main, fast := m, [timer] + f;
      added := added + multiset{Entry(timer, timer.expires)};
      Pushed(timer, f);
      BacksAre();
      if out {
        Added(timer, f);
      } else {
        NotAdded(timer, f);
      }
    }

    lemma ListIs(m: seq<Timer>, f: seq<Timer>)
      requires Members(m) && Members(f) && Listed(m, f)
      ensures NoDup(m) && NoDup(f) && Apart(m, f) && Sorted(Snap(m))
      ensures Queues(m, f) <==> Linked(mainQueue, m) && Linked(fastQueue, f)
    {
      hide Linked, NoDup, Apart, Sorted, Snap, Marked;
    }

    lemma Pushed(timer: Timer, f: seq<Timer>)
      requires fast == [timer] + f && timer in all && Members(f)
      ensures Members(fast) && Snap(fast) == [Entry(timer, timer.expires)] + Snap(f)
    {
      hide Snap;
      SnapTail(fast);
      assert fast[1..] == f;
    }

    lemma NotAdded(timer: Timer, f: seq<Timer>)
      requires fastQueue == timer && !(Linked(mainQueue, main) && Linked(timer.next, f)) && fast == [timer] + f
      ensures !Valid()
    {
      hide Seg, Sorted, Snap, Marked, NoDup, Apart;
      SegOne(timer, First(f, null));
      SegJoin([timer], f, null);
    }

    // ---- What a stale back link does ----

    /** Where two neighbours inside the main queue stand when the back links are exact. */
    lemma Neighbours(k: nat)
      requires Valid() && BackExact() && 0 < k && k + 1 < |main|
      ensures Clean(main[k]) && Removable(main[k]) && Inside(main[k]) && Inside(main[k + 1])
      ensures main[k].prev.Node? && main[k + 1].prev == Node(main[k])
      ensures Without(main, main[k]) == main[..k] + main[k + 1..] && Without(fast, main[k]) == fast
      ensures main[k] !in main[..k] + main[k + 1..] && main[k] !in fast
      ensures main[k + 1] != main[k] && main[k + 1] !in fast
      ensures main[k] in all && main[k + 1] in all && main[k + 1] != fastQueue && main[k] != main[k - 1]
    {
      hide Sorted, Snap, Marked;
      IndexIs(main, k);
      ApartIn(main, fast, main[k]);
      ApartIn(main, fast, main[k + 1]);
      assert main[k + 1].prev == Before(InMain, main, k + 1);
      assert main[k].next == After(main, k, null) && main[k + 1].next == After(main, k + 1, null);
      assert main[k] in main;
      WithoutDistinct(main, main[k]);
    }

    /** A queued timer with a stale back link is not removable. */
    lemma StaleAt(t: Timer, k: nat)
      requires Valid() && 0 < k < |main| && main[k] == t && t.prev.Node? && t.prev.timer != main[k - 1]
      ensures Queued(t) && !Clean(t) && !Removable(t) && t !in fast
      ensures t.next == if k + 1 < |main| then main[k + 1] else null
    {
      hide Sorted, Snap, Marked;
      IndexIs(main, k);
      ApartIn(main, fast, t);
    }

    /**
     * Deleting two neighbours in a row from inside the main queue loses the second deletion: its back
     * link still names the first one, so the timer stays queued.
     */
    method DeleteNeighbours(first: Timer, second: Timer, ghost k: nat)
      requires Valid() && BackExact() && 0 < k && k + 1 < |main| && main[k] == first && main[k + 1] == second
      modifies this`mainQueue, this`fastQueue, this`main, this`fast, this`deleted, all`next, all`prev
      ensures Valid() && main == old(main[..k] + main[k + 1..]) && main[k] == second
    {
      hide *;
      Neighbours(k);
      ghost var before := main[k - 1];
      DelTimer(first);
      ValidIs();
      assert main[k] == second && main[k - 1] == before;
      StillInside(second, k);
      StaleAt(second, k);
      StaleHarmless(second);
      DelTimer(second);
      ValidIs();
    }

    lemma StillInside(t: Timer, k: nat)
      requires Valid() && k < |main| && main[k] == t && t.prev.Node? && t.prev.timer in all
      ensures Inside(t)
    {
      hide Sorted, Snap, Marked;
    }

    lemma StaleHarmless(t: Timer)
      requires t.prev.Node? && t.prev.timer !in main && t.prev.timer !in fast
      ensures Harmless(t)
    {
    }

    lemma ValidIs()
      ensures Valid() <==> Queues(main, fast)
    {
    }

    /**
     * Re-queueing a timer from inside the main queue and then deleting the next one leaves links that spell no
     * queues: the fast queue runs on into the main one.
     */
    method ModThenDelete(first: Timer, second: Timer, expires: int, ghost k: nat)
      requires Valid() && BackExact() && 0 < k && k + 2 < |main| && main[k] == first && main[k + 1] == second
      modifies this`mainQueue, this`fastQueue, this`main, this`fast, this`added, this`deleted,
               all`next, all`prev, first`expires
      ensures forall m, f :: !Queues(m, f)
    {
      hide *;
      Neighbours(k);
      ghost var before, third := main[k - 1], main[k + 2];
      ModTimer(first, expires);
      assert main[k] == second && main[k - 1] == before && main[k + 1] == third;
      StillInside(second, k);
      StaleAt(second, k);
      LinksNow(first);
      DelTimer(second);
      Tangled(first, third);
    }

    lemma LinksNow(first: Timer)
      requires Valid() && fast != [] && fast[0] == first
      ensures Linked(mainQueue, main) && fastQueue == first && forall t | t in main :: t in all && t != first
    {
      hide Sorted, Snap, Marked;
    }

    lemma Tangled(first: Timer, third: Timer)
      requires Linked(mainQueue, main) && third in main && fastQueue == first && first.next == third
      ensures forall m, f :: !Queues(m, f)
    {
      hide Sorted, Snap, Marked, NoDup, Apart, Linked;
      forall m: seq<Timer>, f: seq<Timer> ensures !Queues(m, f) {
        if Queues(m, f) {
          OneList(mainQueue, main, m);
          SecondIs(fastQueue, f);
          ApartIn(m, f, third);
        }
      }
    }

    // ---- Callbacks ----

    /** Whether a timer is queued, and whether its back link is right. */
    method Standing(t: Timer) returns (queued: bool, clean: bool)
      requires Valid() && t in all
      ensures (queued <==> Queued(t)) && (clean <==> Clean(t))
    {
      hide Seg, Sorted, Snap, Marked, NoDup, Apart;
      ApartIn(main, fast, t);
      var inMain, cleanMain := Seek(mainQueue, InMain, t, main);
      var inFast, cleanFast := Seek(fastQueue, InFast, t, fast);
      queued, clean := inMain || inFast, cleanMain || cleanFast;
    }

    lemma CleanInside(t: Timer)
      requires Valid() && t in all && Clean(t)
      ensures Inside(t) && Removable(t) && Queued(t)
    {
      hide Sorted, Snap, Marked, NoDup, Apart;
    }

    lemma QueuedIs(t: Timer)
      ensures Queued(t) <==> t in main || t in fast
    {
    }

    lemma ListedNow()
      requires Valid()
      ensures Listed(main, fast) && Queues(main, fast) && Members(main) && Members(fast)
      ensures NoDup(main) && NoDup(fast)
    {
    }

    lemma SeenIs()
      requires Members(main) && Members(fast)
      ensures Seen() == View(Snap(main), Snap(fast), sysUptime, BackExact())
    {
    }

    /** In the view a timer is queued if it is. */
    lemma HasIs(t: Timer)
      requires Valid() && Members(main) && Members(fast)
      ensures Has(Seen(), t) <==> Queued(t)
      ensures Within(Snap(main), t) <==> Inner(main, t)
      ensures Within(Snap(fast), t) <==> Inner(fast, t)
      ensures BackExact() && Queued(t) ==> Clean(t)
      ensures Clean(t) ==> Queued(t)
    {
      hide Seg, Sorted, Marked, Apart, BackLinked;
      SnapHas(main, t);
      SnapHas(fast, t);
      WithinIs(main, t);
      WithinIs(fast, t);
      if BackExact() && Queued(t) { ExactClean(t); }
    }

    lemma ExactClean(t: Timer)
      requires Members(main) && Members(fast) && BackExact() && Queued(t)
      ensures Clean(t)
    {
    }

    /** Arm a timer unless it is queued already. */
    method ActArm(timer: Timer, expires: int)
      requires Valid() && timer in all
      modifies this`fastQueue, this`fast, this`added, all`next, all`prev, timer`expires
      ensures Valid() && Snap(main) == old(Snap(main))
      ensures Snap(fast) == (if old(Queued(timer)) then [] else [Entry(timer, expires)]) + old(Snap(fast))
      ensures old(Queued(timer)) ==> BackExact() == old(BackExact())
      ensures timer !in main ==> timer in fast
      ensures forall t | t in old(fast) :: t in fast
      ensures old(BackExact()) ==> BackExact()
      ensures old(Conserved()) ==> Conserved()
    {
      hide *;
      ListedNow();
      BooksAre();
      BacksAre();
      QueuedIs(timer);
      var queued, clean := Standing(timer);
      if !queued {
        ghost var sm, sf := Snap(main), Snap(fast);
        Retime(timer, expires, main, fast);
        ValidIs();
        BooksAre();
        BacksAre();
        QueuedIs(timer);
        AddTimer(timer);
      }
    }

    /** Delete a timer if it is queued and its back link is right. */
    method ActDel(timer: Timer) returns (ghost gone: set<Timer>)
      requires Valid() && timer in all
      modifies this`mainQueue, this`fastQueue, this`main, this`fast, this`deleted, all`next, all`prev
      ensures Valid() && gone == (if old(Clean(timer)) then {timer} else {})
      ensures old(Clean(timer)) ==> !Queued(timer)
      ensures Snap(main) == Minus(old(Snap(main)), gone) && Snap(fast) == Minus(old(Snap(fast)), gone)
      ensures !old(Clean(timer)) ==> BackExact() == old(BackExact())
      ensures old(Clean(timer) && BackExact()) ==>
                (BackExact() <==> !Inner(old(main), timer) && !Inner(old(fast), timer))
      ensures forall t | t in old(fast) && t != timer :: t in fast
      ensures old(Conserved()) ==> Conserved()
    {
      hide *;
      ListedNow();
      BooksAre();
      gone := {};
      MinusNone(Snap(main), {});
      MinusNone(Snap(fast), {});
      var queued, clean := Standing(timer);
      if clean {
        CleanInside(timer);
        SnapWithout(main, timer);
        SnapWithout(fast, timer);
        WithoutKeeps(fast, timer);
        OutOf(timer);
        ghost var m, f := Without(main, timer), Without(fast, timer);
        ghost var sm, sf := Snap(m), Snap(f);
        gone := {timer};
        DelTimer(timer);
        assert Snap(m) == sm && Snap(f) == sf;
        ValidIs();
        QueuedIs(timer);
      }
    }

    /** A timer that is not queued and has no links left. */
    ghost predicate Untouched(t: Timer)
      reads t`prev, t`next
    {
      t.prev == Null && t.next == null
    }

    /** Re-queue a timer if it can be taken out, or has never been touched. */
    method ActMod(timer: Timer, expires: int) returns (ghost gone: set<Timer>)
      requires Valid() && timer in all
      modifies this`mainQueue, this`fastQueue, this`main, this`fast, this`added, this`deleted,
               all`next, all`prev, timer`expires
      ensures Valid() && gone == (if old(Clean(timer) || Untouched(timer)) then {timer} else {})
      ensures Snap(main) == Minus(old(Snap(main)), gone)
      ensures Snap(fast) == (if gone == {} then [] else [Entry(timer, expires)]) + Minus(old(Snap(fast)), gone)
      ensures gone == {} ==> BackExact() == old(BackExact())
      ensures gone != {} && old(BackExact()) ==>
                (BackExact() <==> !Inner(old(main), timer) && !Inner(old(fast), timer))
      ensures forall t | t in old(fast) :: t in fast
      ensures old(Conserved()) ==> Conserved()
    {
      hide *;
      ListedNow();
      BooksAre();
      gone := {};
      MinusNone(Snap(main), {});
      MinusNone(Snap(fast), {});
      UntouchedIs(timer);
      var queued, clean := Standing(timer);
      if clean || (timer.prev == Null && timer.next == null) {
        if clean { CleanInside(timer); } else { NothingDone(timer); UntouchedInside(timer); }
        SnapWithout(main, timer);
        SnapWithout(fast, timer);
        WithoutKeeps(fast, timer);
        gone := {timer};
        ModTimer(timer, expires);
        ValidIs();
      }
    }

    lemma UntouchedIs(t: Timer)
      ensures Untouched(t) <==> t.prev == Null && t.next == null
    {
    }

    lemma UntouchedInside(t: Timer)
      requires t in all && t.prev == Null && t.next == null
      ensures Inside(t)
    {
    }

    ghost predicate Known(a: Action) { a.Tick? || a.timer in all }

    /** The action can be done as it is meant. */
    ghost predicate Able(a: Action)
      requires Known(a)
      reads this`main, this`fast, all`prev, all`next
    {
      match a
      case Tick => true
      case Arm(t, _) => !Queued(t)
      case Del(t) => Clean(t)
      case Mod(t, _) => Clean(t) || Untouched(t)
    }

    /** One action. */
    method Act(a: Action) returns (ghost gone: set<Timer>, ghost deed: Deed)
      requires Valid() && Known(a)
      modifies this`sysUptime, this`mainQueue, this`fastQueue, this`main, this`fast, this`added, this`deleted,
               all`next, all`prev, all`expires
      ensures Valid() && sysUptime == old(sysUptime) + (if a.Tick? then 1 else 0)
      ensures deed == Deed(a, old(Seen()), Seen(), old(Able(a))) && Done(deed)
      ensures forall t | t in gone :: Moves(a, t)
      ensures Snap(main) == Minus(old(Snap(main)), gone) && EndsWith(Snap(fast), Minus(old(Snap(fast)), gone))
      ensures forall t | t in old(fast) && !Deletes(a, t) :: t in fast
      ensures a.Arm? && a.timer !in old(main) ==> a.timer in fast
      ensures a.Del? && old(Clean(a.timer)) ==> !Queued(a.timer)
      ensures !a.Del? && !a.Mod? && old(BackExact()) ==> BackExact()
      ensures old(Conserved()) ==> Conserved()
    {
      hide *;
      ListedNow();
      BooksAre();
      BacksAre();
      gone := {};
      MinusNone(Snap(main), {});
      MinusNone(Snap(fast), {});
      EndsWithSelf(Snap(fast));
      KnownIs(a);
      AbleIs(a);
      SeenIs();
      ghost var before, able := Seen(), Able(a);
      if !a.Tick? { HasIs(a.timer); }
      match a {
        case Tick =>
          sysUptime := sysUptime + 1;
        case Arm(timer, expires) =>
          ActArm(timer, expires);
          if able { EndsWithPush(Entry(timer, expires), before.fast, before.fast); }
          assert able || Snap(fast) == before.fast;
        case Del(timer) =>
          gone := ActDel(timer);
          EndsWithSelf(Snap(fast));
        case Mod(timer, expires) =>
          gone := ActMod(timer, expires);
          EndsWithSelf(Minus(before.fast, gone));
          if able { EndsWithPush(Entry(timer, expires), Minus(before.fast, gone), Minus(before.fast, gone)); }
          assert able || Snap(fast) == Minus(before.fast, gone);
      }
      ListedNow();
      SeenIs();
      deed := Deed(a, before, Seen(), able);
      DoneIf(deed, gone);
      MovesIs(a);
    }

    lemma AbleIs(a: Action)
      requires Known(a)
      ensures a.Tick? ==> Able(a)
      ensures a.Arm? ==> (Able(a) <==> !Queued(a.timer))
      ensures a.Del? ==> (Able(a) <==> Clean(a.timer))
      ensures a.Mod? ==> (Able(a) <==> Clean(a.timer) || Untouched(a.timer))
    {
    }

    lemma KnownIs(a: Action)
      ensures Known(a) <==> a.Tick? || a.timer in all
    {
    }

    /** Run a callback: what it takes out is gone, and the timers it arms wait in the fast queue in front. */
    method RunCallback(actions: seq<Action>) returns (ghost gone: set<Timer>, ghost trail: seq<Deed>)
      requires Valid() && forall i | 0 <= i < |actions| :: Known(actions[i])
      modifies this`sysUptime, this`mainQueue, this`fastQueue, this`main, this`fast, this`added, this`deleted,
               all`next, all`prev, all`expires
      ensures Valid() && sysUptime >= old(sysUptime) && forall t | t in gone :: Named(actions, t)
      ensures Snap(main) == Minus(old(Snap(main)), gone) && EndsWith(Snap(fast), Minus(old(Snap(fast)), gone))
      ensures forall t | t in all && t !in old(main) && ArmedIn(actions, t) :: t in fast
      ensures forall t | t in old(fast) && Spared(actions, t) :: t in fast
      ensures Trail(actions, old(Seen()), Seen(), trail)
      ensures Gentle(actions) && old(BackExact()) ==> BackExact()
      ensures old(Conserved()) ==> Conserved()
    {
      hide *;
      ListedNow();
      BooksAre();
      BacksAre();
      gone, trail := {}, [];
      SeenIs();
      TrailNone(Seen());
      MinusNone(Snap(main), {});
      MinusNone(Snap(fast), {});
      EndsWithSelf(Snap(fast));
      NothingArmed();
      for i := 0 to |actions|
        invariant Valid() && Members(main) && Members(fast) && sysUptime >= old(sysUptime)
        invariant forall t | t in gone :: Named(actions[..i], t)
        invariant Snap(main) == Minus(old(Snap(main)), gone) && EndsWith(Snap(fast), Minus(old(Snap(fast)), gone))
        invariant forall t | t in all && t !in old(main) && ArmedIn(actions[..i], t) :: t in fast
        invariant forall t | t in old(fast) && Spared(actions[..i], t) :: t in fast
        invariant Trail(actions[..i], old(Seen()), Seen(), trail)
        invariant Gentle(actions[..i]) && old(BackExact()) ==> BackExact()
        invariant old(Conserved()) ==> Conserved()
      {
        ghost var sm, sf := Snap(main), Snap(fast);
        OnlyOld(old(main), old(Snap(main)), gone);
        ghost var waiting, left := fast, main;
        ghost var g, deed := Act(actions[i]);
        ListedNow();
        TrailNext(actions, i, old(Seen()), trail, deed);
        MinusMore(old(Snap(main)), gone, g);
        EndsWithThen(old(Snap(fast)), sf, Snap(fast), gone, g);
        OneMoreAction(actions, i);
        forall t: Timer | t in all && t !in old(main) && ArmedIn(actions[..i + 1], t) ensures t in fast {
          assert t !in left;
          if actions[i].Arm? && actions[i].timer == t {
          } else {
            assert ArmedIn(actions[..i], t);
            assert t in waiting;
          }
        }
        gone, trail := gone + g, trail + [deed];
      }
      assert actions[..|actions|] == actions;
    }

    /** What is left of a queue was in it. */
    lemma OnlyOld(m: seq<Timer>, sm: seq<Entry<Timer>>, gone: set<Timer>)
      requires Snap(main) == Minus(sm, gone) && |sm| == |m| && forall i | 0 <= i < |m| :: sm[i].item == m[i]
      ensures forall t | t in main :: t in m
    {
      hide Snap, Minus;
      MinusWithin(sm, gone);
      forall t | t in main ensures t in m {
        assert Snap(main)[IndexOf(main, t)].item == t;
      }
    }

    lemma NothingArmed()
      ensures forall t :: !ArmedIn([], t)
    {
    }

    /** The head of the main queue fires. */
    method PopFire() returns (ghost firing: Firing)
      requires Valid() && main != []
      modifies this`mainQueue, this`main, this`fired, all`next, all`prev
      ensures Valid() && firing == Firing(old(Snap(main)[0]), sysUptime) && fired == old(fired) + [firing]
      ensures main == old(main[1..]) && Snap(main) == old(Snap(main))[1..] && Snap(fast) == old(Snap(fast))
      ensures old(BackExact()) ==> BackExact()
      ensures old(Conserved()) ==> Conserved()
    {
      hide *;
      ListedNow();
      BooksAre();
      BacksAre();
      SnapTail(main);
      ghost var tail, sm, sf := main[1..], Snap(main), Snap(fast);
      firing := Firing(sm[0], sysUptime);
      if Conserved() { BalanceFire(Entries(fired), sm, sf, deleted, added); }
      EntriesNext(fired, firing);
      var current := PopHead();
      fired := fired + [firing];
      assert Snap(tail) == sm[1..] && Snap(fast) == sf;
      ListedNow();
      BooksAre();
      BacksAre();
    }

    /** Fire the head of the main queue and run its callback. */
    method FireHead(actions: seq<Action>) returns (ghost gone: set<Timer>, ghost turn: Turn)
      requires Valid() && main != [] && main[0].expires <= sysUptime
      requires forall i | 0 <= i < |actions| :: Known(actions[i])
      modifies this, all`next, all`prev, all`expires
      ensures Valid() && sysUptime >= old(sysUptime) && forall t | t in gone :: Named(actions, t)
      ensures fired == old(fired) + [Firing(old(Snap(main)[0]), old(sysUptime))]
      ensures Fires(actions, Firing(old(Snap(main)[0]), old(sysUptime)), turn)
      ensures turn.before == old(Seen()) && turn.after == Seen()
      ensures Snap(main) == Minus(old(Snap(main))[1..], gone) && EndsWith(Snap(fast), Minus(old(Snap(fast)), gone))
      ensures forall t | t in all && t !in old(main[1..]) && ArmedIn(actions, t) :: t in fast
      ensures forall t | t in old(fast) && Spared(actions, t) :: t in fast
      ensures Gentle(actions) && old(BackExact()) ==> BackExact()
      ensures old(Conserved()) ==> Conserved()
    {
      hide *;
      ListedNow();
      SeenIs();
      ghost var before := Seen();
      ghost var firing := PopFire();
      ListedNow();
      SeenIs();
      ghost var popped, trail := Seen(), [];
      gone, trail := RunCallback(actions);
      ListedNow();
      SeenIs();
      turn := Turn(before, popped, trail, Seen());
      FiresIf(actions, firing, turn);
    }

    /** Every timer a callback names is one of the program's. */
    ghost predicate Callbacks(callbacks: nat -> seq<Action>) {
      forall n: nat, i: nat | i < |callbacks(n)| :: Known(callbacks(n)[i])
    }

    lemma CallbacksAre(callbacks: nat -> seq<Action>, n: nat)
      requires Callbacks(callbacks)
      ensures forall i | 0 <= i < |callbacks(n)| :: Known(callbacks(n)[i])
    {
    }

    /** One firing within a pass. */
    method FireNext(callbacks: nat -> seq<Action>, n: nat, ghost pass: seq<Firing>, ghost q: seq<Entry<Timer>>,
                    ghost gone0: set<Timer>)
      returns (ghost gone: set<Timer>, ghost firing: Firing, ghost turn: Turn)
      requires Valid() && main != [] && main[0].expires <= sysUptime && Callbacks(callbacks) && n == |pass|
      requires Once(q) && Entries(pass) + Snap(main) == Minus(q, gone0)
      requires forall t | t in gone0 :: NamedBy(callbacks, n, t)
      requires forall k, t | t in all && Owed(callbacks, Entries(pass), q, k, t) :: t in fast
      modifies this, all`next, all`prev, all`expires
      ensures Valid() && sysUptime >= old(sysUptime) && |main| < |old(main)|
      ensures fired == old(fired) + [firing] && firing.at == old(sysUptime) >= firing.entry.expires
      ensures Fires(callbacks(n), firing, turn) && turn.before == old(Seen()) && turn.after == Seen()
      ensures Entries(pass + [firing]) + Snap(main) == Minus(q, gone)
      ensures forall t | t in gone :: NamedBy(callbacks, n + 1, t)
      ensures forall k, t | t in all && Owed(callbacks, Entries(pass + [firing]), q, k, t) :: t in fast
      ensures Gentle(callbacks(n)) && old(BackExact()) ==> BackExact()
      ensures old(Conserved()) ==> Conserved()
    {
      hide *;
      ListedNow();
      CallbacksAre(callbacks, n);
      SnapTail(main);
      ghost var e, rest, tail, waiting := Entries(pass), Snap(main), main[1..], fast;
      firing := Firing(rest[0], sysUptime);
      EntriesNext(pass, firing);
      forall t | t in all ensures HasItem(rest[1..], t) <==> t in tail { SnapHas(tail, t); }
      ghost var g;
      g, turn := FireHead(callbacks(n));
      ghost var h := set t | t in g && HasItem(rest[1..], t);
      MinusInside(rest[1..], g, h);
      PassStep(q, e, rest, gone0, h);
      gone := gone0 + h;
      forall t | t in gone ensures NamedBy(callbacks, n + 1, t) { NamedMore(callbacks, n, t); }
      forall k, t | t in all && Owed(callbacks, e + [rest[0]], q, k, t) ensures t in fast {
        OwedStep(callbacks, e, rest[0], q, k, t);
        if k == n {
          NotLeft(q, e, rest, gone0, t);
        }
      }
    }

    lemma HeadIs()
      requires Valid()
      ensures Members(main) && Members(fast) && mainQueue == if main == [] then null else main[0]
    {
    }

    /** Fire every timer that is due, and those that become due meanwhile. */
    method FireDue(callbacks: nat -> seq<Action>) returns (ghost gone: set<Timer>, ghost turns: seq<Turn>)
      requires Valid() && Callbacks(callbacks)
      modifies this, all`next, all`prev, all`expires
      ensures Valid() && sysUptime >= old(sysUptime) && old(fired) <= fired
      ensures var pass := fired[|old(fired)|..];
        && Entries(pass) + Snap(main) == Minus(old(Snap(main)), gone)
        && OnTime(pass, old(sysUptime), sysUptime)
        && (forall t | t in gone :: NamedBy(callbacks, |pass|, t))
        && (forall n, t | t in all && Owed(callbacks, Entries(pass), old(Snap(main)), n, t) :: t in fast)
        && ((forall n: nat | n < |pass| :: Gentle(callbacks(n))) && old(BackExact()) ==> BackExact())
        && Passed(callbacks, old(Seen()), Seen(), pass, turns)
      ensures main != [] ==> main[0].expires > sysUptime
      ensures old(Conserved()) ==> Conserved()
    {
      hide *;
      ListedNow();
      BooksAre();
      BacksAre();
      var n: nat := 0;
      ghost var pass, f0 := [], fired;
      gone, turns := {}, [];
      SeenIs();
      PassedNone(callbacks, Seen());
      MinusNone(Snap(main), {});
      NoFirings(Snap(main), sysUptime);
      SnapOnce(main);
      NoneOwed(callbacks, Snap(main));
      HeadIs();
      while mainQueue != null && mainQueue.expires <= sysUptime
        invariant Valid() && sysUptime >= old(sysUptime) && fired == f0 + pass && n == |pass|
        invariant Members(main) && Members(fast) && mainQueue == if main == [] then null else main[0]
        invariant Entries(pass) + Snap(main) == Minus(old(Snap(main)), gone)
        invariant OnTime(pass, old(sysUptime), sysUptime)
        invariant forall t | t in gone :: NamedBy(callbacks, n, t)
        invariant forall k, t | t in all && Owed(callbacks, Entries(pass), old(Snap(main)), k, t) :: t in fast
        invariant (forall k: nat | k < n :: Gentle(callbacks(k))) && old(BackExact()) ==> BackExact()
        invariant Passed(callbacks, old(Seen()), Seen(), pass, turns)
        invariant old(Conserved()) ==> Conserved()
        decreases |main|
      {
        ghost var firing, turn, before := *, *, Seen();
        gone, firing, turn := FireNext(callbacks, n, pass, old(Snap(main)), gone);
        OnTimePush(pass, firing, old(sysUptime), sysUptime);
        PassedNext(callbacks, old(Seen()), before, pass, turns, firing, turn);
        pass, turns, n := pass + [firing], turns + [turn], n + 1;
        HeadIs();
      }
      assert fired[|f0|..] == pass;
    }

    /**
     * One pass of the timer loop: merge the new timers into the main queue, then fire the due ones. The firings
     * and what is left are the merged queue in order, less what callbacks took out; nothing due is left; and every
     * timer that a callback armed, the one that was firing included, waits in the fast queue.
     */
    method Process(callbacks: nat -> seq<Action>)
      returns (ghost gone: set<Timer>, ghost merged: View, ghost turns: seq<Turn>)
      requires Valid() && Callbacks(callbacks)
      modifies this, all`next, all`prev, all`expires
      ensures Valid() && sysUptime >= old(sysUptime) && old(fired) <= fired
      ensures var pass, q := fired[|old(fired)|..], MergeBatch(old(Snap(main)), old(Snap(fast)));
        && Entries(pass) + Snap(main) == Minus(q, gone)
        && OnTime(pass, old(sysUptime), sysUptime)
        && (forall t | t in gone :: NamedBy(callbacks, |pass|, t))
        && (forall n, t | t in all && Owed(callbacks, Entries(pass), q, n, t) :: t in fast)
        && ((forall n: nat | n < |pass| :: Gentle(callbacks(n))) && old(BackExact()) ==> BackExact())
        && Merged(old(Seen()), merged) && Passed(callbacks, merged, Seen(), pass, turns)
      ensures forall i | 0 <= i < |main| :: main[i].expires > sysUptime
      ensures old(Conserved()) ==> Conserved()
    {
      hide *;
      ListedNow();
      BooksAre();
      BacksAre();
      if Conserved() { BalanceMerge(Entries(fired), Snap(main), Snap(fast), deleted, added); }
      SeenIs();
      MergeFast();
      ListedNow();
      BooksAre();
      BacksAre();
      SnapEmpty();
      EmptyBack();
      SeenIs();
      merged := Seen();
      MergedIf(old(Seen()), merged);
      gone, turns := FireDue(callbacks);
      NoneLeft();
    }

    lemma NoneLeft()
      requires Valid() && (main != [] ==> main[0].expires > sysUptime)
      ensures forall i | 0 <= i < |main| :: main[i].expires > sysUptime
    {
      hide Seg, Marked, NoDup, Apart, Snap;
      NoneDue(Snap(main), sysUptime);
      forall i | 0 <= i < |main| ensures main[i].expires > sysUptime {
        assert Snap(main)[i].expires > sysUptime;
      }
    }

    ghost predicate Ready(call: Call) {
      match call
      case Do(a) => Known(a)
      case Pass(callbacks) => Callbacks(callbacks)
    }

    /** One call. */
    method Perform(call: Call) returns (ghost step: Step)
      requires Valid() && Conserved() && Ready(call)
      modifies this, all`next, all`prev, all`expires
      ensures Valid() && Conserved() && sysUptime >= old(sysUptime) && old(fired) <= fired
      ensures OnTime(fired[|old(fired)|..], old(sysUptime), sysUptime)
      ensures Effect(call, step, old(Seen()), Seen(), fired[|old(fired)|..])
    {
      hide *;
      ListedNow();
      ReadyIs(call);
      match call {
        case Do(a) =>
          ghost var gone, deed := Act(a);
          NothingFired(fired, old(sysUptime), sysUptime);
          EffectOfAct(deed);
          step := Did(deed);
          assert fired[|old(fired)|..] == [];
        case Pass(callbacks) =>
          ghost var gone, merged, turns := Process(callbacks);
          ListedNow();
          NoneDueSeen();
          EffectOfPass(callbacks, old(Seen()), merged, Seen(), fired[|old(fired)|..], turns);
          step := Ran(merged, turns, Seen());
      }
    }

    lemma NoneDueSeen()
      requires Valid() && Members(main) && Members(fast) && forall i | 0 <= i < |main| :: main[i].expires > sysUptime
      ensures forall i | 0 <= i < |Seen().main| :: Seen().main[i].expires > Seen().now
    {
      hide Seg, Marked, NoDup, Apart, Sorted, BackExact;
    }

    lemma ReadyIs(call: Call)
      ensures call.Do? ==> (Ready(call) <==> Known(call.action))
      ensures call.Pass? ==> (Ready(call) <==> Callbacks(call.callbacks))
    {
    }

    /**
     * Over every sequence of calls each has its effect, nothing is lost and nothing fires twice for one arming: each
     * entry added has fired, waits or was deleted, as often as it was added. And nothing fires before its time.
     */
    method Drive(calls: seq<Call>) returns (ghost story: seq<Chapter>)
      requires Valid() && Conserved() && forall i | 0 <= i < |calls| :: Ready(calls[i])
      modifies this, all`next, all`prev, all`expires
      ensures Valid() && Conserved() && sysUptime >= old(sysUptime) && old(fired) <= fired
      ensures OnTime(fired[|old(fired)|..], old(sysUptime), sysUptime)
      ensures Effects(calls, old(Seen()), Seen(), story) && fired == old(fired) + FiredIn(story)
    {
      hide *;
      ListedNow();
      ghost var before := fired;
      story := [];
      NoEffects(Seen());
      NoneFiredYet();
      NothingFired(fired, sysUptime, sysUptime);
      for i := 0 to |calls|
        invariant Valid() && Members(main) && Members(fast) && Conserved()
        invariant sysUptime >= old(sysUptime) && before <= fired
        invariant OnTime(fired[|before|..], old(sysUptime), sysUptime)
        invariant Effects(calls[..i], old(Seen()), Seen(), story) && fired == before + FiredIn(story)
      {
        ghost var f, t, v := fired, sysUptime, Seen();
        ghost var step := Perform(calls[i]);
        ListedNow();
        OnTimeMore(before, f, fired, old(sysUptime), t, sysUptime);
        ghost var c := Chapter(step, v, Seen(), fired[|f|..]);
        EffectsNext(calls, i, old(Seen()), story, c);
        FiredOn(before, FiredIn(story), f, fired);
        story := story + [c];
      }
      assert calls[..|calls|] == calls;
    }
  }
}
