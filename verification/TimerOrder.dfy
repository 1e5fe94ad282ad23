/** The order of timers: how a batch of new timers is merged into the sorted queue. */
module TimerOrder {

  datatype Entry<T> = Entry(item: T, expires: int)

  ghost predicate Sorted<T>(q: seq<Entry<T>>) {
    forall i, j | 0 <= i < j < |q| :: q[i].expires <= q[j].expires
  }

  /** Insert ahead of the first entry that does not expire earlier. */
  function InsertEntry<T>(q: seq<Entry<T>>, e: Entry<T>): (r: seq<Entry<T>>)
    ensures |r| == |q| + 1
  {
    if q != [] && q[0].expires < e.expires then [q[0]] + InsertEntry(q[1..], e) else [e] + q
  }

  /** Merge a batch, its head first. */
  function MergeBatch<T>(q: seq<Entry<T>>, batch: seq<Entry<T>>): (r: seq<Entry<T>>)
    ensures |r| == |q| + |batch|
    decreases |batch|
  {
    if batch == [] then q else MergeBatch(InsertEntry(q, batch[0]), batch[1..])
  }

  lemma MergeStep<T>(q: seq<Entry<T>>, batch: seq<Entry<T>>)
    requires batch != []
    ensures MergeBatch(q, batch) == MergeBatch(InsertEntry(q, batch[0]), batch[1..])
  {
  }

  lemma MergeNone<T>(q: seq<Entry<T>>)
    ensures MergeBatch(q, []) == q
  {
  }

  /** Splitting the queue at the first later-or-equal entry gives the same result. */
  lemma {:induction false} InsertAt<T>(q: seq<Entry<T>>, e: Entry<T>, k: nat)
    requires k <= |q| && (forall i | 0 <= i < k :: q[i].expires < e.expires)
    requires k < |q| ==> q[k].expires >= e.expires
    ensures InsertEntry(q, e) == q[..k] + [e] + q[k..]
    decreases |q|
  {
    if k > 0 {
      InsertAt(q[1..], e, k - 1);
      assert q[..k] == [q[0]] + q[1..][..k - 1];
      assert q[1..][k - 1..] == q[k..];
    } else {
      assert q[..0] + [e] + q[0..] == [e] + q;
    }
  }

  lemma {:induction false} InsertSlot<T>(q: seq<Entry<T>>, e: Entry<T>) returns (k: nat)
    ensures k <= |q| && (forall i | 0 <= i < k :: q[i].expires < e.expires)
    ensures k < |q| ==> q[k].expires >= e.expires
    ensures InsertEntry(q, e) == q[..k] + [e] + q[k..]
  {
    k := 0;
    while k < |q| && q[k].expires < e.expires
      invariant k <= |q| && forall i | 0 <= i < k :: q[i].expires < e.expires
    {
      k := k + 1;
    }
    InsertAt(q, e, k);
  }

  lemma InsertSorted<T>(q: seq<Entry<T>>, e: Entry<T>)
    requires Sorted(q)
    ensures Sorted(InsertEntry(q, e))
  {
    var k := InsertSlot(q, e);
  }

  lemma InsertKeeps<T>(q: seq<Entry<T>>, e: Entry<T>)
    ensures multiset(InsertEntry(q, e)) == multiset(q) + multiset{e}
  {
    hide InsertEntry;
    var k := InsertSlot(q, e);
    var a, b := q[..k], q[k..];
    assert q == a + b;
    assert multiset(a + [e] + b) == multiset(a) + multiset{e} + multiset(b);
  }

  /** The merged queue is sorted and is the old queue and the batch, each entry once. */
  lemma {:induction false} MergeSorts<T>(q: seq<Entry<T>>, batch: seq<Entry<T>>)
    ensures Sorted(q) ==> Sorted(MergeBatch(q, batch))
    ensures multiset(MergeBatch(q, batch)) == multiset(q) + multiset(batch)
    decreases |batch|
  {
    if batch != [] {
      if Sorted(q) { InsertSorted(q, batch[0]); }
      InsertKeeps(q, batch[0]);
      MergeSorts(InsertEntry(q, batch[0]), batch[1..]);
      assert batch == [batch[0]] + batch[1..];
    }
  }

  /** The entries that expire at `t`, in queue order. */
  function At<T>(q: seq<Entry<T>>, t: int): (r: seq<Entry<T>>) {
    if q == [] then [] else (if q[0].expires == t then [q[0]] else []) + At(q[1..], t)
  }

  function Reversed<T>(q: seq<Entry<T>>): (r: seq<Entry<T>>) {
    if q == [] then [] else Reversed(q[1..]) + [q[0]]
  }

  lemma {:induction false} AtAppend<T>(a: seq<Entry<T>>, b: seq<Entry<T>>, t: int)
    ensures At(a + b, t) == At(a, t) + At(b, t)
    decreases |a|
  {
    if a == [] {
      assert a + b == b;
    } else {
      AtAppend(a[1..], b, t);
      assert (a + b)[1..] == a[1..] + b;
      AtHead(a, t);
      AtHead(a + b, t);
      hide At;
      var one := if a[0].expires == t then [a[0]] else [];
      assert one + (At(a[1..], t) + At(b, t)) == (one + At(a[1..], t)) + At(b, t);
    }
  }

  lemma AtHead<T>(q: seq<Entry<T>>, t: int)
    requires q != []
    ensures At(q, t) == (if q[0].expires == t then [q[0]] else []) + At(q[1..], t)
  {
  }

  lemma {:induction false} NoneAt<T>(q: seq<Entry<T>>, t: int)
    requires forall i | 0 <= i < |q| :: q[i].expires != t
    ensures At(q, t) == []
  {
    if q != [] { NoneAt(q[1..], t); }
  }

  lemma InsertAtTime<T>(q: seq<Entry<T>>, e: Entry<T>, t: int)
    ensures At(InsertEntry(q, e), t) == (if e.expires == t then [e] else []) + At(q, t)
  {
    hide InsertEntry;
    var k := InsertSlot(q, e);
    var a, b := q[..k], q[k..];
    assert q == a + b;
    AtOne(e, t);
    if e.expires == t { NoneAt(a, t); }
    hide At;
    AtAppend(a + [e], b, t);
    AtAppend(a, [e], t);
    AtAppend(a, b, t);
  }

  lemma AtOne<T>(e: Entry<T>, t: int)
    ensures At([e], t) == if e.expires == t then [e] else []
  {
  }

  /**
   * Among equal expiry times, the batch comes first and in reverse: since new timers are pushed on
   * the front of the batch, that is the order in which they were added.
   */
  lemma {:induction false} MergeStable<T>(q: seq<Entry<T>>, batch: seq<Entry<T>>, t: int)
    ensures At(MergeBatch(q, batch), t) == At(Reversed(batch), t) + At(q, t)
    decreases |batch|
  {
    hide At, InsertEntry;
    if batch == [] {
      AtNone<T>(t);
    } else {
      var e, rest := batch[0], batch[1..];
      var one := if e.expires == t then [e] else [];
      MergeStable(InsertEntry(q, e), rest, t);
      InsertAtTime(q, e, t);
      AtAppend(Reversed(rest), [e], t);
      AtOne(e, t);
      JoinThree(At(Reversed(rest), t), one, At(q, t));
    }
  }

  lemma AtNone<T>(t: int)
    ensures At<T>([], t) == []
  {
  }

  lemma JoinThree<T>(a: seq<Entry<T>>, b: seq<Entry<T>>, c: seq<Entry<T>>)
    ensures (a + b) + c == a + (b + c)
  {
  }

  // ---- Entries taken out ----

  ghost predicate HasItem<T>(q: seq<Entry<T>>, x: T) {
    exists i | 0 <= i < |q| :: q[i].item == x
  }

  /** The queue without the entries of some items. */
  ghost function Minus<T>(q: seq<Entry<T>>, gone: set<T>): (r: seq<Entry<T>>)
    ensures |r| <= |q|
  {
    if q == [] then []
    else Minus(q[..|q| - 1], gone) + (if q[|q| - 1].item in gone then [] else [q[|q| - 1]])
  }

  /** And the entries taken out. */
  ghost function Taken<T>(q: seq<Entry<T>>, gone: set<T>): (r: seq<Entry<T>>) {
    if q == [] then []
    else Taken(q[..|q| - 1], gone) + (if q[|q| - 1].item in gone then [q[|q| - 1]] else [])
  }

  lemma {:induction false} MinusAppend<T>(a: seq<Entry<T>>, b: seq<Entry<T>>, gone: set<T>)
    ensures Minus(a + b, gone) == Minus(a, gone) + Minus(b, gone)
    decreases |b|
  {
    if b == [] {
      assert a + b == a;
    } else {
      var n := |b| - 1;
      MinusAppend(a, b[..n], gone);
      assert (a + b)[..|a + b| - 1] == a + b[..n];
    }
  }

  lemma {:induction false} MinusNone<T>(q: seq<Entry<T>>, gone: set<T>)
    requires forall i | 0 <= i < |q| :: q[i].item !in gone
    ensures Minus(q, gone) == q
    decreases |q|
  {
    if q != [] {
      MinusNone(q[..|q| - 1], gone);
      assert q == q[..|q| - 1] + [q[|q| - 1]];
    }
  }

  lemma {:induction false} MinusMore<T>(q: seq<Entry<T>>, g: set<T>, h: set<T>)
    ensures Minus(Minus(q, g), h) == Minus(q, g + h)
    decreases |q|
  {
    if q != [] {
      var n := |q| - 1;
      MinusMore(q[..n], g, h);
      var one := if q[n].item in g then [] else [q[n]];
      MinusAppend(Minus(q[..n], g), one, h);
      MinusOne(q[n], h);
    }
  }

  lemma MinusOne<T>(e: Entry<T>, h: set<T>)
    ensures Minus([e], h) == if e.item in h then [] else [e]
  {
    assert [e][..0] == [];
  }

  /** Only the items in the queue matter. */
  lemma {:induction false} MinusSame<T>(q: seq<Entry<T>>, g: set<T>, h: set<T>)
    requires forall i | 0 <= i < |q| :: q[i].item in g <==> q[i].item in h
    ensures Minus(q, g) == Minus(q, h)
    decreases |q|
  {
    if q != [] { MinusSame(q[..|q| - 1], g, h); }
  }

  /** So those elsewhere can be left out of account. */
  lemma MinusInside<T>(q: seq<Entry<T>>, g: set<T>, h: set<T>)
    requires forall x | x in g :: x in h <==> HasItem(q, x)
    requires h <= g
    ensures Minus(q, g) == Minus(q, h)
  {
    forall i | 0 <= i < |q| ensures q[i].item in g <==> q[i].item in h {
      assert HasItem(q, q[i].item);
    }
    MinusSame(q, g, h);
  }

  /** What remains is in the queue, in its order. */
  lemma {:induction false} MinusWithin<T>(q: seq<Entry<T>>, gone: set<T>)
    ensures forall i | 0 <= i < |Minus(q, gone)| :: Minus(q, gone)[i] in q && Minus(q, gone)[i].item !in gone
    ensures Sorted(q) ==> Sorted(Minus(q, gone))
    decreases |q|
  {
    if q != [] {
      var n := |q| - 1;
      MinusWithin(q[..n], gone);
      assert q == q[..n] + [q[n]];
    }
  }

  lemma {:induction false} MinusKeeps<T>(q: seq<Entry<T>>, gone: set<T>, x: T)
    requires x !in gone
    ensures HasItem(Minus(q, gone), x) <==> HasItem(q, x)
    decreases |q|
  {
    if q != [] {
      var n := |q| - 1;
      MinusKeeps(q[..n], gone, x);
      HasItemAppend(Minus(q[..n], gone), if q[n].item in gone then [] else [q[n]], x);
      HasItemAppend(q[..n], [q[n]], x);
      assert q == q[..n] + [q[n]];
      HasItemOne(q[n], x);
    }
  }

  lemma HasItemAppend<T>(a: seq<Entry<T>>, b: seq<Entry<T>>, x: T)
    ensures HasItem(a + b, x) <==> HasItem(a, x) || HasItem(b, x)
  {
    if HasItem(a, x) {
      var i :| 0 <= i < |a| && a[i].item == x;
      assert (a + b)[i].item == x;
    }
    if HasItem(b, x) {
      var i :| 0 <= i < |b| && b[i].item == x;
      assert (a + b)[|a| + i].item == x;
    }
  }

  lemma HasItemOne<T>(e: Entry<T>, x: T)
    ensures HasItem([e], x) <==> e.item == x
    ensures !HasItem<T>([], x)
  {
    assert [e][0] == e;
  }

  lemma {:induction false} MinusCounts<T>(q: seq<Entry<T>>, gone: set<T>)
    ensures multiset(q) == multiset(Minus(q, gone)) + multiset(Taken(q, gone))
    decreases |q|
  {
    if q != [] {
      var n := |q| - 1;
      MinusCounts(q[..n], gone);
      assert q == q[..n] + [q[n]];
      var kept, taken := if q[n].item in gone then [] else [q[n]], if q[n].item in gone then [q[n]] else [];
      CountAppend(q[..n], [q[n]]);
      CountAppend(Minus(q[..n], gone), kept);
      CountAppend(Taken(q[..n], gone), taken);
    }
  }

  lemma CountAppend<T>(a: seq<Entry<T>>, b: seq<Entry<T>>)
    ensures multiset(a + b) == multiset(a) + multiset(b)
  {
  }

  lemma {:induction false} MinusAt<T>(q: seq<Entry<T>>, gone: set<T>, t: int)
    ensures At(Minus(q, gone), t) == Minus(At(q, t), gone)
    decreases |q|
  {
    if q != [] {
      var n := |q| - 1;
      var one := if q[n].item in gone then [] else [q[n]];
      MinusAt(q[..n], gone, t);
      assert q == q[..n] + [q[n]];
      AtAppend(q[..n], [q[n]], t);
      AtAppend(Minus(q[..n], gone), one, t);
      AtOne(q[n], t);
      MinusAppend(At(q[..n], t), At([q[n]], t), gone);
      MinusOne(q[n], gone);
    }
  }

  // ---- Each item once ----

  ghost predicate Once<T>(q: seq<Entry<T>>) {
    forall i, j | 0 <= i < j < |q| :: q[i].item != q[j].item
  }

  lemma {:induction false} MinusOnce<T>(q: seq<Entry<T>>, gone: set<T>)
    requires Once(q)
    ensures Once(Minus(q, gone))
    decreases |q|
  {
    if q != [] {
      var n := |q| - 1;
      MinusOnce(q[..n], gone);
      MinusWithin(q[..n], gone);
      var r := Minus(q[..n], gone);
      forall i | 0 <= i < |r| ensures r[i].item != q[n].item {
        assert r[i] in q[..n];
      }
    }
  }

  lemma OnceApart<T>(a: seq<Entry<T>>, b: seq<Entry<T>>, x: T)
    requires Once(a + b) && HasItem(a, x)
    ensures !HasItem(b, x)
  {
    var i :| 0 <= i < |a| && a[i].item == x;
    forall j | 0 <= j < |b| ensures b[j].item != x {
      assert (a + b)[i].item != (a + b)[|a| + j].item;
    }
  }

  /** One more firing, with some of the rest taken out meanwhile. */
  lemma PassStep<T>(q: seq<Entry<T>>, pass: seq<Entry<T>>, rest: seq<Entry<T>>, gone: set<T>, g: set<T>)
    requires Once(q) && pass + rest == Minus(q, gone) && rest != [] && forall x | x in g :: HasItem(rest[1..], x)
    ensures (pass + [rest[0]]) + Minus(rest[1..], g) == Minus(q, gone + g)
    ensures Once((pass + [rest[0]]) + rest[1..])
  {
    hide Minus;
    var pass', tail := pass + [rest[0]], rest[1..];
    assert pass' + tail == pass + rest;
    MinusOnce(q, gone);
    MinusMore(q, gone, g);
    MinusAppend(pass', tail, g);
    forall i | 0 <= i < |pass'| ensures pass'[i].item !in g {
      if pass'[i].item in g { OnceApart(pass', tail, pass'[i].item); }
    }
    MinusNone(pass', g);
  }

  /** An item that was never in the queue, or has fired, is not in the rest. */
  lemma NotLeft<T>(q: seq<Entry<T>>, pass: seq<Entry<T>>, rest: seq<Entry<T>>, gone: set<T>, x: T)
    requires Once(q) && pass + rest == Minus(q, gone) && rest != []
    requires !HasItem(q, x) || HasItem(pass + [rest[0]], x)
    ensures !HasItem(rest[1..], x)
  {
    hide Minus;
    var pass', tail := pass + [rest[0]], rest[1..];
    assert pass' + tail == pass + rest;
    if HasItem(q, x) {
      MinusOnce(q, gone);
      OnceApart(pass', tail, x);
    } else {
      MinusWithin(q, gone);
      forall j | 0 <= j < |tail| ensures tail[j].item != x {
        assert (pass' + tail)[|pass'| + j] == tail[j];
        assert tail[j] in q;
      }
    }
  }

  /**
   * What a pass guarantees, from the firings followed by the rest being the merged queue without the entries
   * taken out meanwhile: firing order follows expiry, nothing left expires before what fired, every entry fires,
   * stays or was taken out and only once, and among equal times the new timers come in the order they were added,
   * before the older ones.
   */
  lemma PassOrder<T>(fs: seq<Entry<T>>, rest: seq<Entry<T>>, q: seq<Entry<T>>, batch: seq<Entry<T>>, gone: set<T>,
                     t: int)
    requires fs + rest == Minus(MergeBatch(q, batch), gone) && Sorted(q)
    ensures Sorted(fs) && Sorted(rest)
    ensures forall i, j | 0 <= i < |fs| && 0 <= j < |rest| :: fs[i].expires <= rest[j].expires
    ensures multiset(fs) + multiset(rest) + multiset(Taken(MergeBatch(q, batch), gone)) == multiset(q) + multiset(batch)
    ensures At(fs, t) + At(rest, t) == Minus(At(Reversed(batch), t) + At(q, t), gone)
  {
    hide MergeBatch, At, Minus, Taken;
    var all, m := fs + rest, MergeBatch(q, batch);
    MergeSorts(q, batch);
    MergeStable(q, batch, t);
    AtAppend(fs, rest, t);
    MinusWithin(m, gone);
    MinusAt(m, gone, t);
    MinusCounts(m, gone);
    assert multiset(all) == multiset(fs) + multiset(rest);
    forall i | 0 <= i < |rest| ensures rest[i] == all[|fs| + i] {}
    forall i | 0 <= i < |fs| ensures fs[i] == all[i] {}
  }

  // ---- Adding in front ----

  /** New entries came in front, and the old ones are all still there. */
  ghost predicate EndsWith<T>(s: seq<Entry<T>>, t: seq<Entry<T>>) {
    |t| <= |s| && s[|s| - |t|..] == t
  }

  lemma EndsWithSelf<T>(s: seq<Entry<T>>)
    ensures EndsWith(s, s)
  {
  }

  lemma EndsWithPush<T>(e: Entry<T>, s: seq<Entry<T>>, t: seq<Entry<T>>)
    requires EndsWith(s, t)
    ensures EndsWith([e] + s, t)
  {
  }

  /** Taking entries out of the whole takes them out of the old part. */
  lemma EndsWithMinus<T>(a: seq<Entry<T>>, b: seq<Entry<T>>, gone: set<T>)
    requires EndsWith(a, b)
    ensures EndsWith(Minus(a, gone), Minus(b, gone))
  {
    hide Minus;
    var n := |a| - |b|;
    assert a == a[..n] + b;
    MinusAppend(a[..n], b, gone);
  }

  lemma EndsWithTwice<T>(a: seq<Entry<T>>, b: seq<Entry<T>>, c: seq<Entry<T>>)
    requires EndsWith(a, b) && EndsWith(b, c)
    ensures EndsWith(a, c)
  {
  }

  /** One stretch of work after another. */
  lemma EndsWithThen<T>(a: seq<Entry<T>>, b: seq<Entry<T>>, c: seq<Entry<T>>, g: set<T>, h: set<T>)
    requires EndsWith(b, Minus(a, g)) && EndsWith(c, Minus(b, h))
    ensures EndsWith(c, Minus(a, g + h))
  {
    hide Minus, EndsWith;
    EndsWithMinus(b, Minus(a, g), h);
    MinusMore(a, g, h);
    EndsWithTwice(c, Minus(b, h), Minus(a, g + h));
  }

  // ---- Accounts ----

  /** What was added has fired, waits in one of the queues or was deleted, each entry as often as it was added. */
  ghost predicate Balanced<T>(fired: seq<Entry<T>>, m: seq<Entry<T>>, f: seq<Entry<T>>,
                              deleted: multiset<Entry<T>>, added: multiset<Entry<T>>)
  {
    multiset(fired) + multiset(m) + multiset(f) + deleted == added
  }

  /** The account with one more entry, if there is one. */
  ghost function Noted<T>(account: multiset<Entry<T>>, e: Entry<T>, really: bool): multiset<Entry<T>> {
    if really then account + multiset{e} else account
  }

  lemma BalanceAdd<T>(fired: seq<Entry<T>>, m: seq<Entry<T>>, f: seq<Entry<T>>,
                      deleted: multiset<Entry<T>>, added: multiset<Entry<T>>, e: Entry<T>)
    requires Balanced(fired, m, f, deleted, added)
    ensures Balanced(fired, m, [e] + f, deleted, added + multiset{e})
  {
  }

  lemma BalanceMerge<T>(fired: seq<Entry<T>>, m: seq<Entry<T>>, f: seq<Entry<T>>,
                        deleted: multiset<Entry<T>>, added: multiset<Entry<T>>)
    requires Balanced(fired, m, f, deleted, added)
    ensures Balanced(fired, MergeBatch(m, f), [], deleted, added)
  {
    MergeSorts(m, f);
  }

  lemma BalanceFire<T>(fired: seq<Entry<T>>, m: seq<Entry<T>>, f: seq<Entry<T>>,
                       deleted: multiset<Entry<T>>, added: multiset<Entry<T>>)
    requires Balanced(fired, m, f, deleted, added) && m != []
    ensures Balanced(fired + [m[0]], m[1..], f, deleted, added)
  {
    assert m == [m[0]] + m[1..];
  }

  lemma BalanceDelete<T>(fired: seq<Entry<T>>, a: seq<Entry<T>>, e: Entry<T>, b: seq<Entry<T>>, other: seq<Entry<T>>,
                         deleted: multiset<Entry<T>>, added: multiset<Entry<T>>)
    ensures Balanced(fired, a + [e] + b, other, deleted, added) ==>
              Balanced(fired, a + b, other, deleted + multiset{e}, added)
    ensures Balanced(fired, other, a + [e] + b, deleted, added) ==>
              Balanced(fired, other, a + b, deleted + multiset{e}, added)
  {
    assert multiset(a + [e] + b) == multiset(a) + multiset{e} + multiset(b);
    assert multiset(a + b) == multiset(a) + multiset(b);
  }
}
