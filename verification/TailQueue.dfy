/** Singly linked tail queues: a head that holds the first element and the address of the last link. */
module TailQueue {
  class Elem {
    var next: Elem?

    constructor ()
      ensures next == null
    {
      next := null;
    }
  }

  /** The address of a link: the one in the head, or the one in an element. */
  datatype Address = FirstOf(head: Head) | NextOf(elem: Elem)

  /** What the link of the `i`-th element holds. */
  ghost function After(items: seq<Elem>, i: int): Elem? {
    if 0 <= i + 1 < |items| then items[i + 1] else null
  }

  ghost predicate Distinct(items: seq<Elem>) {
    forall i, j | 0 <= i < j < |items| :: items[i] != items[j]
  }

  ghost predicate Linked(items: seq<Elem>)
    reads items
  {
    forall i | 0 <= i < |items| :: items[i].next == After(items, i)
  }

  /** Where the `i`-th element was before one was put in after the `k`-th. */
  function Before(k: nat, i: int): int { if i <= k then i else i - 1 }

  ghost function Inserted(items: seq<Elem>, k: nat, e: Elem): seq<Elem>
    requires k < |items|
  {
    items[..k + 1] + [e] + items[k + 1..]
  }

  /** Only the last link of a chain is null, and the first element is the one before all. */
  lemma AfterLast(items: seq<Elem>)
    ensures forall i | -1 <= i < |items| :: After(items, i) == null <==> i == |items| - 1
    ensures items != [] ==> After(items, -1) == items[0]
  {
  }

  lemma InsertedLinks(items: seq<Elem>, k: nat, e: Elem)
    requires Distinct(items) && k < |items| && e !in items
    ensures var n := Inserted(items, k, e);
      && Distinct(n) && |n| == |items| + 1 && n[k] == items[k] && n[k + 1] == e && n[0] == items[0]
      && After(n, k) == e && After(n, k + 1) == After(items, k)
      && (forall i | 0 <= i < |n| && i != k && i != k + 1 ::
            n[i] == items[Before(k, i)] && n[i] != items[k] && n[i] != e && After(n, i) == After(items, Before(k, i)))
  {
  }

  ghost function Without(items: seq<Elem>, k: nat): seq<Elem>
    requires k < |items|
  {
    items[..k] + items[k + 1..]
  }

  /** Where the `i`-th element was before the `k`-th was taken out. */
  function Skip(k: nat, i: int): int { if i < k then i else i + 1 }

  lemma WithoutLinks(items: seq<Elem>, k: nat)
    requires Distinct(items) && 0 < k < |items|
    ensures var n := Without(items, k);
      && Distinct(n) && |n| == |items| - 1 && n[k - 1] == items[k - 1] && n[0] == items[0]
      && After(n, k - 1) == After(items, k) && After(items, k - 1) == items[k]
      && (forall i | 0 <= i < |n| && i != k - 1 ::
            n[i] == items[Skip(k, i)] && n[i] != items[k - 1] && After(n, i) == After(items, Skip(k, i)))
  {
  }

  ghost function Kept(items: seq<Elem>, drop: set<Elem>): (r: seq<Elem>) {
    if items == [] then []
    else Kept(items[..|items| - 1], drop) + (if items[|items| - 1] in drop then [] else [items[|items| - 1]])
  }

  /** The queue when a sweep has come to the `i`-th element. */
  ghost function Swept(all: seq<Elem>, drop: set<Elem>, i: nat): seq<Elem>
    requires i <= |all|
  {
    Kept(all[..i], drop) + all[i..]
  }

  lemma SweptEnds(all: seq<Elem>, drop: set<Elem>)
    ensures Swept(all, drop, 0) == all && Swept(all, drop, |all|) == Kept(all, drop)
  {
    assert all[..|all|] == all;
  }

  lemma NextOfSwept(a: seq<Elem>, all: seq<Elem>, i: nat)
    requires i < |all|
    ensures (a + all[i..])[|a|] == all[i] && After(a + all[i..], |a|) == After(all, i)
    ensures Without(a + all[i..], |a|) == a + all[i + 1..] && a + all[i..] == a + [all[i]] + all[i + 1..]
  {
  }

  /** One element further in a sweep. */
  lemma SweptNext(all: seq<Elem>, drop: set<Elem>, i: nat, k: nat)
    requires i < |all| && k == |Kept(all[..i], drop)|
    ensures var now := Swept(all, drop, i);
      && k < |now| && now[k] == all[i] && After(now, k) == After(all, i)
      && Swept(all, drop, i + 1) == if all[i] in drop then Without(now, k) else now
  {
    hide Without, After;
    assert all[..i + 1][..i] == all[..i];
    NextOfSwept(Kept(all[..i], drop), all, i);
  }

  lemma WithoutWithin(items: seq<Elem>, k: nat)
    requires k < |items|
    ensures forall i | 0 <= i < |Without(items, k)| ::
              0 <= Skip(k, i) < |items| && Without(items, k)[i] == items[Skip(k, i)]
  {
  }

  lemma JoinedLinks(a: seq<Elem>, b: seq<Elem>)
    requires Distinct(a) && Distinct(b) && forall e | e in a :: e !in b
    ensures Distinct(a + b)
    ensures forall i | 0 <= i < |a| - 1 :: (a + b)[i] == a[i] && After(a + b, i) == After(a, i) && a[i] != a[|a| - 1]
    ensures a != [] ==> After(a + b, |a| - 1) == After(b, -1)
    ensures forall i | |a| <= i < |a| + |b| ::
              (a + b)[i] == b[i - |a|] && (a + b)[i] !in a && After(a + b, i) == After(b, i - |a|)
    ensures After(a + b, -1) == if a == [] then After(b, -1) else After(a, -1)
  {
    forall i, j | 0 <= i < j < |a + b| ensures (a + b)[i] != (a + b)[j] {
      if i < |a| <= j { assert a[i] in a; }
    }
  }

  lemma ChainLinks(chain: seq<Elem>, rest: seq<Elem>)
    requires Distinct(chain) && Distinct(rest) && chain != [] && forall e | e in chain :: e !in rest
    ensures forall i | 0 <= i < |chain| - 1 :: After(chain + rest, i) == chain[i + 1]
    ensures Distinct(chain + rest) && After(chain + rest, |chain| - 1) == After(rest, -1)
    ensures After(chain + rest, -1) == chain[0] && (After(rest, -1) == null <==> rest == [])
    ensures forall i | 0 <= i < |chain + rest| :: (chain + rest)[i] == chain[|chain| - 1] <==> i == |chain| - 1
    ensures forall i | |chain| <= i < |chain| + |rest| ::
              (chain + rest)[i] == rest[i - |chain|] && After(chain + rest, i) == After(rest, i - |chain|)
  {
    JoinedLinks(chain, rest);
  }

  class Head {
    var first: Elem?
    var last: Address
    ghost var items: seq<Elem>

    ghost function Tail(): Address
      reads this`items
    {
      if items == [] then FirstOf(this) else NextOf(items[|items| - 1])
    }

    /** First and last are the ends of the chain; for an empty queue the last link is the head's own. */
    ghost predicate Valid()
      reads this, items
    {
      Distinct(items) && Linked(items) && first == After(items, -1) && last == Tail()
    }

    constructor ()
      ensures Valid() && items == []
    {
      first, last, items := null, FirstOf(this), [];
    }

    method Init()
      modifies this
      ensures Valid() && items == []
    {
      first, last, items := null, FirstOf(this), [];
    }

    method Empty() returns (r: bool)
      requires Valid()
      ensures r <==> items == []
    {
      r := first == null;
    }

    method InsertHead(e: Elem)
      requires Valid() && e !in items
      modifies this, e`next
      ensures Valid() && items == [e] + old(items)
    {
      e.next := first;
      if e.next == null {
        last := NextOf(e);
      }
      first := e;
      items := [e] + items;
    }

    method InsertTail(e: Elem)
      requires Valid() && e !in items
      modifies this, items, e`next
      ensures Valid() && items == old(items) + [e]
    {
      hide Distinct, After;
      ghost var a := items;
      JoinedLinks(a, [e]);
      AfterLast([e]);
      e.next := null;
      Store(last, e);
      last := NextOf(e);
      items := a + [e];
    }

    method InsertAfter(t: Elem, e: Elem, ghost k: nat)
      requires Valid() && k < |items| && items[k] == t && e !in items
      modifies this, t`next, e`next
      ensures Valid() && items == Inserted(old(items), k, e)
    {
      hide Distinct, After, Inserted;
      InsertedLinks(items, k, e);
      AfterLast(items);
      AfterLast(Inserted(items, k, e));
      e.next := t.next;
      if e.next == null {
        last := NextOf(e);
      }
      t.next := e;
      items := Inserted(items, k, e);
    }

    method RemoveHead()
      requires Valid() && items != []
      modifies this
      ensures Valid() && items == old(items)[1..]
    {
      first := first.next;
      if first == null {
        last := FirstOf(this);
      }
      items := items[1..];
    }

    method RemoveAfter(e: Elem, ghost k: nat)
      requires Valid() && k + 1 < |items| && items[k] == e
      modifies this, e`next
      ensures Valid() && items == Without(old(items), k + 1)
    {
      hide Distinct, After, Without;
      WithoutLinks(items, k + 1);
      AfterLast(items);
      AfterLast(Without(items, k + 1));
      e.next := e.next.next;
      if e.next == null {
        last := NextOf(e);
      }
      items := Without(items, k + 1);
    }

    method Remove(e: Elem, ghost k: nat)
      requires Valid() && k < |items| && items[k] == e
      modifies this, items
      ensures Valid() && items == Without(old(items), k)
    {
      if first == e {
        RemoveHead();
      } else {
        var cur := first;
        ghost var i := 0;
        while cur.next != e
          invariant 0 <= i < k && cur == items[i]
          decreases k - i
        {
          cur := cur.next;
          i := i + 1;
        }
        RemoveAfter(cur, i);
      }
    }

    /** The last link, whichever it is, is made to hold the other queue's first element. */
    method Append(other: Head)
      requires Valid() && other.Valid() && this != other && other.items != []
      requires forall e | e in items :: e !in other.items
      modifies this, items
      ensures Valid() && items == old(items) + other.items
    {
      hide Distinct, After;
      ghost var a, b := items, other.items;
      JoinedLinks(a, b);
      Store(last, other.first);
      forall i | 0 <= i < |a + b| ensures (a + b)[i].next == After(a + b, i) {
        if i >= |a| {
          assert (a + b)[i] == b[i - |a|];
        }
      }
      last := other.last;
      items := a + b;
    }

    /** Put the other queue's elements after this one's, and leave it empty. */
    method Concat(other: Head)
      requires Valid() && other.Valid() && this != other && forall e | e in items :: e !in other.items
      modifies this, other, items
      ensures Valid() && other.Valid() && items == old(items) + old(other.items) && other.items == []
    {
      hide Distinct, After, Linked;
      var empty := other.Empty();
      if !empty {
        Append(other);
        other.Init();
      }
    }

    method Swap(other: Head)
      requires Valid() && other.Valid()
      modifies this, other
      ensures Valid() && other.Valid() && items == old(other.items) && other.items == old(items)
    {
      hide Distinct, After, Linked;
      AfterLast(items);
      AfterLast(other.items);
      var swapFirst, swapLast := first, last;
      ghost var swapItems := items;
      first, last, items := other.first, other.last, other.items;
      other.first, other.last, other.items := swapFirst, swapLast, swapItems;
      if first == null {
        last := FirstOf(this);
      }
      if other.first == null {
        other.last := FirstOf(other);
      }
    }

    /** Put a chain of elements before all others; what its last link held does not matter. */
    method InsertChainHead(head: Elem, tail: Elem, ghost chain: seq<Elem>)
      requires Valid() && chain != [] && head == chain[0] && tail == chain[|chain| - 1]
      requires Distinct(chain) && (forall i | 0 <= i < |chain| - 1 :: chain[i].next == chain[i + 1])
      requires forall e | e in chain :: e !in items
      modifies this, tail`next
      ensures Valid() && items == chain + old(items)
    {
      ghost var rest := items;
      ChainLinks(chain, rest);
      hide Distinct, After;
      tail.next := first;
      if tail.next == null {
        last := NextOf(tail);
      }
      first := head;
      items := chain + rest;
    }

    /** The last element, found from the address of its link. */
    method Last() returns (e: Elem?)
      requires Valid()
      ensures e == if items == [] then null else items[|items| - 1]
    {
      if first == null { return null; }
      e := last.elem;
    }

    /** Walking from the first element along the links meets every element, in order. */
    method Foreach() returns (seen: seq<Elem>)
      requires Valid()
      ensures seen == items
    {
      seen := [];
      var e := first;
      while e != null
        invariant |seen| <= |items| && seen == items[..|seen|] && e == After(items, |seen| - 1)
        decreases |items| - |seen|
      {
        seen := seen + [e];
        e := e.next;
      }
    }

    /** Walking with the next element fetched ahead, so that the one in hand may be removed. */
    method Sweep(drop: set<Elem>)
      requires Valid()
      modifies this, items
      ensures Valid() && items == Kept(old(items), drop)
    {
      hide Distinct, Linked, Without, Kept, Swept;
      ghost var all, i := items, 0;
      SweptEnds(all, drop);
      var e := first;
      while e != null
        invariant Valid() && i <= |all| && e == After(all, i - 1)
        invariant items == Swept(all, drop, i) && (forall k | 0 <= k < |items| :: items[k] in old(items))
        decreases |all| - i
      {
        ghost var k := |Kept(all[..i], drop)|;
        SweptNext(all, drop, i, k);
        var t := Next(e, k);
        if e in drop {
          Remove(e, k);
          WithoutWithin(Swept(all, drop, i), k);
        }
        e := t;
        i := i + 1;
      }
    }

    method Next(e: Elem, ghost k: nat) returns (t: Elem?)
      requires Valid() && k < |items| && items[k] == e
      ensures t == After(items, k)
    {
      t := e.next;
    }

    /** Write through the address of a link. */
    method Store(a: Address, e: Elem?)
      modifies this`first, if a.NextOf? then {a.elem} else {}
      requires a.FirstOf? ==> a.head == this
      ensures a.FirstOf? ==> first == e
      ensures a.NextOf? ==> a.elem.next == e && first == old(first)
    {
      match a {
        case FirstOf(_) => first := e;
        case NextOf(x) => x.next := e;
      }
    }
  }
}
