/** Initialisers that call those they depend on, each run at most once. */
module Initcall {
  /** `deps[o]` are the objects that the initialiser of `o` names, in the order it calls for them. */
  predicate Closed(deps: seq<seq<nat>>) {
    forall o, i | 0 <= o < |deps| && 0 <= i < |deps[o]| :: deps[o][i] < |deps|
  }

  predicate Needs(deps: seq<seq<nat>>, a: nat, b: nat) { a < |deps| && b in deps[a] }

  // ---- Acyclic graphs have a rank ----

  predicate Walk(deps: seq<seq<nat>>, p: seq<nat>) {
    p != [] && forall i | 0 <= i < |p| - 1 :: Needs(deps, p[i], p[i + 1])
  }

  ghost predicate Acyclic(deps: seq<seq<nat>>) {
    forall p | Walk(deps, p) && |p| > 1 :: p[0] != p[|p| - 1]
  }

  /** Every dependency has a smaller rank. */
  predicate Ranked(deps: seq<seq<nat>>, rank: seq<nat>) {
    && |rank| == |deps|
    && forall o, i | 0 <= o < |deps| && 0 <= i < |deps[o]| :: deps[o][i] < |deps| && rank[deps[o][i]] < rank[o]
  }

  function Max(a: nat, b: nat): nat { if a > b then a else b }

  /** One more than the largest height among the first `n` of the dependencies; zero without any. */
  function HeightOver(deps: seq<seq<nat>>, ds: seq<nat>, k: nat): (h: nat)
    decreases k, |ds|
  {
    if ds == [] then 0
    else Max(HeightOver(deps, ds[..|ds| - 1], k), 1 + Height(deps, ds[|ds| - 1], k))
  }

  /** The length of the longest walk from `o` of at most `k` steps. */
  function Height(deps: seq<seq<nat>>, o: nat, k: nat): (h: nat)
    decreases k, 0
  {
    if k == 0 || o >= |deps| then 0 else HeightOver(deps, deps[o], k - 1)
  }

  lemma {:induction false} OverAbove(deps: seq<seq<nat>>, ds: seq<nat>, k: nat, i: nat)
    requires i < |ds|
    ensures HeightOver(deps, ds, k) > Height(deps, ds[i], k)
    decreases |ds|
  {
    if i < |ds| - 1 { OverAbove(deps, ds[..|ds| - 1], k, i); }
  }

  /** A height is reached by a walk. */
  lemma {:induction false} HeightWalk(deps: seq<seq<nat>>, o: nat, k: nat) returns (p: seq<nat>)
    ensures Walk(deps, p) && p[0] == o && |p| == Height(deps, o, k) + 1
    decreases k, 0
  {
    p := [o];
    if Height(deps, o, k) > 0 {
      var d, q := OverWalk(deps, deps[o], k - 1);
      p := [o] + q;
    }
  }

  lemma {:induction false} OverWalk(deps: seq<seq<nat>>, ds: seq<nat>, k: nat) returns (d: nat, p: seq<nat>)
    requires HeightOver(deps, ds, k) > 0
    ensures d in ds && Walk(deps, p) && p[0] == d && |p| == HeightOver(deps, ds, k)
    decreases k, |ds|
  {
    var last := ds[|ds| - 1];
    if HeightOver(deps, ds, k) == 1 + Height(deps, last, k) {
      d := last;
      p := HeightWalk(deps, last, k);
    } else {
      d, p := OverWalk(deps, ds[..|ds| - 1], k);
    }
  }

  /** Among more numbers than there are values, two are the same. */
  lemma {:induction false} Pigeonhole(p: seq<nat>, n: nat) returns (i: nat, j: nat)
    requires |p| > n && forall k | 0 <= k < |p| :: p[k] < n
    ensures i < j < |p| && p[i] == p[j]
    decreases n
  {
    var last := |p| - 1;
    if k :| 0 <= k < last && p[k] == p[last] {
      i, j := k, last;
    } else {
      var q := seq(last, k requires 0 <= k < last => if p[k] == n - 1 then p[last] else p[k]);
      if p[last] == n - 1 {
        i, j := Pigeonhole(p[..last], n - 1);
      } else {
        i, j := Pigeonhole(q, n - 1);
      }
    }
  }

  lemma WalkPart(deps: seq<seq<nat>>, p: seq<nat>, i: nat, j: nat)
    requires Walk(deps, p) && i < j < |p|
    ensures Walk(deps, p[i..j + 1])
  {
    var q := p[i..j + 1];
    forall k | 0 <= k < |q| - 1 ensures Needs(deps, q[k], q[k + 1]) {
      var m := i + k;
      assert Needs(deps, p[m], p[m + 1]);
    }
  }

  /** Without a cycle no walk is longer than the number of objects. */
  lemma ShortWalks(deps: seq<seq<nat>>, p: seq<nat>)
    requires Closed(deps) && Acyclic(deps) && Walk(deps, p) && p[0] < |deps|
    ensures |p| <= |deps|
  {
    if |p| > |deps| {
      WalkInside(deps, p, |p| - 1);
      var i, j := Pigeonhole(p, |deps|);
      WalkPart(deps, p, i, j);
    }
  }

  lemma {:induction false} WalkInside(deps: seq<seq<nat>>, p: seq<nat>, n: nat)
    requires Closed(deps) && Walk(deps, p) && p[0] < |deps| && n < |p|
    ensures forall k | 0 <= k <= n :: p[k] < |deps|
    decreases n
  {
    if n > 0 {
      WalkInside(deps, p, n - 1);
      assert Needs(deps, p[n - 1], p[n - 1 + 1]);
    }
  }

  /** A height that is below the bound on steps does not change with one step fewer. */
  lemma {:induction false} HeightSettles(deps: seq<seq<nat>>, o: nat, k: nat)
    requires k > 0 && Height(deps, o, k) < k
    ensures Height(deps, o, k - 1) == Height(deps, o, k)
    decreases k, 0
  {
    if o < |deps| && k > 1 { OverSettles(deps, deps[o], k - 1); }
    else if o < |deps| { OverZero(deps, deps[o]); }
  }

  lemma OverZero(deps: seq<seq<nat>>, ds: seq<nat>)
    ensures ds != [] ==> HeightOver(deps, ds, 0) > 0
  {
  }

  lemma {:induction false} OverSettles(deps: seq<seq<nat>>, ds: seq<nat>, k: nat)
    requires k > 0 && HeightOver(deps, ds, k) < k + 1
    ensures HeightOver(deps, ds, k - 1) == HeightOver(deps, ds, k)
    decreases k, |ds|
  {
    if ds != [] {
      OverSettles(deps, ds[..|ds| - 1], k);
      HeightSettles(deps, ds[|ds| - 1], k);
    }
  }

  /** So every acyclic graph has a rank, by which the calls end. */
  lemma AcyclicRanked(deps: seq<seq<nat>>) returns (rank: seq<nat>)
    requires Closed(deps) && Acyclic(deps)
    ensures |rank| == |deps| && Ranked(deps, rank)
  {
    hide Height, HeightOver, Walk, Acyclic;
    var n := |deps|;
    rank := seq(n, o requires 0 <= o < n => Height(deps, o, n));
    forall o, i | 0 <= o < n && 0 <= i < |deps[o]| ensures rank[deps[o][i]] < rank[o] {
      RankFalls(deps, o, i);
    }
  }

  lemma RankFalls(deps: seq<seq<nat>>, o: nat, i: nat)
    requires Closed(deps) && Acyclic(deps) && o < |deps| && i < |deps[o]|
    ensures Height(deps, deps[o][i], |deps|) < Height(deps, o, |deps|)
  {
    hide HeightOver, Walk, Acyclic;
    var n, d := |deps|, deps[o][i];
    var p := HeightWalk(deps, d, n);
    ShortWalks(deps, p);
    HeightSettles(deps, d, n);
    OverAbove(deps, deps[o], n - 1, i);
  }

  lemma {:induction false} RankedFalls(deps: seq<seq<nat>>, rank: seq<nat>, p: seq<nat>, n: nat)
    requires Ranked(deps, rank) && Walk(deps, p) && p[0] < |deps| && n < |p|
    ensures p[n] < |deps| && (n > 0 ==> rank[p[n]] < rank[p[0]])
    decreases n
  {
    if n > 0 {
      RankedFalls(deps, rank, p, n - 1);
      assert Needs(deps, p[n - 1], p[n - 1 + 1]);
    }
  }

  /** And only those have one. */
  lemma RankedAcyclic(deps: seq<seq<nat>>, rank: seq<nat>)
    requires Ranked(deps, rank)
    ensures Acyclic(deps)
  {
    forall p | Walk(deps, p) && |p| > 1 ensures p[0] != p[|p| - 1] {
      assert Needs(deps, p[0], p[0 + 1]);
      RankedFalls(deps, rank, p, |p| - 1);
    }
  }

  // ---- What has been run ----

  predicate Distinct(s: seq<nat>) {
    forall i, j | 0 <= i < j < |s| :: s[i] != s[j]
  }

  /** Each object named before it in the finished list. */
  ghost predicate AfterItsOwn(deps: seq<seq<nat>>, finished: seq<nat>) {
    forall i, d | 0 <= i < |finished| && Needs(deps, finished[i], d) :: d in finished[..i]
  }

  /**
   * Nothing was started twice, everything finished was started, and everything finished did so after all
   * it depends on.
   */
  ghost predicate Orderly(deps: seq<seq<nat>>, started: seq<nat>, finished: seq<nat>) {
    && Distinct(started) && Distinct(finished) && AfterItsOwn(deps, finished)
    && (forall o | o in started :: o < |deps|)
    && (forall o | o in finished :: o in started)
  }

  predicate Running(started: seq<nat>, finished: seq<nat>, o: nat) { o in started && o !in finished }

  /** Whatever is still running has a greater rank. */
  ghost predicate AllAbove(started: seq<nat>, finished: seq<nat>, rank: seq<nat>, r: nat) {
    forall o: nat | Running(started, finished, o) :: o < |rank| && rank[o] > r
  }

  ghost predicate Reaches(deps: seq<seq<nat>>, a: nat, b: nat) {
    exists p :: Walk(deps, p) && p[0] == a && p[|p| - 1] == b
  }

  /** What was added to a list can all be reached from `o`. */
  ghost predicate OnlyFrom(deps: seq<seq<nat>>, o: nat, before: seq<nat>, after: seq<nat>) {
    before <= after && forall x | x in after && x !in before :: Reaches(deps, o, x)
  }

  ghost predicate SameRunning(s0: seq<nat>, f0: seq<nat>, s: seq<nat>, f: seq<nat>) {
    forall o: nat :: Running(s0, f0, o) <==> Running(s, f, o)
  }

  lemma ReachesSelf(deps: seq<seq<nat>>, o: nat)
    ensures Reaches(deps, o, o)
  {
    assert Walk(deps, [o]);
  }

  lemma ReachesVia(deps: seq<seq<nat>>, a: nat, b: nat, c: nat)
    requires Needs(deps, a, b) && Reaches(deps, b, c)
    ensures Reaches(deps, a, c)
  {
    var p :| Walk(deps, p) && p[0] == b && p[|p| - 1] == c;
    assert Walk(deps, [a] + p);
  }

  lemma OnlyFromNext(deps: seq<seq<nat>>, o: nat, d: nat, s0: seq<nat>, s1: seq<nat>, s2: seq<nat>)
    requires Needs(deps, o, d) && OnlyFrom(deps, o, s0, s1) && OnlyFrom(deps, d, s1, s2)
    ensures OnlyFrom(deps, o, s0, s2)
  {
    hide Reaches;
    forall x | x in s2 && x !in s0 ensures Reaches(deps, o, x) {
      if x !in s1 { ReachesVia(deps, o, d, x); }
    }
  }

  lemma OnlyFromStart(deps: seq<seq<nat>>, o: nat, s: seq<nat>)
    ensures OnlyFrom(deps, o, s, s + [o])
  {
    ReachesSelf(deps, o);
  }

  lemma StartOrderly(deps: seq<seq<nat>>, s: seq<nat>, f: seq<nat>, o: nat)
    requires Orderly(deps, s, f) && o !in s && o < |deps|
    ensures Orderly(deps, s + [o], f)
  {
  }

  lemma FinishOrderly(deps: seq<seq<nat>>, s: seq<nat>, f: seq<nat>, o: nat)
    requires Orderly(deps, s, f) && Running(s, f, o) && forall d | Needs(deps, o, d) :: d in f
    ensures Orderly(deps, s, f + [o])
  {
    var f' := f + [o];
    forall i, d | 0 <= i < |f'| && Needs(deps, f'[i], d) ensures d in f'[..i] {
      if i < |f| {
        assert f'[..i] == f[..i];
      } else {
        assert f'[..i] == f;
      }
    }
  }

  lemma StartAbove(s: seq<nat>, f: seq<nat>, rank: seq<nat>, o: nat, r: nat)
    requires o < |rank| && AllAbove(s, f, rank, rank[o]) && r < rank[o]
    ensures AllAbove(s + [o], f, rank, r)
  {
    forall x: nat | Running(s + [o], f, x) ensures x < |rank| && rank[x] > r {
      if x != o { assert Running(s, f, x); }
    }
  }

  lemma SameAbove(s0: seq<nat>, f0: seq<nat>, s: seq<nat>, f: seq<nat>, rank: seq<nat>, r: nat)
    requires SameRunning(s0, f0, s, f) && AllAbove(s0, f0, rank, r)
    ensures AllAbove(s, f, rank, r)
  {
  }

  lemma FinishRunning(s0: seq<nat>, f0: seq<nat>, s: seq<nat>, f: seq<nat>, o: nat)
    requires SameRunning(s0 + [o], f0, s, f) && o !in s0
    ensures SameRunning(s0, f0, s, f + [o])
  {
    forall x: nat ensures Running(s0, f0, x) <==> Running(s, f + [o], x) {
      assert Running(s0 + [o], f0, x) <==> Running(s, f, x);
    }
  }

  class Inits {
    const deps: seq<seq<nat>>
    var done: seq<nat>
    ghost var started: seq<nat>
    ghost var finished: seq<nat>

    ghost predicate Counted()
      reads this`done, this`finished
    {
      |done| == |deps| && forall o | 0 <= o < |deps| :: done[o] == if o in finished then 1 else 0
    }

    ghost predicate Valid()
      reads this`done, this`finished, this`started
    {
      Counted() && Closed(deps) && Orderly(deps, started, finished)
    }

    constructor (deps: seq<seq<nat>>)
      requires Closed(deps)
      ensures Valid() && this.deps == deps && started == finished == []
    {
      this.deps, started, finished := deps, [], [];
      done := seq(|deps|, _ => 0);
    }

    /** Run an object unless it has been run; what it depends on is run first, and nothing else. */
    method Run(o: nat, ghost rank: seq<nat>)
      requires Valid() && o < |deps| && Ranked(deps, rank) && AllAbove(started, finished, rank, rank[o])
      modifies this`done, this`finished, this`started
      ensures Valid() && o in finished && old(finished) <= finished && OnlyFrom(deps, o, old(started), started)
      ensures SameRunning(old(started), old(finished), started, finished)
      decreases rank[o], 1
    {
      hide Orderly, Closed, Ranked, OnlyFrom, SameRunning;
      if done[o] == 0 {
        assert !Running(started, finished, o);
        RunBody(o, rank);
        FinishOrderly(deps, started, finished, o);
        FinishRunning(old(started), old(finished), started, finished, o);
        done := done[o := done[o] + 1];
        finished := finished + [o];
      } else {
        NothingNew(deps, o, started, finished);
      }
    }

    /** The initialiser itself: it calls for each object it depends on. */
    method RunBody(o: nat, ghost rank: seq<nat>)
      requires Valid() && o < |deps| && Ranked(deps, rank)
      requires AllAbove(started, finished, rank, rank[o]) && o !in started
      modifies this`done, this`finished, this`started
      ensures Valid() && Running(started, finished, o) && old(finished) <= finished
      ensures OnlyFrom(deps, o, old(started), started) && forall d | Needs(deps, o, d) :: d in finished
      ensures SameRunning(old(started) + [o], old(finished), started, finished)
      decreases rank[o], 0
    {
      hide Orderly, AllAbove, OnlyFrom, SameRunning;
      StartOrderly(deps, started, finished, o);
      NotFinished(deps, started, finished, o);
      OnlyFromStart(deps, o, started);
      NothingNew(deps, o, started + [o], finished);
      started := started + [o];
      for i := 0 to |deps[o]|
        invariant Valid() && old(finished) <= finished && forall k | 0 <= k < i :: deps[o][k] in finished
        invariant OnlyFrom(deps, o, old(started), started)
        invariant SameRunning(old(started) + [o], old(finished), started, finished)
      {
        var d := deps[o][i];
        StartAbove(old(started), old(finished), rank, o, rank[d]);
        SameAbove(old(started) + [o], old(finished), started, finished, rank, rank[d]);
        ghost var s, f := started, finished;
        Run(d, rank);
        OnlyFromNext(deps, o, d, old(started), s, started);
        RunningTogether(old(started) + [o], old(finished), s, f, started, finished);
      }
      StillRunning(old(started), old(finished), started, finished, o);
    }

    /**
     * Start-up: the objects are called for in any order. On every acyclic graph this ends, and what has run
     * is what was called for and all it depends on, each once and after all that it depends on.
     */
    method RunAll(order: seq<nat>)
      requires Valid() && started == finished == [] && Acyclic(deps) && forall o | o in order :: o < |deps|
      modifies this`done, this`finished, this`started
      ensures Distinct(finished) && AfterItsOwn(deps, finished)
      ensures multiset(started) == multiset(finished)
      ensures forall x: nat :: x in finished <==> Wanted(deps, order, x)
    {
      hide Counted, Orderly, Settled, Acyclic, Ranked, AllAbove, OnlyFrom, SameRunning, Wanted, Distinct, AfterItsOwn;
      ghost var rank := AcyclicRanked(deps);
      NothingWanted(deps);
      for i := 0 to |order|
        invariant Valid() && Settled(deps, order[..i], started, finished)
      {
        assert order[i] in order;
        SettledAbove(deps, order[..i], started, finished, rank, order[i]);
        ghost var s, f := started, finished;
        Run(order[i], rank);
        SettledNext(deps, order, i, s, f, started, finished);
      }
      assert order[..|order|] == order;
      SettledMeans(deps, order, started, finished);
    }
  }

  // ---- Start-up ----

  ghost predicate Wanted(deps: seq<seq<nat>>, order: seq<nat>, x: nat) {
    exists r | r in order :: Reaches(deps, r, x)
  }

  /** Nothing is running; all that was called for has finished, and everything started was wanted. */
  ghost predicate Settled(deps: seq<seq<nat>>, order: seq<nat>, s: seq<nat>, f: seq<nat>) {
    && SameRunning([], [], s, f) && (forall o | o in order :: o in f) && (forall x | x in s :: Wanted(deps, order, x))
  }

  lemma NothingWanted(deps: seq<seq<nat>>)
    ensures Settled(deps, [], [], [])
  {
  }

  lemma SettledAbove(deps: seq<seq<nat>>, order: seq<nat>, s: seq<nat>, f: seq<nat>, rank: seq<nat>, o: nat)
    requires Settled(deps, order, s, f) && o < |rank|
    ensures AllAbove(s, f, rank, rank[o])
  {
    forall x: nat ensures !Running(s, f, x) {
      assert !Running([], [], x);
    }
  }

  lemma SettledNext(deps: seq<seq<nat>>, order: seq<nat>, i: nat, s0: seq<nat>, f0: seq<nat>, s: seq<nat>, f: seq<nat>)
    requires i < |order| && Settled(deps, order[..i], s0, f0) && SameRunning(s0, f0, s, f)
    requires order[i] in f && f0 <= f && OnlyFrom(deps, order[i], s0, s)
    ensures Settled(deps, order[..i + 1], s, f)
  {
    hide Reaches;
    assert order[..i + 1] == order[..i] + [order[i]];
    RunningTogether([], [], s0, f0, s, f);
    forall x | x in s ensures Wanted(deps, order[..i + 1], x) {
      if x in s0 {
        var r :| r in order[..i] && Reaches(deps, r, x);
        assert r in order[..i + 1];
      } else {
        assert order[i] in order[..i + 1];
      }
    }
  }

  /** Everything that can be reached from something finished has finished. */
  lemma {:induction false} WalkFinished(deps: seq<seq<nat>>, f: seq<nat>, p: seq<nat>, n: nat)
    requires AfterItsOwn(deps, f) && Walk(deps, p) && p[0] in f && n < |p|
    ensures p[n] in f
    decreases n
  {
    if n > 0 {
      WalkFinished(deps, f, p, n - 1);
      var i :| 0 <= i < |f| && f[i] == p[n - 1];
      assert Needs(deps, p[n - 1], p[n - 1 + 1]);
      assert Needs(deps, f[i], p[n]);
      assert p[n] in f[..i];
    }
  }

  /** Along a walk, what is needed finished earlier and earlier. */
  lemma {:induction false} WalkEarlier(deps: seq<seq<nat>>, f: seq<nat>, p: seq<nat>, i: nat, n: nat) returns (j: nat)
    requires AfterItsOwn(deps, f) && Walk(deps, p) && i < |f| && f[i] == p[0] && n < |p|
    ensures j < |f| && f[j] == p[n] && j + n <= i
    decreases n
  {
    j := i;
    if n > 0 {
      var k := WalkEarlier(deps, f, p, i, n - 1);
      assert Needs(deps, p[n - 1], p[n - 1 + 1]);
      assert Needs(deps, f[k], p[n]);
      j :| 0 <= j < k && f[j] == p[n];
    }
  }

  /** What finished after its own is on no cycle. */
  lemma NoCycleFinished(deps: seq<seq<nat>>, f: seq<nat>, p: seq<nat>)
    requires AfterItsOwn(deps, f) && Walk(deps, p) && |p| > 1 && p[0] == p[|p| - 1]
    ensures p[0] !in f
  {
    if p[0] in f {
      var i := FirstAt(f, p[0]);
      var j := WalkEarlier(deps, f, p, i, |p| - 1);
    }
  }

  lemma {:induction false} FirstAt(f: seq<nat>, x: nat) returns (i: nat)
    requires x in f
    ensures i < |f| && f[i] == x && x !in f[..i]
    decreases |f|
  {
    var n := |f| - 1;
    if x in f[..n] {
      i := FirstAt(f[..n], x);
      assert f[..n][..i] == f[..i];
    } else {
      i := n;
    }
  }

  lemma SettledMeans(deps: seq<seq<nat>>, order: seq<nat>, s: seq<nat>, f: seq<nat>)
    requires Settled(deps, order, s, f) && Orderly(deps, s, f)
    ensures Distinct(f) && AfterItsOwn(deps, f) && multiset(s) == multiset(f)
    ensures forall x: nat :: x in f <==> Wanted(deps, order, x)
  {
    forall x: nat ensures x in f <==> Wanted(deps, order, x) {
      if Wanted(deps, order, x) {
        var r :| r in order && Reaches(deps, r, x);
        var p :| Walk(deps, p) && p[0] == r && p[|p| - 1] == x;
        WalkFinished(deps, f, p, |p| - 1);
      }
    }
    forall x: nat ensures x in s <==> x in f {
      assert !Running([], [], x);
    }
    SameMembers(s, f);
  }

  lemma {:induction false} CountOnce(s: seq<nat>, x: nat)
    requires Distinct(s)
    ensures multiset(s)[x] == if x in s then 1 else 0
    decreases |s|
  {
    if s != [] {
      var t := s[..|s| - 1];
      assert s == t + [s[|s| - 1]];
      CountOnce(t, x);
    }
  }

  lemma SameMembers(s: seq<nat>, f: seq<nat>)
    requires Distinct(s) && Distinct(f) && forall x: nat :: x in s <==> x in f
    ensures multiset(s) == multiset(f)
  {
    forall x: nat ensures multiset(s)[x] == multiset(f)[x] {
      CountOnce(s, x);
      CountOnce(f, x);
    }
  }

  lemma NotFinished(deps: seq<seq<nat>>, s: seq<nat>, f: seq<nat>, o: nat)
    requires Orderly(deps, s, f) && o !in s
    ensures o !in f
  {
  }

  lemma NothingNew(deps: seq<seq<nat>>, o: nat, s: seq<nat>, f: seq<nat>)
    ensures OnlyFrom(deps, o, s, s) && SameRunning(s, f, s, f)
  {
  }

  lemma RunningTogether(s0: seq<nat>, f0: seq<nat>, s1: seq<nat>, f1: seq<nat>, s2: seq<nat>, f2: seq<nat>)
    requires SameRunning(s0, f0, s1, f1) && SameRunning(s1, f1, s2, f2)
    ensures SameRunning(s0, f0, s2, f2)
  {
  }

  lemma StillRunning(s0: seq<nat>, f0: seq<nat>, s: seq<nat>, f: seq<nat>, o: nat)
    requires SameRunning(s0 + [o], f0, s, f) && o !in f0
    ensures Running(s, f, o)
  {
    assert Running(s0 + [o], f0, o);
  }
}
