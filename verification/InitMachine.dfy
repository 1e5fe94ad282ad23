/** The calls of initialisers as a machine with a stack, on any dependency graph, with cycles or without. */
module InitMachine {
  import opened Initcall

  /** An initialiser at work, and how many of its dependencies it has called for. */
  datatype Frame = Frame(o: nat, i: nat)

  datatype Machine = Machine(stack: seq<Frame>, done: seq<nat>, finished: seq<nat>)

  /** All frames and counters are about objects there are. */
  predicate Fits(deps: seq<seq<nat>>, m: Machine) {
    && Closed(deps) && |m.done| == |deps|
    && (forall j | 0 <= j < |m.stack| :: m.stack[j].o < |deps| && m.stack[j].i <= |deps[m.stack[j].o]|)
    && (forall j | 0 <= j < |m.finished| :: m.finished[j] < |deps|)
  }

  /** Calling for an object starts it unless it is done. */
  function Enter(deps: seq<seq<nat>>, m: Machine, o: nat): (m': Machine)
    requires Fits(deps, m) && o < |deps|
    ensures Fits(deps, m')
  {
    if m.done[o] == 0 then m.(stack := m.stack + [Frame(o, 0)]) else m
  }

  function Advanced(deps: seq<seq<nat>>, m: Machine): (m': Machine)
    requires Fits(deps, m) && m.stack != []
    requires var top := m.stack[|m.stack| - 1]; top.i < |deps[top.o]|
    ensures Fits(deps, m')
  {
    var n := |m.stack| - 1;
    m.(stack := m.stack[..n] + [Frame(m.stack[n].o, m.stack[n].i + 1)])
  }

  function Return(deps: seq<seq<nat>>, m: Machine): (m': Machine)
    requires Fits(deps, m) && m.stack != []
    ensures Fits(deps, m')
  {
    var n := |m.stack| - 1;
    var o := m.stack[n].o;
    Machine(m.stack[..n], m.done[o := m.done[o] + 1], m.finished + [o])
  }

  /** One step: the running initialiser calls for its next dependency, or returns and is counted as done. */
  function Step(deps: seq<seq<nat>>, m: Machine): (m': Machine)
    requires Fits(deps, m)
    ensures Fits(deps, m')
  {
    if m.stack == [] then m
    else
      var top := m.stack[|m.stack| - 1];
      if top.i < |deps[top.o]| then Enter(deps, Advanced(deps, m), deps[top.o][top.i]) else Return(deps, m)
  }

  function Steps(deps: seq<seq<nat>>, m: Machine, k: nat): (m': Machine)
    requires Fits(deps, m)
    ensures Fits(deps, m')
  {
    if k == 0 then m else Step(deps, Steps(deps, m, k - 1))
  }

  // ---- What every run keeps ----

  /** How many of its dependencies a frame knows to be finished: the last one called for may still be at work. */
  function Settled(m: Machine, j: nat): int
    requires j < |m.stack|
  {
    if j == |m.stack| - 1 then m.stack[j].i else m.stack[j].i - 1
  }

  ghost predicate FrameOk(deps: seq<seq<nat>>, m: Machine, j: nat)
    requires Fits(deps, m) && j < |m.stack|
  {
    && (forall k | 0 <= k < Settled(m, j) :: deps[m.stack[j].o][k] in m.finished)
    && (j < |m.stack| - 1 ==> m.stack[j].i > 0 && deps[m.stack[j].o][m.stack[j].i - 1] == m.stack[j + 1].o)
  }

  ghost predicate Counted(m: Machine) {
    forall o | 0 <= o < |m.done| :: m.done[o] != 0 <==> o in m.finished
  }

  ghost predicate Safe(deps: seq<seq<nat>>, m: Machine) {
    && Fits(deps, m) && Counted(m) && AfterItsOwn(deps, m.finished)
    && forall j: nat | j < |m.stack| :: FrameOk(deps, m, j)
  }

  lemma EnterSafe(deps: seq<seq<nat>>, m: Machine, o: nat)
    requires Fits(deps, m) && o < |deps| && Counted(m) && AfterItsOwn(deps, m.finished)
    requires forall j: nat | j < |m.stack| - 1 :: FrameOk(deps, m, j)
    requires m.stack != [] ==>
               var n := |m.stack| - 1;
               && m.stack[n].i > 0 && deps[m.stack[n].o][m.stack[n].i - 1] == o
               && forall k | 0 <= k < m.stack[n].i - 1 :: deps[m.stack[n].o][k] in m.finished
    ensures Safe(deps, Enter(deps, m, o))
  {
    var m' := Enter(deps, m, o);
    forall j: nat | j < |m'.stack| ensures FrameOk(deps, m', j) {
      if j < |m.stack| - 1 { assert FrameOk(deps, m, j); }
    }
  }

  lemma ReturnSafe(deps: seq<seq<nat>>, m: Machine)
    requires Safe(deps, m) && m.stack != []
    requires var top := m.stack[|m.stack| - 1]; top.i == |deps[top.o]|
    ensures Safe(deps, Return(deps, m))
  {
    var n := |m.stack| - 1;
    var o, m' := m.stack[n].o, Return(deps, m);
    assert FrameOk(deps, m, n);
    forall d | Needs(deps, o, d) ensures d in m.finished {
      var k :| 0 <= k < |deps[o]| && deps[o][k] == d;
    }
    FinishesAfter(deps, m.finished, o);
    forall j: nat | j < |m'.stack| ensures FrameOk(deps, m', j) {
      assert FrameOk(deps, m, j);
    }
  }

  lemma FinishesAfter(deps: seq<seq<nat>>, f: seq<nat>, o: nat)
    requires AfterItsOwn(deps, f) && forall d | Needs(deps, o, d) :: d in f
    ensures AfterItsOwn(deps, f + [o])
  {
    var f' := f + [o];
    forall i, d | 0 <= i < |f'| && Needs(deps, f'[i], d) ensures d in f'[..i] {
      if i < |f| {
        assert f'[..i] == f[..i];
      } else {
        assert f'[..i] == f;
      }
    }
  }

  lemma StepSafe(deps: seq<seq<nat>>, m: Machine)
    requires Safe(deps, m)
    ensures Safe(deps, Step(deps, m))
  {
    if m.stack != [] {
      var n := |m.stack| - 1;
      assert FrameOk(deps, m, n);
      if m.stack[n].i < |deps[m.stack[n].o]| {
        var a := Advanced(deps, m);
        forall j: nat | j < |a.stack| - 1 ensures FrameOk(deps, a, j) {
          assert FrameOk(deps, m, j);
        }
        EnterSafe(deps, a, deps[m.stack[n].o][m.stack[n].i]);
      } else {
        ReturnSafe(deps, m);
      }
    }
  }

  /** On every graph and in every run, what has finished did so after all that it depends on. */
  lemma {:induction false} StepsSafe(deps: seq<seq<nat>>, m: Machine, k: nat)
    requires Safe(deps, m)
    ensures Safe(deps, Steps(deps, m, k))
    decreases k
  {
    if k > 0 {
      StepsSafe(deps, m, k - 1);
      StepSafe(deps, Steps(deps, m, k - 1));
    }
  }

  function Idle(deps: seq<seq<nat>>): Machine { Machine([], seq(|deps|, _ => 0), []) }

  lemma IdleSafe(deps: seq<seq<nat>>)
    requires Closed(deps)
    ensures Safe(deps, Idle(deps))
  {
  }

  /** What happens from outside: an object is called for while nothing runs, or the machine takes a step. */
  datatype Event = Call(o: nat) | Tick

  function After(deps: seq<seq<nat>>, m: Machine, e: Event): (m': Machine)
    requires Fits(deps, m)
    ensures Fits(deps, m')
  {
    match e
    case Tick => Step(deps, m)
    case Call(o) => if m.stack == [] && o < |deps| then Enter(deps, m, o) else m
  }

  function Run(deps: seq<seq<nat>>, m: Machine, es: seq<Event>): (m': Machine)
    requires Fits(deps, m)
    ensures Fits(deps, m')
    decreases |es|
  {
    if es == [] then m else After(deps, Run(deps, m, es[..|es| - 1]), es[|es| - 1])
  }

  lemma {:induction false} RunSafe(deps: seq<seq<nat>>, m: Machine, es: seq<Event>)
    requires Fits(deps, m) && Safe(deps, m)
    ensures Safe(deps, Run(deps, m, es))
    decreases |es|
  {
    hide Safe, Step, Enter;
    if es != [] {
      var m' := Run(deps, m, es[..|es| - 1]);
      RunSafe(deps, m, es[..|es| - 1]);
      if es[|es| - 1].Tick? {
        StepSafe(deps, m');
      } else if m'.stack == [] && es[|es| - 1].o < |deps| {
        CallSafe(deps, m', es[|es| - 1].o);
      }
    }
  }

  lemma CallSafe(deps: seq<seq<nat>>, m: Machine, o: nat)
    requires Safe(deps, m) && m.stack == [] && o < |deps|
    ensures Safe(deps, Enter(deps, m, o))
  {
    EnterSafe(deps, m, o);
  }

  // ---- Cycles ----

  ghost predicate Cycle(deps: seq<seq<nat>>, c: seq<nat>) {
    Walk(deps, c) && |c| > 1 && c[0] == c[|c| - 1]
  }

  /** Following dependencies from `o` one can come to a cycle. */
  ghost predicate Doomed(deps: seq<seq<nat>>, o: nat) {
    exists p, c :: Walk(deps, p) && p[0] == o && Cycle(deps, c) && c[0] == p[|p| - 1]
  }

  /** In every run on every graph: what can reach a cycle never finishes. */
  lemma DoomedNeverFinishes(deps: seq<seq<nat>>, m: Machine, o: nat)
    requires Safe(deps, m) && Doomed(deps, o)
    ensures o !in m.finished
  {
    var p, c :| Walk(deps, p) && p[0] == o && Cycle(deps, c) && c[0] == p[|p| - 1];
    NoCycleFinished(deps, m.finished, c);
    if o in m.finished { WalkFinished(deps, m.finished, p, |p| - 1); }
  }

  lemma StepAtBottom(deps: seq<seq<nat>>, m: Machine)
    requires Fits(deps, m) && m.stack != []
    ensures var m', o := Step(deps, m), m.stack[0].o;
      (m'.stack != [] && m'.stack[0].o == o) || o in m'.finished
  {
  }

  /** A call for such an object never returns. */
  lemma {:induction false} DoomedNeverReturns(deps: seq<seq<nat>>, m: Machine, o: nat, k: nat)
    requires Safe(deps, m) && m.stack == [] && o < |deps| && Doomed(deps, o)
    ensures var m' := Steps(deps, Enter(deps, m, o), k); m'.stack != [] && m'.stack[0].o == o
    decreases k
  {
    hide Safe, Step, Doomed;
    CallSafe(deps, m, o);
    StepsSafe(deps, Enter(deps, m, o), k);
    if k == 0 {
      DoomedNotDone(deps, m, o);
    } else {
      DoomedNeverReturns(deps, m, o, k - 1);
      StepAtBottom(deps, Steps(deps, Enter(deps, m, o), k - 1));
      DoomedNeverFinishes(deps, Steps(deps, Enter(deps, m, o), k), o);
    }
  }

  lemma DoomedNotDone(deps: seq<seq<nat>>, m: Machine, o: nat)
    requires Safe(deps, m) && o < |deps| && Doomed(deps, o)
    ensures m.done[o] == 0
  {
    hide Doomed;
    DoomedNeverFinishes(deps, m, o);
  }

  // ---- Nothing finishes twice ----

  ghost predicate Once(m: Machine) {
    Distinct(m.finished) && forall j | 0 <= j < |m.stack| :: m.stack[j].o !in m.finished
  }

  function Objects(m: Machine): (p: seq<nat>)
    ensures |p| == |m.stack| && forall j | 0 <= j < |p| :: p[j] == m.stack[j].o
  {
    seq(|m.stack|, j requires 0 <= j < |m.stack| => m.stack[j].o)
  }

  /** Each running initialiser was called for by the one below it. */
  lemma StackWalks(deps: seq<seq<nat>>, m: Machine)
    requires Safe(deps, m) && m.stack != []
    ensures Walk(deps, Objects(m))
  {
    var p := Objects(m);
    forall j | 0 <= j < |p| - 1 ensures Needs(deps, p[j], p[j + 1]) {
      assert FrameOk(deps, m, j);
    }
  }

  lemma ReturnOnce(deps: seq<seq<nat>>, m: Machine)
    requires Safe(deps, m) && Once(m) && m.stack != []
    requires var top := m.stack[|m.stack| - 1]; top.i == |deps[top.o]|
    ensures Once(Return(deps, m))
  {
    ReturnSafe(deps, m);
    StackWalks(deps, m);
    var n, p, m' := |m.stack| - 1, Objects(m), Return(deps, m);
    forall j | 0 <= j < n ensures p[j] != p[n] {
      if p[j] == p[n] {
        WalkPart(deps, p, j, n);
        NoCycleFinished(deps, m'.finished, p[j..n + 1]);
      }
    }
  }

  lemma EnterOnce(deps: seq<seq<nat>>, m: Machine, o: nat)
    requires Fits(deps, m) && o < |deps| && Counted(m) && Once(m)
    ensures Once(Enter(deps, m, o))
  {
  }

  lemma StepOnce(deps: seq<seq<nat>>, m: Machine)
    requires Safe(deps, m) && Once(m)
    ensures Once(Step(deps, m))
  {
    hide FrameOk, AfterItsOwn;
    if m.stack != [] {
      var top := m.stack[|m.stack| - 1];
      if top.i < |deps[top.o]| {
        EnterOnce(deps, Advanced(deps, m), deps[top.o][top.i]);
      } else {
        ReturnOnce(deps, m);
      }
    }
  }

  /** In every run on every graph each object finishes at most once, and after all that it depends on. */
  lemma {:induction false} EachOnce(deps: seq<seq<nat>>, es: seq<Event>)
    requires Closed(deps)
    ensures var m := Run(deps, Idle(deps), es);
      Safe(deps, m) && Once(m) && Distinct(m.finished) && AfterItsOwn(deps, m.finished)
    decreases |es|
  {
    hide Step, Enter, FrameOk, AfterItsOwn;
    IdleSafe(deps);
    RunSafe(deps, Idle(deps), es);
    if es != [] {
      EachOnce(deps, es[..|es| - 1]);
      var m := Run(deps, Idle(deps), es[..|es| - 1]);
      if es[|es| - 1].Tick? {
        StepOnce(deps, m);
      } else if m.stack == [] && es[|es| - 1].o < |deps| {
        EnterOnce(deps, m, es[|es| - 1].o);
      }
    }
  }

  // ---- Without a cycle in reach every call returns ----

  lemma DoomedBefore(deps: seq<seq<nat>>, o: nat, d: nat)
    requires Needs(deps, o, d) && Doomed(deps, d)
    ensures Doomed(deps, o)
  {
    var p, c :| Walk(deps, p) && p[0] == d && Cycle(deps, c) && c[0] == p[|p| - 1];
    assert Walk(deps, [o] + p);
    assert ([o] + p)[|p|] == c[0];
  }

  lemma ShortFrom(deps: seq<seq<nat>>, p: seq<nat>)
    requires Closed(deps) && Walk(deps, p) && p[0] < |deps| && !Doomed(deps, p[0])
    ensures |p| <= |deps|
  {
    if |p| > |deps| {
      WalkInside(deps, p, |p| - 1);
      var i, j := Pigeonhole(p, |deps|);
      Repeats(deps, p, i, j);
    }
  }

  lemma Repeats(deps: seq<seq<nat>>, p: seq<nat>, i: nat, j: nat)
    requires Walk(deps, p) && i < j < |p| && p[i] == p[j]
    ensures Doomed(deps, p[0])
  {
    WalkPart(deps, p, i, j);
    if i > 0 {
      WalkPart(deps, p, 0, i);
      assert p[0..i + 1][|p[0..i + 1]| - 1] == p[i];
    }
    var q := if i > 0 then p[0..i + 1] else [p[0]];
    assert Walk(deps, q) && q[0] == p[0] && q[|q| - 1] == p[i];
    assert Cycle(deps, p[i..j + 1]);
  }

  function Rank(deps: seq<seq<nat>>, o: nat): nat { Height(deps, o, |deps|) }

  lemma RankFallsFrom(deps: seq<seq<nat>>, o: nat, i: nat)
    requires Closed(deps) && o < |deps| && i < |deps[o]| && !Doomed(deps, o)
    ensures !Doomed(deps, deps[o][i]) && Rank(deps, deps[o][i]) < Rank(deps, o)
  {
    hide HeightOver, Walk, Doomed;
    var n, d := |deps|, deps[o][i];
    assert Needs(deps, o, d);
    if Doomed(deps, d) { DoomedBefore(deps, o, d); }
    var p := HeightWalk(deps, d, n);
    ShortFrom(deps, p);
    HeightSettles(deps, d, n);
    OverAbove(deps, deps[o], n - 1, i);
  }

  lemma {:induction false} StepsJoin(deps: seq<seq<nat>>, m: Machine, a: nat, b: nat)
    requires Fits(deps, m)
    ensures Steps(deps, Steps(deps, m, a), b) == Steps(deps, m, a + b)
    decreases b
  {
    hide Step, Fits;
    if b > 0 { StepsJoin(deps, m, a, b - 1); }
  }

  lemma StepsThen(deps: seq<seq<nat>>, m: Machine, a: nat, b: nat)
    requires Fits(deps, m)
    ensures Steps(deps, m, 1 + a + b) == Steps(deps, Steps(deps, Step(deps, m), a), b)
    ensures Steps(deps, Step(deps, m), 0) == Step(deps, m)
  {
    StepsJoin(deps, Step(deps, m), a, b);
    StepsJoin(deps, m, 1, a + b);
    assert Steps(deps, m, 1) == Step(deps, Steps(deps, m, 0));
  }

  /** The running initialiser comes to its end, and leaves the stack below it as it was. */
  lemma {:induction false} Completes(deps: seq<seq<nat>>, m: Machine, rest: seq<Frame>, o: nat, i: nat) returns (k: nat)
    requires Fits(deps, m) && Safe(deps, m) && m.stack == rest + [Frame(o, i)] && !Doomed(deps, o)
    requires o < |deps| && i <= |deps[o]|
    ensures Steps(deps, m, k).stack == rest && o in Steps(deps, m, k).finished
    decreases Rank(deps, o), |deps[o]| - i
  {
    hide Safe, Doomed, Rank, Fits, Step, Steps;
    StepSafe(deps, m);
    TopFrame(deps, m, rest, o, i);
    if i == |deps[o]| {
      k := 1;
      StepsThen(deps, m, 0, 0);
    } else {
      var d := deps[o][i];
      RankFallsFrom(deps, o, i);
      var m1 := Step(deps, m);
      var a := 0;
      StepsThen(deps, m, 0, 0);
      if m1.stack != rest + [Frame(o, i + 1)] {
        a := Completes(deps, m1, rest + [Frame(o, i + 1)], d, 0);
      }
      StepsSafe(deps, m1, a);
      var b := Completes(deps, Steps(deps, m1, a), rest, o, i + 1);
      StepsThen(deps, m, a, b);
      k := 1 + a + b;
    }
  }

  lemma TopFrame(deps: seq<seq<nat>>, m: Machine, rest: seq<Frame>, o: nat, i: nat)
    requires Safe(deps, m) && m.stack == rest + [Frame(o, i)]
    ensures Closed(deps) && o < |deps| && i <= |deps[o]|
    ensures i == |deps[o]| ==> Step(deps, m).stack == rest && o in Step(deps, m).finished
    ensures i < |deps[o]| ==>
              var s := rest + [Frame(o, i + 1)];
              deps[o][i] < |deps| && (Step(deps, m).stack == s || Step(deps, m).stack == s + [Frame(deps[o][i], 0)])
  {
    assert m.stack[|m.stack| - 1] == Frame(o, i);
    assert m.stack[..|m.stack| - 1] == rest;
  }

  lemma DoneFinished(deps: seq<seq<nat>>, m: Machine, o: nat)
    requires Safe(deps, m) && o < |deps| && m.done[o] != 0
    ensures o in m.finished
  {
  }

  /** In every state that can come about, a call returns if and only if the object cannot reach a cycle. */
  lemma ReturnsIff(deps: seq<seq<nat>>, es: seq<Event>, o: nat)
    requires Closed(deps) && o < |deps| && Run(deps, Idle(deps), es).stack == []
    ensures (exists k :: Steps(deps, Enter(deps, Run(deps, Idle(deps), es), o), k).stack == []) <==> !Doomed(deps, o)
    ensures !Doomed(deps, o) ==>
              exists k ::
                var m := Steps(deps, Enter(deps, Run(deps, Idle(deps), es), o), k);
                m.stack == [] && o in m.finished
  {
    hide Safe, Doomed, Step, Run, Idle;
    IdleSafe(deps);
    RunSafe(deps, Idle(deps), es);
    var m := Run(deps, Idle(deps), es);
    CallSafe(deps, m, o);
    if Doomed(deps, o) {
      forall k: nat ensures Steps(deps, Enter(deps, m, o), k).stack != [] { DoomedNeverReturns(deps, m, o, k); }
    } else if m.done[o] == 0 {
      var k := Completes(deps, Enter(deps, m, o), [], o, 0);
    } else {
      DoneFinished(deps, m, o);
      assert Steps(deps, Enter(deps, m, o), 0).stack == [];
    }
  }
}
