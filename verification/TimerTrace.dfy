/** What callers and callbacks do with timers, and what becomes of the queues, as values. */
module TimerTrace {
  import opened TimerOrder
  import opened TimerLinks

  /**
   * What a callback does: let time pass, arm a timer unless it is queued, delete one, or re-queue one with a new
   * time. It deletes or re-queues only timers that can be taken out.
   */
  datatype Action = Tick | Arm(timer: Timer, expires: int) | Del(timer: Timer) | Mod(timer: Timer, expires: int)

  ghost predicate Deletes(a: Action, t: Timer) { a.Del? && a.timer == t }

  ghost predicate Moves(a: Action, t: Timer) { (a.Del? || a.Mod?) && a.timer == t }

  /** No action deletes the timer. */
  ghost predicate Spared(actions: seq<Action>, t: Timer) {
    forall i | 0 <= i < |actions| :: !Deletes(actions[i], t)
  }

  /** Some action arms the timer, and none after it deletes it. */
  ghost predicate ArmedIn(actions: seq<Action>, t: Timer) {
    exists i | 0 <= i < |actions| :: actions[i].Arm? && actions[i].timer == t && Spared(actions[i + 1..], t)
  }

  /** Nothing is deleted or re-queued. */
  ghost predicate Gentle(actions: seq<Action>) {
    forall i | 0 <= i < |actions| :: !actions[i].Del? && !actions[i].Mod?
  }

  ghost predicate Named(actions: seq<Action>, t: Timer) {
    exists i | 0 <= i < |actions| :: Moves(actions[i], t)
  }

  ghost predicate NamedBy(callbacks: nat -> seq<Action>, k: nat, t: Timer) {
    exists n: nat | n < k :: Named(callbacks(n), t)
  }

  /**
   * In a pass that fired `pass` out of the queue `q`, the callback of firing `n` armed the timer, no later one
   * deleted it, and it was not in the queue or had fired by then.
   */
  ghost predicate Owed(callbacks: nat -> seq<Action>, pass: seq<Entry<Timer>>, q: seq<Entry<Timer>>, n: nat, t: Timer) {
    && n < |pass| && ArmedIn(callbacks(n), t) && (forall j: nat | n < j < |pass| :: Spared(callbacks(j), t))
    && (!HasItem(q, t) || HasItem(pass[..n + 1], t))
  }

  /** What a program does with the manager: one action of its own, or a pass with the callbacks it runs. */
  datatype Call = Do(action: Action) | Pass(callbacks: nat -> seq<Action>)

  // ---- What an action does ----

  /** The two queues, the clock, and whether all back links are right. */
  datatype View = View(main: seq<Entry<Timer>>, fast: seq<Entry<Timer>>, now: int, exact: bool)

  ghost predicate Has(v: View, t: Timer) { HasItem(v.main, t) || HasItem(v.fast, t) }

  /** The entry has others on both sides. */
  ghost predicate Within(q: seq<Entry<Timer>>, t: Timer) {
    exists k | 0 < k < |q| - 1 :: q[k].item == t
  }

  /** An action, the queues before and after it, and whether it could be done. */
  datatype Deed = Deed(action: Action, before: View, after: View, able: bool)

  /** The timer is out of the queues; back links stay right unless it had others on both sides. */
  ghost predicate TakenFrom(v: View, v': View, t: Timer) {
    && v'.main == Minus(v.main, {t}) && v'.now == v.now
    && (v.exact ==> (v'.exact <==> !Within(v.main, t) && !Within(v.fast, t)))
  }

  /**
   * What an action does. Time goes on by one. An idle timer is armed in front of the fast queue. A timer whose back
   * link is right is deleted, and re-queued in front of the fast queue. While all back links are right that is every
   * queued timer.
   */
  ghost predicate Done(d: Deed) {
    var v, v' := d.before, d.after;
    match d.action
    case Tick => d.able && v' == v.(now := v.now + 1)
    case Arm(t, e) =>
      && (d.able <==> !Has(v, t))
      && (if d.able then v' == v.(fast := [Entry(t, e)] + v.fast, exact := v'.exact) && (v.exact ==> v'.exact)
          else v' == v)
    case Del(t) =>
      && (d.able ==> Has(v, t)) && (v.exact ==> (d.able <==> Has(v, t)))
      && (if d.able then TakenFrom(v, v', t) && v'.fast == Minus(v.fast, {t}) else v' == v)
    case Mod(t, e) =>
      && (v.exact && Has(v, t) ==> d.able)
      && (if d.able then TakenFrom(v, v', t) && v'.fast == [Entry(t, e)] + Minus(v.fast, {t}) else v' == v)
  }

  /** How to see that an action was done. */
  lemma DoneIf(d: Deed, gone: set<Timer>)
    requires d.action.Tick? ==> d.able && d.after == d.before.(now := d.before.now + 1)
    requires !d.action.Tick? ==> d.after.now == d.before.now
    requires d.action.Arm? ==>
               && d.after.main == d.before.main && (d.able <==> !Has(d.before, d.action.timer))
               && d.after.fast == (if d.able then [Entry(d.action.timer, d.action.expires)] else []) + d.before.fast
               && (d.before.exact ==> d.after.exact)
    requires d.action.Del? || d.action.Mod? ==>
               && gone == (if d.able then {d.action.timer} else {}) && d.after.main == Minus(d.before.main, gone)
               && (d.able && d.before.exact ==>
                     (d.after.exact <==>
                      !Within(d.before.main, d.action.timer) && !Within(d.before.fast, d.action.timer)))
               && (d.before.exact && Has(d.before, d.action.timer) ==> d.able)
    requires d.action.Del? ==> d.after.fast == Minus(d.before.fast, gone) && (d.able ==> Has(d.before, d.action.timer))
    requires d.action.Mod? ==>
               d.after.fast
               == (if d.able then [Entry(d.action.timer, d.action.expires)] else []) + Minus(d.before.fast, gone)
    requires !d.able ==> d.after.exact == d.before.exact
    ensures Done(d)
  {
    hide Minus, Has, Within;
    MinusNone(d.before.main, {});
    MinusNone(d.before.fast, {});
  }

  /** Where action `i` of a callback finds things. */
  function DeedFrom(from: View, trail: seq<Deed>, i: nat): View
    requires i <= |trail|
  {
    if i == 0 then from else trail[i - 1].after
  }

  ghost predicate AllDone(actions: seq<Action>, trail: seq<Deed>) {
    |trail| == |actions| && forall i: nat | i < |trail| :: trail[i].action == actions[i] && Done(trail[i])
  }

  ghost predicate DeedsFrom(from: View, trail: seq<Deed>) {
    forall i: nat | i < |trail| :: trail[i].before == DeedFrom(from, trail, i)
  }

  /** The actions of a callback, one after the other. */
  ghost predicate Trail(actions: seq<Action>, from: View, to: View, trail: seq<Deed>) {
    AllDone(actions, trail) && DeedsFrom(from, trail) && to == DeedFrom(from, trail, |trail|)
  }

  // ---- What a pass does ----

  /** The head of the main queue is taken off. */
  ghost predicate Popped(v: View, v': View) {
    && v.main != [] && v' == v.(main := v.main[1..], exact := v'.exact) && (v.exact ==> v'.exact)
  }

  /** One firing: the queues before it, without the head, and after the callback, with all the callback did. */
  datatype Turn = Turn(before: View, popped: View, trail: seq<Deed>, after: View)

  /** A due head fires, and its callback runs. */
  ghost predicate Fires(actions: seq<Action>, firing: Firing, turn: Turn) {
    && Popped(turn.before, turn.popped) && turn.before.main[0].expires <= turn.before.now
    && firing == Firing(turn.before.main[0], turn.before.now)
    && Trail(actions, turn.popped, turn.after, turn.trail)
  }

  function TurnFrom(from: View, turns: seq<Turn>, n: nat): View
    requires n <= |turns|
  {
    if n == 0 then from else turns[n - 1].after
  }

  ghost predicate AllFire(callbacks: nat -> seq<Action>, pass: seq<Firing>, turns: seq<Turn>) {
    |turns| == |pass| && forall n: nat | n < |turns| :: Fires(callbacks(n), pass[n], turns[n])
  }

  ghost predicate OnFrom(from: View, turns: seq<Turn>) {
    forall n: nat | n < |turns| :: turns[n].before == TurnFrom(from, turns, n)
  }

  /** The firings of a pass, one after the other. */
  ghost predicate Passed(callbacks: nat -> seq<Action>, from: View, to: View, pass: seq<Firing>, turns: seq<Turn>) {
    AllFire(callbacks, pass, turns) && OnFrom(from, turns) && to == TurnFrom(from, turns, |turns|)
  }

  lemma TrailNone(v: View)
    ensures Trail([], v, v, [])
  {
  }

  lemma TrailNext(actions: seq<Action>, i: nat, from: View, trail: seq<Deed>, deed: Deed)
    requires i < |actions| && Trail(actions[..i], from, deed.before, trail) && deed.action == actions[i] && Done(deed)
    ensures Trail(actions[..i + 1], from, deed.after, trail + [deed])
  {
    hide AllDone, DeedsFrom;
    AllDoneNext(actions, i, trail, deed);
    DeedsFromNext(from, trail, deed);
  }

  lemma AllDoneNext(actions: seq<Action>, i: nat, trail: seq<Deed>, deed: Deed)
    requires i < |actions| && AllDone(actions[..i], trail) && deed.action == actions[i] && Done(deed)
    ensures AllDone(actions[..i + 1], trail + [deed]) && |trail| == i
  {
    hide Done;
    var trail' := trail + [deed];
    forall k: nat | k < |trail'| ensures trail'[k].action == actions[..i + 1][k] && Done(trail'[k]) {
      if k < i { assert trail'[k] == trail[k] && actions[..i][k] == actions[k]; }
    }
  }

  lemma DeedsFromNext(from: View, trail: seq<Deed>, deed: Deed)
    requires DeedsFrom(from, trail) && deed.before == DeedFrom(from, trail, |trail|)
    ensures DeedsFrom(from, trail + [deed]) && DeedFrom(from, trail + [deed], |trail| + 1) == deed.after
  {
    var trail' := trail + [deed];
    forall k: nat | k < |trail'| ensures trail'[k].before == DeedFrom(from, trail', k) {
      if k < |trail| { assert trail'[k] == trail[k] && (k > 0 ==> trail'[k - 1] == trail[k - 1]); }
    }
  }

  lemma FiresIf(actions: seq<Action>, firing: Firing, turn: Turn)
    requires turn.before.main != [] && turn.before.main[0].expires <= turn.before.now
    requires firing == Firing(turn.before.main[0], turn.before.now)
    requires turn.popped.main == turn.before.main[1..] && turn.popped.fast == turn.before.fast
    requires turn.popped.now == turn.before.now && (turn.before.exact ==> turn.popped.exact)
    requires Trail(actions, turn.popped, turn.after, turn.trail)
    ensures Fires(actions, firing, turn)
  {
    hide Trail;
  }

  lemma PassedNone(callbacks: nat -> seq<Action>, v: View)
    ensures Passed(callbacks, v, v, [], [])
  {
  }

  lemma PassedNext(callbacks: nat -> seq<Action>, from: View, v: View, pass: seq<Firing>, turns: seq<Turn>,
                   firing: Firing, turn: Turn)
    requires Passed(callbacks, from, v, pass, turns) && turn.before == v && Fires(callbacks(|pass|), firing, turn)
    ensures Passed(callbacks, from, turn.after, pass + [firing], turns + [turn])
  {
    hide Fires, AllFire, OnFrom;
    AllFireNext(callbacks, pass, turns, firing, turn);
    OnFromNext(from, turns, turn);
  }

  lemma AllFireNext(callbacks: nat -> seq<Action>, pass: seq<Firing>, turns: seq<Turn>, firing: Firing, turn: Turn)
    requires AllFire(callbacks, pass, turns) && Fires(callbacks(|pass|), firing, turn)
    ensures AllFire(callbacks, pass + [firing], turns + [turn]) && |turns| == |pass|
  {
    hide Fires;
    var pass', turns' := pass + [firing], turns + [turn];
    forall n: nat | n < |turns'| ensures Fires(callbacks(n), pass'[n], turns'[n]) {
      if n < |turns| { assert turns'[n] == turns[n] && pass'[n] == pass[n]; }
    }
  }

  lemma OnFromNext(from: View, turns: seq<Turn>, turn: Turn)
    requires OnFrom(from, turns) && turn.before == TurnFrom(from, turns, |turns|)
    ensures OnFrom(from, turns + [turn]) && TurnFrom(from, turns + [turn], |turns| + 1) == turn.after
  {
    var turns' := turns + [turn];
    forall n: nat | n < |turns'| ensures turns'[n].before == TurnFrom(from, turns', n) {
      if n < |turns| { assert turns'[n] == turns[n] && (n > 0 ==> turns'[n - 1] == turns[n - 1]); }
    }
  }

  /** The new timers have come into the main queue. */
  ghost predicate Merged(v: View, v': View) {
    v' == v.(main := MergeBatch(v.main, v.fast), fast := [], exact := v'.exact) && (v.exact ==> v'.exact)
  }

  lemma MergedIf(v: View, v': View)
    requires v'.main == MergeBatch(v.main, v.fast) && v'.fast == [] && v'.now == v.now && (v.exact ==> v'.exact)
    ensures Merged(v, v')
  {
  }

  // ---- What a program sees ----

  /** What a call did. */
  datatype Step = Did(deed: Deed) | Ran(merged: View, turns: seq<Turn>, to: View)

  /** An action is done; a pass merges, fires what is due, one after the other, and leaves nothing due. */
  ghost predicate Effect(call: Call, step: Step, from: View, to: View, pass: seq<Firing>) {
    match call
    case Do(a) => step.Did? && step.deed == Deed(a, from, to, step.deed.able) && Done(step.deed) && pass == []
    case Pass(callbacks) =>
      && step.Ran? && Merged(from, step.merged) && Passed(callbacks, step.merged, to, pass, step.turns)
      && forall i | 0 <= i < |to.main| :: to.main[i].expires > to.now
  }

  lemma EffectOfAct(deed: Deed)
    requires Done(deed)
    ensures Effect(Do(deed.action), Did(deed), deed.before, deed.after, [])
  {
    hide Done;
  }

  lemma EffectOfPass(callbacks: nat -> seq<Action>, from: View, merged: View, to: View, pass: seq<Firing>,
                     turns: seq<Turn>)
    requires Merged(from, merged) && Passed(callbacks, merged, to, pass, turns)
    requires forall i | 0 <= i < |to.main| :: to.main[i].expires > to.now
    ensures Effect(Pass(callbacks), Ran(merged, turns, to), from, to, pass)
  {
    hide Merged, Passed;
  }

  /** A call's step, the views before and after it, and what fired. */
  datatype Chapter = Chapter(step: Step, before: View, after: View, pass: seq<Firing>)

  function FiredIn(story: seq<Chapter>): seq<Firing> {
    if story == [] then [] else FiredIn(story[..|story| - 1]) + story[|story| - 1].pass
  }

  function ChapterFrom(from: View, story: seq<Chapter>, i: nat): View
    requires i <= |story|
  {
    if i == 0 then from else story[i - 1].after
  }

  ghost predicate AllEffects(calls: seq<Call>, story: seq<Chapter>) {
    && |story| == |calls|
    && forall i: nat | i < |story| ::
         Effect(calls[i], story[i].step, story[i].before, story[i].after, story[i].pass)
  }

  ghost predicate ChaptersFrom(from: View, story: seq<Chapter>) {
    forall i: nat | i < |story| :: story[i].before == ChapterFrom(from, story, i)
  }

  /** The calls had their effects one after the other. */
  ghost predicate Effects(calls: seq<Call>, from: View, to: View, story: seq<Chapter>) {
    AllEffects(calls, story) && ChaptersFrom(from, story) && to == ChapterFrom(from, story, |story|)
  }

  lemma NoEffects(v: View)
    ensures Effects([], v, v, [])
  {
  }

  lemma NoneFiredYet()
    ensures FiredIn([]) == []
  {
  }

  lemma FiredOn(before: seq<Firing>, pass: seq<Firing>, f: seq<Firing>, f': seq<Firing>)
    requires f == before + pass && f <= f'
    ensures f' == before + (pass + f'[|f|..])
  {
  }

  lemma EffectsNext(calls: seq<Call>, i: nat, from: View, story: seq<Chapter>, c: Chapter)
    requires i < |calls| && Effects(calls[..i], from, c.before, story)
    requires Effect(calls[i], c.step, c.before, c.after, c.pass)
    ensures Effects(calls[..i + 1], from, c.after, story + [c]) && FiredIn(story + [c]) == FiredIn(story) + c.pass
  {
    hide AllEffects, ChaptersFrom;
    AllEffectsNext(calls, i, story, c);
    ChaptersFromNext(from, story, c);
    assert (story + [c])[..|story|] == story;
  }

  lemma AllEffectsNext(calls: seq<Call>, i: nat, story: seq<Chapter>, c: Chapter)
    requires i < |calls| && AllEffects(calls[..i], story) && Effect(calls[i], c.step, c.before, c.after, c.pass)
    ensures AllEffects(calls[..i + 1], story + [c])
  {
    hide Effect;
    var story', calls' := story + [c], calls[..i + 1];
    forall k: nat | k < |story'|
      ensures Effect(calls'[k], story'[k].step, story'[k].before, story'[k].after, story'[k].pass)
    {
      if k < i { assert calls[..i][k] == calls'[k] && story'[k] == story[k]; }
    }
  }

  lemma ChaptersFromNext(from: View, story: seq<Chapter>, c: Chapter)
    requires ChaptersFrom(from, story) && c.before == ChapterFrom(from, story, |story|)
    ensures ChaptersFrom(from, story + [c]) && ChapterFrom(from, story + [c], |story| + 1) == c.after
  {
    var story' := story + [c];
    forall k: nat | k < |story'| ensures story'[k].before == ChapterFrom(from, story', k) {
      if k < |story| { assert story'[k] == story[k] && (k > 0 ==> story'[k - 1] == story[k - 1]); }
    }
  }

  // ---- What a deletion in a callback means for the pass ----

  /** What is not in the main queue does not come into it during a pass. */
  lemma DeedKeepsOut(d: Deed, t: Timer)
    requires Done(d) && !HasItem(d.before.main, t)
    ensures !HasItem(d.after.main, t)
  {
    hide Minus, Has, Within;
    if (d.action.Del? || d.action.Mod?) && d.able { MinusWithin(d.before.main, {d.action.timer}); }
  }

  lemma {:induction false} TrailKeepsOut(actions: seq<Action>, from: View, to: View, trail: seq<Deed>, i: nat, t: Timer)
    requires Trail(actions, from, to, trail) && i < |trail| && !HasItem(trail[i].after.main, t)
    ensures !HasItem(to.main, t)
    decreases |trail| - i
  {
    hide Done, HasItem;
    if i + 1 < |trail| {
      assert trail[i + 1].before == DeedFrom(from, trail, i + 1) && Done(trail[i + 1]);
      DeedKeepsOut(trail[i + 1], t);
      TrailKeepsOut(actions, from, to, trail, i + 1, t);
    }
  }

  lemma FiringKeepsOut(actions: seq<Action>, firing: Firing, turn: Turn, t: Timer)
    requires Fires(actions, firing, turn) && !HasItem(turn.before.main, t)
    ensures firing.entry.item != t && !HasItem(turn.after.main, t)
  {
    hide Done, Trail;
    assert turn.before.main[0].item != t;
    TrailIs(actions, turn.popped, turn.after, turn.trail);
    if turn.trail != [] {
      DeedKeepsOut(turn.trail[0], t);
      TrailKeepsOut(actions, turn.popped, turn.after, turn.trail, 0, t);
    }
  }

  lemma TrailIs(actions: seq<Action>, from: View, to: View, trail: seq<Deed>)
    requires Trail(actions, from, to, trail)
    ensures trail == [] ==> to == from
    ensures trail != [] ==> trail[0].before == from && Done(trail[0])
  {
    hide Done;
    if trail != [] { assert trail[0].before == DeedFrom(from, trail, 0) && trail[0].action == actions[0]; }
  }

  lemma TrailAt(actions: seq<Action>, from: View, to: View, trail: seq<Deed>, i: nat)
    requires Trail(actions, from, to, trail) && i < |trail|
    ensures Done(trail[i])
  {
    hide Done;
    assert trail[i].action == actions[i];
  }

  lemma PassedAt(callbacks: nat -> seq<Action>, from: View, to: View, pass: seq<Firing>, turns: seq<Turn>, m: nat)
    requires Passed(callbacks, from, to, pass, turns) && m < |turns|
    ensures |pass| == |turns| && Fires(callbacks(m), pass[m], turns[m])
    ensures m > 0 ==> turns[m].before == turns[m - 1].after
  {
    hide Fires;
    assert turns[m].before == TurnFrom(from, turns, m);
  }

  lemma {:induction false} PassKeepsOut(callbacks: nat -> seq<Action>, from: View, to: View, pass: seq<Firing>,
                                        turns: seq<Turn>, n: nat, m: nat, t: Timer)
    requires Passed(callbacks, from, to, pass, turns) && n < m < |turns| == |pass| && !HasItem(turns[n].after.main, t)
    ensures pass[m].entry.item != t && !HasItem(turns[m].after.main, t)
    decreases m
  {
    hide Fires, HasItem, Passed;
    PassedAt(callbacks, from, to, pass, turns, m);
    if m > n + 1 { PassKeepsOut(callbacks, from, to, pass, turns, n, m - 1, t); }
    FiringKeepsOut(callbacks(m), pass[m], turns[m], t);
  }

  /**
   * A timer that the callback of some firing deletes or re-queues does not fire any more in this pass. Deletion
   * takes it out of both queues; re-queueing leaves it once, in front of the fast queue, with its new time.
   */
  lemma TakenOutStaysOut(callbacks: nat -> seq<Action>, from: View, to: View, pass: seq<Firing>, turns: seq<Turn>,
                         n: nat, i: nat, m: nat)
    requires Passed(callbacks, from, to, pass, turns) && n < m < |turns| == |pass| && i < |turns[n].trail|
    requires var d := turns[n].trail[i]; (d.action.Del? || d.action.Mod?) && d.able
    ensures pass[m].entry.item != turns[n].trail[i].action.timer
  {
    hide Done, HasItem, Passed, Trail;
    var d := turns[n].trail[i];
    PassedAt(callbacks, from, to, pass, turns, n);
    TrailAt(callbacks(n), turns[n].popped, turns[n].after, turns[n].trail, i);
    OutAfter(d);
    TrailKeepsOut(callbacks(n), turns[n].popped, turns[n].after, turns[n].trail, i, d.action.timer);
    PassKeepsOut(callbacks, from, to, pass, turns, n, m, d.action.timer);
  }

  lemma OutAfter(d: Deed)
    requires Done(d) && (d.action.Del? || d.action.Mod?) && d.able
    ensures !HasItem(d.after.main, d.action.timer)
    ensures d.action.Del? ==> !Has(d.after, d.action.timer)
  {
    hide Minus, Within;
    MinusWithin(d.before.main, {d.action.timer});
    MinusWithin(d.before.fast, {d.action.timer});
  }

  /** While all back links are right, whatever a callback deletes was queued and is out, or was not queued. */
  lemma ExactDeletes(d: Deed)
    requires Done(d) && d.action.Del? && d.before.exact
    ensures d.able <==> Has(d.before, d.action.timer)
    ensures !Has(d.after, d.action.timer)
  {
    hide Minus, Within, HasItem;
    if d.able { OutAfter(d); }
  }

  lemma MovesIs(a: Action)
    ensures forall t :: Moves(a, t) <==> (a.Del? || a.Mod?) && a.timer == t
    ensures forall t :: Deletes(a, t) <==> a.Del? && a.timer == t
  {
  }

  /** What one more action adds to what is said about a callback. */
  lemma OneMoreAction(actions: seq<Action>, i: nat)
    requires i < |actions|
    ensures forall t :: Named(actions[..i + 1], t) <==> Named(actions[..i], t) || Moves(actions[i], t)
    ensures forall t :: Spared(actions[..i + 1], t) <==> Spared(actions[..i], t) && !Deletes(actions[i], t)
    ensures forall t ::
              ArmedIn(actions[..i + 1], t)
              <==> (actions[i].Arm? && actions[i].timer == t) || (ArmedIn(actions[..i], t) && !Deletes(actions[i], t))
    ensures Gentle(actions[..i + 1]) <==> Gentle(actions[..i]) && !actions[i].Del? && !actions[i].Mod?
  {
    forall t: Timer
      ensures ArmedIn(actions[..i + 1], t) <==>
              (actions[i].Arm? && actions[i].timer == t) || (ArmedIn(actions[..i], t) && !Deletes(actions[i], t))
    {
      ArmedNext(actions[..i], actions[i], t);
      assert actions[..i + 1] == actions[..i] + [actions[i]];
    }
  }

  lemma SparedNext(s: seq<Action>, a: Action, t: Timer)
    ensures Spared(s + [a], t) <==> Spared(s, t) && !Deletes(a, t)
  {
    assert (s + [a])[|s|] == a;
    forall i | 0 <= i < |s| ensures (s + [a])[i] == s[i] {}
  }

  lemma ArmedNext(s: seq<Action>, a: Action, t: Timer)
    ensures ArmedIn(s + [a], t) <==> (a.Arm? && a.timer == t) || (ArmedIn(s, t) && !Deletes(a, t))
  {
    hide Spared, Deletes;
    var r := s + [a];
    forall i | 0 <= i < |s|
      ensures r[i] == s[i] && (Spared(r[i + 1..], t) <==> Spared(s[i + 1..], t) && !Deletes(a, t))
    {
      assert r[i + 1..] == s[i + 1..] + [a];
      SparedNext(s[i + 1..], a, t);
    }
    if a.Arm? && a.timer == t {
      NoneSpared(t);
      assert r[|s| + 1..] == [];
      assert r[|s|] == a;
    }
    if ArmedIn(s, t) && !Deletes(a, t) {
      var i :| 0 <= i < |s| && s[i].Arm? && s[i].timer == t && Spared(s[i + 1..], t);
      assert r[i].Arm?;
    }
  }

  lemma NamedMore(callbacks: nat -> seq<Action>, n: nat, t: Timer)
    requires NamedBy(callbacks, n, t) || Named(callbacks(n), t)
    ensures NamedBy(callbacks, n + 1, t)
  {
    hide Named;
  }

  lemma NoneOwed(callbacks: nat -> seq<Action>, q: seq<Entry<Timer>>)
    ensures forall n, t :: !Owed(callbacks, Entries([]), q, n, t)
  {
  }

  /** After one more firing a timer is owed by that firing, or as before and spared by it. */
  lemma OwedStep(callbacks: nat -> seq<Action>, pass: seq<Entry<Timer>>, e: Entry<Timer>, q: seq<Entry<Timer>>,
                 n: nat, t: Timer)
    requires Owed(callbacks, pass + [e], q, n, t)
    ensures n < |pass| ==> Owed(callbacks, pass, q, n, t) && Spared(callbacks(|pass|), t)
    ensures n >= |pass| ==>
              n == |pass| && ArmedIn(callbacks(n), t) && (!HasItem(q, t) || HasItem(pass + [e], t))
  {
    hide ArmedIn, Spared, HasItem;
    if n < |pass| {
      assert (pass + [e])[..n + 1] == pass[..n + 1];
    } else {
      assert (pass + [e])[..n + 1] == pass + [e];
    }
  }

  lemma NoneSpared(t: Timer)
    ensures Spared([], t)
  {
  }
}
