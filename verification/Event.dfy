/**
 The event object of eventapi.cpp: a flag guarded by a mutex and a condition variable.
 Any number of threads run event_wait, event_timedwait, event_set and event_reset; one action
 is what a thread does between two points where another thread may run, and the actions of
 all threads interleave freely. Waits wake up spuriously and time out at any moment.
 */
module Event {
  import opened Wrappers

  type Tid = nat

  /** Where a thread stands. Timed is event_timedwait, ok is `rc == 0`. */
  datatype Pc =
    | Idle
    | WaitEntry(timed: bool)                  // before pthread_mutex_lock
    | WaitTest(timed: bool)                   // at `while (!hevent->state)`
    | Asleep(timed: bool)                     // inside pthread_cond_(timed)wait, mutex released
    | Awake(timed: bool, expired: bool)       // woken, the mutex not yet taken back
    | WaitLeave(ok: bool)                     // behind the loop
    | WaitUnlock(ok: bool)
    | SetEntry | SetStore | SetSignal | SetUnlock
    | ResetEntry | ResetStore | ResetUnlock

  /**
   sets and served count the stores of true and the waits that ended with success.
   mayConsume is the freedom POSIX leaves to pthread_cond_timedwait: a call that times out may
   have consumed a signal directed at it.
   */
  datatype State = State(state: bool, manualReset: bool, owner: Option<Tid>, pc: map<Tid, Pc>,
                         sets: nat, served: nat, mayConsume: bool)

  datatype Action =
    | CallWait(t: Tid, timed: bool) | CallSet(t: Tid) | CallReset(t: Tid)
    | Lock(t: Tid) | Test(t: Tid) | Leave(t: Tid) | Store(t: Tid)
    | Signal(t: Tid, woken: set<Tid>) | Unlock(t: Tid)
    | Spurious(t: Tid) | Timeout(t: Tid) | ConsumingTimeout(t: Tid)

  function At(s: State, t: Tid): Pc {
    if t in s.pc then s.pc[t] else Idle
  }

  predicate InCriticalSection(p: Pc) {
    p.WaitTest? || p.WaitLeave? || p.WaitUnlock? || p.SetStore? || p.SetSignal? || p.SetUnlock? ||
    p.ResetStore? || p.ResetUnlock?
  }

  function Sleepers(s: State): set<Tid> {
    set t | t in s.pc && s.pc[t].Asleep?
  }

  predicate Enabled(s: State, a: Action) {
    var p := At(s, a.t);
    match a
    case CallWait(_, _) => p.Idle?
    case CallSet(_) => p.Idle?
    case CallReset(_) => p.Idle?
    case Lock(_) => s.owner.None? && (p.WaitEntry? || p.SetEntry? || p.ResetEntry? || p.Awake?)
    case Test(_) => p.WaitTest?
    case Leave(_) => p.WaitLeave?
    case Store(_) => p.SetStore? || p.ResetStore?
    case Signal(_, woken) =>
      // broadcast wakes everyone, signal at least one if there is one
      p.SetSignal? && woken <= Sleepers(s) &&
      (if s.manualReset then woken == Sleepers(s) else Sleepers(s) != {} ==> woken != {})
    case Unlock(_) => p.WaitUnlock? || p.SetUnlock? || p.ResetUnlock?
    case Spurious(_) => p.Asleep?
    case Timeout(_) => p.Asleep? && p.timed
    case ConsumingTimeout(_) => s.mayConsume && p.Awake? && p.timed
  }

  function Goto(s: State, t: Tid, p: Pc): State {
    s.(pc := s.pc[t := p])
  }

  function AfterLock(p: Pc): Pc
    requires p.WaitEntry? || p.SetEntry? || p.ResetEntry? || p.Awake?
  {
    match p
    case WaitEntry(timed) => WaitTest(timed)
    case SetEntry => SetStore
    case ResetEntry => ResetStore
    case Awake(timed, expired) => if expired then WaitLeave(false) else WaitTest(timed)
  }

  function Apply(s: State, a: Action): State
    requires Enabled(s, a)
  {
    var p := At(s, a.t);
    match a
    case CallWait(t, timed) => Goto(s, t, WaitEntry(timed))
    case CallSet(t) => Goto(s, t, SetEntry)
    case CallReset(t) => Goto(s, t, ResetEntry)
    case Lock(t) => Goto(s, t, AfterLock(p)).(owner := Some(t))
    case Test(t) => if s.state then Goto(s, t, WaitLeave(true)) else Goto(s, t, Asleep(p.timed)).(owner := None)
    case Leave(t) =>
      Goto(s, t, WaitUnlock(p.ok)).(state := if p.ok && !s.manualReset then false else s.state,
                                    served := if p.ok then s.served + 1 else s.served)
    case Store(t) =>
      if p.SetStore? then Goto(s, t, SetSignal).(state := true, sets := s.sets + 1)
      else Goto(s, t, ResetUnlock).(state := false)
    case Signal(t, woken) =>
      s.(pc := map u | u in s.pc :: if u == t then SetUnlock
                                    else if u in woken && s.pc[u].Asleep? then Awake(s.pc[u].timed, false)
                                    else s.pc[u])
    case Unlock(t) => Goto(s, t, Idle).(owner := None)
    case Spurious(t) => Goto(s, t, Awake(p.timed, false))
    case Timeout(t) => Goto(s, t, Awake(true, true))
    case ConsumingTimeout(t) => Goto(s, t, Awake(true, true))
  }

  // ------------------------------------------------ runs

  predicate Initial(s: State, manualReset: bool, initState: bool, mayConsume: bool) {
    s == State(initState, manualReset, None, map[], 0, 0, mayConsume)
  }

  ghost predicate IsRun(run: seq<State>, actions: seq<Action>) {
    |run| == |actions| + 1 &&
    forall i | 0 <= i < |actions| :: Enabled(run[i], actions[i]) && run[i + 1] == Apply(run[i], actions[i])
  }

  // ------------------------------------------------ what every step keeps

  /** The owner is the one thread inside a critical section, and a wait about to succeed sees the flag set. */
  ghost predicate MutexInv(s: State) {
    (forall t | t in s.pc :: InCriticalSection(s.pc[t]) <==> s.owner == Some(t)) &&
    (s.owner.Some? ==> s.owner.value in s.pc) &&
    (forall t | t in s.pc && s.pc[t] == WaitLeave(true) :: s.state)
  }

  /** t is going to look at the flag again, or has just seen it set. */
  predicate WillLook(p: Pc) {
    p.WaitTest? || p == WaitLeave(true) || (p.Awake? && !p.expired)
  }

  ghost predicate WakeupInv(s: State) {
    s.state && Sleepers(s) != {} ==>
      (s.owner.Some? && s.owner.value in s.pc && s.pc[s.owner.value].SetSignal?) ||
      (!s.manualReset && exists u | u in s.pc :: WillLook(s.pc[u]))
  }

  lemma MutexInvKept(s: State, a: Action)
    requires MutexInv(s) && Enabled(s, a)
    ensures MutexInv(Apply(s, a))
  {
  }

  lemma ParametersKept(s: State, a: Action)
    requires Enabled(s, a)
    ensures Apply(s, a).manualReset == s.manualReset && Apply(s, a).mayConsume == s.mayConsume
  {
  }

  /** No thread is inside event_timedwait. */
  ghost predicate NoneTimed(s: State) {
    forall t | t in s.pc :: !IsTimed(s.pc[t])
  }

  predicate IsTimed(p: Pc) {
    (p.WaitEntry? || p.WaitTest? || p.Asleep? || p.Awake?) && p.timed
  }

  /** Without a call of event_timedwait nobody gets inside it. */
  lemma NoneTimedKept(s: State, a: Action)
    requires NoneTimed(s) && Enabled(s, a) && !(a.CallWait? && a.timed)
    ensures NoneTimed(Apply(s, a))
  {
  }

  lemma StoreKeepsWakeups(s: State, a: Action)
    requires MutexInv(s) && Enabled(s, a) && a.Store?
    ensures WakeupInv(Apply(s, a))
  {
  }

  /** A signal wakes every sleeper of a manual-reset event, and otherwise at least one, which will look. */
  lemma SignalKeepsWakeups(s: State, a: Action)
    requires Enabled(s, a) && a.Signal?
    ensures WakeupInv(Apply(s, a))
  {
    var r := Apply(s, a);
    if Sleepers(r) != {} {
      var sleeper :| sleeper in Sleepers(r);
      assert sleeper in Sleepers(s) && sleeper !in a.woken;
      var u :| u in a.woken;
      assert u in Sleepers(s) && WillLook(r.pc[u]);
    }
  }

  /** Whoever is about to look still is, as long as the flag stays set and no timeout swallows the wakeup. */
  lemma LookerStays(s: State, a: Action, u: Tid)
    requires MutexInv(s) && Enabled(s, a) && u in s.pc && WillLook(s.pc[u])
    requires !s.manualReset && (!s.mayConsume || NoneTimed(s)) && Apply(s, a).state && Sleepers(Apply(s, a)) != {}
    ensures u in Apply(s, a).pc && WillLook(Apply(s, a).pc[u])
  {
  }

  lemma SignallerStays(s: State, a: Action)
    requires MutexInv(s) && Enabled(s, a) && !a.Signal?
    requires s.owner.Some? && s.owner.value in s.pc && s.pc[s.owner.value].SetSignal?
    ensures var r := Apply(s, a); r.owner == s.owner && s.owner.value in r.pc && r.pc[s.owner.value].SetSignal?
  {
  }

  lemma NoSleeperFromNowhere(s: State, a: Action)
    requires Enabled(s, a) && !a.Store? && !a.Signal? && Apply(s, a).state && Sleepers(Apply(s, a)) != {}
    ensures s.state && Sleepers(s) != {}
  {
    var sleeper :| sleeper in Sleepers(Apply(s, a));
    assert sleeper in Sleepers(s);
  }

  /** The condition survives every step, as long as no timeout can swallow a signal. */
  lemma WakeupInvKept(s: State, a: Action)
    requires MutexInv(s) && WakeupInv(s) && Enabled(s, a)
    requires s.manualReset || !s.mayConsume || NoneTimed(s)
    ensures WakeupInv(Apply(s, a))
  {
    hide Apply, Enabled, MutexInv, NoneTimed, WillLook, Sleepers;
    ParametersKept(s, a);
    if a.Store? {
      StoreKeepsWakeups(s, a);
    } else if a.Signal? {
      SignalKeepsWakeups(s, a);
    } else if Apply(s, a).state && Sleepers(Apply(s, a)) != {} {
      NoSleeperFromNowhere(s, a);
      if s.owner.Some? && s.owner.value in s.pc && s.pc[s.owner.value].SetSignal? {
        SignallerStays(s, a);
      } else {
        var u :| u in s.pc && WillLook(s.pc[u]);
        LookerStays(s, a, u);
      }
    }
  }

  /** No lost wakeup: with nobody in a critical section, a set event leaves no waiter asleep for good. */
  ghost predicate Good(s: State) {
    s.owner.None? && s.state && Sleepers(s) != {} ==>
      !s.manualReset && exists u | u in s.pc :: s.pc[u].Awake? && !s.pc[u].expired
  }

  lemma InvGivesGood(s: State)
    requires MutexInv(s) && WakeupInv(s)
    ensures Good(s)
  {
    if s.owner.None? && s.state && Sleepers(s) != {} {
      var u :| u in s.pc && WillLook(s.pc[u]);
      assert s.pc[u].Awake?;
    }
  }

  lemma {:induction false} RunKeeps(run: seq<State>, actions: seq<Action>, i: nat)
    requires IsRun(run, actions) && i <= |actions|
    requires MutexInv(run[0])
    ensures MutexInv(run[i])
    ensures run[i].manualReset == run[0].manualReset && run[i].mayConsume == run[0].mayConsume
  {
    hide Apply, Enabled, MutexInv, WakeupInv, NoneTimed;
    if i > 0 {
      RunKeeps(run, actions, i - 1);
      MutexInvKept(run[i - 1], actions[i - 1]);
      ParametersKept(run[i - 1], actions[i - 1]);
    }
  }

  /** No call of event_timedwait among the actions. */
  ghost predicate Untimed(actions: seq<Action>) {
    forall i | 0 <= i < |actions| :: !(actions[i].CallWait? && actions[i].timed)
  }

  lemma {:induction false} UntimedRunKeeps(run: seq<State>, actions: seq<Action>, i: nat)
    requires IsRun(run, actions) && i <= |actions| && Untimed(actions) && NoneTimed(run[0])
    ensures NoneTimed(run[i])
  {
    hide Apply, Enabled, MutexInv, WakeupInv, NoneTimed;
    if i > 0 {
      UntimedRunKeeps(run, actions, i - 1);
      NoneTimedKept(run[i - 1], actions[i - 1]);
    }
  }

  lemma {:induction false} RunKeepsWakeups(run: seq<State>, actions: seq<Action>, i: nat)
    requires IsRun(run, actions) && i <= |actions|
    requires MutexInv(run[0]) && WakeupInv(run[0]) && NoneTimed(run[0])
    requires run[0].manualReset || !run[0].mayConsume || Untimed(actions)
    ensures WakeupInv(run[i])
  {
    hide Apply, Enabled, MutexInv, WakeupInv, NoneTimed;
    if i > 0 {
      RunKeepsWakeups(run, actions, i - 1);
      RunKeeps(run, actions, i - 1);
      if Untimed(actions) {
        UntimedRunKeeps(run, actions, i - 1);
      }
      WakeupInvKept(run[i - 1], actions[i - 1]);
    }
  }

  /**
   Every state of every run from a fresh event is good; timed says whether the callers use
   event_timedwait at all.
   */
  ghost predicate NeverLosesWakeup(manualReset: bool, initState: bool, mayConsume: bool, timed: bool) {
    forall run: seq<State>, actions: seq<Action> |
      IsRun(run, actions) && Initial(run[0], manualReset, initState, mayConsume) && (timed || Untimed(actions)) ::
      Good(run[|actions|])
  }

  lemma NoLostWakeup(manualReset: bool, initState: bool, mayConsume: bool, timed: bool)
    requires manualReset || !mayConsume || !timed
    ensures NeverLosesWakeup(manualReset, initState, mayConsume, timed)
  {
    forall run: seq<State>, actions: seq<Action> |
      IsRun(run, actions) && Initial(run[0], manualReset, initState, mayConsume) && (timed || Untimed(actions))
      ensures Good(run[|actions|])
    {
      RunKeeps(run, actions, |actions|);
      RunKeepsWakeups(run, actions, |actions|);
      InvGivesGood(run[|actions|]);
    }
  }

  /** Adding one enabled action to a run. */
  lemma Extend(run: seq<State>, actions: seq<Action>, a: Action)
    returns (run': seq<State>, actions': seq<Action>)
    requires IsRun(run, actions) && Enabled(run[|actions|], a)
    ensures IsRun(run', actions') && run'[0] == run[0]
    ensures run'[|actions'|] == Apply(run[|actions|], a)
  {
    run', actions' := run + [Apply(run[|actions|], a)], actions + [a];
  }

  /** Thread t waits on a clear event and falls asleep. */
  lemma FallsAsleep(run: seq<State>, actions: seq<Action>, t: Tid, timed: bool)
    returns (run': seq<State>, actions': seq<Action>)
    requires IsRun(run, actions)
    requires var s := run[|actions|]; s.owner.None? && !s.state && At(s, t).Idle?
    ensures IsRun(run', actions') && run'[0] == run[0]
    ensures run'[|actions'|] == Goto(run[|actions|], t, Asleep(timed))
  {
    run', actions' := Extend(run, actions, CallWait(t, timed));
    run', actions' := Extend(run', actions', Lock(t));
    run', actions' := Extend(run', actions', Test(t));
  }

  /** Thread t clears the event. */
  lemma Clears(run: seq<State>, actions: seq<Action>, t: Tid)
    returns (run': seq<State>, actions': seq<Action>)
    requires IsRun(run, actions)
    requires var s := run[|actions|]; s.owner.None? && At(s, t).Idle?
    ensures IsRun(run', actions') && run'[0] == run[0]
    ensures run'[|actions'|] == Goto(run[|actions|], t, Idle).(state := false)
  {
    run', actions' := Extend(run, actions, CallReset(t));
    run', actions' := Extend(run', actions', Lock(t));
    run', actions' := Extend(run', actions', Store(t));
    run', actions' := Extend(run', actions', Unlock(t));
  }

  /** Thread t sets an auto-reset event and is about to signal. */
  lemma Sets(run: seq<State>, actions: seq<Action>, t: Tid)
    returns (run': seq<State>, actions': seq<Action>)
    requires IsRun(run, actions)
    requires var s := run[|actions|]; s.owner.None? && At(s, t).Idle?
    ensures IsRun(run', actions') && run'[0] == run[0]
    ensures var s := run[|actions|];
            run'[|actions'|] == Goto(s, t, SetSignal).(state := true, owner := Some(t), sets := s.sets + 1)
  {
    run', actions' := Extend(run, actions, CallSet(t));
    run', actions' := Extend(run', actions', Lock(t));
    run', actions' := Extend(run', actions', Store(t));
  }

  /** Thread 2 signals thread 0, whose wait times out at that moment; thread 1 sleeps on. */
  lemma SignalSwallowed(run: seq<State>, actions: seq<Action>)
    returns (run': seq<State>, actions': seq<Action>)
    requires IsRun(run, actions)
    requires var s := run[|actions|];
             !s.manualReset && s.mayConsume && s.state &&
             s.pc == map[0 := Asleep(true), 1 := Asleep(false), 2 := SetSignal]
    ensures IsRun(run', actions') && run'[0] == run[0]
    ensures !Good(run'[|actions'|])
  {
    assert Sleepers(run[|actions|]) == {0, 1};
    run', actions' := Extend(run, actions, Signal(2, {0}));
    run', actions' := Extend(run', actions', ConsumingTimeout(0));
    run', actions' := Extend(run', actions', Unlock(2));
    assert 1 in Sleepers(run'[|actions'|]);
  }

  /**
   The run that loses a wakeup when a timeout may consume a signal: thread 0 waits with a
   timeout and thread 1 without, and the signal of thread 2's set is swallowed. The event
   stays set and thread 1 stays asleep.
   */
  lemma LostWakeup(initState: bool) returns (run: seq<State>, actions: seq<Action>)
    ensures IsRun(run, actions) && Initial(run[0], false, initState, true)
    ensures !Good(run[|actions|])
  {
    run, actions := [State(initState, false, None, map[], 0, 0, true)], [];
    run, actions := Clears(run, actions, 2);
    run, actions := FallsAsleep(run, actions, 0, true);
    run, actions := FallsAsleep(run, actions, 1, false);
    run, actions := Sets(run, actions, 2);
    run, actions := SignalSwallowed(run, actions);
  }

  /** When the protocol never loses a wakeup on a given platform, exactly. */
  lemma NoLostWakeupExactly(manualReset: bool, initState: bool, mayConsume: bool, timed: bool)
    ensures NeverLosesWakeup(manualReset, initState, mayConsume, timed) <==> manualReset || !mayConsume || !timed
  {
    if manualReset || !mayConsume || !timed {
      NoLostWakeup(manualReset, initState, mayConsume, timed);
    } else {
      var run, actions := LostWakeup(initState);
      assert !Good(run[|actions|]);
    }
  }

  /**
   What callers can rely on under POSIX, whatever a timed-out wait does to a signal: no wakeup
   is lost exactly when the event is manual-reset or nobody uses event_timedwait.
   */
  lemma NoLostWakeupForCallersExactly(manualReset: bool, initState: bool, timed: bool)
    ensures (forall mayConsume :: NeverLosesWakeup(manualReset, initState, mayConsume, timed)) <==>
            manualReset || !timed
  {
    NoLostWakeupExactly(manualReset, initState, false, timed);
    NoLostWakeupExactly(manualReset, initState, true, timed);
  }

  // ------------------------------------------------ conservation of signals

  function Unit(b: bool): nat {
    if b then 1 else 0
  }

  lemma StepConserves(s: State, a: Action)
    requires MutexInv(s) && Enabled(s, a) && !s.manualReset
    ensures var r := Apply(s, a);
            r.served + Unit(r.state) - s.served - Unit(s.state) <= r.sets - s.sets &&
            (s.served < r.served ==> s.state && !r.state)
  {
  }

  /** Between any two points of a run, an auto-reset event serves no more waits than it was set. */
  lemma {:induction false} SignalsConserved(run: seq<State>, actions: seq<Action>, i: nat, j: nat)
    requires IsRun(run, actions) && i <= j <= |actions|
    requires MutexInv(run[0]) && !run[0].manualReset
    ensures run[j].served + Unit(run[j].state) - run[i].served <= run[j].sets - run[i].sets + Unit(run[i].state)
    decreases j
  {
    if i < j {
      SignalsConserved(run, actions, i, j - 1);
      RunKeeps(run, actions, j - 1);
      StepConserves(run[j - 1], actions[j - 1]);
    }
  }

  /** The whole-run form: what was served and what is pending was set, or set at creation. */
  lemma SignalsConservedFromStart(run: seq<State>, actions: seq<Action>, initState: bool, mayConsume: bool)
    requires IsRun(run, actions) && Initial(run[0], false, initState, mayConsume)
    ensures var s := run[|actions|]; s.served + Unit(s.state) <= s.sets + Unit(initState)
  {
    SignalsConserved(run, actions, 0, |actions|);
  }

  /** One set never releases two waits: a stretch without a set serves at most one. */
  lemma NoSetServesTwice(run: seq<State>, actions: seq<Action>, i: nat, j: nat)
    requires IsRun(run, actions) && i <= j <= |actions|
    requires MutexInv(run[0]) && !run[0].manualReset
    requires run[j].sets == run[i].sets
    ensures run[j].served <= run[i].served + Unit(run[i].state)
  {
    SignalsConserved(run, actions, i, j);
  }

  // ------------------------------------------------ one whole wait

  /** Steps i to j of a run are one call of event_wait or event_timedwait by t, with anything in between. */
  ghost predicate WaitCall(actions: seq<Action>, i: nat, j: nat, t: Tid) {
    i < j < |actions| && actions[i].CallWait? && actions[i].t == t && actions[j] == Unlock(t) &&
    forall k | i < k < j :: actions[k] != Unlock(t)
  }

  predicate BeforeLeave(p: Pc) {
    p.WaitEntry? || p.WaitTest? || p.Asleep? || p.Awake? || p.WaitLeave?
  }

  /** A step that leaves the flag and the counts alone. */
  predicate Neutral(s: State, r: State) {
    r.state == s.state && r.served == s.served && r.sets == s.sets
  }

  /** Leaving the loop is the one step of a wait that can touch the flag, and only a success does. */
  predicate Leaves(s: State, r: State, ok: bool) {
    if ok then s.state && r.served == s.served + 1 && r.sets == s.sets && r.state == s.manualReset else Neutral(s, r)
  }

  /** The call up to position q: still before its leaving step, all own steps neutral, or behind it. */
  ghost predicate WaitSoFar(run: seq<State>, actions: seq<Action>, i: nat, q: nat, t: Tid, left: Option<nat>)
    requires |run| == |actions| + 1 && i < q <= |actions|
  {
    (forall x | i <= x < q && actions[x].t == t && left != Some(x) :: Neutral(run[x], run[x + 1])) &&
    if left.None? then BeforeLeave(At(run[q], t))
    else i < left.value < q && actions[left.value] == Leave(t) && At(run[q], t).WaitUnlock? &&
         Leaves(run[left.value], run[left.value + 1], At(run[q], t).ok)
  }

  /** One step of anyone, seen from a thread inside a wait. */
  lemma StepInWait(s: State, a: Action, t: Tid)
    requires MutexInv(s) && Enabled(s, a) && a != Unlock(t)
    requires BeforeLeave(At(s, t)) || At(s, t).WaitUnlock?
    ensures var r := Apply(s, a);
            if a == Leave(t)
            then At(s, t).WaitLeave? && At(r, t).WaitUnlock? && Leaves(s, r, At(r, t).ok)
            else (a.t == t ==> Neutral(s, r)) &&
                 if BeforeLeave(At(s, t)) then BeforeLeave(At(r, t)) else At(r, t) == At(s, t)
  {
  }

  lemma WaitAdvances(run: seq<State>, actions: seq<Action>, i: nat, q: nat, t: Tid, left: Option<nat>)
    returns (left': Option<nat>)
    requires IsRun(run, actions) && i < q < |actions| && MutexInv(run[q]) && actions[q] != Unlock(t)
    requires WaitSoFar(run, actions, i, q, t, left)
    ensures WaitSoFar(run, actions, i, q + 1, t, left')
  {
    hide Apply, Enabled, MutexInv, At, Leaves, Neutral;
    assert Enabled(run[q], actions[q]) && run[q + 1] == Apply(run[q], actions[q]);
    StepInWait(run[q], actions[q], t);
    left' := if actions[q] == Leave(t) then Some(q) else left;
  }

  lemma EntersWait(run: seq<State>, actions: seq<Action>, i: nat, t: Tid)
    requires IsRun(run, actions) && i < |actions| && actions[i].CallWait? && actions[i].t == t
    ensures WaitSoFar(run, actions, i, i + 1, t, None)
  {
    assert Enabled(run[i], actions[i]) && run[i + 1] == Apply(run[i], actions[i]);
  }

  lemma {:induction false} WaitProgress(run: seq<State>, actions: seq<Action>, i: nat, j: nat, t: Tid, q: nat)
    returns (left: Option<nat>)
    requires IsRun(run, actions) && MutexInv(run[0]) && WaitCall(actions, i, j, t) && i < q <= j
    ensures WaitSoFar(run, actions, i, q, t, left)
    decreases q
  {
    hide IsRun, MutexInv, WaitSoFar;
    if q == i + 1 {
      EntersWait(run, actions, i, t);
      left := None;
    } else {
      var before := WaitProgress(run, actions, i, j, t, q - 1);
      RunKeeps(run, actions, q - 1);
      left := WaitAdvances(run, actions, i, q - 1, t, before);
    }
  }

  /**
   A whole wait, over any interleaving: none of its own steps touches the flag or the counts
   but the one that leaves the loop; if the wait succeeds that step finds the flag set, counts
   one served wait and clears an auto-reset event, and if it times out it changes nothing.
   */
  lemma WaitTakesOneSignalOrNone(run: seq<State>, actions: seq<Action>, i: nat, j: nat, t: Tid) returns (k: nat)
    requires IsRun(run, actions) && MutexInv(run[0]) && WaitCall(actions, i, j, t)
    ensures i < k < j && actions[k] == Leave(t) && At(run[j], t).WaitUnlock?
    ensures Leaves(run[k], run[k + 1], At(run[j], t).ok)
    ensures forall x | i <= x <= j && actions[x].t == t && x != k :: Neutral(run[x], run[x + 1])
  {
    hide MutexInv, Leaves;
    var left := WaitProgress(run, actions, i, j, t, j);
    assert Enabled(run[j], actions[j]) && run[j + 1] == Apply(run[j], actions[j]);
    k := left.value;
  }

  /** A wait that reports a timeout consumes nothing, from its call to its return. */
  lemma TimeoutConsumesNothing(run: seq<State>, actions: seq<Action>, i: nat, j: nat, t: Tid)
    requires IsRun(run, actions) && MutexInv(run[0]) && WaitCall(actions, i, j, t)
    requires At(run[j], t) == WaitUnlock(false)
    ensures forall x | i <= x <= j && actions[x].t == t :: Neutral(run[x], run[x + 1])
  {
    var k := WaitTakesOneSignalOrNone(run, actions, i, j, t);
  }

  /** The end of t's sleep that makes its wait report a timeout. */
  predicate IsTimeoutOf(a: Action, t: Tid) {
    a == Timeout(t) || a == ConsumingTimeout(t)
  }

  /** A timeout of t among the actions from i up to q. */
  ghost predicate TimedOutIn(actions: seq<Action>, i: nat, q: nat, t: Tid) {
    exists k :: i < k < q && k < |actions| && IsTimeoutOf(actions[k], t)
  }

  /** Where a thread inside a wait stands, given whether its sleep has timed out. */
  predicate PlaceFits(p: Pc, out: bool) {
    match p
    case WaitEntry(_) => !out
    case WaitTest(_) => !out
    case Asleep(_) => !out
    case Awake(_, expired) => expired == out
    case WaitLeave(ok) => ok == !out
    case WaitUnlock(ok) => ok == !out
    case _ => false
  }

  lemma StepFits(s: State, a: Action, t: Tid, out: bool)
    requires MutexInv(s) && Enabled(s, a) && a != Unlock(t) && PlaceFits(At(s, t), out)
    ensures PlaceFits(At(Apply(s, a), t), out || IsTimeoutOf(a, t))
  {
  }

  lemma {:induction false} WaitFits(run: seq<State>, actions: seq<Action>, i: nat, j: nat, t: Tid, q: nat)
    requires IsRun(run, actions) && MutexInv(run[0]) && WaitCall(actions, i, j, t) && i < q <= j
    ensures PlaceFits(At(run[q], t), TimedOutIn(actions, i, q, t))
    decreases q
  {
    hide MutexInv, PlaceFits;
    if q == i + 1 {
      WaitEntryFits(run, actions, i, t);
    } else {
      WaitFits(run, actions, i, j, t, q - 1);
      RunKeeps(run, actions, q - 1);
      assert Enabled(run[q - 1], actions[q - 1]) && run[q] == Apply(run[q - 1], actions[q - 1]);
      StepFits(run[q - 1], actions[q - 1], t, TimedOutIn(actions, i, q - 1, t));
      assert TimedOutIn(actions, i, q, t) <==> TimedOutIn(actions, i, q - 1, t) || IsTimeoutOf(actions[q - 1], t);
    }
  }

  lemma WaitEntryFits(run: seq<State>, actions: seq<Action>, i: nat, t: Tid)
    requires IsRun(run, actions) && i < |actions| && actions[i].CallWait? && actions[i].t == t
    ensures PlaceFits(At(run[i + 1], t), false) && !TimedOutIn(actions, i, i + 1, t)
  {
    assert Enabled(run[i], actions[i]) && run[i + 1] == Apply(run[i], actions[i]);
  }

  /** A whole wait reports a timeout exactly when its sleep has timed out between its call and its return. */
  lemma TimesOutExactly(run: seq<State>, actions: seq<Action>, i: nat, j: nat, t: Tid)
    requires IsRun(run, actions) && MutexInv(run[0]) && WaitCall(actions, i, j, t)
    ensures At(run[j], t).WaitUnlock?
    ensures At(run[j], t) == WaitUnlock(false) <==> TimedOutIn(actions, i, j, t)
  {
    var k := WaitTakesOneSignalOrNone(run, actions, i, j, t);
    WaitFits(run, actions, i, j, t, j);
  }

  /** On every run any sleeper may wake up for no reason, and any timed sleeper may time out. */
  lemma SleepersMayWake(run: seq<State>, actions: seq<Action>, t: Tid, expired: bool)
    returns (run': seq<State>, actions': seq<Action>)
    requires IsRun(run, actions) && At(run[|actions|], t).Asleep? && (expired ==> At(run[|actions|], t).timed)
    ensures IsRun(run', actions') && run'[0] == run[0]
    ensures run'[|actions'|] == Goto(run[|actions|], t, Awake(At(run[|actions|], t).timed, expired))
  {
    run', actions' := Extend(run, actions, if expired then Timeout(t) else Spurious(t));
  }

  /** Thread 0 waits with a timeout on a clear event, falls asleep and times out. */
  lemma SleepTimesOut(manualReset: bool) returns (run: seq<State>)
    ensures IsRun(run, [CallWait(0, true), Lock(0), Test(0), Timeout(0)])
    ensures Initial(run[0], manualReset, false, false)
    ensures run[4] == State(false, manualReset, None, map[0 := Awake(true, true)], 0, 0, false)
  {
    var s0 := State(false, manualReset, None, map[], 0, 0, false);
    var s1 := State(false, manualReset, None, map[0 := WaitEntry(true)], 0, 0, false);
    var s2 := State(false, manualReset, Some(0), map[0 := WaitTest(true)], 0, 0, false);
    var s3 := State(false, manualReset, None, map[0 := Asleep(true)], 0, 0, false);
    var s4 := State(false, manualReset, None, map[0 := Awake(true, true)], 0, 0, false);
    assert s1 == Apply(s0, CallWait(0, true));
    assert s2 == Apply(s1, Lock(0));
    assert s3 == Apply(s2, Test(0));
    assert s4 == Apply(s3, Timeout(0));
    run := [s0, s1, s2, s3, s4];
  }

  /** Timeouts do happen: a run in which a timed wait on a clear event reports one. */
  lemma TimeoutHappens(manualReset: bool) returns (run: seq<State>, actions: seq<Action>)
    ensures IsRun(run, actions) && Initial(run[0], manualReset, false, false) && |actions| == 7
    ensures WaitCall(actions, 0, 6, 0) && At(run[6], 0) == WaitUnlock(false)
  {
    var first := SleepTimesOut(manualReset);
    var s5 := State(false, manualReset, Some(0), map[0 := WaitLeave(false)], 0, 0, false);
    var s6 := State(false, manualReset, Some(0), map[0 := WaitUnlock(false)], 0, 0, false);
    var s7 := State(false, manualReset, None, map[0 := Idle], 0, 0, false);
    assert s5 == Apply(first[4], Lock(0));
    assert s6 == Apply(s5, Leave(0));
    assert s7 == Apply(s6, Unlock(0));
    actions := [CallWait(0, true), Lock(0), Test(0), Timeout(0)] + [Lock(0), Leave(0), Unlock(0)];
    run := first + [s5, s6, s7];
  }

  // ------------------------------------------------ one whole set or reset

  /** Steps i to j of a run are one call of event_set (value true) or event_reset by t. */
  ghost predicate StoreCall(actions: seq<Action>, i: nat, j: nat, t: Tid, value: bool) {
    i < j < |actions| && actions[i] == (if value then CallSet(t) else CallReset(t)) && actions[j] == Unlock(t) &&
    forall k | i < k < j :: actions[k] != Unlock(t)
  }

  /** The step that stores the value; only it touches the flag, and only a set is counted. */
  predicate Stores(s: State, r: State, value: bool) {
    r.state == value && r.sets == (if value then s.sets + 1 else s.sets) && r.served == s.served
  }

  /** What t has done of the call: nothing to the flag yet, the store, or the store and then the signal. */
  datatype Progress = Before | Stored(store: nat) | Signalled(store: nat, signal: nat)

  predicate StorePlace(p: Pc, value: bool, progress: Progress) {
    match progress
    case Before => if value then p.SetEntry? || p.SetStore? else p.ResetEntry? || p.ResetStore?
    case Stored(_) => if value then p.SetSignal? else p.ResetUnlock?
    case Signalled(_, _) => value && p.SetUnlock?
  }

  lemma StepInStore(s: State, a: Action, t: Tid, value: bool, progress: Progress, q: nat) returns (next: Progress)
    requires MutexInv(s) && Enabled(s, a) && a != Unlock(t) && StorePlace(At(s, t), value, progress)
    ensures StorePlace(At(Apply(s, a), t), value, next)
    ensures if a == Store(t) then progress.Before? && next == Stored(q) && Stores(s, Apply(s, a), value)
            else if a.Signal? && a.t == t
            then progress.Stored? && next == Signalled(progress.store, q) && Neutral(s, Apply(s, a))
            else next == progress && (a.t == t ==> Neutral(s, Apply(s, a)))
  {
    next := if a == Store(t) then Stored(q)
            else if a.Signal? && a.t == t && progress.Stored? then Signalled(progress.store, q)
            else progress;
  }

  /** The call up to position q. */
  ghost predicate StoreSoFar(run: seq<State>, actions: seq<Action>, i: nat, q: nat, t: Tid, value: bool,
                             progress: Progress)
    requires |run| == |actions| + 1 && i < q <= |actions|
  {
    StorePlace(At(run[q], t), value, progress) &&
    (!progress.Before? ==> i < progress.store < q && actions[progress.store] == Store(t) &&
                           Stores(run[progress.store], run[progress.store + 1], value)) &&
    (progress.Signalled? ==> progress.store < progress.signal < q && actions[progress.signal].Signal? &&
                             actions[progress.signal].t == t) &&
    forall x | i <= x < q && actions[x].t == t && (progress.Before? || x != progress.store) ::
      Neutral(run[x], run[x + 1])
  }

  lemma StoreAdvances(run: seq<State>, actions: seq<Action>, i: nat, q: nat, t: Tid, value: bool, progress: Progress)
    returns (next: Progress)
    requires IsRun(run, actions) && i < q < |actions| && MutexInv(run[q]) && actions[q] != Unlock(t)
    requires StoreSoFar(run, actions, i, q, t, value, progress)
    ensures StoreSoFar(run, actions, i, q + 1, t, value, next)
  {
    hide Apply, Enabled, MutexInv, At, Stores, Neutral, StorePlace;
    assert Enabled(run[q], actions[q]) && run[q + 1] == Apply(run[q], actions[q]);
    next := StepInStore(run[q], actions[q], t, value, progress, q);
  }

  lemma EntersStore(run: seq<State>, actions: seq<Action>, i: nat, t: Tid, value: bool)
    requires IsRun(run, actions) && i < |actions| && actions[i] == if value then CallSet(t) else CallReset(t)
    ensures StoreSoFar(run, actions, i, i + 1, t, value, Before)
  {
    assert Enabled(run[i], actions[i]) && run[i + 1] == Apply(run[i], actions[i]);
  }

  lemma {:induction false} StoreProgress(run: seq<State>, actions: seq<Action>, i: nat, j: nat, t: Tid, value: bool,
                                         q: nat)
    returns (progress: Progress)
    requires IsRun(run, actions) && MutexInv(run[0]) && StoreCall(actions, i, j, t, value) && i < q <= j
    ensures StoreSoFar(run, actions, i, q, t, value, progress)
    decreases q
  {
    hide IsRun, MutexInv, StoreSoFar;
    if q == i + 1 {
      EntersStore(run, actions, i, t, value);
      progress := Before;
    } else {
      var before := StoreProgress(run, actions, i, j, t, value, q - 1);
      RunKeeps(run, actions, q - 1);
      progress := StoreAdvances(run, actions, i, q - 1, t, value, before);
    }
  }

  /**
   A whole set or reset, over any interleaving: one of its own steps stores the value, and a
   set signals behind that store; no other step of it touches the flag or the counts.
   */
  lemma SetAndResetStoreOnce(run: seq<State>, actions: seq<Action>, i: nat, j: nat, t: Tid, value: bool)
    returns (k: nat)
    requires IsRun(run, actions) && MutexInv(run[0]) && StoreCall(actions, i, j, t, value)
    ensures i < k < j && actions[k] == Store(t) && Stores(run[k], run[k + 1], value)
    ensures value ==> exists x :: k < x < j && actions[x].Signal? && actions[x].t == t
    ensures forall x | i <= x <= j && actions[x].t == t && x != k :: Neutral(run[x], run[x + 1])
  {
    hide MutexInv, Stores;
    var progress := StoreProgress(run, actions, i, j, t, value, j);
    assert Enabled(run[j], actions[j]) && run[j + 1] == Apply(run[j], actions[j]);
    k := progress.store;
  }
}
