/**
 The functions of eventapi.cpp as one thread runs them, on the fields of event_t. What the
 other threads and the kernel do in between is given by a schedule: one burst of actions for
 every point where the thread can be interrupted. The event keeps the history of all actions,
 and what the functions do is proved to be a run of the step system.
 */
module EventFunctions {
  import opened Wrappers
  import opened Event

  /** An action that is not the thread's own doing: another thread's, or a wakeup or timeout of its sleep. */
  predicate Foreign(a: Action, t: Tid) {
    a.t != t || a.Spurious? || a.Timeout? || a.ConsumingTimeout?
  }

  /** The own actions are the calls and steps of the functions; everything else happens to the thread. */
  lemma ForeignExactly(a: Action, t: Tid)
    ensures !Foreign(a, t) <==>
              a in {CallWait(t, false), CallWait(t, true), CallSet(t), CallReset(t), Lock(t), Test(t), Leave(t),
                    Store(t), Unlock(t)} ||
              (a.Signal? && a.t == t)
  {
  }

  /** What a burst does: its foreign actions one after the other, each as far as it is enabled when its turn comes. */
  function AfterBurst(s: State, burst: seq<Action>, t: Tid): State {
    if burst == [] then s
    else
      var u, a := AfterBurst(s, burst[..|burst| - 1], t), burst[|burst| - 1];
      if Foreign(a, t) && Enabled(u, a) then Apply(u, a) else u
  }

  lemma BurstGrows(s: State, burst: seq<Action>, i: nat, t: Tid)
    requires i < |burst|
    ensures var u := AfterBurst(s, burst[..i], t);
            AfterBurst(s, burst[..i + 1], t) ==
            if Foreign(burst[i], t) && Enabled(u, burst[i]) then Apply(u, burst[i]) else u
  {
    assert burst[..i + 1][..i] == burst[..i];
  }

  /** The thread's own actions, in order. */
  function Own(actions: seq<Action>, t: Tid): seq<Action> {
    if actions == [] then []
    else
      var init, a := actions[..|actions| - 1], actions[|actions| - 1];
      if Foreign(a, t) then Own(init, t) else Own(init, t) + [a]
  }

  lemma OwnGrows(actions: seq<Action>, a: Action, t: Tid)
    ensures Own(actions + [a], t) == if Foreign(a, t) then Own(actions, t) else Own(actions, t) + [a]
  {
    assert (actions + [a])[..|actions|] == actions;
  }

  lemma RunGrows(run: seq<State>, actions: seq<Action>, a: Action, r: State)
    requires IsRun(run, actions) && Enabled(run[|actions|], a) && r == Apply(run[|actions|], a)
    ensures IsRun(run + [r], actions + [a])
  {
    hide Apply, Enabled;
  }

  lemma {:induction false} OwnHolds(actions: seq<Action>, t: Tid, a: Action)
    requires a in actions && !Foreign(a, t)
    ensures a in Own(actions, t)
  {
    var init, last := actions[..|actions| - 1], actions[|actions| - 1];
    assert actions == init + [last];
    if a != last {
      OwnHolds(init, t, a);
    }
  }

  lemma NoUnlockSince(actions: seq<Action>, i: nat, t: Tid, own: seq<Action>)
    requires i <= |actions| && Own(actions[i..], t) == own && Unlock(t) !in own
    ensures forall k | i <= k < |actions| :: actions[k] != Unlock(t)
  {
    forall k | i <= k < |actions|
      ensures actions[k] != Unlock(t)
    {
      if actions[k] == Unlock(t) {
        assert actions[i..][k - i] == Unlock(t);
        OwnHolds(actions[i..], t, Unlock(t));
      }
    }
  }

  /** What a foreign action can do to the place where a thread stands. */
  predicate PlaceKept(p: Pc, q: Pc) {
    if p.Asleep? then q == p || (q.Awake? && q.timed == p.timed && (q.expired ==> q.timed))
    else if p.Awake? then q.Awake? && q.timed == p.timed && ((p.expired ==> p.timed) ==> q.expired ==> q.timed)
    else q == p
  }

  /** What foreign actions leave to a thread: its place, and the flag while it holds the mutex. */
  predicate Kept(s: State, r: State, t: Tid) {
    PlaceKept(At(s, t), At(r, t)) && (s.owner == Some(t) ==> r.owner == Some(t) && r.state == s.state)
  }

  lemma ForeignStepKeeps(s: State, a: Action, t: Tid)
    requires MutexInv(s) && Enabled(s, a) && Foreign(a, t)
    ensures Kept(s, Apply(s, a), t)
  {
  }

  lemma KeptTrans(s: State, u: State, r: State, t: Tid)
    requires Kept(s, u, t) && Kept(u, r, t)
    ensures Kept(s, r, t)
  {
  }

  /** How a condition variable wait ends; Blocked when the schedule ends first. */
  datatype Wakeup = Woken | TimedOut | Blocked

  class EventObject {
    const manualReset: bool
    const mayConsume: bool
    var state: bool
    var owner: Option<Tid>
    var pc: map<Tid, Pc>
    var sets: nat
    var served: nat
    ghost var run: seq<State>
    ghost var actions: seq<Action>

    function View(): State
      reads this
    {
      State(state, manualReset, owner, pc, sets, served, mayConsume)
    }

    /** The history is a run that ends in the present state. */
    ghost predicate Valid()
      reads this
    {
      IsRun(run, actions) && |run| == |actions| + 1 && run[|actions|] == View() &&
      MutexInv(run[0]) && MutexInv(View())
    }

    /** The history a0 goes on, from the same start. */
    ghost predicate Continues(start: State, a0: seq<Action>)
      reads this`run, this`actions
    {
      |run| > 0 && run[0] == start && a0 <= actions
    }

    /** Since the history a0 the thread t itself has done own, and the run goes on from the same start. */
    ghost predicate Since(start: State, a0: seq<Action>, t: Tid, own: seq<Action>)
      reads this`run, this`actions
    {
      Continues(start, a0) && Own(actions[|a0|..], t) == own
    }

    /** event_create */
    constructor (manualReset: bool, initState: bool, mayConsume: bool)
      ensures Valid() && actions == [] && Initial(run[0], manualReset, initState, mayConsume)
    {
      this.manualReset, this.mayConsume, state := manualReset, mayConsume, initState;
      owner, pc, sets, served := None, map[], 0, 0;
      run, actions := [State(initState, manualReset, None, map[], 0, 0, mayConsume)], [];
    }

    /** Notes the action that has just led to the present state. */
    ghost method Log(a: Action, start: State, a0: seq<Action>, t: Tid, own: seq<Action>)
      requires IsRun(run, actions) && |run| == |actions| + 1 && MutexInv(run[0]) && MutexInv(run[|actions|])
      requires Enabled(run[|actions|], a)
      requires View() == Apply(run[|actions|], a) && Since(start, a0, t, own)
      modifies this`run, this`actions
      ensures Valid() && actions == old(actions) + [a]
      ensures run == old(run) + [View()]
      ensures Since(start, a0, t, if Foreign(a, t) then own else own + [a])
    {
      hide Apply, Enabled, MutexInv, IsRun, Own;
      MutexInvKept(run[|actions|], a);
      RunGrows(run, actions, a, View());
      OwnGrows(actions[|a0|..], a, t);
      assert (actions + [a])[|a0|..] == actions[|a0|..] + [a];
      run, actions := run + [View()], actions + [a];
    }

    /** One foreign action. */
    method Perform(a: Action, ghost start: State, ghost a0: seq<Action>, t: Tid, ghost own: seq<Action>)
      requires Valid() && Since(start, a0, t, own) && Foreign(a, t) && Enabled(View(), a)
      modifies this
      ensures Valid() && Since(start, a0, t, own) && Kept(old(View()), View(), t)
      ensures View() == Apply(old(View()), a)
    {
      hide Apply, Enabled, MutexInv, IsRun, Kept;
      ForeignStepKeeps(View(), a, t);
      ParametersKept(View(), a);
      MutexInvKept(View(), a);
      var s := Apply(View(), a);
      state, owner, pc, sets, served := s.state, s.owner, s.pc, s.sets, s.served;
      Log(a, start, a0, t, own);
    }

    /** A point where the thread can be interrupted: the first burst of the schedule happens, as far as it can. */
    method Yield(schedule: seq<seq<Action>>, ghost start: State, ghost a0: seq<Action>, t: Tid, ghost own: seq<Action>)
      returns (rest: seq<seq<Action>>)
      requires Valid() && Since(start, a0, t, own)
      modifies this
      ensures Valid() && Since(start, a0, t, own) && Kept(old(View()), View(), t)
      ensures rest == if schedule == [] then [] else schedule[1..]
      ensures View() == if schedule == [] then old(View()) else AfterBurst(old(View()), schedule[0], t)
    {
      hide Apply, Enabled, MutexInv, IsRun, Since;
      if schedule == [] {
        return [];
      }
      var burst := schedule[0];
      for i := 0 to |burst|
        invariant Valid() && Since(start, a0, t, own) && Kept(old(View()), View(), t)
        invariant View() == AfterBurst(old(View()), burst[..i], t)
      {
        BurstGrows(old(View()), burst, i, t);
        if Foreign(burst[i], t) && Enabled(View(), burst[i]) {
          ghost var before := View();
          Perform(burst[i], start, a0, t, own);
          KeptTrans(old(View()), before, View(), t);
        }
      }
      assert burst[..|burst|] == burst;
      rest := schedule[1..];
    }

    /** An interruption in the critical section changes nothing the thread can see. */
    method Interrupt(schedule: seq<seq<Action>>,
                     ghost start: State, ghost a0: seq<Action>, t: Tid, ghost own: seq<Action>)
      returns (rest: seq<seq<Action>>)
      requires Valid() && Since(start, a0, t, own) && owner == Some(t) && InCriticalSection(At(View(), t))
      modifies this
      ensures Valid() && Since(start, a0, t, own)
      ensures owner == Some(t) && state == old(state) && At(View(), t) == old(At(View(), t))
      ensures rest == if schedule == [] then [] else schedule[1..]
    {
      hide Apply, MutexInv, IsRun, Since;
      rest := Yield(schedule, start, a0, t, own);
    }

    /** A place from which the thread has to take the mutex, and the places it can be in once it has. */
    predicate AtDoor(p: Pc) {
      p.WaitEntry? || p.SetEntry? || p.ResetEntry? || (p.Awake? && (p.expired ==> p.timed))
    }

    predicate Inside(p: Pc, q: Pc) {
      match p
      case WaitEntry(timed) => q == WaitTest(timed)
      case SetEntry => q == SetStore
      case ResetEntry => q == ResetStore
      case Awake(timed, _) => q == WaitTest(timed) || (timed && q == WaitLeave(false))
      case _ => false
    }

    /** What a call that has not returned is waiting for: a wakeup, or a mutex that another thread holds. */
    predicate Stuck(t: Tid)
      reads this
    {
      At(View(), t).Asleep? || (AtDoor(At(View(), t)) && owner.Some? && owner.value != t)
    }

    /** A thread that is stuck can take no step of its own: only the others or the kernel can get it going. */
    lemma StuckCannotStep(t: Tid, a: Action)
      requires Stuck(t) && a.t == t && !Foreign(a, t)
      ensures !Enabled(View(), a)
    {
    }

    lemma OutsideOwnsNothing(t: Tid)
      requires MutexInv(View()) && AtDoor(At(View(), t))
      ensures owner != Some(t)
    {
    }

    /** pthread_mutex_lock; None when the schedule ends while another thread holds the mutex. */
    method MutexLock(schedule: seq<seq<Action>>,
                     ghost start: State, ghost a0: seq<Action>, t: Tid, ghost own: seq<Action>)
      returns (locked: bool, rest: seq<seq<Action>>)
      requires Valid() && Since(start, a0, t, own) && AtDoor(At(View(), t))
      modifies this
      ensures Valid() && |rest| <= |schedule|
      ensures if locked
              then owner == Some(t) && Since(start, a0, t, own + [Lock(t)]) && Inside(old(At(View(), t)), At(View(), t))
              else Since(start, a0, t, own) && Stuck(t)
    {
      hide Apply, MutexInv, IsRun, Since;
      ghost var door := At(View(), t);
      rest := Yield(schedule, start, a0, t, own);
      while owner != None
        invariant Valid() && Since(start, a0, t, own) && |rest| <= |schedule|
        invariant AtDoor(At(View(), t)) && PlaceKept(door, At(View(), t))
        decreases |rest|
      {
        if rest == [] {
          OutsideOwnsNothing(t);
          return false, rest;
        }
        rest := Yield(rest, start, a0, t, own);
      }
      TakeMutex(start, a0, t, own);
      rest := Interrupt(rest, start, a0, t, own + [Lock(t)]);
      locked := true;
    }

    /** The moment a free mutex is taken. */
    method TakeMutex(ghost start: State, ghost a0: seq<Action>, t: Tid, ghost own: seq<Action>)
      requires Valid() && Since(start, a0, t, own) && AtDoor(At(View(), t)) && owner == None
      modifies this
      ensures Valid() && Since(start, a0, t, own + [Lock(t)]) && owner == Some(t)
      ensures At(View(), t) == AfterLock(old(At(View(), t)))
    {
      hide MutexInv, IsRun, Since;
      owner, pc := Some(t), pc[t := AfterLock(pc[t])];
      Log(Lock(t), start, a0, t, own);
    }

    /** Behind the history a0 the thread's first unlock is the last action. */
    ghost predicate JustUnlocked(a0: seq<Action>, t: Tid)
      reads this`actions
    {
      |a0| < |actions| && actions[|actions| - 1] == Unlock(t) &&
      forall k | |a0| <= k < |actions| - 1 :: actions[k] != Unlock(t)
    }

    /** pthread_mutex_unlock at the end of a function. */
    method MutexUnlock(ghost start: State, ghost a0: seq<Action>, t: Tid, ghost own: seq<Action>)
      requires Valid() && Since(start, a0, t, own) && Unlock(t) !in own
      requires At(View(), t).WaitUnlock? || At(View(), t).SetUnlock? || At(View(), t).ResetUnlock?
      modifies this
      ensures Valid() && Since(start, a0, t, own + [Unlock(t)]) && At(View(), t) == Idle
      ensures actions == old(actions) + [Unlock(t)] && run == old(run) + [View()] && JustUnlocked(a0, t)
    {
      hide MutexInv, IsRun, Own;
      NoUnlockSince(actions, |a0|, t, own);
      owner, pc := None, pc[t := Idle];
      Log(Unlock(t), start, a0, t, own);
    }

    /** pthread_cond_wait, or pthread_cond_timedwait: gives the mutex back, sleeps, and takes it again. */
    method CondWait(timed: bool, schedule: seq<seq<Action>>,
                    ghost start: State, ghost a0: seq<Action>, t: Tid, ghost own: seq<Action>)
      returns (rc: Wakeup, rest: seq<seq<Action>>)
      requires Valid() && Since(start, a0, t, own)
      requires !state && owner == Some(t) && At(View(), t) == WaitTest(timed)
      modifies this
      ensures Valid() && (!rc.Blocked? ==> |rest| < |schedule|)
      ensures rc.Blocked? ==> Stuck(t) && Continues(start, a0)
      ensures rc.Woken? ==> owner == Some(t) && At(View(), t) == WaitTest(timed)
      ensures rc.TimedOut? ==> timed && owner == Some(t) && At(View(), t) == WaitLeave(false)
      ensures !rc.Blocked? ==> Since(start, a0, t, own + [Test(t)] + [Lock(t)])
    {
      hide Apply, MutexInv, IsRun;
      FallAsleep(timed, start, a0, t, own);
      rest := schedule;
      while pc[t].Asleep?
        invariant Valid() && Since(start, a0, t, own + [Test(t)]) && |rest| <= |schedule|
        invariant t in pc && PlaceKept(Asleep(timed), At(View(), t))
        invariant pc[t].Asleep? || |rest| < |schedule|
        decreases |rest|
      {
        if rest == [] {
          return Blocked, rest;
        }
        rest := Yield(rest, start, a0, t, own + [Test(t)]);
      }
      var locked;
      locked, rest := MutexLock(rest, start, a0, t, own + [Test(t)]);
      rc := if !locked then Blocked else if pc[t].WaitLeave? then TimedOut else Woken;
    }

    /** The first half of a condition variable wait. */
    method FallAsleep(timed: bool, ghost start: State, ghost a0: seq<Action>, t: Tid, ghost own: seq<Action>)
      requires Valid() && Since(start, a0, t, own)
      requires !state && owner == Some(t) && At(View(), t) == WaitTest(timed)
      modifies this
      ensures Valid() && Since(start, a0, t, own + [Test(t)]) && At(View(), t) == Asleep(timed)
    {
      hide MutexInv, IsRun, Since;
      owner, pc := None, pc[t := Asleep(timed)];
      Log(Test(t), start, a0, t, own);
    }

    /** The actions since position i are one whole wait of t, which has just returned. */
    ghost predicate FinishedWait(i: nat, t: Tid, timed: bool, ok: bool)
      reads this`run, this`actions
    {
      |run| == |actions| + 1 && |actions| > 0 &&
      WaitCall(actions, i, |actions| - 1, t) && actions[i] == CallWait(t, timed) &&
      At(run[|actions| - 1], t) == WaitUnlock(ok)
    }

    /** The wait that has just returned reported a timeout exactly when its sleep timed out. */
    lemma FinishedTimesOut(i: nat, t: Tid, timed: bool, ok: bool)
      requires Valid() && FinishedWait(i, t, timed, ok)
      ensures !ok <==> TimedOutIn(actions, i, |actions| - 1, t)
    {
      hide MutexInv, IsRun, TimedOutIn;
      TimesOutExactly(run, actions, i, |actions| - 1, t);
    }

    /** A function begins. */
    method Call(a: Action, p: Pc, t: Tid)
      requires Valid() && At(View(), t).Idle? && a.t == t
      requires match a
               case CallWait(_, timed) => p == WaitEntry(timed)
               case CallSet(_) => p == SetEntry
               case CallReset(_) => p == ResetEntry
               case _ => false
      modifies this
      ensures Valid() && At(View(), t) == p && actions == old(actions) + [a]
      ensures Since(old(run[0]), actions, t, [])
    {
      hide MutexInv, IsRun;
      ghost var start, a0 := run[0], actions;
      assert actions[|a0|..] == [];
      pc := pc[t := p];
      Log(a, start, a0, t, []);
      assert actions[|actions|..] == [];
    }

    /** The exit test of the wait loops. */
    method ExitLoop(timed: bool, ghost start: State, ghost a0: seq<Action>, t: Tid, ghost own: seq<Action>)
      requires Valid() && Since(start, a0, t, own)
      requires state && owner == Some(t) && At(View(), t) == WaitTest(timed)
      modifies this
      ensures Valid() && Since(start, a0, t, own + [Test(t)]) && owner == Some(t) && At(View(), t) == WaitLeave(true)
    {
      hide MutexInv, IsRun, Since;
      pc := pc[t := WaitLeave(true)];
      Log(Test(t), start, a0, t, own);
    }

    /** Behind the loop: `if (rc == 0 && !hevent->manual_reset) hevent->state = false;` */
    method Consume(ok: bool, ghost start: State, ghost a0: seq<Action>, t: Tid, ghost own: seq<Action>)
      requires Valid() && Since(start, a0, t, own) && owner == Some(t) && At(View(), t) == WaitLeave(ok)
      modifies this
      ensures Valid() && Since(start, a0, t, own + [Leave(t)]) && owner == Some(t) && At(View(), t) == WaitUnlock(ok)
    {
      hide MutexInv, IsRun, Since;
      if ok && !manualReset {
        state := false;
      }
      served := if ok then served + 1 else served;
      pc := pc[t := WaitUnlock(ok)];
      Log(Leave(t), start, a0, t, own);
    }

    /** The common end of both waits. */
    method Return(ok: bool, timed: bool, schedule: seq<seq<Action>>, ghost i: nat,
                  ghost start: State, ghost a0: seq<Action>, t: Tid, ghost own: seq<Action>)
      requires Valid() && Since(start, a0, t, own) && owner == Some(t) && At(View(), t) == WaitLeave(ok)
      requires Unlock(t) !in own && |a0| == i + 1 && a0[i] == CallWait(t, timed)
      modifies this
      ensures Valid() && a0 <= actions && run[0] == start
      ensures FinishedWait(i, t, timed, ok) && At(View(), t) == Idle
    {
      hide Apply, MutexInv, IsRun, Own;
      var rest := Interrupt(schedule, start, a0, t, own);
      Consume(ok, start, a0, t, own);
      rest := Interrupt(rest, start, a0, t, own + [Leave(t)]);
      MutexUnlock(start, a0, t, own + [Leave(t)]);
    }

    /** event_wait: 0, or None when the schedule ends before the call does. */
    method EventWait(schedule: seq<seq<Action>>, t: Tid) returns (ret: Option<int>)
      requires Valid() && At(View(), t).Idle?
      modifies this
      ensures Valid() && old(actions) <= actions && run[0] == old(run[0])
      ensures ret == None || ret == Some(0)
      ensures if ret.None? then Stuck(t)
              else FinishedWait(|old(actions)|, t, false, true) && At(View(), t).Idle?
    {
      hide Apply, MutexInv, IsRun, Own, EventObject.FinishedWait, EventObject.Valid;
      Call(CallWait(t, false), WaitEntry(false), t);
      ghost var start, a0, own := run[0], actions, [Lock(t)];
      var locked, rest := MutexLock(schedule, start, a0, t, []);
      if !locked {
        return None;
      }
      while !state
        invariant Valid() && Since(start, a0, t, own) && Unlock(t) !in own
        invariant owner == Some(t) && At(View(), t) == WaitTest(false)
        decreases |rest|
      {
        var rc;
        rc, rest := CondWait(false, rest, start, a0, t, own);
        if rc.Blocked? {
          return None;
        }
        own := own + [Test(t)] + [Lock(t)];
      }
      ExitLoop(false, start, a0, t, own);
      Return(true, false, rest, |old(actions)|, start, a0, t, own + [Test(t)]);
      return Some(0);
    }

    /** event_timedwait: 0, 1 for a timeout, or None when the schedule ends before the call does. */
    method EventTimedwait(schedule: seq<seq<Action>>, t: Tid) returns (ret: Option<int>)
      requires Valid() && At(View(), t).Idle?
      modifies this
      ensures Valid() && old(actions) <= actions && run[0] == old(run[0])
      ensures ret == None || ret == Some(0) || ret == Some(1)
      ensures if ret.None? then Stuck(t)
              else FinishedWait(|old(actions)|, t, true, ret == Some(0)) && At(View(), t).Idle?
      ensures ret.Some? ==> (ret == Some(1) <==> TimedOutIn(actions, |old(actions)|, |actions| - 1, t))
    {
      hide Apply, MutexInv, IsRun, Own, EventObject.FinishedWait, EventObject.Valid;
      Call(CallWait(t, true), WaitEntry(true), t);
      ghost var start, a0, own := run[0], actions, [Lock(t)];
      var locked, rest := MutexLock(schedule, start, a0, t, []);
      if !locked {
        return None;
      }
      var rc := Woken;
      while !state
        invariant Valid() && Since(start, a0, t, own) && Unlock(t) !in own
        invariant owner == Some(t) && rc.Woken? && At(View(), t) == WaitTest(true)
        decreases |rest|
      {
        rc, rest := CondWait(true, rest, start, a0, t, own);
        if rc.Blocked? {
          return None;
        }
        own := own + [Test(t)] + [Lock(t)];
        if rc.TimedOut? {
          break;
        }
      }
      if rc.Woken? {
        ExitLoop(true, start, a0, t, own);
        own := own + [Test(t)];
      }
      Return(rc.Woken?, true, rest, |old(actions)|, start, a0, t, own);
      FinishedTimesOut(|old(actions)|, t, true, rc.Woken?);
      return Some(if rc.TimedOut? then 1 else 0);
    }

    /** The store of event_set or event_reset, in the critical section. */
    method StoreFlag(value: bool, ghost start: State, ghost a0: seq<Action>, t: Tid, ghost own: seq<Action>)
      requires Valid() && Since(start, a0, t, own) && owner == Some(t)
      requires At(View(), t) == if value then SetStore else ResetStore
      modifies this
      ensures Valid() && Since(start, a0, t, own + [Store(t)]) && owner == Some(t) && state == value
      ensures At(View(), t) == if value then SetSignal else ResetUnlock
    {
      hide MutexInv, IsRun, Since;
      state := value;
      sets := if value then sets + 1 else sets;
      pc := pc[t := if value then SetSignal else ResetUnlock];
      Log(Store(t), start, a0, t, own);
    }

    /** Broadcast for a manual-reset event and signal for another; chosen are the sleepers that signal picks. */
    method Wake(chosen: set<Tid> -> set<Tid>, ghost start: State, ghost a0: seq<Action>, t: Tid, ghost own: seq<Action>)
      returns (woken: set<Tid>)
      requires forall sleepers :: chosen(sleepers) <= sleepers && (sleepers != {} ==> chosen(sleepers) != {})
      requires Valid() && Since(start, a0, t, own) && owner == Some(t) && At(View(), t).SetSignal?
      modifies this
      ensures Valid() && Since(start, a0, t, own + [Signal(t, woken)]) && owner == Some(t) && At(View(), t).SetUnlock?
      ensures woken == if manualReset then old(Sleepers(View())) else chosen(old(Sleepers(View())))
    {
      hide MutexInv, IsRun, Since;
      var sleepers := Sleepers(View());
      if manualReset {
        woken := sleepers;
      } else {
        woken := chosen(sleepers);
      }
      pc := map u | u in pc :: if u == t then SetUnlock
                               else if u in woken && pc[u].Asleep? then Awake(pc[u].timed, false)
                               else pc[u];
      Log(Signal(t, woken), start, a0, t, own);
    }

    /** The rest of event_set behind its store. */
    method WakeAndUnlock(schedule: seq<seq<Action>>, chosen: set<Tid> -> set<Tid>,
                         ghost start: State, ghost a0: seq<Action>, t: Tid, ghost own: seq<Action>)
      returns (woken: set<Tid>)
      requires forall sleepers :: chosen(sleepers) <= sleepers && (sleepers != {} ==> chosen(sleepers) != {})
      requires Valid() && Since(start, a0, t, own) && owner == Some(t) && At(View(), t).SetSignal?
      requires Unlock(t) !in own
      modifies this
      ensures Valid() && Since(start, a0, t, own + [Signal(t, woken)] + [Unlock(t)]) && At(View(), t) == Idle
      ensures JustUnlocked(a0, t)
    {
      hide Apply, MutexInv, IsRun, EventObject.Since, EventObject.Valid;
      var rest := Interrupt(schedule, start, a0, t, own);
      woken := Wake(chosen, start, a0, t, own);
      rest := Interrupt(rest, start, a0, t, own + [Signal(t, woken)]);
      MutexUnlock(start, a0, t, own + [Signal(t, woken)]);
    }

    lemma FinishedStore(before: seq<Action>, t: Tid, value: bool)
      requires before + [if value then CallSet(t) else CallReset(t)] <= actions
      requires JustUnlocked(before + [if value then CallSet(t) else CallReset(t)], t)
      ensures StoreCall(actions, |before|, |actions| - 1, t, value)
    {
      assert actions[|before|] == (before + [if value then CallSet(t) else CallReset(t)])[|before|];
    }

    /** event_set: the C function's own actions are exactly these four, whatever happens in between. */
    method EventSet(schedule: seq<seq<Action>>, chosen: set<Tid> -> set<Tid>, t: Tid)
      returns (ret: Option<int>, woken: set<Tid>)
      requires forall sleepers :: chosen(sleepers) <= sleepers && (sleepers != {} ==> chosen(sleepers) != {})
      requires Valid() && At(View(), t).Idle?
      modifies this
      ensures Valid() && old(actions) + [CallSet(t)] <= actions && run[0] == old(run[0])
      ensures ret == None || ret == Some(0)
      ensures if ret.None? then Stuck(t)
              else At(View(), t).Idle? &&
                   Own(actions[|old(actions)| + 1..], t) == [Lock(t), Store(t), Signal(t, woken), Unlock(t)] &&
                   StoreCall(actions, |old(actions)|, |actions| - 1, t, true)
    {
      hide Apply, MutexInv, IsRun, Own, StoreCall, EventObject.JustUnlocked, EventObject.Valid;
      Call(CallSet(t), SetEntry, t);
      ghost var start, a0, own := run[0], actions, [Lock(t)];
      woken := {};
      var locked, rest := MutexLock(schedule, start, a0, t, []);
      if !locked {
        return None, woken;
      }
      StoreFlag(true, start, a0, t, own);
      own := own + [Store(t)];
      woken := WakeAndUnlock(rest, chosen, start, a0, t, own);
      FinishedStore(old(actions), t, true);
      return Some(0), woken;
    }

    /** event_reset */
    method EventReset(schedule: seq<seq<Action>>, t: Tid) returns (ret: Option<int>)
      requires Valid() && At(View(), t).Idle?
      modifies this
      ensures Valid() && old(actions) + [CallReset(t)] <= actions && run[0] == old(run[0])
      ensures ret == None || ret == Some(0)
      ensures if ret.None? then Stuck(t)
              else At(View(), t).Idle? &&
                   Own(actions[|old(actions)| + 1..], t) == [Lock(t), Store(t), Unlock(t)] &&
                   StoreCall(actions, |old(actions)|, |actions| - 1, t, false)
    {
      hide Apply, MutexInv, IsRun, Own, StoreCall, EventObject.JustUnlocked, EventObject.Valid;
      Call(CallReset(t), ResetEntry, t);
      ghost var start, a0, own := run[0], actions, [Lock(t)];
      var locked, rest := MutexLock(schedule, start, a0, t, []);
      if !locked {
        return None;
      }
      StoreFlag(false, start, a0, t, own);
      own := own + [Store(t)];
      rest := Interrupt(rest, start, a0, t, own);
      MutexUnlock(start, a0, t, own);
      FinishedStore(old(actions), t, false);
      return Some(0);
    }
  }
}
