/**
 Win32 mutexes on a recursive pthread mutex (synchapi.cpp). One action is one pthread call,
 and the calls of all threads interleave freely. Every pthread call succeeds except the two
 documented refusals: trylock is busy when another thread owns the mutex, and unlock by a
 thread that does not own it is rejected.
 */
module Mutex {
  import opened Wrappers

  type Tid = nat

  /** owner and count are what a recursive pthread mutex keeps. */
  datatype Lock = Lock(owner: Option<Tid>, count: nat)

  const UNLOCKED := Lock(None, 0)

  predicate Free(m: Lock, t: Tid) {
    m.owner.None? || m.owner == Some(t)
  }

  function Locked(m: Lock, t: Tid): Lock {
    Lock(Some(t), m.count + 1)
  }

  /** pthread_mutex_unlock: EPERM, without effect, for a thread that is not the owner. */
  function Released(m: Lock, t: Tid): Lock {
    if m.owner != Some(t) then m
    else if m.count <= 1 then UNLOCKED
    else Lock(m.owner, m.count - 1)
  }

  /** How often t has to release the mutex. */
  function Hold(m: Lock, t: Tid): nat {
    if m.owner == Some(t) then m.count else 0
  }

  ghost predicate LockInv(m: Lock) {
    m.owner.None? <==> m.count == 0
  }

  /**
   Where a thread stands. Waiting is WaitForSingleObject on a mutex, or CreateMutexA with
   bInitialOwner; the four Rel states are ReleaseMutex between its pthread calls. held is the
   caller's hold count when the call began; the code does not store it.
   */
  datatype Pc =
    | Idle
    | Waiting(timed: bool)
    | RelTry(held: nat)
    | RelUnlock(held: nat)
    | RelUnlockAgain(held: nat)
    | RelReturn(held: nat, ret: bool)

  datatype State = State(m: Lock, pc: map<Tid, Pc>)

  datatype Action =
    | CallWait(t: Tid, timed: bool) | Acquire(t: Tid) | GiveUp(t: Tid)
    | CallRelease(t: Tid) | TryLock(t: Tid) | Unlock(t: Tid) | UnlockAgain(t: Tid) | Return(t: Tid)

  function At(s: State, t: Tid): Pc {
    if t in s.pc then s.pc[t] else Idle
  }

  predicate Enabled(s: State, a: Action) {
    var p := At(s, a.t);
    match a
    case CallWait(_, _) => p.Idle?
    case Acquire(t) => p.Waiting? && Free(s.m, t)
    case GiveUp(_) => p.Waiting? && p.timed
    case CallRelease(_) => p.Idle?
    case TryLock(_) => p.RelTry?
    case Unlock(_) => p.RelUnlock?
    case UnlockAgain(_) => p.RelUnlockAgain?
    case Return(_) => p.RelReturn?
  }

  function Goto(s: State, t: Tid, m: Lock, p: Pc): State {
    State(m, s.pc[t := p])
  }

  function Apply(s: State, a: Action): State
    requires Enabled(s, a)
  {
    var p := At(s, a.t);
    match a
    case CallWait(t, timed) => Goto(s, t, s.m, Waiting(timed))
    case Acquire(t) => Goto(s, t, Locked(s.m, t), Idle)
    case GiveUp(t) => Goto(s, t, s.m, Idle)
    case CallRelease(t) => Goto(s, t, s.m, RelTry(Hold(s.m, t)))
    case TryLock(t) =>
      if Free(s.m, t) then Goto(s, t, Locked(s.m, t), RelUnlock(p.held))
      else Goto(s, t, s.m, RelReturn(p.held, false))
    case Unlock(t) => Goto(s, t, Released(s.m, t), RelUnlockAgain(p.held))
    case UnlockAgain(t) => Goto(s, t, Released(s.m, t), RelReturn(p.held, true))
    case Return(t) => Goto(s, t, s.m, Idle)
  }

  ghost predicate IsRun(run: seq<State>, actions: seq<Action>) {
    |run| == |actions| + 1 &&
    forall i | 0 <= i < |actions| :: Enabled(run[i], actions[i]) && run[i + 1] == Apply(run[i], actions[i])
  }

  predicate Initial(s: State) {
    s == State(UNLOCKED, map[])
  }

  // ------------------------------------------------ what every step keeps

  function OneLess(n: nat): nat {
    if n == 0 then 0 else n - 1
  }

  /** The caller's hold count at every point inside ReleaseMutex, in terms of the count it came with. */
  predicate ReleaseInv(m: Lock, t: Tid, p: Pc) {
    match p
    case RelTry(held) => Hold(m, t) == held
    case RelUnlock(held) => Hold(m, t) == held + 1
    case RelUnlockAgain(held) => Hold(m, t) == held
    case RelReturn(held, ret) => Hold(m, t) == OneLess(held) && (!ret ==> held == 0)
    case _ => true
  }

  ghost predicate Inv(s: State) {
    LockInv(s.m) && forall t | t in s.pc :: ReleaseInv(s.m, t, s.pc[t])
  }

  /** No action of a thread changes what another thread holds, in any state whatsoever. */
  lemma OthersKeepTheirHolds(s: State, a: Action, u: Tid)
    requires LockInv(s.m) && Enabled(s, a) && u != a.t
    ensures Hold(Apply(s, a).m, u) == Hold(s.m, u)
  {
  }

  lemma InvKept(s: State, a: Action)
    requires Inv(s) && Enabled(s, a)
    ensures Inv(Apply(s, a))
  {
    var r := Apply(s, a);
    forall u | u in r.pc
      ensures ReleaseInv(r.m, u, r.pc[u])
    {
      if u != a.t {
        OthersKeepTheirHolds(s, a, u);
      }
    }
  }

  lemma {:induction false} RunKeeps(run: seq<State>, actions: seq<Action>, i: nat)
    requires IsRun(run, actions) && i <= |actions| && Inv(run[0])
    ensures Inv(run[i])
  {
    if i > 0 {
      RunKeeps(run, actions, i - 1);
      InvKept(run[i - 1], actions[i - 1]);
    }
  }

  /** A thread that takes no step keeps its hold count, whatever the others do meanwhile. */
  lemma {:induction false} HoldKeptWhileOthersRun(run: seq<State>, actions: seq<Action>, i: nat, j: nat, u: Tid)
    requires IsRun(run, actions) && Inv(run[0]) && i <= j <= |actions|
    requires forall k | i <= k < j :: actions[k].t != u
    ensures Hold(run[j].m, u) == Hold(run[i].m, u)
    decreases j
  {
    if i < j {
      HoldKeptWhileOthersRun(run, actions, i, j - 1, u);
      RunKeeps(run, actions, j - 1);
      OthersKeepTheirHolds(run[j - 1], actions[j - 1], u);
    }
  }

  /** Steps i to j of a run are one call of ReleaseMutex by t, with anything of other threads in between. */
  ghost predicate ReleaseCall(actions: seq<Action>, i: nat, j: nat, t: Tid) {
    i < j < |actions| && actions[i] == CallRelease(t) && actions[j] == Return(t) &&
    forall k | i < k < j :: actions[k] != Return(t)
  }

  predicate InRelease(p: Pc, held: nat) {
    (p.RelTry? || p.RelUnlock? || p.RelUnlockAgain? || p.RelReturn?) && p.held == held
  }

  lemma {:induction false} StaysInCall(run: seq<State>, actions: seq<Action>, i: nat, j: nat, t: Tid, k: nat)
    requires IsRun(run, actions) && ReleaseCall(actions, i, j, t) && i < k <= j
    ensures InRelease(At(run[k], t), Hold(run[i].m, t))
    decreases k
  {
    if k > i + 1 {
      StaysInCall(run, actions, i, j, t, k - 1);
    }
    assert Enabled(run[k - 1], actions[k - 1]) && run[k] == Apply(run[k - 1], actions[k - 1]);
  }

  /**
   ReleaseMutex over any interleaving: it lowers the caller's hold count by exactly one if it
   held the mutex and changes nothing if it did not, and a caller that held it gets TRUE.
   */
  lemma ReleaseEffect(run: seq<State>, actions: seq<Action>, i: nat, j: nat, t: Tid)
    requires IsRun(run, actions) && Initial(run[0]) && ReleaseCall(actions, i, j, t)
    ensures Hold(run[j + 1].m, t) == OneLess(Hold(run[i].m, t))
    ensures At(run[j], t).RelReturn? && (Hold(run[i].m, t) > 0 ==> At(run[j], t).ret)
  {
    StaysInCall(run, actions, i, j, t, j);
    RunKeeps(run, actions, j);
    assert Enabled(run[j], actions[j]) && run[j + 1] == Apply(run[j], actions[j]);
  }

  /**
   The Win32 view of a thread's hold count, call by call: a successful wait adds one, a
   finished ReleaseMutex takes one off if there is one. Other threads do not appear in it.
   */
  function CountOfCalls(actions: seq<Action>, t: Tid): nat {
    if actions == [] then 0
    else
      var n, a := CountOfCalls(actions[..|actions| - 1], t), actions[|actions| - 1];
      if a == Acquire(t) then n + 1 else if a == Return(t) then OneLess(n) else n
  }

  /** On every run the mutex holds what the calls say, outside ReleaseMutex exactly and inside it as it was on entry. */
  lemma {:induction false} CallsAreAtomic(run: seq<State>, actions: seq<Action>, i: nat, t: Tid)
    requires IsRun(run, actions) && Initial(run[0]) && i <= |actions|
    ensures var p, n := At(run[i], t), CountOfCalls(actions[..i], t);
            if p.Idle? || p.Waiting? then Hold(run[i].m, t) == n else p.held == n
  {
    if i > 0 {
      CallsAreAtomic(run, actions, i - 1, t);
      assert actions[..i][..i - 1] == actions[..i - 1];
      RunKeeps(run, actions, i - 1);
      var s, a := run[i - 1], actions[i - 1];
      assert Enabled(s, a) && run[i] == Apply(s, a);
      if a.t != t {
        OthersKeepTheirHolds(s, a, t);
      }
    }
  }

  /** Mutual exclusion as callers see it: two threads between calls never both have releases left to do. */
  lemma MutualExclusion(run: seq<State>, actions: seq<Action>, i: nat, t: Tid, u: Tid)
    requires IsRun(run, actions) && Initial(run[0]) && i <= |actions|
    requires At(run[i], t).Idle? && CountOfCalls(actions[..i], t) > 0
    requires At(run[i], u).Idle? && CountOfCalls(actions[..i], u) > 0
    ensures t == u
  {
    CallsAreAtomic(run, actions, i, t);
    CallsAreAtomic(run, actions, i, u);
  }

  /** The call has one trylock, at k, and what it found decides what the caller is told later. */
  predicate Decided(p: Pc, free: bool) {
    if free then p.RelUnlock? || p.RelUnlockAgain? || (p.RelReturn? && p.ret) else p.RelReturn? && !p.ret
  }

  lemma {:induction false} DecidedFromTryLockOn(run: seq<State>, actions: seq<Action>, i: nat, j: nat, t: Tid,
                                                k: nat, q: nat)
    requires IsRun(run, actions) && ReleaseCall(actions, i, j, t)
    requires i < k < q <= j && actions[k] == TryLock(t)
    ensures Decided(At(run[q], t), Free(run[k].m, t))
    ensures forall x | k < x < q :: actions[x] != TryLock(t)
    decreases q
  {
    assert Enabled(run[q - 1], actions[q - 1]) && run[q] == Apply(run[q - 1], actions[q - 1]);
    if q > k + 1 {
      DecidedFromTryLockOn(run, actions, i, j, t, k, q - 1);
    }
  }

  lemma {:induction false} TryLockOrBefore(run: seq<State>, actions: seq<Action>, i: nat, j: nat, t: Tid, q: nat)
    requires IsRun(run, actions) && ReleaseCall(actions, i, j, t) && i < q <= j
    ensures At(run[q], t).RelTry? || exists k :: i < k < q && actions[k] == TryLock(t)
    decreases q
  {
    assert Enabled(run[q - 1], actions[q - 1]) && run[q] == Apply(run[q - 1], actions[q - 1]);
    if q > i + 1 {
      TryLockOrBefore(run, actions, i, j, t, q - 1);
    }
  }

  /**
   What a whole call of ReleaseMutex returns, over any interleaving: it performs exactly one
   trylock, and answers TRUE exactly when no other thread owns the mutex at that moment.
   */
  lemma ResultDecidedByTryLock(run: seq<State>, actions: seq<Action>, i: nat, j: nat, t: Tid) returns (k: nat)
    requires IsRun(run, actions) && ReleaseCall(actions, i, j, t)
    ensures i < k < j && actions[k] == TryLock(t)
    ensures forall x | i < x < j :: actions[x] == TryLock(t) ==> x == k
    ensures At(run[j], t).RelReturn? && (At(run[j], t).ret <==> Free(run[k].m, t))
    ensures !At(run[j], t).ret ==> exists u :: u != t && run[k].m.owner == Some(u)
  {
    assert Enabled(run[j], actions[j]);
    TryLockOrBefore(run, actions, i, j, t, j);
    k :| i < k < j && actions[k] == TryLock(t);
    DecidedFromTryLockOn(run, actions, i, j, t, k, j);
    forall x | i < x < k
      ensures actions[x] != TryLock(t)
    {
      if actions[x] == TryLock(t) {
        DecidedFromTryLockOn(run, actions, i, j, t, x, j);
      }
    }
  }

  /**
   The window: t does not hold the mutex, u takes it between the two unlocks of t's release.
   t is told TRUE although it owned nothing, and u still owns the mutex afterwards.
   */
  lemma AcquiredBetweenUnlocks(t: Tid, u: Tid) returns (run: seq<State>, actions: seq<Action>)
    requires t != u
    ensures IsRun(run, actions) && Initial(run[0]) && |actions| > 0
    ensures actions[|actions| - 1] == Return(t) && At(run[|actions| - 1], t) == RelReturn(0, true)
    ensures run[|actions|].m == Lock(Some(u), 1)
  {
    var s0 := State(UNLOCKED, map[]);
    actions := [CallWait(u, false), CallRelease(t), TryLock(t), Unlock(t), Acquire(u), UnlockAgain(t), Return(t)];
    var s1 := Apply(s0, actions[0]);
    var s2 := Apply(s1, actions[1]);
    var s3 := Apply(s2, actions[2]);
    var s4 := Apply(s3, actions[3]);
    var s5 := Apply(s4, actions[4]);
    var s6 := Apply(s5, actions[5]);
    var s7 := Apply(s6, actions[6]);
    run := [s0, s1, s2, s3, s4, s5, s6, s7];
  }

  // ------------------------------------------------ one whole wait

  /** Steps i to j of a run are one wait of t on the mutex, up to where it acquires it or gives up. */
  ghost predicate WaitCall(actions: seq<Action>, i: nat, j: nat, t: Tid, timed: bool) {
    i < j < |actions| && actions[i] == CallWait(t, timed) && (actions[j] == Acquire(t) || actions[j] == GiveUp(t)) &&
    forall k | i < k < j :: actions[k] != Acquire(t) && actions[k] != GiveUp(t)
  }

  lemma {:induction false} StaysWaiting(run: seq<State>, actions: seq<Action>, i: nat, j: nat, t: Tid, timed: bool,
                                        q: nat)
    requires IsRun(run, actions) && Inv(run[0]) && WaitCall(actions, i, j, t, timed) && i < q <= j
    ensures At(run[q], t) == Waiting(timed) && Hold(run[q].m, t) == Hold(run[i].m, t)
    decreases q
  {
    assert Enabled(run[q - 1], actions[q - 1]) && run[q] == Apply(run[q - 1], actions[q - 1]);
    if q > i + 1 {
      StaysWaiting(run, actions, i, j, t, timed, q - 1);
      RunKeeps(run, actions, q - 1);
      if actions[q - 1].t != t {
        OthersKeepTheirHolds(run[q - 1], actions[q - 1], t);
      }
    }
  }

  /**
   A whole wait over any interleaving: it ends by acquiring the mutex, which no other thread
   owns then and which adds one hold, or it gives up with the holds it came with; and only a
   timed wait gives up.
   */
  lemma WaitEndsByAcquiringOrTimeout(run: seq<State>, actions: seq<Action>, i: nat, j: nat, t: Tid, timed: bool)
    requires IsRun(run, actions) && Initial(run[0]) && WaitCall(actions, i, j, t, timed)
    ensures !timed ==> actions[j] == Acquire(t)
    ensures actions[j] == Acquire(t) ==>
              (forall u | u != t :: run[j].m.owner != Some(u)) && run[j + 1].m.owner == Some(t) &&
              Hold(run[j + 1].m, t) == Hold(run[i].m, t) + 1
    ensures actions[j] == GiveUp(t) ==> run[j + 1].m == run[j].m && Hold(run[j + 1].m, t) == Hold(run[i].m, t)
  {
    StaysWaiting(run, actions, i, j, t, timed, j);
    RunKeeps(run, actions, j);
    assert Enabled(run[j], actions[j]) && run[j + 1] == Apply(run[j], actions[j]);
  }

  // ------------------------------------------------ the object itself

  /** A recursive pthread mutex; the callers of the C functions appear as their thread id. */
  class RecursiveMutex {
    var owner: Option<Tid>
    var count: nat

    ghost function View(): Lock
      reads this
    {
      Lock(owner, count)
    }

    constructor ()
      ensures View() == UNLOCKED
    {
      owner, count := None, 0;
    }

    /** 0 or EBUSY */
    method TryLock(t: Tid) returns (busy: bool)
      modifies this
      ensures busy <==> !Free(old(View()), t)
      ensures View() == if busy then old(View()) else Locked(old(View()), t)
    {
      busy := !(owner.None? || owner == Some(t));
      if !busy {
        owner, count := Some(t), count + 1;
      }
    }

    /** 0 or EPERM */
    method Unlock(t: Tid) returns (rejected: bool)
      modifies this
      ensures rejected <==> old(owner) != Some(t)
      ensures View() == Released(old(View()), t)
    {
      rejected := owner != Some(t);
      if !rejected {
        if count <= 1 {
          owner, count := None, 0;
        } else {
          count := count - 1;
        }
      }
    }

    /** ReleaseMutex when no other thread runs meanwhile. */
    method ReleaseMutex(t: Tid) returns (ret: bool)
      requires LockInv(View())
      modifies this
      ensures LockInv(View())
      ensures ret <==> Free(old(View()), t)
      ensures View() == Released(old(View()), t)
    {
      ret := false;
      var busy := TryLock(t);
      if !busy {
        var _ := Unlock(t);
        var _ := Unlock(t);
        ret := true;
      }
    }
  }
}
