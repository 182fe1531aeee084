/**
 CloseHandle of one handle by any number of threads (handleapi.cpp). The type, the object and
 the erase are separate accesses to the table, and the release happens in between them
 without its lock. The handle is one of a file, a module, a mutex or an event (that of a
 thread has nothing to release), and its key is not issued again meanwhile.
 */
module Closing {

  type Tid = nat

  /** Where a thread stands in CloseHandle; found says whether it read an object from the record. */
  datatype Pc = Idle | GotType | GotObject(found: bool) | Released

  /** live says whether the table has the record, releases how often its object was released. */
  datatype State = State(live: bool, releases: nat, pc: map<Tid, Pc>)

  datatype Action = ReadType(t: Tid) | ReadObject(t: Tid) | Release(t: Tid) | Erase(t: Tid)

  function At(s: State, t: Tid): Pc {
    if t in s.pc then s.pc[t] else Idle
  }

  predicate Enabled(s: State, a: Action) {
    match a
    case ReadType(t) => At(s, t).Idle?
    case ReadObject(t) => At(s, t).GotType?
    case Release(t) => At(s, t).GotObject?
    case Erase(t) => At(s, t).Released?
  }

  /** A close that finds no record ends at once. */
  function Apply(s: State, a: Action): State
    requires Enabled(s, a)
  {
    match a
    case ReadType(t) => s.(pc := s.pc[t := if s.live then GotType else Idle])
    case ReadObject(t) => s.(pc := s.pc[t := GotObject(s.live)])
    case Release(t) => s.(pc := s.pc[t := Released], releases := s.releases + if At(s, t).found then 1 else 0)
    case Erase(t) => s.(pc := s.pc[t := Idle], live := false)
  }

  ghost predicate IsRun(run: seq<State>, actions: seq<Action>) {
    |run| == |actions| + 1 && run[0] == State(true, 0, map[]) &&
    forall i | 0 <= i < |actions| :: Enabled(run[i], actions[i]) && run[i + 1] == Apply(run[i], actions[i])
  }

  /** At most one thread is inside CloseHandle. */
  predicate Alone(s: State) {
    forall t, u | t in s.pc && u in s.pc && !s.pc[t].Idle? && !s.pc[u].Idle? :: t == u
  }

  /** No two closes of the run overlap. */
  ghost predicate Apart(run: seq<State>) {
    forall i | 0 <= i < |run| :: Alone(run[i])
  }

  /** What a run without overlap keeps: the object is released exactly behind the release of the one close. */
  ghost predicate Inv(s: State) {
    s.releases <= 1 &&
    (s.live && (forall t | t in s.pc :: !s.pc[t].Released?) ==> s.releases == 0) &&
    (forall t | t in s.pc && !s.pc[t].Idle? :: s.live && (s.pc[t].GotObject? ==> s.pc[t].found))
  }

  lemma InvKept(s: State, a: Action)
    requires Inv(s) && Enabled(s, a) && Alone(s) && Alone(Apply(s, a))
    ensures Inv(Apply(s, a))
  {
    var r := Apply(s, a);
    assert a.t in r.pc && (a.Release? <==> r.pc[a.t].Released?);
    if r.live && forall t | t in r.pc :: !r.pc[t].Released? {
      forall t | t in s.pc
        ensures !s.pc[t].Released?
      {
        assert t in r.pc && !r.pc[t].Released?;
      }
    }
  }

  lemma {:induction false} RunKeeps(run: seq<State>, actions: seq<Action>, i: nat)
    requires IsRun(run, actions) && Apart(run) && i <= |actions|
    ensures Inv(run[i])
  {
    if i > 0 {
      RunKeeps(run, actions, i - 1);
      InvKept(run[i - 1], actions[i - 1]);
    }
  }

  /** No run releases the object twice; overlap says whether closes may overlap. */
  ghost predicate NeverReleasedTwice(overlap: bool) {
    forall run: seq<State>, actions: seq<Action> | IsRun(run, actions) && (overlap || Apart(run)) ::
      run[|actions|].releases <= 1
  }

  /** Two closes that both read the record before either erases it release the object twice. */
  lemma ReleasedTwice() returns (run: seq<State>, actions: seq<Action>)
    ensures IsRun(run, actions) && run[|actions|].releases == 2
  {
    var s0 := State(true, 0, map[]);
    actions := [ReadType(0), ReadType(1), ReadObject(0), ReadObject(1), Release(0), Release(1)];
    var s1 := Apply(s0, actions[0]);
    var s2 := Apply(s1, actions[1]);
    var s3 := Apply(s2, actions[2]);
    var s4 := Apply(s3, actions[3]);
    var s5 := Apply(s4, actions[4]);
    var s6 := Apply(s5, actions[5]);
    run := [s0, s1, s2, s3, s4, s5, s6];
  }

  /** A close that reads the object only behind another's erase finds none and releases nothing. */
  lemma LateCloseReleasesNothing(s: State, t: Tid)
    requires Enabled(s, ReadObject(t)) && !s.live
    ensures var r := Apply(s, ReadObject(t)); Enabled(r, Release(t)) && Apply(r, Release(t)).releases == s.releases
  {
  }

  /** The object is released at most once exactly when no two closes of its handle overlap. */
  lemma NeverReleasedTwiceExactly(overlap: bool)
    ensures NeverReleasedTwice(overlap) <==> !overlap
  {
    if overlap {
      var run, actions := ReleasedTwice();
      assert run[|actions|].releases == 2;
    } else {
      forall run: seq<State>, actions: seq<Action> | IsRun(run, actions) && Apart(run)
        ensures run[|actions|].releases <= 1
      {
        RunKeeps(run, actions, |actions|);
      }
    }
  }
}
