/** What the refinement means for `native_mutex_trylock`, and every call of the wrapper on its own. */
module MutexRuns {
  import opened Wrappers
  import opened LockTypes
  import opened MutexSteps
  import AtomicLock
  import Native = NativeCore

  /** A run of the mutex from `s` to `s'`. */
  predicate Runs(s: MutexState, es: seq<(Tid, Act)>, s': MutexState) {
    Native.Exec(Native.MutexCore(s), es) == Some(Native.MutexCore(s'))
  }

  /** The rest of a run after its first step. */
  lemma RunsTail(s: MutexState, es: seq<(Tid, Act)>, s': MutexState)
    requires es != [] && Runs(s, es, s')
    ensures Next(s, es[0].0, es[0].1).Some? && Runs(Next(s, es[0].0, es[0].1).value, es[1..], s')
  {
  }

  // ---------------------------------------------------------------- trylock is not recursive

  predicate NeverBlockingLock(es: seq<(Tid, Act)>) {
    forall e :: e in es ==> e.1 != Call(Lock(Exclusive))
  }

  lemma OneStepKeepsOneEntry(s: MutexState, t: Tid, act: Act)
    requires Inv(s) && Kept(s) <= 1 && (forall u :: u in s.pcs ==> !s.pcs[u].Enter?)
    requires act != Call(Lock(Exclusive)) && Next(s, t, act).Some?
    ensures Kept(Next(s, t, act).value) <= 1
    ensures forall u :: u in s.pcs ==> !Next(s, t, act).value.pcs[u].Enter?
  {
  }

  lemma {:induction false} TryLockRunKeepsOneEntry(s: MutexState, es: seq<(Tid, Act)>, s': MutexState)
    requires Inv(s) && Kept(s) <= 1 && (forall t :: t in s.pcs ==> !s.pcs[t].Enter?)
    requires NeverBlockingLock(es) && Runs(s, es, s')
    ensures Inv(s') && Kept(s') <= 1
    decreases |es|
  {
    if es == [] {
    } else {
      RunsTail(s, es, s');
      assert es[0] in es;
      StepKeepsInv(s, es[0].0, es[0].1);
      OneStepKeepsOneEntry(s, es[0].0, es[0].1);
      TryLockRunKeepsOneEntry(Next(s, es[0].0, es[0].1).value, es[1..], s');
    }
  }

  /**
    Runs that acquire only by trylock: the recursion count is at most 1 whenever its owner is between
    calls, and never more than the one extra entry that a failing trylock is about to undo.
   */
  lemma TryLockOnlyNeverNests(threads: set<Tid>, es: seq<(Tid, Act)>, s: MutexState)
    requires NeverBlockingLock(es) && Runs(Init(threads), es, s)
    ensures s.count <= 2
    ensures s.owner.Some? ==> s.owner.value in s.pcs
    ensures s.owner.Some? && s.pcs[s.owner.value].Idle? ==> s.count == 1
    ensures s.owner == None ==> s.count == 0
  {
    InitInv(threads);
    TryLockRunKeepsOneEntry(Init(threads), es, s);
  }

  /** What `t` itself does in a run. */
  function Own(es: seq<(Tid, Act)>, t: Tid): seq<Act> {
    if es == [] then []
    else (if es[0].0 == t then [es[0].1] else []) + Own(es[1..], t)
  }

  predicate OnlyRuns(acts: seq<Act>) {
    forall a :: a in acts ==> a.Run?
  }

  /** Once a call has taken effect, its return code is settled, whoever moves until it returns. */
  lemma {:induction false} OutcomeStays(s: MutexState, t: Tid, es: seq<(Tid, Act)>, s': MutexState)
    requires Inv(s) && t in s.pcs && PhaseOf(s, t).Done? && Runs(s, es, s') && OnlyRuns(Own(es, t))
    ensures t in s'.pcs && PhaseOf(s', t) == PhaseOf(s, t)
    decreases |es|
  {
    if es == [] {
    } else {
      RunsTail(s, es, s');
      var u, act := es[0].0, es[0].1;
      var next := Next(s, u, act).value;
      StepKeepsInv(s, u, act);
      if u == t {
        assert Own(es, t)[0] == act && act in Own(es, t);
      } else {
        OthersKeepTheirPhase(s, u, act);
        assert View(next).phases[t] == View(s).phases[t];
      }
      assert OnlyRuns(Own(es[1..], t)) by {
        forall a | a in Own(es[1..], t) ensures a.Run? { assert a in Own(es, t); }
      }
      OutcomeStays(next, t, es[1..], s');
    }
  }

  /**
    In every interleaving, a trylock returns 0 exactly when the critical section was free at the moment
    it tried to enter, and EBUSY otherwise.
   */
  lemma TryLockSucceedsIffFree(s: MutexState, t: Tid, es: seq<(Tid, Act)>, s': MutexState)
    requires Inv(s) && t in s.pcs && s.pcs[t].TryEnter?
    requires Runs(Advance(s, t).value, es, s') && OnlyRuns(Own(es, t))
    requires t in s'.pcs && s'.pcs[t].Returned?
    ensures s'.pcs[t] == Returned(TryLock(Exclusive), if s.owner == None then 0 else EBUSY)
  {
    StepKeepsInv(s, t, Run);
    OutcomeStays(Advance(s, t).value, t, es, s');
  }

  /** What remains of the owner's own steps until its second trylock has returned. */
  function TryScript(pc: Pc): seq<Act> {
    match pc
    case Idle => [Call(TryLock(Exclusive)), Run, Run, Run]
    case TryEnter => [Run, Run, Run]
    case CheckCount => [Run, Run]
    case LeaveBack => [Run]
    case _ => []
  }

  /** The owner is before, inside or just after its second trylock. */
  predicate Trying(s: MutexState, t: Tid)
    requires t in s.pcs
  {
    s.pcs[t].Idle? || s.pcs[t].TryEnter? || s.pcs[t] == Returned(TryLock(Exclusive), EBUSY) || Bouncing(s)
  }

  lemma OwnersStep(s: MutexState, t: Tid, act: Act)
    requires Inv(s) && s.owner == Some(t) && Trying(s, t)
    requires TryScript(s.pcs[t]) != [] && act == TryScript(s.pcs[t])[0] && Next(s, t, act).Some?
    ensures var next := Next(s, t, act).value;
            next.pcs.Keys == s.pcs.Keys && next.owner == Some(t) && Kept(next) == Kept(s) && Trying(next, t) &&
            TryScript(next.pcs[t]) == TryScript(s.pcs[t])[1..]
  {
  }

  lemma OthersStep(s: MutexState, t: Tid, u: Tid, act: Act)
    requires Inv(s) && s.owner == Some(t) && Trying(s, t) && u != t && Next(s, u, act).Some?
    ensures var next := Next(s, u, act).value;
            next.pcs.Keys == s.pcs.Keys && next.owner == Some(t) && Kept(next) == Kept(s) && Trying(next, t) &&
            next.pcs[t] == s.pcs[t]
  {
    var next := Next(s, u, act).value;
    assert next.pcs == s.pcs[u := next.pcs[u]] && next.count == s.count;
  }

  /**
    A second attempt by the owner, with any threads interleaving in any way: it returns EBUSY, and
    owner and recursion count are what they were.
   */
  lemma {:induction false} OwnerTryLockFails(s: MutexState, t: Tid, es: seq<(Tid, Act)>, s': MutexState)
    requires Inv(s) && s.owner == Some(t) && Runs(s, es, s')
    requires s.pcs[t].Idle? || s.pcs[t].TryEnter? || s.pcs[t] == Returned(TryLock(Exclusive), EBUSY) || Bouncing(s)
    requires Own(es, t) == TryScript(s.pcs[t])
    ensures s'.pcs.Keys == s.pcs.Keys && s'.pcs[t] == Returned(TryLock(Exclusive), EBUSY)
    ensures s'.owner == Some(t) && s'.count == Kept(s)
    decreases |es|
  {
    if es == [] {
    } else {
      RunsTail(s, es, s');
      var u, act := es[0].0, es[0].1;
      var next := Next(s, u, act).value;
      StepKeepsInv(s, u, act);
      if u == t {
        assert Own(es, t)[0] == act && Own(es[1..], t) == Own(es, t)[1..];
        OwnersStep(s, t, act);
      } else {
        OthersStep(s, t, u, act);
      }
      OwnerTryLockFails(next, t, es[1..], s');
    }
  }

  // ---------------------------------------------------------------- one call on its own

  function Alone(s: MutexState, t: Tid, op: Op): (Option<int>, Native.Core)
    requires t in s.pcs
  {
    Native.Alone(Native.MutexCore(s), t, op)
  }

  lemma OneStepAlone(s: MutexState, t: Tid, op: Op)
    requires t in s.pcs && s.pcs[t].Idle? && !op.TryLock?
    ensures var (rc, s') :=
              if op.Unlock? then
                (Some(0), if s.owner != Some(t) || s.count == 0 then s.(fault := true)
                          else s.(count := s.count - 1, owner := if s.count == 1 then None else s.owner))
              else if s.owner == None || s.owner == Some(t) then (Some(0), s.(owner := Some(t), count := s.count + 1))
              else (None, s);
            Alone(s, t, op) == (rc, Native.MutexCore(s'))
  {
    var s0, n := At(s, t, FirstPc(op)), Native.MostActions(op);
    match Advance(s0, t)
    case None =>
    case Some(s1) =>
      assert Native.Finish(Native.MutexCore(s0), t, n) == Native.Finish(Native.MutexCore(s1), t, n - 1);
      assert At(s1, t, Idle).pcs == s.pcs;
  }

  lemma TryLockAlone(s: MutexState, t: Tid)
    requires t in s.pcs && s.pcs[t].Idle? && (s.owner == None <==> s.count == 0)
    ensures var (rc, s') := if s.owner == None then (Some(0), s.(owner := Some(t), count := 1)) else (Some(EBUSY), s);
            Alone(s, t, TryLock(Exclusive)) == (rc, Native.MutexCore(s'))
  {
    var s0 := At(s, t, TryEnter);
    var s1 := Advance(s0, t).value;
    assert Native.Finish(Native.MutexCore(s0), t, 3) == Native.Finish(Native.MutexCore(s1), t, 2);
    if CanEnter(s, t) {
      var s2 := Advance(s1, t).value;
      assert Native.Finish(Native.MutexCore(s1), t, 2) == Native.Finish(Native.MutexCore(s2), t, 1);
      if s.owner == None {
        assert At(s2, t, Idle).pcs == s.pcs;
      } else {
        var s3 := Advance(s2, t).value;
        assert Native.Finish(Native.MutexCore(s2), t, 1) == Native.Finish(Native.MutexCore(s3), t, 0);
        assert At(s3, t, Idle).pcs == s.pcs;
      }
    } else {
      assert At(s1, t, Idle).pcs == s.pcs;
    }
  }

  /**
    The discipline cannot be dropped: between calls, unlock keeps the critical section sound, one entry
    fewer, if and only if its caller owns it.
   */
  lemma UnlockCorrectIffOwner(s: MutexState, t: Tid)
    requires Inv(s) && t in s.pcs && s.pcs[t].Idle?
    ensures Alone(s, t, Unlock).1.MutexCore?
    ensures var s' := Alone(s, t, Unlock).1.mx;
            (!s'.fault && s'.count == s.count - 1) <==> s.owner == Some(t)
  {
    OneStepAlone(s, t, Unlock);
  }

  /** For instance: unlocking a new mutex. */
  lemma UnlockOfNewMutexFaults()
    ensures Alone(Init({0}), 0, Unlock).1.MutexCore? && Alone(Init({0}), 0, Unlock).1.mx.fault
  {
    OneStepAlone(Init({0}), 0, Unlock);
  }
}
