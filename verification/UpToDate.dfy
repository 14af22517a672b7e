/** When the recorder knows everything: exactly when no hook and no locker is NULL. */
module UpToDate {
  import opened Wrappers
  import opened LockTypes
  import opened NativeCore
  import opened Recording
  import Wrapper = Instrumentation
  import RwLockRuns
  import MutexRuns
  import OneCall

  type Instrumented = Wrapper.Instrumented
  type Env = Wrapper.Env

  ghost predicate Reaches(env: Env, i: Instrumented, j: Instrumented) {
    exists es :: Wrapper.Exec(env, i, es) == Some(j)
  }

  lemma ReachesItself(env: Env, i: Instrumented)
    ensures Reaches(env, i, i)
  {
    assert Wrapper.Exec(env, i, []) == Some(i);
  }

  lemma ReachesNext(env: Env, i: Instrumented, j: Instrumented, t: Tid, step: Wrapper.Step, k: Instrumented)
    requires Reaches(env, i, j) && Wrapper.Next(env, j, t, step) == Some(k)
    ensures Reaches(env, i, k)
  {
    var es :| Wrapper.Exec(env, i, es) == Some(j);
    Wrapper.ExecOne(env, j, (t, step));
    Wrapper.ExecAppend(env, i, es, [(t, step)]);
  }

  lemma ReachesOn(env: Env, i: Instrumented, j: Instrumented, k: Instrumented)
    requires Reaches(env, i, j) && Reaches(env, j, k)
    ensures Reaches(env, i, k)
  {
    var es :| Wrapper.Exec(env, i, es) == Some(j);
    var fs :| Wrapper.Exec(env, j, fs) == Some(k);
    Wrapper.ExecAppend(env, i, es, fs);
  }

  // ---------------------------------------------------------------- one call of one thread

  function LockerFor(env: Env, op: Op, starts: nat): Option<nat> {
    if env.psi && !op.Unlock? && env.grants(starts) then Some(starts) else None
  }

  /** What the recorder believes after a call, and how many start hooks have run. */
  function RecordedAfter(env: Env, i: Instrumented, t: Tid, op: Op, rc: int): Holds {
    if env.psi && op.Unlock? then i.recorded.GiveUp(t)
    else if LockerFor(env, op, i.starts).Some? && rc == 0 then i.recorded.Add(t, op.mode)
    else i.recorded
  }

  /** Hooks and entry: the thread stands at the start of the native call. */
  lemma EntersCall(env: Env, i: Instrumented, t: Tid, op: Op) returns (j: Instrumented)
    requires t in i.places && i.places[t].Out? && OneCall.MayCall(i.core, t, op)
    ensures Reaches(env, i, j) && j.core == Entered(i.core, t, op)
    ensures j.places == i.places[t := Inside(op, LockerFor(env, op, i.starts))]
    ensures j.starts == OneCall.StartsAfter(env.psi, op, i.starts)
    ensures j.recorded == if env.psi && op.Unlock? then i.recorded.GiveUp(t) else i.recorded
  {
    ReachesItself(env, i);
    if env.psi {
      var i1 := Wrapper.HookBefore(env, i, t, op).value;
      ReachesNext(env, i, i, t, Wrapper.StartHook(op), i1);
      Wrapper.EnteringPlaces(i1, t, op, LockerFor(env, op, i.starts));
      j := Wrapper.EnterNative(i1, t, op, LockerFor(env, op, i.starts)).value;
      ReachesNext(env, i, i1, t, Wrapper.CallNative, j);
      assert i1.places[t := j.places[t]] == i.places[t := j.places[t]];
    } else {
      Wrapper.EnteringPlaces(i, t, op, None);
      j := Wrapper.EnterNative(i, t, op, None).value;
      ReachesNext(env, i, i, t, Wrapper.CallPlain(op), j);
    }
  }

  /** The way out, past the end hook if there is a locker. */
  lemma LeavesCall(env: Env, j: Instrumented, t: Tid, op: Op, locker: Option<nat>, rc: int) returns (k: Instrumented)
    requires t in j.places && j.places[t] == Inside(op, locker) && t in Threads(j.core) && Result(j.core, t) == Some(rc)
    ensures Reaches(env, j, k) && k.core == Left(j.core, t) && k.places == j.places[t := Out] && k.starts == j.starts
    ensures k.recorded == if locker.Some? && rc == 0 && !op.Unlock? then j.recorded.Add(t, op.mode) else j.recorded
  {
    ReachesItself(env, j);
    var j' := j;
    if locker.Some? {
      j' := Wrapper.HookAfter(j, t, op, locker.value, rc);
      ReachesNext(env, j, j, t, Wrapper.EndHook, j');
    }
    k := Wrapper.Put(j'.(core := Left(j.core, t)), t, Out);
    ReachesNext(env, j, j', t, Wrapper.Leave, k);
    assert j'.places[t := Out] == j.places[t := Out];
  }

  lemma CallReaches(env: Env, i: Instrumented, t: Tid, op: Op, rc: int) returns (k: Instrumented)
    requires t in i.places && i.places[t].Out? && OneCall.MayCall(i.core, t, op)
    requires Alone(i.core, t, op).0 == Some(rc)
    ensures Reaches(env, i, k) && k.core == Alone(i.core, t, op).1 && k.places == i.places
    ensures k.starts == OneCall.StartsAfter(env.psi, op, i.starts) && k.recorded == RecordedAfter(env, i, t, op, rc)
  {
    var j := EntersCall(env, i, t, op);
    var n, j' := OneCall.FinishIsARun(env, j, t, MostActions(op));
    assert Reaches(env, j, j');
    ReachesOn(env, i, j, j');
    k := LeavesCall(env, j', t, op, LockerFor(env, op, i.starts), rc);
    ReachesOn(env, i, j', k);
    assert i.places[t := Inside(op, LockerFor(env, op, i.starts))][t := Out] == i.places;
  }

  // ---------------------------------------------------------------- locking and unlocking a new lock

  lemma LockAndUnlock(c: Core, t: Tid)
    requires InitialCore(c) && t in Threads(c)
    ensures OneCall.MayCall(c, t, Wrapper.LockOp) && Alone(c, t, Wrapper.LockOp).0 == Some(0)
    ensures var c' := Alone(c, t, Wrapper.LockOp).1;
            View(c').holds.By(t) && OneCall.MayCall(c', t, Unlock) && Alone(c', t, Unlock) == (Some(0), c)
  {
    match c
    case RwCore(s) =>
      RwLockRuns.AcquireAlone(s, t, Wrapper.LockOp);
      var s' := s.(exclusive := true, flag := true, holds := s.holds.Add(t, Exclusive));
      RwLockRuns.UnlockAlone(s', t);
      assert s'.holds.GiveUp(t) == s.holds;
    case MutexCore(s) =>
      MutexRuns.OneStepAlone(s, t, Wrapper.LockOp);
      MutexRuns.OneStepAlone(s.(owner := Some(t), count := 1), t, Unlock);
  }

  /** Any number of start hooks can have run while the lock is as new and nothing is recorded. */
  lemma {:induction false} AsNewAfter(env: Env, c: Core, t: Tid, n: nat) returns (i: Instrumented)
    requires env.psi && InitialCore(c) && t in Threads(c)
    ensures Reaches(env, Wrapper.Start(c), i) && i.core == c && i.places == Wrapper.Start(c).places
    ensures i.recorded == Free && i.starts == n
    decreases n
  {
    if n == 0 {
      i := Wrapper.Start(c);
      ReachesItself(env, i);
    } else {
      var i0 := AsNewAfter(env, c, t, n - 1);
      LockAndUnlock(c, t);
      var i1 := CallReaches(env, i0, t, Wrapper.LockOp, 0);
      i := CallReaches(env, i1, t, Unlock, 0);
      ReachesOn(env, Wrapper.Start(c), i0, i1);
      ReachesOn(env, Wrapper.Start(c), i1, i);
      assert Free.GiveUp(t) == Free && Free.Add(t, Exclusive).GiveUp(t) == Free;
    }
  }

  // ---------------------------------------------------------------- the exact condition

  /** In every run, once all calls have returned, the recorder believes exactly what is held. */
  ghost predicate AlwaysUpToDate(env: Env, c: Core) {
    forall i :: Reaches(env, Wrapper.Start(c), i) && (forall t :: t in i.places ==> i.places[t].Out?)
      ==> i.recorded == View(i.core).holds
  }

  lemma MissedLock(env: Env, c: Core, t: Tid, k: nat)
    requires InitialCore(c) && t in Threads(c) && (env.psi ==> !env.grants(k))
    ensures !AlwaysUpToDate(env, c)
  {
    var i := Wrapper.Start(c);
    ReachesItself(env, i);
    if env.psi { i := AsNewAfter(env, c, t, k); }
    LockAndUnlock(c, t);
    var j := CallReaches(env, i, t, Wrapper.LockOp, 0);
    ReachesOn(env, Wrapper.Start(c), i, j);
    assert j.recorded == Free && View(j.core).holds.By(t);
  }

  /** For every new lock that has a thread: if and only if no hook is NULL and no start hook returns NULL. */
  lemma UpToDateIff(env: Env, c: Core)
    requires InitialCore(c) && Threads(c) != {}
    ensures AlwaysUpToDate(env, c) <==> Wrapper.ToldEverything(env)
  {
    if Wrapper.ToldEverything(env) {
      forall i | Reaches(env, Wrapper.Start(c), i) && (forall t :: t in i.places ==> i.places[t].Out?)
        ensures i.recorded == View(i.core).holds
      {
        var es :| Wrapper.Exec(env, Wrapper.Start(c), es) == Some(i);
        Wrapper.RecorderUpToDate(env, c, es, i);
      }
    } else {
      var t :| t in Threads(c);
      if env.psi {
        var k: nat :| !env.grants(k);
        MissedLock(env, c, t, k);
      } else {
        MissedLock(env, c, t, 0);
      }
    }
  }
}
