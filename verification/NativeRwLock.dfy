/** thr_rwlock.h, Windows branches, in the source's own form: calls that update the lock structure. */
module NativeRwLock {
  import opened Wrappers
  import opened LockTypes
  import Steps = RwLockSteps
  import RwLockRuns
  import Native = NativeCore

  /** SRWLOCK plus `have_exclusive_srwlock`. A return code None means the call never returns. */
  class RwLock {
    var nShared: nat
    var exclusive: bool
    var haveExclusiveSrwlock: bool
    ghost var holds: Holds

    /** Between calls the flag says in which mode the SRWLOCK is held, and the holders agree. */
    ghost predicate Valid()
      reads this
    {
      && haveExclusiveSrwlock == exclusive
      && nShared == |holds.shared|
      && (if exclusive then |holds.exclusive| == 1 && nShared == 0 else holds.exclusive == multiset{})
    }

    /** The object as a state of the step machine in which `t` is the thread that will move. */
    ghost function State(t: Tid): Steps.RwState
      reads this
    {
      Steps.RwState(nShared, exclusive, haveExclusiveSrwlock, holds, false, map[t := Steps.Idle])
    }

    ghost function Core(t: Tid): Native.Core
      reads this
    {
      Native.RwCore(State(t))
    }

    constructor Init()
      ensures Valid() && holds == Free
    {
      nShared, exclusive, haveExclusiveSrwlock := 0, false, false;
      holds := Free;
    }

    method AcquireShared(t: Tid) returns (ok: bool)
      modifies this
      ensures ok == !old(exclusive)
      ensures exclusive == old(exclusive) && haveExclusiveSrwlock == old(haveExclusiveSrwlock)
      ensures nShared == old(nShared) + (if ok then 1 else 0)
      ensures holds == if ok then old(holds).Add(t, Shared) else old(holds)
    {
      ok := !exclusive;
      if ok {
        nShared := nShared + 1;
        holds := holds.Add(t, Shared);
      }
    }

    method AcquireExclusive(t: Tid) returns (ok: bool)
      modifies this
      ensures ok == (!old(exclusive) && old(nShared) == 0)
      ensures exclusive == (old(exclusive) || ok) && haveExclusiveSrwlock == old(haveExclusiveSrwlock)
      ensures nShared == old(nShared)
      ensures holds == if ok then old(holds).Add(t, Exclusive) else old(holds)
    {
      ok := !exclusive && nShared == 0;
      if ok {
        exclusive := true;
        holds := holds.Add(t, Exclusive);
      }
    }

    method RdLock(t: Tid) returns (rc: Option<int>)
      requires Valid()
      modifies this
      ensures Valid() && (rc, Core(t)) == Native.Alone(old(Core(t)), t, Lock(Shared))
      ensures rc == (if old(holds).exclusive == multiset{} then Some(0) else None)
      ensures holds == if rc == Some(0) then old(holds).Add(t, Shared) else old(holds)
    {
      RwLockRuns.AcquireAlone(State(t), t, Lock(Shared));
      var ok := AcquireShared(t);
      rc := if ok then Some(0) else None;
    }

    method TryRdLock(t: Tid) returns (rc: Option<int>)
      requires Valid()
      modifies this
      ensures Valid() && (rc, Core(t)) == Native.Alone(old(Core(t)), t, TryLock(Shared))
      ensures rc == Some(if old(holds).exclusive == multiset{} then 0 else 16)
      ensures holds == if rc == Some(0) then old(holds).Add(t, Shared) else old(holds)
    {
      RwLockRuns.AcquireAlone(State(t), t, TryLock(Shared));
      var ok := AcquireShared(t);
      if !ok {
        return Some(EBUSY);
      }
      rc := Some(0);
    }

    method WrLock(t: Tid) returns (rc: Option<int>)
      requires Valid()
      modifies this
      ensures Valid() && (rc, Core(t)) == Native.Alone(old(Core(t)), t, Lock(Exclusive))
      ensures rc == (if old(holds) == Free then Some(0) else None)
      ensures holds == if rc == Some(0) then old(holds).Add(t, Exclusive) else old(holds)
    {
      RwLockRuns.AcquireAlone(State(t), t, Lock(Exclusive));
      var ok := AcquireExclusive(t);
      if !ok {
        return None;
      }
      haveExclusiveSrwlock := true;
      rc := Some(0);
    }

    method TryWrLock(t: Tid) returns (rc: Option<int>)
      requires Valid()
      modifies this
      ensures Valid() && (rc, Core(t)) == Native.Alone(old(Core(t)), t, TryLock(Exclusive))
      ensures rc == Some(if old(holds) == Free then 0 else 16)
      ensures holds == if rc == Some(0) then old(holds).Add(t, Exclusive) else old(holds)
    {
      RwLockRuns.AcquireAlone(State(t), t, TryLock(Exclusive));
      var ok := AcquireExclusive(t);
      if !ok {
        return Some(EBUSY);
      }
      haveExclusiveSrwlock := true;
      rc := Some(0);
    }

    method Unlock(t: Tid) returns (rc: Option<int>)
      requires Valid() && holds.By(t)
      modifies this
      ensures Valid() && (rc, Core(t)) == Native.Alone(old(Core(t)), t, LockTypes.Unlock)
      ensures rc == Some(0) && holds == old(holds).GiveUp(t)
    {
      RwLockRuns.UnlockAlone(State(t), t);
      if t in holds.shared { assert holds.shared[t] <= |holds.shared|; }
      if haveExclusiveSrwlock {
        haveExclusiveSrwlock := false;
        exclusive := false;
      } else {
        nShared := nShared - 1;
      }
      holds := holds.GiveUp(t);
      rc := Some(0);
    }
  }
}
