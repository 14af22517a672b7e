/** thr_mutex.h, Windows branches, in the source's own form: calls that update the CRITICAL_SECTION. */
module NativeMutex {
  import opened Wrappers
  import opened LockTypes
  import Steps = MutexSteps
  import MutexRuns
  import Native = NativeCore

  /** A CRITICAL_SECTION. A return code None means the call never returns. */
  class Mutex {
    var owner: Option<Tid>
    var recursionCount: nat

    ghost predicate Valid()
      reads this
    {
      owner == None <==> recursionCount == 0
    }

    /** The object as a state of the step machine in which `t` is the thread that will move. */
    ghost function State(t: Tid): Steps.MutexState
      reads this
    {
      Steps.MutexState(owner, recursionCount, false, map[t := Steps.Idle])
    }

    ghost function Core(t: Tid): Native.Core
      reads this
    {
      Native.MutexCore(State(t))
    }

    constructor Init()
      ensures Valid() && owner == None
    {
      owner, recursionCount := None, 0;
    }

    method TryEnterCriticalSection(t: Tid) returns (ok: bool)
      requires Valid()
      modifies this
      ensures Valid() && ok == (old(owner) == None || old(owner) == Some(t))
      ensures owner == if ok then Some(t) else old(owner)
      ensures recursionCount == old(recursionCount) + if ok then 1 else 0
    {
      ok := owner == None || owner == Some(t);
      if ok {
        owner, recursionCount := Some(t), recursionCount + 1;
      }
    }

    method LeaveCriticalSection(t: Tid)
      requires Valid() && owner == Some(t)
      modifies this
      ensures Valid() && recursionCount == old(recursionCount) - 1
      ensures owner == if recursionCount == 0 then None else Some(t)
    {
      recursionCount := recursionCount - 1;
      if recursionCount == 0 {
        owner := None;
      }
    }

    method Lock(t: Tid) returns (rc: Option<int>)
      requires Valid()
      modifies this
      ensures Valid() && (rc, Core(t)) == Native.Alone(old(Core(t)), t, LockTypes.Lock(Exclusive))
      ensures rc == None <==> (old(owner).Some? && old(owner).value != t)
      ensures rc == Some(0) ==> owner == Some(t) && recursionCount == old(recursionCount) + 1
      ensures rc.Some? ==> rc == Some(0)
    {
      MutexRuns.OneStepAlone(State(t), t, LockTypes.Lock(Exclusive));
      var ok := TryEnterCriticalSection(t);
      rc := if ok then Some(0) else None;
    }

    method TryLock(t: Tid) returns (rc: Option<int>)
      requires Valid()
      modifies this
      ensures Valid() && (rc, Core(t)) == Native.Alone(old(Core(t)), t, LockTypes.TryLock(Exclusive))
      ensures rc == Some(if old(owner) == None then 0 else 16)
      ensures if rc == Some(0) then owner == Some(t) && recursionCount == 1
              else owner == old(owner) && recursionCount == old(recursionCount)
    {
      MutexRuns.TryLockAlone(State(t), t);
      var ok := TryEnterCriticalSection(t);
      if ok {
        if recursionCount > 1 {
          LeaveCriticalSection(t);
          return Some(EBUSY);
        }
        return Some(0);
      }
      rc := Some(EBUSY);
    }

    method Unlock(t: Tid) returns (rc: Option<int>)
      requires Valid() && owner == Some(t)
      modifies this
      ensures Valid() && (rc, Core(t)) == Native.Alone(old(Core(t)), t, LockTypes.Unlock)
      ensures rc == Some(0) && recursionCount == old(recursionCount) - 1
    {
      MutexRuns.OneStepAlone(State(t), t, LockTypes.Unlock);
      LeaveCriticalSection(t);
      rc := Some(0);
    }
  }
}
