/** What the refinement means for `native_rw_unlock`, and every call of the wrapper on its own. */
module RwLockRuns {
  import opened Wrappers
  import opened LockTypes
  import opened RwLockSteps
  import Native = NativeCore

  /**
    In every interleaving of any threads that unlock only what they hold: unlock is about to release
    the mode its caller holds, the SRWLOCK is held in that mode, and the flag is TRUE exactly while an
    exclusive holder has set it and not yet cleared it - never beside a shared holder.
   */
  lemma UnlockReleasesTheHeldMode(threads: set<Tid>, es: seq<(Tid, Act)>, s: RwState)
    requires Native.Exec(Native.RwCore(Init(threads)), es) == Some(Native.RwCore(s))
    ensures !s.fault
    ensures forall t :: t in s.pcs && s.pcs[t].ReleaseExclusive? ==> t in s.holds.exclusive && s.exclusive
    ensures forall t :: t in s.pcs && s.pcs[t].ReleaseShared? ==> t in s.holds.shared && s.nShared > 0 && !s.exclusive
    ensures s.exclusive <==> |s.holds.exclusive| == 1
    ensures !s.exclusive ==> s.nShared == |s.holds.shared|
    ensures s.holds.shared != multiset{} ==> !s.flag
    ensures s.flag <==> exists u :: u in s.holds.exclusive && u in s.pcs &&
                          !s.pcs[u].SetFlag? && !s.pcs[u].ReleaseExclusive?
  {
    InitInv(threads);
    Native.RunRefines(Native.RwCore(Init(threads)), es);
    var w :| InvFor(s, w);
    forall t | t in s.pcs && s.pcs[t].ReleaseShared? ensures s.nShared > 0 {
      assert PcFits(s, w, t);
      assert s.holds.shared[t] <= |s.holds.shared|;
    }
    forall t | t in s.pcs && s.pcs[t].ReleaseExclusive? ensures t in s.holds.exclusive && s.exclusive {
      assert PcFits(s, w, t);
    }
  }

  // ---------------------------------------------------------------- one call on its own

  function Alone(s: RwState, t: Tid, op: Op): (Option<int>, Native.Core)
    requires t in s.pcs
  {
    Native.Alone(Native.RwCore(s), t, op)
  }

  lemma AcquireAlone(s: RwState, t: Tid, op: Op)
    requires t in s.pcs && s.pcs[t].Idle? && !op.Unlock?
    ensures var (rc, s') :=
              if s.exclusive || (op.mode.Exclusive? && s.nShared > 0) then (if op.TryLock? then Some(EBUSY) else None, s)
              else if op.mode.Shared? then (Some(0), s.(nShared := s.nShared + 1, holds := s.holds.Add(t, Shared)))
              else (Some(0), s.(exclusive := true, flag := true, holds := s.holds.Add(t, Exclusive)));
            Alone(s, t, op) == (rc, Native.RwCore(s'))
  {
    var s0, n := At(s, t, Acquire(op)), Native.MostActions(op);
    match Advance(s0, t)
    case None =>
    case Some(s1) =>
      assert Native.Finish(Native.RwCore(s0), t, n) == Native.Finish(Native.RwCore(s1), t, n - 1);
      if s1.pcs[t].SetFlag? {
        var s2 := Advance(s1, t).value;
        assert Native.Finish(Native.RwCore(s1), t, n - 1) == Native.Finish(Native.RwCore(s2), t, n - 2);
        assert At(s2, t, Idle).pcs == s.pcs;
      } else {
        assert At(s1, t, Idle).pcs == s.pcs;
      }
  }

  lemma UnlockAlone(s: RwState, t: Tid)
    requires t in s.pcs && s.pcs[t].Idle?
    ensures var s' :=
              if s.flag then s.(flag := false, exclusive := false, holds := s.holds.GiveUp(t), fault := s.fault || !s.exclusive)
              else s.(nShared := if s.nShared == 0 then 0 else s.nShared - 1, holds := s.holds.GiveUp(t),
                      fault := s.fault || s.nShared == 0);
            Alone(s, t, Unlock) == (Some(0), Native.RwCore(s'))
  {
    var s0 := At(s, t, TestFlag);
    var s1 := Advance(s0, t).value;
    var s2 := Advance(s1, t).value;
    assert Native.Finish(Native.RwCore(s0), t, 3) == Native.Finish(Native.RwCore(s1), t, 2)
        == Native.Finish(Native.RwCore(s2), t, 1);
    if s.flag {
      var s3 := Advance(s2, t).value;
      assert Native.Finish(Native.RwCore(s2), t, 1) == Native.Finish(Native.RwCore(s3), t, 0);
      assert At(s3, t, Idle).pcs == s.pcs;
    } else {
      assert At(s2, t, Idle).pcs == s.pcs;
    }
  }

  /**
    The discipline cannot be dropped: with no other call in progress, unlock leaves the SRWLOCK
    agreeing with what the threads hold if and only if its caller held something.
   */
  lemma UnlockCorrectIffHeld(s: RwState, t: Tid)
    requires Inv(s) && t in s.pcs && forall u :: u in s.pcs ==> s.pcs[u].Idle?
    ensures Alone(s, t, Unlock).1.RwCore?
    ensures var s' := Alone(s, t, Unlock).1.rw;
            (!s'.fault && exists w :: Agrees(s', w)) <==> s.holds.By(t)
  {
    var w :| InvFor(s, w);
    UnlockAlone(s, t);
    var s' := Alone(s, t, Unlock).1.rw;
    if s.holds.By(t) {
      if t in s.holds.shared { assert s.holds.shared[t] <= |s.holds.shared|; }
      assert Agrees(s', None);
    } else {
      assert s'.holds.shared == s.holds.shared && s'.holds.exclusive == s.holds.exclusive;
      assert !Agrees(s', None) || s'.fault;
    }
  }

  /** For instance: unlocking a new lock releases an SRWLOCK that is not held. */
  lemma UnlockOfNewLockFaults()
    ensures Alone(Init({0}), 0, Unlock).1.RwCore? && Alone(Init({0}), 0, Unlock).1.rw.fault
  {
    UnlockAlone(Init({0}), 0);
  }

  /** And a reader's lock is taken from it by a thread that holds nothing. */
  lemma UnlockOfOthersLockFrees()
    ensures var s := Init({0, 1}).(nShared := 1, holds := Holds(multiset{1}, multiset{}));
            Inv(s) && Alone(s, 0, Unlock).1 == Native.RwCore(s.(nShared := 0))
  {
    var s := Init({0, 1}).(nShared := 1, holds := Holds(multiset{1}, multiset{}));
    assert InvFor(s, None);
    UnlockAlone(s, 0);
    assert s.holds.GiveUp(0) == s.holds;
  }
}
