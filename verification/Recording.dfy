/**
  What the performance schema believes about a lock, and why it is never more than the truth. The
  argument is made once, over the atomic lock, and then used for both native locks.
 */
module Recording {
  import opened Wrappers
  import opened LockTypes
  import opened AtomicLock

  /** Where a thread is in an instrumented call. */
  datatype Place =
    | Out
    | Started(op: Op, locker: Option<nat>)   // hook before the native call has run
    | Inside(op: Op, locker: Option<nat>)    // in the native call
    | Ended(op: Op)                          // end-of-wait hook has run

  /** The recorder and the lock it describes. */
  datatype Picture = Picture(lock: Atomic, places: map<Tid, Place>, recorded: Holds)

  /** Whether the place of a thread in the wrapper goes with its phase in the native call. */
  predicate PlaceFits(p: Picture, t: Tid)
    requires t in p.places && t in p.lock.phases
  {
    var phase := p.lock.phases[t];
    match p.places[t]
    case Out => phase.Idle?
    case Started(op, _) => phase.Idle? && (op.Unlock? ==> p.lock.holds.By(t))
    case Inside(op, _) =>
      (phase == Pending(op) && (op.Unlock? ==> p.lock.holds.By(t))) || (phase.Done? && phase.op == op)
    case Ended(op) => phase.Done?
  }

  /**
    A hold that the recorder must not count yet, or no longer: granted but not yet reported, or
    reported as given up but not yet released.
   */
  function Owed(p: Picture, t: Tid, m: Mode): nat
    requires t in p.places && t in p.lock.phases
  {
    var phase := p.lock.phases[t];
    var giving := if t in p.lock.holds.In(m) then 1 else 0;
    match p.places[t]
    case Started(op, _) => if op.Unlock? then giving else 0
    case Inside(op, _) =>
      if op.Unlock? then (if phase.Pending? then giving else 0)
      else if phase == Done(op, 0) && op.mode == m then 1
      else 0
    case _ => 0
  }

  predicate Covered(p: Picture, t: Tid)
    requires t in p.places && t in p.lock.phases
  {
    && p.recorded.shared[t] + Owed(p, t, Shared) <= p.lock.holds.shared[t]
    && p.recorded.exclusive[t] + Owed(p, t, Exclusive) <= p.lock.holds.exclusive[t]
  }

  ghost predicate Inv(psi: bool, p: Picture) {
    && p.places.Keys == p.lock.phases.Keys
    && Exclusion(p.lock.kind, p.lock.holds)
    && (!psi ==> p.recorded == Free)
    && (forall t :: t in p.places ==> PlaceFits(p, t) && Covered(p, t))
    && (forall t :: p.recorded.By(t) ==> t in p.places)
  }

  /** A step that concerns only `t` keeps the invariant if it keeps it for `t`. */
  lemma OnlyCallerMatters(psi: bool, p: Picture, p': Picture, t: Tid)
    requires Inv(psi, p) && t in p.places
    requires p'.places.Keys == p.places.Keys && p'.lock.phases.Keys == p.lock.phases.Keys
    requires forall u :: u != t && u in p.places ==> p'.places[u] == p.places[u] && p'.lock.phases[u] == p.lock.phases[u]
    requires forall u :: u != t ==> SameFor(p.recorded, p'.recorded, u) && SameFor(p.lock.holds, p'.lock.holds, u)
    requires Exclusion(p'.lock.kind, p'.lock.holds) && (!psi ==> p'.recorded == Free)
    requires PlaceFits(p', t) && Covered(p', t)
    ensures Inv(psi, p')
  {
    forall u | u in p'.places ensures PlaceFits(p', u) && Covered(p', u) {
      if u != t {
        assert PlaceFits(p, u) && Covered(p, u);
        assert SameFor(p.recorded, p'.recorded, u) && SameFor(p.lock.holds, p'.lock.holds, u);
      }
    }
    forall u | p'.recorded.By(u) ensures u in p'.places {
      if u != t { assert SameFor(p.recorded, p'.recorded, u); assert p.recorded.By(u); }
    }
  }

  lemma CommitCoversCaller(p: Picture, t: Tid)
    requires t in p.places && t in p.lock.phases && p.places[t].Inside? && Next(p.lock, t, Commit).Some?
    requires PlaceFits(p, t) && Covered(p, t)
    ensures var p' := p.(lock := Next(p.lock, t, Commit).value); PlaceFits(p', t) && Covered(p', t)
  {
    var op := p.places[t].op;
    assert p.lock.phases[t] == Pending(op);
    if op.Unlock? {
      assert Next(p.lock, t, Commit).value.holds == p.lock.holds.GiveUp(t);
    } else {
      assert Owed(p, t, Shared) == Owed(p, t, Exclusive) == 0;
    }
  }

  /** A call in progress takes effect. */
  lemma CommitKeepsInv(psi: bool, p: Picture, t: Tid)
    requires Inv(psi, p) && t in p.places && p.places[t].Inside? && Next(p.lock, t, Commit).Some?
    ensures Inv(psi, p.(lock := Next(p.lock, t, Commit).value))
  {
    var p' := p.(lock := Next(p.lock, t, Commit).value);
    assert PlaceFits(p, t) && Covered(p, t);
    ExclusionStep(p.lock, t, Commit);
    StepIsLocal(p.lock, t, Commit, p'.lock);
    CommitCoversCaller(p, t);
    OnlyCallerMatters(psi, p, p', t);
  }

  /** The native call is entered. */
  lemma InvokeKeepsInv(psi: bool, p: Picture, t: Tid, op: Op, locker: Option<nat>)
    requires Inv(psi, p) && t in p.places && Next(p.lock, t, Invoke(op)).Some?
    requires p.places[t] == Started(op, locker) || (p.places[t].Out? && !psi && (op.Unlock? ==> p.lock.holds.By(t)))
    ensures Inv(psi, p.(lock := Next(p.lock, t, Invoke(op)).value, places := p.places[t := Inside(op, locker)]))
  {
  }

  /** The wrapper returns. */
  lemma FinishKeepsInv(psi: bool, p: Picture, t: Tid)
    requires Inv(psi, p) && t in p.places && Next(p.lock, t, Finish).Some?
    requires p.places[t].Ended? || p.places[t].Inside?
    ensures Inv(psi, p.(lock := Next(p.lock, t, Finish).value, places := p.places[t := Out]))
  {
  }

  function AfterStartHook(p: Picture, t: Tid, op: Op, locker: Option<nat>): Picture {
    p.(recorded := if op.Unlock? then p.recorded.GiveUp(t) else p.recorded,
       places := p.places[t := Started(op, locker)])
  }

  lemma StartHookCoversCaller(p: Picture, t: Tid, op: Op, locker: Option<nat>)
    requires t in p.places && t in p.lock.phases && p.places[t].Out? && (op.Unlock? ==> p.lock.holds.By(t))
    requires PlaceFits(p, t) && Covered(p, t) && !(t in p.lock.holds.shared && t in p.lock.holds.exclusive)
    ensures PlaceFits(AfterStartHook(p, t, op, locker), t) && Covered(AfterStartHook(p, t, op, locker), t)
  {
  }

  /** The start hook of an acquiring call notes nothing; the unlock hook drops one of its caller's holds. */
  lemma StartHookKeepsInv(p: Picture, t: Tid, op: Op, locker: Option<nat>)
    requires Inv(true, p) && t in p.places && p.places[t].Out? && (op.Unlock? ==> p.lock.holds.By(t))
    ensures Inv(true, AfterStartHook(p, t, op, locker))
  {
    var p' := AfterStartHook(p, t, op, locker);
    assert PlaceFits(p, t) && Covered(p, t);
    StartHookCoversCaller(p, t, op, locker);
    forall u | u != t ensures SameFor(p.recorded, p'.recorded, u) { HoldsChangeLocally(p.recorded, t, u); }
    OnlyCallerMatters(true, p, p', t);
  }

  /** The end-of-wait hook notes the hold if the call succeeded. */
  lemma EndHookKeepsInv(p: Picture, t: Tid, op: Op, locker: Option<nat>, rc: int)
    requires Inv(true, p) && t in p.places && p.places[t] == Inside(op, locker)
    requires p.lock.phases[t].Done? && p.lock.phases[t].rc == rc
    ensures Inv(true, p.(recorded := if rc == 0 && !op.Unlock? then p.recorded.Add(t, op.mode) else p.recorded,
                         places := p.places[t := Ended(op)]))
  {
    var p' := p.(recorded := if rc == 0 && !op.Unlock? then p.recorded.Add(t, op.mode) else p.recorded,
                 places := p.places[t := Ended(op)]);
    assert PlaceFits(p, t) && Covered(p, t);
    assert PlaceFits(p', t) && Covered(p', t);
    OnlyCallerMatters(true, p, p', t);
  }

  lemma FewerIsSmaller(a: multiset<Tid>, b: multiset<Tid>)
    requires a <= b
    ensures |a| <= |b|
  {
    assert b == a + (b - a);
  }

  /** The conclusion: nothing is recorded that is not held, so nothing the lock forbids is recorded. */
  lemma RecordedIsHeld(psi: bool, p: Picture)
    requires Inv(psi, p)
    ensures p.recorded.shared <= p.lock.holds.shared && p.recorded.exclusive <= p.lock.holds.exclusive
    ensures Exclusion(p.lock.kind, p.recorded)
    ensures p.lock.kind.ReaderWriter? ==>
              |p.recorded.exclusive| <= 1 && (p.recorded.exclusive != multiset{} ==> p.recorded.shared == multiset{})
  {
    forall t ensures p.recorded.shared[t] <= p.lock.holds.shared[t] && p.recorded.exclusive[t] <= p.lock.holds.exclusive[t] {
      if t in p.places { assert Covered(p, t); } else { assert !p.recorded.By(t); }
    }
    FewerIsSmaller(p.recorded.exclusive, p.lock.holds.exclusive);
  }

  // ---------------------------------------------------------------- a recorder that is told everything

  /** Whether an end hook will run, so that what the call is granted will be noted. */
  predicate WillBeNoted(place: Place) {
    match place
    case Started(op, locker) => op.Unlock? || locker.Some?
    case Inside(op, locker) => op.Unlock? || locker.Some?
    case _ => true
  }

  predicate ExactFor(p: Picture, t: Tid)
    requires t in p.places && t in p.lock.phases
  {
    && p.recorded.shared[t] + Owed(p, t, Shared) == p.lock.holds.shared[t]
    && p.recorded.exclusive[t] + Owed(p, t, Exclusive) == p.lock.holds.exclusive[t]
    && WillBeNoted(p.places[t])
  }

  /** With no NULL hook or locker: recorded is exactly what is held, but for what is owed. */
  ghost predicate Exact(p: Picture) {
    && p.places.Keys == p.lock.phases.Keys
    && (forall t :: t in p.places ==> ExactFor(p, t))
    && (forall t :: p.lock.holds.By(t) ==> t in p.places)
  }

  lemma OnlyCallerExact(p: Picture, p': Picture, t: Tid)
    requires Exact(p) && t in p.places
    requires p'.places.Keys == p.places.Keys && p'.lock.phases.Keys == p.lock.phases.Keys
    requires forall u :: u != t && u in p.places ==> p'.places[u] == p.places[u] && p'.lock.phases[u] == p.lock.phases[u]
    requires forall u :: u != t ==> SameFor(p.recorded, p'.recorded, u) && SameFor(p.lock.holds, p'.lock.holds, u)
    requires ExactFor(p', t)
    ensures Exact(p')
  {
    forall u | u in p'.places ensures ExactFor(p', u) {
      if u != t {
        assert ExactFor(p, u);
        assert SameFor(p.recorded, p'.recorded, u) && SameFor(p.lock.holds, p'.lock.holds, u);
      }
    }
    forall u | p'.lock.holds.By(u) ensures u in p'.places {
      if u != t { assert SameFor(p.lock.holds, p'.lock.holds, u); assert p.lock.holds.By(u); }
    }
  }

  lemma CommitExactForCaller(p: Picture, t: Tid)
    requires t in p.places && t in p.lock.phases && p.places[t].Inside? && Next(p.lock, t, Commit).Some?
    requires PlaceFits(p, t) && ExactFor(p, t) && !(t in p.lock.holds.shared && t in p.lock.holds.exclusive)
    ensures ExactFor(p.(lock := Next(p.lock, t, Commit).value), t)
  {
  }

  lemma OneModeOnly(kind: Kind, holds: Holds, t: Tid)
    requires Exclusion(kind, holds)
    ensures !(t in holds.shared && t in holds.exclusive)
  {
  }

  lemma CommitKeepsExact(psi: bool, p: Picture, t: Tid)
    requires Inv(psi, p) && Exact(p) && t in p.places && p.places[t].Inside? && Next(p.lock, t, Commit).Some?
    ensures Exact(p.(lock := Next(p.lock, t, Commit).value))
  {
    var p' := p.(lock := Next(p.lock, t, Commit).value);
    assert PlaceFits(p, t) && ExactFor(p, t);
    OneModeOnly(p.lock.kind, p.lock.holds, t);
    StepIsLocal(p.lock, t, Commit, p'.lock);
    CommitExactForCaller(p, t);
    OnlyCallerExact(p, p', t);
  }

  /** A step of the caller into or out of the native call: nothing is granted, given up or noted. */
  lemma MoveKeepsExact(p: Picture, p': Picture, t: Tid, act: AtomicAct, place: Place)
    requires Exact(p) && t in p.places && !act.Commit? && Next(p.lock, t, act) == Some(p'.lock)
    requires p'.recorded == p.recorded && p'.places == p.places[t := place]
    requires WillBeNoted(place) && Owed(p', t, Shared) == Owed(p, t, Shared) && Owed(p', t, Exclusive) == Owed(p, t, Exclusive)
    ensures Exact(p')
  {
    assert ExactFor(p, t);
    StepIsLocal(p.lock, t, act, p'.lock);
    OnlyCallerExact(p, p', t);
  }

  lemma StartHookKeepsExact(p: Picture, t: Tid, op: Op, locker: Option<nat>)
    requires Inv(true, p) && Exact(p) && t in p.places && p.places[t].Out? && (op.Unlock? ==> p.lock.holds.By(t))
    requires op.Unlock? || locker.Some?
    ensures Exact(AfterStartHook(p, t, op, locker))
  {
    var p' := AfterStartHook(p, t, op, locker);
    assert PlaceFits(p, t) && ExactFor(p, t);
    OneModeOnly(p.lock.kind, p.lock.holds, t);
    assert ExactFor(p', t);
    forall u | u != t ensures SameFor(p.recorded, p'.recorded, u) { HoldsChangeLocally(p.recorded, t, u); }
    OnlyCallerExact(p, p', t);
  }

  lemma EndHookKeepsExact(p: Picture, t: Tid, op: Op, locker: Option<nat>, rc: int)
    requires Inv(true, p) && Exact(p) && t in p.places && p.places[t] == Inside(op, locker)
    requires p.lock.phases[t].Done? && p.lock.phases[t].rc == rc
    ensures Exact(p.(recorded := if rc == 0 && !op.Unlock? then p.recorded.Add(t, op.mode) else p.recorded,
                     places := p.places[t := Ended(op)]))
  {
    var p' := p.(recorded := if rc == 0 && !op.Unlock? then p.recorded.Add(t, op.mode) else p.recorded,
                 places := p.places[t := Ended(op)]);
    assert PlaceFits(p, t) && ExactFor(p, t);
    assert ExactFor(p', t);
    forall u | u != t ensures SameFor(p.recorded, p'.recorded, u) { HoldsChangeLocally(p.recorded, t, u); }
    OnlyCallerExact(p, p', t);
  }

  /** When every call has returned nothing is owed. */
  lemma ExactWhenAllReturned(psi: bool, p: Picture)
    requires Inv(psi, p) && Exact(p) && forall t :: t in p.places ==> p.places[t].Out?
    ensures p.recorded == p.lock.holds
  {
    forall t ensures p.recorded.shared[t] == p.lock.holds.shared[t] && p.recorded.exclusive[t] == p.lock.holds.exclusive[t] {
      if t in p.places {
        assert ExactFor(p, t);
      } else {
        assert !p.recorded.By(t) && !p.lock.holds.By(t);
      }
    }
  }
}
