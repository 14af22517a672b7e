/**
  thr_mutex.h, Windows branches: a CRITICAL_SECTION that its owner may enter again, used through
  lock, trylock and unlock calls split into their atomic actions.
 */
module MutexSteps {
  import opened Wrappers
  import opened LockTypes
  import AtomicLock

  datatype Pc =
    | Idle
    | Enter                           // native_mutex_lock: about to EnterCriticalSection
    | TryEnter                        // native_mutex_trylock: about to TryEnterCriticalSection
    | CheckCount                      // entered, about to read RecursionCount
    | LeaveBack                       // entered a second time, about to leave again
    | Leave                           // native_mutex_unlock: about to LeaveCriticalSection
    | Returned(op: Op, rc: int)

  datatype MutexState = MutexState(
    owner: Option<Tid>, count: nat,   // the CRITICAL_SECTION
    fault: bool,                      // LeaveCriticalSection was called by a thread that does not own it
    pcs: map<Tid, Pc>)

  function Init(threads: set<Tid>): MutexState {
    MutexState(None, 0, false, map t | t in threads :: Idle)
  }

  function At(s: MutexState, t: Tid, pc: Pc): MutexState {
    s.(pcs := s.pcs[t := pc])
  }

  predicate CanEnter(s: MutexState, t: Tid) {
    s.owner == None || s.owner == Some(t)
  }

  function Entered(s: MutexState, t: Tid): MutexState {
    s.(owner := Some(t), count := s.count + 1)
  }

  function Left(s: MutexState, t: Tid): MutexState {
    if s.owner != Some(t) || s.count == 0 then s.(fault := true)
    else s.(count := s.count - 1, owner := if s.count == 1 then None else s.owner)
  }

  /** Where a call starts. */
  function FirstPc(op: Op): Pc {
    match op
    case Lock(_) => Enter
    case TryLock(_) => TryEnter
    case Unlock => Leave
  }

  function Begin(s: MutexState, t: Tid, op: Op): Option<MutexState> {
    if (if op.Unlock? then s.owner == Some(t) else op.mode.Exclusive?) then Some(At(s, t, FirstPc(op))) else None
  }

  function Advance(s: MutexState, t: Tid): Option<MutexState>
    requires t in s.pcs
  {
    match s.pcs[t]
    case Enter =>
      if CanEnter(s, t) then Some(At(Entered(s, t), t, Returned(Lock(Exclusive), 0))) else None
    case TryEnter =>
      if CanEnter(s, t) then Some(At(Entered(s, t), t, CheckCount))
      else Some(At(s, t, Returned(TryLock(Exclusive), EBUSY)))
    case CheckCount => Some(At(s, t, if s.count > 1 then LeaveBack else Returned(TryLock(Exclusive), 0)))
    case LeaveBack => Some(At(Left(s, t), t, Returned(TryLock(Exclusive), EBUSY)))
    case Leave => Some(At(Left(s, t), t, Returned(Unlock, 0)))
    case _ => None
  }

  /** The state after thread `t` performs `act`, or None when `t` cannot move that way now. */
  function Next(s: MutexState, t: Tid, act: Act): Option<MutexState> {
    if t !in s.pcs then None
    else match act
      case Call(op) => if s.pcs[t].Idle? then Begin(s, t, op) else None
      case Run => Advance(s, t)
      case Return => if s.pcs[t].Returned? then Some(At(s, t, Idle)) else None
  }

  /** Every call of a mutex may start, but unlock only by its owner. */
  lemma CallStartsIff(s: MutexState, t: Tid, op: Op)
    requires t in s.pcs && s.pcs[t].Idle?
    ensures Next(s, t, Call(op)).Some? <==> if op.Unlock? then s.owner == Some(t) else op.mode.Exclusive?
  {
  }

  // ---------------------------------------------------------------- the invariant

  ghost predicate Inv(s: MutexState) {
    && !s.fault
    && (s.owner == None <==> s.count == 0)
    && (s.owner.Some? ==> s.owner.value in s.pcs)
    && (forall t :: t in s.pcs && (s.pcs[t].CheckCount? || s.pcs[t].LeaveBack? || s.pcs[t].Leave?)
          ==> s.owner == Some(t))
    && (forall t :: t in s.pcs && s.pcs[t].LeaveBack? ==> s.count > 1)
  }

  lemma InitInv(threads: set<Tid>)
    ensures Inv(Init(threads))
  {
  }

  lemma StepKeepsInv(s: MutexState, t: Tid, act: Act)
    requires Inv(s) && Next(s, t, act).Some?
    ensures Inv(Next(s, t, act).value)
  {
  }

  // ---------------------------------------------------------------- refinement

  /** The owner is inside a trylock that has entered once more than it may and is going to leave again. */
  predicate Bouncing(s: MutexState) {
    s.owner.Some? && s.owner.value in s.pcs &&
    ((s.pcs[s.owner.value].CheckCount? && s.count > 1) || s.pcs[s.owner.value].LeaveBack?)
  }

  /** The recursion count less the entry that a failing trylock is about to undo. */
  function Kept(s: MutexState): nat {
    if Bouncing(s) && s.count > 0 then s.count - 1 else s.count
  }

  function PhaseOf(s: MutexState, t: Tid): AtomicLock.Phase
    requires t in s.pcs
  {
    match s.pcs[t]
    case Idle => AtomicLock.Idle
    case Enter => AtomicLock.Pending(Lock(Exclusive))
    case TryEnter => AtomicLock.Pending(TryLock(Exclusive))
    case CheckCount => AtomicLock.Done(TryLock(Exclusive), if s.count > 1 then EBUSY else 0)
    case LeaveBack => AtomicLock.Done(TryLock(Exclusive), EBUSY)
    case Leave => AtomicLock.Pending(Unlock)
    case Returned(op, rc) => AtomicLock.Done(op, rc)
  }

  function HoldsOf(s: MutexState): Holds {
    if s.owner.Some? then Holds(multiset{}, multiset{}[s.owner.value := Kept(s)]) else Free
  }

  /** The state as a caller sees it: the entry of a trylock that will fail is invisible. */
  function View(s: MutexState): AtomicLock.Atomic {
    AtomicLock.Atomic(AtomicLock.Reentrant, HoldsOf(s), map t | t in s.pcs :: PhaseOf(s, t))
  }

  function AtomicStep(s: MutexState, t: Tid, act: Act): Option<AtomicLock.AtomicAct>
    requires t in s.pcs
  {
    match act
    case Call(op) => Some(AtomicLock.Invoke(op))
    case Return => Some(AtomicLock.Finish)
    case Run => if s.pcs[t].CheckCount? || s.pcs[t].LeaveBack? then None else Some(AtomicLock.Commit)
  }

  lemma OthersKeepTheirPhase(s: MutexState, t: Tid, act: Act)
    requires Inv(s) && Next(s, t, act).Some?
    ensures View(Next(s, t, act).value).phases == View(s).phases[t := PhaseOf(Next(s, t, act).value, t)]
  {
    var s' := Next(s, t, act).value;
    assert s'.pcs == s.pcs[t := s'.pcs[t]];
  }

  /** An entry that will be kept is seen as one more hold; one that will be undone is not seen. */
  lemma HoldsAfterEntry(s: MutexState, t: Tid)
    requires Inv(s) && t in s.pcs && (s.pcs[t].Enter? || s.pcs[t].TryEnter?) && CanEnter(s, t)
    ensures var h := HoldsOf(Advance(s, t).value);
            h == if s.pcs[t].Enter? || s.owner == None then HoldsOf(s).Add(t, Exclusive) else HoldsOf(s)
  {
    var s' := Advance(s, t).value;
    assert !Bouncing(s);
    assert Bouncing(s') <==> s.pcs[t].TryEnter? && s.count > 0;
    if !Bouncing(s') {
      assert HoldsOf(s').exclusive == HoldsOf(s).exclusive + multiset{t};
    }
  }

  lemma HoldsAfterLeave(s: MutexState, t: Tid)
    requires Inv(s) && t in s.pcs && s.pcs[t].Leave?
    ensures t in HoldsOf(s).exclusive && HoldsOf(Advance(s, t).value) == HoldsOf(s).GiveUp(t)
  {
    var s' := Advance(s, t).value;
    assert !Bouncing(s) && !Bouncing(s');
    assert HoldsOf(s').exclusive == HoldsOf(s).exclusive - multiset{t};
  }

  /** All other steps leave the visible holds alone, in particular both halves of backing out. */
  lemma HoldsOtherwiseKept(s: MutexState, t: Tid, act: Act)
    requires Inv(s) && Next(s, t, act).Some?
    requires act.Run? ==> !s.pcs[t].Leave? && !((s.pcs[t].Enter? || s.pcs[t].TryEnter?) && CanEnter(s, t))
    ensures HoldsOf(Next(s, t, act).value) == HoldsOf(s)
  {
    var s' := Next(s, t, act).value;
    assert s'.owner == s.owner && Kept(s') == Kept(s);
  }

  lemma WhenGrantable(s: MutexState, t: Tid, op: Op)
    requires Inv(s) && !op.Unlock? && op.mode.Exclusive?
    ensures AtomicLock.Grantable(AtomicLock.Reentrant, HoldsOf(s), t, op) <==>
            (s.owner == None || (s.owner == Some(t) && op.Lock?))
  {
    if s.owner.Some? { assert Kept(s) > 0 && s.owner.value in HoldsOf(s).exclusive; }
  }

  lemma EntryRefines(s: MutexState, t: Tid)
    requires Inv(s) && t in s.pcs && (s.pcs[t].Enter? || s.pcs[t].TryEnter?) && Advance(s, t).Some?
    ensures AtomicLock.Next(View(s), t, AtomicLock.Commit) == Some(View(Advance(s, t).value))
  {
    OthersKeepTheirPhase(s, t, Run);
    WhenGrantable(s, t, if s.pcs[t].Enter? then Lock(Exclusive) else TryLock(Exclusive));
    if CanEnter(s, t) { HoldsAfterEntry(s, t); } else { HoldsOtherwiseKept(s, t, Run); }
  }

  /** And it waits for nothing else: lock is stuck exactly when another thread owns the mutex. */
  lemma WaitsOnlyForTheOwner(s: MutexState, t: Tid)
    requires Inv(s) && t in s.pcs && (s.pcs[t].Enter? || s.pcs[t].TryEnter?)
    ensures Next(s, t, Run) == None <==> AtomicLock.Next(View(s), t, AtomicLock.Commit) == None
    ensures Next(s, t, Run) == None <==> (s.pcs[t].Enter? && s.owner.Some? && s.owner.value != t)
  {
    WhenGrantable(s, t, if s.pcs[t].Enter? then Lock(Exclusive) else TryLock(Exclusive));
  }

  /** A thread is stuck, whatever it tries, exactly in a lock call that another owner keeps out. */
  lemma StuckIff(s: MutexState, t: Tid)
    requires t in s.pcs
    ensures (forall act :: Next(s, t, act) == None) <==> (s.pcs[t].Enter? && s.owner.Some? && s.owner.value != t)
  {
    match s.pcs[t]
    case Idle => assert Next(s, t, Call(Lock(Exclusive))).Some?;
    case Returned(_, _) => assert Next(s, t, Return).Some?;
    case Enter =>
      assert Next(s, t, Run).Some? <==> CanEnter(s, t);
      assert forall act :: act != Run ==> Next(s, t, act) == None;
    case _ => assert Next(s, t, Run).Some?;
  }

  lemma LeaveRefines(s: MutexState, t: Tid)
    requires Inv(s) && t in s.pcs && s.pcs[t].Leave?
    ensures AtomicLock.Next(View(s), t, AtomicLock.Commit) == Some(View(Advance(s, t).value))
  {
    OthersKeepTheirPhase(s, t, Run);
    HoldsAfterLeave(s, t);
  }

  lemma OtherRefines(s: MutexState, t: Tid, act: Act)
    requires Inv(s) && Next(s, t, act).Some?
    requires act.Run? ==> s.pcs[t].CheckCount? || s.pcs[t].LeaveBack?
    ensures match act
            case Run => View(Next(s, t, act).value) == View(s)
            case Call(op) => AtomicLock.Next(View(s), t, AtomicLock.Invoke(op)) == Some(View(Next(s, t, act).value))
            case Return => AtomicLock.Next(View(s), t, AtomicLock.Finish) == Some(View(Next(s, t, act).value))
  {
    OthersKeepTheirPhase(s, t, act);
    HoldsOtherwiseKept(s, t, act);
  }

  lemma StepRefines(s: MutexState, t: Tid, act: Act)
    requires Inv(s) && Next(s, t, act).Some?
    ensures match AtomicStep(s, t, act)
            case None => View(Next(s, t, act).value) == View(s)
            case Some(step) => AtomicLock.Next(View(s), t, step) == Some(View(Next(s, t, act).value))
  {
    if act.Run? && (s.pcs[t].Enter? || s.pcs[t].TryEnter?) {
      EntryRefines(s, t);
    } else if act.Run? && s.pcs[t].Leave? {
      LeaveRefines(s, t);
    } else {
      OtherRefines(s, t, act);
    }
  }
}
