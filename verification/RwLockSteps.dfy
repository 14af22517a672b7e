/**
  thr_rwlock.h, Windows branches, with every call split into its atomic actions and any number of
  threads interleaving them. The SRWLOCK itself only knows how many shared holds it has and whether
  it is held exclusively; `holds` is bookkeeping that says whose holds those should be.
 */
module RwLockSteps {
  import opened Wrappers
  import opened LockTypes
  import AtomicLock

  datatype Pc =
    | Idle
    | Acquire(op: Op)                 // about to (Try)AcquireSRWLock...
    | SetFlag(op: Op)                 // exclusive acquired, have_exclusive_srwlock not yet TRUE
    | TestFlag                        // native_rw_unlock entered
    | ClearFlag                       // flag seen TRUE
    | ReleaseExclusive
    | ReleaseShared
    | Returned(op: Op, rc: int)

  datatype RwState = RwState(
    nShared: nat, exclusive: bool,    // the SRWLOCK
    flag: bool,                       // have_exclusive_srwlock
    holds: Holds,                     // bookkeeping: what each thread has been granted and not given up
    fault: bool,                      // a release was called on a lock not held in that mode
    pcs: map<Tid, Pc>)

  function Init(threads: set<Tid>): RwState {
    RwState(0, false, false, Free, false, map t | t in threads :: Idle)
  }

  function At(s: RwState, t: Tid, pc: Pc): RwState {
    s.(pcs := s.pcs[t := pc])
  }

  /** One try at the SRWLOCK; None is a blocking acquire that has to wait. */
  function TakeSrwLock(s: RwState, t: Tid, op: Op): Option<RwState>
    requires !op.Unlock?
  {
    if s.exclusive || (op.mode.Exclusive? && s.nShared > 0) then
      if op.TryLock? then Some(At(s, t, Returned(op, EBUSY))) else None
    else
      var s' := s.(holds := s.holds.Add(t, op.mode));
      if op.mode.Shared? then Some(At(s'.(nShared := s.nShared + 1), t, Returned(op, 0)))
      else Some(At(s'.(exclusive := true), t, SetFlag(op)))
  }

  /** Where a call starts. */
  function FirstPc(op: Op): Pc {
    if op.Unlock? then TestFlag else Acquire(op)
  }

  function Begin(s: RwState, t: Tid, op: Op): Option<RwState> {
    if op.Unlock? && !s.holds.By(t) then None else Some(At(s, t, FirstPc(op)))
  }

  function Advance(s: RwState, t: Tid): Option<RwState>
    requires t in s.pcs
  {
    match s.pcs[t]
    case Acquire(op) => if op.Unlock? then None else TakeSrwLock(s, t, op)
    case SetFlag(op) => Some(At(s.(flag := true), t, Returned(op, 0)))
    case TestFlag => Some(At(s, t, if s.flag then ClearFlag else ReleaseShared))
    case ClearFlag => Some(At(s.(flag := false), t, ReleaseExclusive))
    case ReleaseExclusive =>
      Some(At(s.(exclusive := false, holds := s.holds.GiveUp(t), fault := s.fault || !s.exclusive),
              t, Returned(Unlock, 0)))
    case ReleaseShared =>
      Some(At(s.(nShared := if s.nShared == 0 then 0 else s.nShared - 1, holds := s.holds.GiveUp(t),
                 fault := s.fault || s.nShared == 0), t, Returned(Unlock, 0)))
    case _ => None
  }

  /** The state after thread `t` performs `act`, or None when `t` cannot move that way now. */
  function Next(s: RwState, t: Tid, act: Act): Option<RwState> {
    if t !in s.pcs then None
    else match act
      case Call(op) => if s.pcs[t].Idle? then Begin(s, t, op) else None
      case Run => Advance(s, t)
      case Return => if s.pcs[t].Returned? then Some(At(s, t, Idle)) else None
  }

  /** Every call may start, but unlock only by a thread that holds the lock. */
  lemma CallStartsIff(s: RwState, t: Tid, op: Op)
    requires t in s.pcs && s.pcs[t].Idle?
    ensures Next(s, t, Call(op)).Some? <==> (op.Unlock? ==> s.holds.By(t))
  {
  }

  // ---------------------------------------------------------------- the invariant

  /** The SRWLOCK is in the mode that the bookkeeping says, `w` being the exclusive holder if any. */
  ghost predicate Agrees(s: RwState, w: Option<Tid>) {
    match w
    case Some(u) => s.exclusive && s.nShared == 0 && s.holds == Holds(multiset{}, multiset{u}) && u in s.pcs
    case None => !s.exclusive && s.nShared == |s.holds.shared| && s.holds.exclusive == multiset{}
  }

  /** TRUE exactly while an exclusive holder has set the flag and not yet cleared it. */
  ghost predicate FlagExact(s: RwState, w: Option<Tid>) {
    match w
    case Some(u) => u in s.pcs && (s.flag <==> !(s.pcs[u].SetFlag? || s.pcs[u].ReleaseExclusive?))
    case None => !s.flag
  }

  ghost predicate PcFits(s: RwState, w: Option<Tid>, t: Tid)
    requires t in s.pcs
  {
    match s.pcs[t]
    case Acquire(op) => !op.Unlock?
    case SetFlag(op) => w == Some(t) && !op.Unlock? && op.mode.Exclusive?
    case TestFlag => s.holds.By(t)
    case ClearFlag => w == Some(t)
    case ReleaseExclusive => w == Some(t)
    case ReleaseShared => t in s.holds.shared
    case _ => true
  }

  ghost predicate InvFor(s: RwState, w: Option<Tid>) {
    && !s.fault
    && Agrees(s, w)
    && FlagExact(s, w)
    && forall t :: t in s.pcs ==> PcFits(s, w, t)
  }

  ghost predicate Inv(s: RwState) {
    exists w :: InvFor(s, w)
  }

  lemma InitInv(threads: set<Tid>)
    ensures Inv(Init(threads))
  {
    assert InvFor(Init(threads), None);
  }

  /** Who holds the lock exclusively once `t` has moved. */
  function NextWriter(s: RwState, w: Option<Tid>, t: Tid, act: Act): Option<Tid>
    requires Next(s, t, act).Some?
  {
    var s' := Next(s, t, act).value;
    if s'.pcs[t].SetFlag? then Some(t)
    else if s.pcs[t].ReleaseExclusive? then None
    else w
  }

  /** A step of `t` that leaves the other threads and their holds alone cannot invalidate their pcs. */
  lemma OthersStillFit(s: RwState, w: Option<Tid>, s': RwState, w': Option<Tid>, t: Tid)
    requires InvFor(s, w)
    requires s'.pcs.Keys == s.pcs.Keys && forall u :: u in s.pcs && u != t ==> s'.pcs[u] == s.pcs[u]
    requires forall u :: u != t && s.holds.By(u) ==> s'.holds.By(u)
    requires forall u :: u != t && u in s.holds.shared ==> u in s'.holds.shared
    requires forall u :: u != t && w == Some(u) ==> w' == w
    ensures forall u :: u in s.pcs && u != t ==> PcFits(s', w', u)
  {
    forall u | u in s.pcs && u != t ensures PcFits(s', w', u) {
      assert PcFits(s, w, u);
    }
  }

  lemma AcquireAgrees(s: RwState, w: Option<Tid>, t: Tid, op: Op)
    requires InvFor(s, w) && t in s.pcs && s.pcs[t] == Acquire(op) && Next(s, t, Run).Some?
    ensures Agrees(Next(s, t, Run).value, NextWriter(s, w, t, Run))
    ensures FlagExact(Next(s, t, Run).value, NextWriter(s, w, t, Run))
  {
    var s' := Next(s, t, Run).value;
    assert PcFits(s, w, t) && s'.pcs == s.pcs[t := s'.pcs[t]];
    if s'.pcs[t].SetFlag? {
      assert s.holds.shared == multiset{};
      assert s'.holds == Holds(multiset{}, multiset{t});
    }
  }

  lemma AcquireKeepsInv(s: RwState, w: Option<Tid>, t: Tid, op: Op)
    requires InvFor(s, w) && t in s.pcs && s.pcs[t] == Acquire(op) && Next(s, t, Run).Some?
    ensures InvFor(Next(s, t, Run).value, NextWriter(s, w, t, Run))
  {
    var s', w' := Next(s, t, Run).value, NextWriter(s, w, t, Run);
    assert PcFits(s, w, t) && s'.pcs == s.pcs[t := s'.pcs[t]];
    assert PcFits(s', w', t);
    OthersStillFit(s, w, s', w', t);
    AcquireAgrees(s, w, t, op);
  }

  lemma ReleaseKeepsInv(s: RwState, w: Option<Tid>, t: Tid)
    requires InvFor(s, w) && t in s.pcs && (s.pcs[t].ReleaseExclusive? || s.pcs[t].ReleaseShared?)
    ensures InvFor(Next(s, t, Run).value, NextWriter(s, w, t, Run))
  {
    var s', w' := Next(s, t, Run).value, NextWriter(s, w, t, Run);
    assert PcFits(s, w, t);
    OthersStillFit(s, w, s', w', t);
    if s.pcs[t].ReleaseShared? {
      assert w == None && s.holds.shared[t] <= |s.holds.shared|;
    }
  }

  lemma {:induction false} StepKeepsInv(s: RwState, t: Tid, act: Act)
    requires Inv(s) && Next(s, t, act).Some?
    ensures Inv(Next(s, t, act).value)
  {
    var w :| InvFor(s, w);
    var s', w' := Next(s, t, act).value, NextWriter(s, w, t, act);
    if act.Run? && s.pcs[t].Acquire? {
      AcquireKeepsInv(s, w, t, s.pcs[t].op);
    } else if act.Run? && (s.pcs[t].ReleaseExclusive? || s.pcs[t].ReleaseShared?) {
      ReleaseKeepsInv(s, w, t);
    } else {
      assert PcFits(s, w, t) && s'.pcs == s.pcs[t := s'.pcs[t]];
      assert PcFits(s', w', t);
      OthersStillFit(s, w, s', w', t);
      assert Agrees(s', w') && FlagExact(s', w');
    }
    assert InvFor(s', w');
  }

  // ---------------------------------------------------------------- refinement

  function PhaseOf(pc: Pc): AtomicLock.Phase {
    match pc
    case Idle => AtomicLock.Idle
    case Acquire(op) => AtomicLock.Pending(op)
    case SetFlag(op) => AtomicLock.Done(op, 0)
    case Returned(op, rc) => AtomicLock.Done(op, rc)
    case _ => AtomicLock.Pending(Unlock)
  }

  /** The state as a caller sees it: no SRWLOCK, no flag. */
  function View(s: RwState): AtomicLock.Atomic {
    AtomicLock.Atomic(AtomicLock.ReaderWriter, s.holds, map t | t in s.pcs :: PhaseOf(s.pcs[t]))
  }

  /** The atomic step a native step stands for; None when a caller sees nothing happen. */
  function AtomicStep(s: RwState, t: Tid, act: Act): Option<AtomicLock.AtomicAct>
    requires t in s.pcs
  {
    match act
    case Call(op) => Some(AtomicLock.Invoke(op))
    case Return => Some(AtomicLock.Finish)
    case Run =>
      match s.pcs[t]
      case SetFlag(_) => None
      case TestFlag => None
      case ClearFlag => None
      case _ => Some(AtomicLock.Commit)
  }

  lemma OthersKeepTheirPhase(s: RwState, t: Tid, act: Act)
    requires Next(s, t, act).Some?
    ensures View(Next(s, t, act).value).phases == View(s).phases[t := PhaseOf(Next(s, t, act).value.pcs[t])]
  {
    var s' := Next(s, t, act).value;
    assert s'.pcs == s.pcs[t := s'.pcs[t]];
  }

  lemma AcquireRefines(s: RwState, t: Tid)
    requires Inv(s) && t in s.pcs && s.pcs[t].Acquire? && Advance(s, t).Some?
    ensures AtomicLock.Next(View(s), t, AtomicLock.Commit) == Some(View(Advance(s, t).value))
  {
    var w :| InvFor(s, w);
    assert PcFits(s, w, t);
    OthersKeepTheirPhase(s, t, Run);
    assert AtomicLock.Grantable(AtomicLock.ReaderWriter, s.holds, t, s.pcs[t].op)
      <==> !(s.exclusive || (s.pcs[t].op.mode.Exclusive? && s.nShared > 0));
  }

  /** And it waits for nothing else: an acquiring call is stuck exactly when the atomic lock would make it wait. */
  lemma WaitsOnlyForHolders(s: RwState, t: Tid)
    requires Inv(s) && t in s.pcs && s.pcs[t].Acquire?
    ensures Next(s, t, Run) == None <==> AtomicLock.Next(View(s), t, AtomicLock.Commit) == None
    ensures Next(s, t, Run) == None ==>
              s.pcs[t].op.Lock? && (s.holds.exclusive != multiset{} || (s.pcs[t].op.mode.Exclusive? && s.holds.shared != multiset{}))
  {
  }

  /** A thread is stuck, whatever it tries, exactly in a blocking acquire that a holder keeps out. */
  lemma StuckIff(s: RwState, t: Tid)
    requires Inv(s) && t in s.pcs
    ensures (forall act :: Next(s, t, act) == None) <==>
            (match s.pcs[t]
             case Acquire(op) =>
               op.Lock? && (s.holds.exclusive != multiset{} || (op.mode.Exclusive? && s.holds.shared != multiset{}))
             case _ => false)
  {
    var w :| InvFor(s, w);
    assert PcFits(s, w, t);
    match s.pcs[t]
    case Idle => assert Next(s, t, Call(Lock(Shared))).Some?;
    case Returned(_, _) => assert Next(s, t, Return).Some?;
    case Acquire(op) =>
      WaitsOnlyForHolders(s, t);
      assert w.Some? <==> s.holds.exclusive != multiset{};
      assert forall act :: act != Run ==> Next(s, t, act) == None;
    case _ => assert Next(s, t, Run).Some?;
  }

  lemma ReleaseRefines(s: RwState, t: Tid)
    requires Inv(s) && t in s.pcs && (s.pcs[t].ReleaseExclusive? || s.pcs[t].ReleaseShared?)
    ensures AtomicLock.Next(View(s), t, AtomicLock.Commit) == Some(View(Advance(s, t).value))
  {
    var w :| InvFor(s, w);
    assert PcFits(s, w, t);
    OthersKeepTheirPhase(s, t, Run);
  }

  lemma OtherRefines(s: RwState, t: Tid, act: Act)
    requires Next(s, t, act).Some?
    requires act.Run? ==> s.pcs[t].SetFlag? || s.pcs[t].TestFlag? || s.pcs[t].ClearFlag?
    ensures match act
            case Run => View(Next(s, t, act).value) == View(s)
            case Call(op) => AtomicLock.Next(View(s), t, AtomicLock.Invoke(op)) == Some(View(Next(s, t, act).value))
            case Return => AtomicLock.Next(View(s), t, AtomicLock.Finish) == Some(View(Next(s, t, act).value))
  {
    OthersKeepTheirPhase(s, t, act);
  }

  lemma StepRefines(s: RwState, t: Tid, act: Act)
    requires Inv(s) && Next(s, t, act).Some?
    ensures match AtomicStep(s, t, act)
            case None => View(Next(s, t, act).value) == View(s)
            case Some(step) => AtomicLock.Next(View(s), t, step) == Some(View(Next(s, t, act).value))
  {
    if act.Run? && s.pcs[t].Acquire? {
      AcquireRefines(s, t);
    } else if act.Run? && (s.pcs[t].ReleaseExclusive? || s.pcs[t].ReleaseShared?) {
      ReleaseRefines(s, t);
    } else {
      OtherRefines(s, t, act);
    }
  }
}
