/**
  The lock a caller has in mind: every call takes effect in one indivisible step between its
  invocation and its return. The native locks are proved to be refinements of this machine.
 */
module AtomicLock {
  import opened Wrappers
  import opened LockTypes

  /** A reader-writer lock, or a mutex that its owner may lock again. */
  datatype Kind = ReaderWriter | Reentrant

  /** Where a thread is: outside, invoked but without effect yet, or effective with its return code. */
  datatype Phase = Idle | Pending(op: Op) | Done(op: Op, rc: int)

  datatype Atomic = Atomic(kind: Kind, holds: Holds, phases: map<Tid, Phase>)

  datatype AtomicAct = Invoke(op: Op) | Commit | Finish

  /** Whether an acquiring call by `t` may take the lock now. A mutex `TryLock` needs it free. */
  predicate Grantable(kind: Kind, holds: Holds, t: Tid, op: Op)
    requires !op.Unlock?
  {
    match kind
    case ReaderWriter =>
      holds.exclusive == multiset{} && (op.mode.Exclusive? ==> holds.shared == multiset{})
    case Reentrant =>
      op.mode.Exclusive? && forall u :: u in holds.exclusive ==> u == t && op.Lock?
  }

  function CommitCall(a: Atomic, t: Tid, op: Op): Option<Atomic>
    requires t in a.phases
  {
    if op.Unlock? then
      if !a.holds.By(t) then None
      else Some(a.(holds := a.holds.GiveUp(t), phases := a.phases[t := Done(op, 0)]))
    else if Grantable(a.kind, a.holds, t, op) then
      Some(a.(holds := a.holds.Add(t, op.mode), phases := a.phases[t := Done(op, 0)]))
    else if op.TryLock? then Some(a.(phases := a.phases[t := Done(op, EBUSY)]))
    else None
  }

  /** The only state thread `t` can reach by `act`, or None if it cannot (or must wait). */
  function Next(a: Atomic, t: Tid, act: AtomicAct): Option<Atomic> {
    if t !in a.phases then None
    else match act
      case Invoke(op) => if a.phases[t].Idle? then Some(a.(phases := a.phases[t := Pending(op)])) else None
      case Commit => if a.phases[t].Pending? then CommitCall(a, t, a.phases[t].op) else None
      case Finish => if a.phases[t].Done? then Some(a.(phases := a.phases[t := Idle])) else None
  }

  /** Runs a schedule: which thread moves, and how, at every step. */
  function Exec(a: Atomic, es: seq<(Tid, AtomicAct)>): Option<Atomic>
    decreases |es|
  {
    if es == [] then Some(a)
    else match Next(a, es[0].0, es[0].1)
      case None => None
      case Some(b) => Exec(b, es[1..])
  }

  /** A writer is alone; a mutex has at most one owner. */
  ghost predicate Exclusion(kind: Kind, holds: Holds) {
    match kind
    case ReaderWriter => holds.exclusive == multiset{} || (holds.shared == multiset{} && |holds.exclusive| == 1)
    case Reentrant => holds.shared == multiset{} && forall t, u :: t in holds.exclusive && u in holds.exclusive ==> t == u
  }

  predicate SameFor(h: Holds, h': Holds, u: Tid) {
    h'.shared[u] == h.shared[u] && h'.exclusive[u] == h.exclusive[u]
  }

  lemma HoldsChangeLocally(h: Holds, t: Tid, u: Tid)
    requires u != t
    ensures SameFor(h, h.Add(t, Shared), u) && SameFor(h, h.Add(t, Exclusive), u) && SameFor(h, h.GiveUp(t), u)
  {
  }

  lemma StepHolds(a: Atomic, t: Tid, act: AtomicAct)
    requires Next(a, t, act).Some?
    ensures var h := Next(a, t, act).value.holds;
            h == a.holds || h == a.holds.Add(t, Shared) || h == a.holds.Add(t, Exclusive) || h == a.holds.GiveUp(t)
  {
  }

  lemma StepPhases(a: Atomic, t: Tid, act: AtomicAct)
    requires Next(a, t, act).Some?
    ensures t in a.phases && t in Next(a, t, act).value.phases
    ensures Next(a, t, act).value.phases == a.phases[t := Next(a, t, act).value.phases[t]]
  {
  }

  /** A step of `t` concerns nobody else. */
  lemma StepIsLocal(a: Atomic, t: Tid, act: AtomicAct, a': Atomic)
    requires Next(a, t, act) == Some(a')
    ensures a'.phases.Keys == a.phases.Keys
    ensures forall u :: u != t ==> SameFor(a.holds, a'.holds, u) && (u in a.phases ==> a'.phases[u] == a.phases[u])
  {
    StepPhases(a, t, act);
    StepHolds(a, t, act);
    forall u | u != t ensures SameFor(a.holds, a'.holds, u) {
      HoldsChangeLocally(a.holds, t, u);
    }
  }

  lemma GrantKeepsExclusion(kind: Kind, holds: Holds, t: Tid, op: Op)
    requires Exclusion(kind, holds) && !op.Unlock? && Grantable(kind, holds, t, op)
    ensures Exclusion(kind, holds.Add(t, op.mode))
  {
  }

  lemma GiveUpKeepsExclusion(kind: Kind, holds: Holds, t: Tid)
    requires Exclusion(kind, holds) && holds.By(t)
    ensures Exclusion(kind, holds.GiveUp(t))
  {
  }

  lemma ExclusionStep(a: Atomic, t: Tid, act: AtomicAct)
    requires Exclusion(a.kind, a.holds) && Next(a, t, act).Some?
    ensures Exclusion(a.kind, Next(a, t, act).value.holds) && Next(a, t, act).value.kind == a.kind
  {
    if act.Commit? {
      var op := a.phases[t].op;
      if op.Unlock? {
        GiveUpKeepsExclusion(a.kind, a.holds, t);
      } else if Grantable(a.kind, a.holds, t, op) {
        GrantKeepsExclusion(a.kind, a.holds, t, op);
      }
    }
  }

  /** What that means: beside a writer nobody holds the lock, and all entries of a mutex are one thread's. */
  lemma ExclusionMeans(kind: Kind, holds: Holds)
    requires Exclusion(kind, holds)
    ensures kind.ReaderWriter? ==> |holds.exclusive| <= 1 && (holds.exclusive != multiset{} ==> holds.shared == multiset{})
    ensures kind.Reentrant? ==> holds.shared == multiset{} && forall t, u :: holds.By(t) && holds.By(u) ==> t == u
  {
  }

  lemma {:induction false} ExclusionAlways(a: Atomic, es: seq<(Tid, AtomicAct)>)
    requires Exclusion(a.kind, a.holds) && Exec(a, es).Some?
    ensures Exclusion(a.kind, Exec(a, es).value.holds) && Exec(a, es).value.kind == a.kind
    decreases |es|
  {
    if es == [] {
    } else {
      var b := Next(a, es[0].0, es[0].1).value;
      ExclusionStep(a, es[0].0, es[0].1);
      ExclusionAlways(b, es[1..]);
    }
  }

  lemma ExecCons(a: Atomic, e: (Tid, AtomicAct), es: seq<(Tid, AtomicAct)>)
    requires Next(a, e.0, e.1).Some?
    ensures Exec(a, [e] + es) == Exec(Next(a, e.0, e.1).value, es)
  {
  }
}
