/** The native lock under an instrumented one: either of the two machines, seen in the same way. */
module NativeCore {
  import opened Wrappers
  import opened LockTypes
  import AtomicLock
  import Rw = RwLockSteps
  import Mx = MutexSteps

  datatype Core = RwCore(rw: Rw.RwState) | MutexCore(mx: Mx.MutexState)

  function Threads(c: Core): set<Tid> {
    match c
    case RwCore(s) => s.pcs.Keys
    case MutexCore(s) => s.pcs.Keys
  }

  function Next(c: Core, t: Tid, act: Act): Option<Core> {
    match c
    case RwCore(s) => (match Rw.Next(s, t, act) case None => None case Some(s') => Some(RwCore(s')))
    case MutexCore(s) => (match Mx.Next(s, t, act) case None => None case Some(s') => Some(MutexCore(s')))
  }

  /** Whether `t` is outside every native call. */
  predicate Outside(c: Core, t: Tid)
    requires t in Threads(c)
  {
    match c
    case RwCore(s) => s.pcs[t].Idle?
    case MutexCore(s) => s.pcs[t].Idle?
  }

  /** The return code of a native call by `t` that has come back, if there is one. */
  function Result(c: Core, t: Tid): Option<int>
    requires t in Threads(c)
  {
    match c
    case RwCore(s) => if s.pcs[t].Returned? then Some(s.pcs[t].rc) else None
    case MutexCore(s) => if s.pcs[t].Returned? then Some(s.pcs[t].rc) else None
  }

  ghost predicate Inv(c: Core) {
    match c
    case RwCore(s) => Rw.Inv(s)
    case MutexCore(s) => Mx.Inv(s)
  }

  function View(c: Core): AtomicLock.Atomic {
    match c
    case RwCore(s) => Rw.View(s)
    case MutexCore(s) => Mx.View(s)
  }

  predicate InitialCore(c: Core) {
    match c
    case RwCore(s) => s == Rw.Init(s.pcs.Keys)
    case MutexCore(s) => s == Mx.Init(s.pcs.Keys)
  }

  lemma InitialFacts(c: Core)
    requires InitialCore(c)
    ensures Inv(c) && View(c).holds == Free && forall t :: t in Threads(c) ==> Outside(c, t)
  {
    match c
    case RwCore(s) => Rw.InitInv(s.pcs.Keys);
    case MutexCore(s) => Mx.InitInv(s.pcs.Keys);
  }

  function AtomicStep(c: Core, t: Tid, act: Act): Option<AtomicLock.AtomicAct>
    requires t in Threads(c)
  {
    match c
    case RwCore(s) => Rw.AtomicStep(s, t, act)
    case MutexCore(s) => Mx.AtomicStep(s, t, act)
  }

  lemma StepKeepsThreads(c: Core, t: Tid, act: Act)
    requires Next(c, t, act).Some?
    ensures t in Threads(c) && Threads(Next(c, t, act).value) == Threads(c)
  {
  }

  lemma StepKeepsInv(c: Core, t: Tid, act: Act)
    requires Inv(c) && Next(c, t, act).Some?
    ensures Inv(Next(c, t, act).value)
  {
    match c
    case RwCore(s) => Rw.StepKeepsInv(s, t, act);
    case MutexCore(s) => Mx.StepKeepsInv(s, t, act);
  }

  lemma StepRefines(c: Core, t: Tid, act: Act)
    requires Inv(c) && Next(c, t, act).Some?
    ensures match AtomicStep(c, t, act)
            case None => View(Next(c, t, act).value) == View(c)
            case Some(step) => AtomicLock.Next(View(c), t, step) == Some(View(Next(c, t, act).value))
  {
    match c
    case RwCore(s) => Rw.StepRefines(s, t, act);
    case MutexCore(s) => Mx.StepRefines(s, t, act);
  }

  // ---------------------------------------------------------------- whole runs

  /** Runs a schedule: which thread moves, and how, at every step. */
  function Exec(c: Core, es: seq<(Tid, Act)>): Option<Core>
    decreases |es|
  {
    if es == [] then Some(c)
    else match Next(c, es[0].0, es[0].1)
      case None => None
      case Some(c') => Exec(c', es[1..])
  }

  /** The atomic run that a native run amounts to. */
  function AtomicRun(c: Core, es: seq<(Tid, Act)>): seq<(Tid, AtomicLock.AtomicAct)>
    requires Exec(c, es).Some?
    decreases |es|
  {
    if es == [] then []
    else
      var rest := AtomicRun(Next(c, es[0].0, es[0].1).value, es[1..]);
      match AtomicStep(c, es[0].0, es[0].1)
      case None => rest
      case Some(step) => [(es[0].0, step)] + rest
  }

  /**
    Every interleaving of either wrapper is, to its callers, a run of the atomic lock: each call takes
    effect in one step, and a failing trylock of a mutex changes nothing at any time.
   */
  lemma {:induction false} RunRefines(c: Core, es: seq<(Tid, Act)>)
    requires Inv(c) && Exec(c, es).Some?
    ensures Inv(Exec(c, es).value) && Threads(Exec(c, es).value) == Threads(c)
    ensures AtomicLock.Exec(View(c), AtomicRun(c, es)) == Some(View(Exec(c, es).value))
    decreases |es|
  {
    if es == [] {
    } else {
      var t, act := es[0].0, es[0].1;
      var c' := Next(c, t, act).value;
      StepKeepsThreads(c, t, act);
      StepKeepsInv(c, t, act);
      StepRefines(c, t, act);
      RunRefines(c', es[1..]);
      match AtomicStep(c, t, act)
      case None =>
      case Some(step) => AtomicLock.ExecCons(View(c), (t, step), AtomicRun(c', es[1..]));
    }
  }

  /** In every reachable state, what is held is what the lock's kind allows. */
  lemma ExclusionHolds(c: Core, es: seq<(Tid, Act)>)
    requires Inv(c) && AtomicLock.Exclusion(View(c).kind, View(c).holds) && Exec(c, es).Some?
    ensures var c' := Exec(c, es).value;
            View(c').kind == View(c).kind && AtomicLock.Exclusion(View(c').kind, View(c').holds)
    ensures var held := View(Exec(c, es).value).holds;
            match c
            case RwCore(_) => |held.exclusive| <= 1 && (held.exclusive != multiset{} ==> held.shared == multiset{})
            case MutexCore(_) => held.shared == multiset{} && forall t, u :: held.By(t) && held.By(u) ==> t == u
  {
    RunRefines(c, es);
    AtomicLock.ExclusionAlways(View(c), AtomicRun(c, es));
    AtomicLock.ExclusionMeans(View(c).kind, View(Exec(c, es).value).holds);
  }

  // ---------------------------------------------------------------- one call on its own

  /** The lock with `t` at the start of a call. */
  function Entered(c: Core, t: Tid, op: Op): Core {
    match c
    case RwCore(s) => RwCore(Rw.At(s, t, Rw.FirstPc(op)))
    case MutexCore(s) => MutexCore(Mx.At(s, t, Mx.FirstPc(op)))
  }

  function Left(c: Core, t: Tid): Core {
    match c
    case RwCore(s) => RwCore(Rw.At(s, t, Rw.Idle))
    case MutexCore(s) => MutexCore(Mx.At(s, t, Mx.Idle))
  }

  /** Lets `t` run until its call returns; None if it cannot return without help. */
  function Finish(c: Core, t: Tid, fuel: nat): (Option<int>, Core)
    requires t in Threads(c)
    decreases fuel
  {
    if Result(c, t).Some? then (Result(c, t), Left(c, t))
    else if fuel == 0 || Next(c, t, Run) == None then (None, c)
    else StepKeepsThreads(c, t, Run); Finish(Next(c, t, Run).value, t, fuel - 1)
  }

  /** No call has more atomic actions. */
  function MostActions(op: Op): nat {
    if op.Lock? then 2 else 3
  }

  /** A whole call by `t` that nobody interferes with; a call that would block has no effect. */
  function Alone(c: Core, t: Tid, op: Op): (Option<int>, Core)
    requires t in Threads(c)
  {
    var (rc, c') := Finish(Entered(c, t, op), t, MostActions(op));
    if rc == None then (None, c) else (rc, c')
  }

  // ---------------------------------------------------------------- what a step leaves alone

  function PhaseOf(c: Core, t: Tid): AtomicLock.Phase
    requires t in Threads(c)
  {
    assert t in View(c).phases;
    View(c).phases[t]
  }

  lemma ReturnedIsDone(c: Core, t: Tid)
    requires t in Threads(c)
    ensures Outside(c, t) <==> PhaseOf(c, t) == AtomicLock.Idle
    ensures Result(c, t).Some? ==> PhaseOf(c, t).Done? && PhaseOf(c, t).rc == Result(c, t).value
  {
  }

  lemma OnlyCommits(c: Core, t: Tid)
    requires t in Threads(c) && AtomicStep(c, t, Run).Some?
    ensures AtomicStep(c, t, Run).value == AtomicLock.Commit
  {
  }

  lemma CallNeedsHold(c: Core, t: Tid, op: Op)
    requires Inv(c) && Next(c, t, Call(op)).Some?
    ensures op.Unlock? ==> View(c).holds.By(t)
    ensures AtomicStep(c, t, Call(op)) == Some(AtomicLock.Invoke(op))
  {
  }

  lemma OutsideIsLocal(c: Core, t: Tid, act: Act, u: Tid)
    requires Next(c, t, act).Some? && u != t && u in Threads(c)
    ensures u in Threads(Next(c, t, act).value) && Outside(Next(c, t, act).value, u) == Outside(c, u)
  {
  }

  lemma ActAndPlace(c: Core, t: Tid, act: Act)
    requires Next(c, t, act).Some?
    ensures t in Threads(c) && t in Threads(Next(c, t, act).value)
    ensures Outside(c, t) <==> act.Call?
    ensures Outside(Next(c, t, act).value, t) <==> act.Return?
    ensures act.Return? ==> Result(c, t).Some?
  {
  }
}
