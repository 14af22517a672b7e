/**
  mysql_thread.h: the instrumented lock calls, interleaved by any number of threads. Around each
  native call the wrapper runs hooks of the performance schema; the object behind `m_psi` and each
  locker a start hook returns may be NULL. The recorder is taken to note a hold when a wait ends
  with rc 0 and to drop one hold of the calling thread when it is told of an unlock.
 */
module Instrumentation {
  import opened Wrappers
  import opened LockTypes
  import AtomicLock
  import opened Recording
  import opened NativeCore
  import Mx = MutexSteps

  /** Choices outside the code: is `m_psi` non-NULL, and does the k-th start hook return a locker? */
  datatype Env = Env(psi: bool, grants: nat -> bool)

  /** What happens on the way: what the hooks tell the performance schema, and when the native call begins. */
  datatype Event =
    | Waiting(t: Tid, op: Op, locker: Option<nat>)
    | Unlocking(t: Tid)
    | Entering(t: Tid, op: Op)
    | Waited(ended: nat, rc: int)

  datatype Instrumented = Instrumented(
    core: Core,
    places: map<Tid, Place>,
    recorded: Holds,                         // what the recorder believes is held
    starts: nat,                             // start hooks run so far; the k-th may issue locker k
    ended: multiset<nat>,                    // lockers passed to an end hook
    log: seq<Event>)                         // all that happened, in order

  datatype Step =
    | StartHook(op: Op)       // m_psi != NULL: start_..._wait, or unlock_... for an unlock
    | CallPlain(op: Op)       // m_psi == NULL: straight into the native call
    | CallNative              // after the start hook
    | RunNative
    | EndHook                 // locker != NULL: end_..._wait
    | Leave                   // return result

  function Start(c: Core): Instrumented {
    Instrumented(c, map t | t in Threads(c) :: Out, Free, 0, multiset{}, [])
  }

  function Put(i: Instrumented, t: Tid, p: Place): Instrumented {
    i.(places := i.places[t := p])
  }

  /** A step of the native lock, after which `t` is at `p`. */
  function Native(i: Instrumented, t: Tid, act: Act, p: Place): Option<Instrumented> {
    match NativeCore.Next(i.core, t, act)
    case None => None
    case Some(c) => Some(Put(i.(core := c), t, p))
  }

  /** The native call is entered. */
  function EnterNative(i: Instrumented, t: Tid, op: Op, locker: Option<nat>): Option<Instrumented> {
    Native(i.(log := i.log + [Entering(t, op)]), t, Call(op), Inside(op, locker))
  }

  function HookBefore(env: Env, i: Instrumented, t: Tid, op: Op): Option<Instrumented> {
    if !op.Unlock? then
      var locker := if env.grants(i.starts) then Some(i.starts) else None;
      Some(Put(i.(starts := i.starts + 1, log := i.log + [Waiting(t, op, locker)]), t, Started(op, locker)))
    else if View(i.core).holds.By(t) then
      Some(Put(i.(recorded := i.recorded.GiveUp(t), log := i.log + [Unlocking(t)]), t, Started(op, None)))
    else None
  }

  function HookAfter(i: Instrumented, t: Tid, op: Op, locker: nat, rc: int): Instrumented {
    Put(i.(recorded := if rc == 0 && !op.Unlock? then i.recorded.Add(t, op.mode) else i.recorded,
           ended := i.ended + multiset{locker}, log := i.log + [Waited(locker, rc)]), t, Ended(op))
  }

  function Next(env: Env, i: Instrumented, t: Tid, step: Step): Option<Instrumented> {
    if t !in i.places || t !in Threads(i.core) then None
    else match step
      case StartHook(op) => if env.psi && i.places[t].Out? then HookBefore(env, i, t, op) else None
      case CallPlain(op) =>
        if !env.psi && i.places[t].Out? then EnterNative(i, t, op, None) else None
      case CallNative =>
        if i.places[t].Started? then EnterNative(i, t, i.places[t].op, i.places[t].locker) else None
      case RunNative => if i.places[t].Inside? then Native(i, t, Run, i.places[t]) else None
      case EndHook =>
        if i.places[t].Inside? && i.places[t].locker.Some? && Result(i.core, t).Some? then
          Some(HookAfter(i, t, i.places[t].op, i.places[t].locker.value, Result(i.core, t).value))
        else None
      case Leave =>
        if i.places[t].Ended? || (i.places[t].Inside? && i.places[t].locker == None) then Native(i, t, Return, Out)
        else None
  }

  function Exec(env: Env, i: Instrumented, es: seq<(Tid, Step)>): Option<Instrumented>
    decreases |es|
  {
    if es == [] then Some(i)
    else match Next(env, i, es[0].0, es[0].1)
      case None => None
      case Some(i') => Exec(env, i', es[1..])
  }

  // ---------------------------------------------------------------- recorded holds are real holds

  /** The locker a thread has been given and not yet passed to an end hook. */
  function OpenLocker(p: Place): Option<nat> {
    match p
    case Started(_, locker) => locker
    case Inside(_, locker) => locker
    case _ => None
  }

  function PictureOf(i: Instrumented): Picture {
    Picture(View(i.core), i.places, i.recorded)
  }

  ghost predicate RecordInv(env: Env, i: Instrumented) {
    && NativeCore.Inv(i.core)
    && Recording.Inv(env.psi, PictureOf(i))
    && (!env.psi ==> forall t :: t in i.places ==> OpenLocker(i.places[t]) == None)
  }

  /** What a step of the native lock does to the picture. */
  lemma NativePicture(i: Instrumented, t: Tid, act: Act, p: Place)
    requires Native(i, t, act, p).Some?
    ensures var i' := Native(i, t, act, p).value;
            NativeCore.Next(i.core, t, act) == Some(i'.core) &&
            PictureOf(i') == PictureOf(i).(lock := View(i'.core), places := i.places[t := p])
  {
  }

  lemma RunPicture(env: Env, i: Instrumented, t: Tid)
    requires Next(env, i, t, RunNative).Some?
    ensures var i' := Next(env, i, t, RunNative).value;
            t in i.places && i.places[t].Inside? && NativeCore.Next(i.core, t, Run) == Some(i'.core) &&
            PictureOf(i') == PictureOf(i).(lock := View(i'.core))
  {
    NativePicture(i, t, Run, i.places[t]);
    assert i.places[t := i.places[t]] == i.places;
  }

  lemma LeavePicture(env: Env, i: Instrumented, t: Tid)
    requires Next(env, i, t, Leave).Some?
    ensures var i' := Next(env, i, t, Leave).value;
            t in i.places && (i.places[t].Ended? || (i.places[t].Inside? && i.places[t].locker == None)) &&
            NativeCore.Next(i.core, t, Return) == Some(i'.core) &&
            PictureOf(i') == PictureOf(i).(lock := View(i'.core), places := i.places[t := Out])
  {
    NativePicture(i, t, Return, Out);
  }

  lemma NativeRunKeepsRecord(env: Env, i: Instrumented, t: Tid)
    requires RecordInv(env, i) && Next(env, i, t, RunNative).Some?
    ensures RecordInv(env, Next(env, i, t, RunNative).value)
  {
    RunPicture(env, i, t);
    StepKeepsInv(i.core, t, Run);
    StepRefines(i.core, t, Run);
    if AtomicStep(i.core, t, Run).Some? {
      OnlyCommits(i.core, t);
      CommitKeepsInv(env.psi, PictureOf(i), t);
    }
  }

  lemma EnterKeepsRecord(env: Env, i: Instrumented, t: Tid, op: Op, locker: Option<nat>)
    requires RecordInv(env, i) && t in i.places && EnterNative(i, t, op, locker).Some?
    requires i.places[t] == Started(op, locker) || (i.places[t].Out? && !env.psi && locker == None)
    ensures RecordInv(env, EnterNative(i, t, op, locker).value)
  {
    NativePicture(i.(log := i.log + [Entering(t, op)]), t, Call(op), Inside(op, locker));
    StepKeepsInv(i.core, t, Call(op));
    StepRefines(i.core, t, Call(op));
    CallNeedsHold(i.core, t, op);
    InvokeKeepsInv(env.psi, PictureOf(i), t, op, locker);
  }

  lemma LeaveKeepsRecord(env: Env, i: Instrumented, t: Tid)
    requires RecordInv(env, i) && Next(env, i, t, Leave).Some?
    ensures RecordInv(env, Next(env, i, t, Leave).value)
  {
    LeavePicture(env, i, t);
    StepKeepsInv(i.core, t, Return);
    StepRefines(i.core, t, Return);
    FinishKeepsInv(env.psi, PictureOf(i), t);
  }

  lemma HookKeepsRecord(env: Env, i: Instrumented, t: Tid, step: Step)
    requires step.StartHook? || step.EndHook?
    requires env.psi && RecordInv(env, i) && Next(env, i, t, step).Some?
    ensures RecordInv(env, Next(env, i, t, step).value)
  {
    if step.StartHook? {
      var locker := Next(env, i, t, step).value.places[t].locker;
      StartHookKeepsInv(PictureOf(i), t, step.op, locker);
    } else {
      ReturnedIsDone(i.core, t);
      EndHookKeepsInv(PictureOf(i), t, i.places[t].op, i.places[t].locker, Result(i.core, t).value);
    }
  }

  lemma StepKeepsRecord(env: Env, i: Instrumented, t: Tid, step: Step)
    requires RecordInv(env, i) && Next(env, i, t, step).Some?
    ensures RecordInv(env, Next(env, i, t, step).value)
  {
    match step
    case RunNative => NativeRunKeepsRecord(env, i, t);
    case CallPlain(op) => EnterKeepsRecord(env, i, t, op, None);
    case CallNative => EnterKeepsRecord(env, i, t, i.places[t].op, i.places[t].locker);
    case Leave => LeaveKeepsRecord(env, i, t);
    case StartHook(_) => HookKeepsRecord(env, i, t, step);
    case EndHook => HookKeepsRecord(env, i, t, step);
  }

  lemma StepKeepsKind(env: Env, i: Instrumented, t: Tid, step: Step)
    requires Next(env, i, t, step).Some?
    ensures View(Next(env, i, t, step).value.core).kind == View(i.core).kind
  {
  }

  lemma {:induction false} RunKeepsRecord(env: Env, i: Instrumented, es: seq<(Tid, Step)>)
    requires RecordInv(env, i) && Exec(env, i, es).Some?
    ensures RecordInv(env, Exec(env, i, es).value)
    ensures View(Exec(env, i, es).value.core).kind == View(i.core).kind
    decreases |es|
  {
    if es == [] {
    } else {
      StepKeepsRecord(env, i, es[0].0, es[0].1);
      StepKeepsKind(env, i, es[0].0, es[0].1);
      RunKeepsRecord(env, Next(env, i, es[0].0, es[0].1).value, es[1..]);
    }
  }

  lemma StartIsRecordInv(env: Env, c: Core)
    requires InitialCore(c)
    ensures RecordInv(env, Start(c))
  {
    InitialFacts(c);
    var p := PictureOf(Start(c));
    forall t | t in p.places ensures PlaceFits(p, t) && Covered(p, t) {
      ReturnedIsDone(c, t);
    }
  }

  /**
    In every interleaving, whatever hooks are NULL: every recorded hold is a real hold. So two writers,
    or a reader beside a writer, or two owners of a mutex, are never recorded.
   */
  lemma RecorderNeverAhead(env: Env, c: Core, es: seq<(Tid, Step)>, i: Instrumented)
    requires InitialCore(c) && Exec(env, Start(c), es) == Some(i)
    ensures var held := View(i.core).holds;
            i.recorded.shared <= held.shared && i.recorded.exclusive <= held.exclusive
    ensures AtomicLock.Exclusion(View(c).kind, i.recorded)
    ensures match c
            case RwCore(_) => |i.recorded.exclusive| <= 1 && (i.recorded.exclusive != multiset{} ==> i.recorded.shared == multiset{})
            case MutexCore(_) => i.recorded.shared == multiset{} && forall t, u :: i.recorded.By(t) && i.recorded.By(u) ==> t == u
  {
    StartIsRecordInv(env, c);
    RunKeepsRecord(env, Start(c), es);
    RecordedIsHeld(env.psi, PictureOf(i));
    AtomicLock.ExclusionMeans(View(c).kind, i.recorded);
  }

  // ---------------------------------------------------------------- and with no NULL all of them are recorded

  ghost predicate ToldEverything(env: Env) {
    env.psi && forall k :: env.grants(k)
  }

  ghost predicate ExactInv(env: Env, i: Instrumented) {
    RecordInv(env, i) && Exact(PictureOf(i))
  }

  lemma NativeRunKeepsExact(env: Env, i: Instrumented, t: Tid)
    requires ExactInv(env, i) && Next(env, i, t, RunNative).Some?
    ensures Exact(PictureOf(Next(env, i, t, RunNative).value))
  {
    RunPicture(env, i, t);
    StepRefines(i.core, t, Run);
    if AtomicStep(i.core, t, Run).Some? {
      OnlyCommits(i.core, t);
      CommitKeepsExact(env.psi, PictureOf(i), t);
    }
  }

  lemma CallPicture(env: Env, i: Instrumented, t: Tid)
    requires Next(env, i, t, CallNative).Some?
    ensures t in i.places && i.places[t].Started?
    ensures var i', op := Next(env, i, t, CallNative).value, i.places[t].op;
            NativeCore.Next(i.core, t, Call(op)) == Some(i'.core) &&
            PictureOf(i') == PictureOf(i).(lock := View(i'.core), places := i.places[t := Inside(op, i.places[t].locker)])
  {
    var op := i.places[t].op;
    NativePicture(i.(log := i.log + [Entering(t, op)]), t, Call(op), Inside(op, i.places[t].locker));
  }

  lemma CallKeepsExact(env: Env, i: Instrumented, t: Tid)
    requires ExactInv(env, i) && Next(env, i, t, CallNative).Some?
    ensures Exact(PictureOf(Next(env, i, t, CallNative).value))
  {
    CallPicture(env, i, t);
    var op, locker := i.places[t].op, i.places[t].locker;
    var p, p' := PictureOf(i), PictureOf(Next(env, i, t, CallNative).value);
    StepRefines(i.core, t, Call(op));
    assert PlaceFits(p, t) && ExactFor(p, t);
    MoveKeepsExact(p, p', t, AtomicLock.Invoke(op), Inside(op, locker));
  }

  lemma LeaveKeepsExact(env: Env, i: Instrumented, t: Tid)
    requires ExactInv(env, i) && Next(env, i, t, Leave).Some?
    ensures Exact(PictureOf(Next(env, i, t, Leave).value))
  {
    var p, p' := PictureOf(i), PictureOf(Next(env, i, t, Leave).value);
    LeavePicture(env, i, t);
    StepRefines(i.core, t, Return);
    assert PlaceFits(p, t) && ExactFor(p, t);
    MoveKeepsExact(p, p', t, AtomicLock.Finish, Out);
  }

  lemma HookKeepsExact(env: Env, i: Instrumented, t: Tid, step: Step)
    requires step.StartHook? || step.EndHook?
    requires ToldEverything(env) && ExactInv(env, i) && Next(env, i, t, step).Some?
    ensures Exact(PictureOf(Next(env, i, t, step).value))
  {
    if step.StartHook? {
      StartHookKeepsExact(PictureOf(i), t, step.op, Next(env, i, t, step).value.places[t].locker);
    } else {
      ReturnedIsDone(i.core, t);
      EndHookKeepsExact(PictureOf(i), t, i.places[t].op, i.places[t].locker, Result(i.core, t).value);
    }
  }

  lemma StepKeepsExact(env: Env, i: Instrumented, t: Tid, step: Step)
    requires ToldEverything(env) && ExactInv(env, i) && Next(env, i, t, step).Some?
    ensures ExactInv(env, Next(env, i, t, step).value)
  {
    StepKeepsRecord(env, i, t, step);
    match step
    case RunNative => NativeRunKeepsExact(env, i, t);
    case CallNative => CallKeepsExact(env, i, t);
    case Leave => LeaveKeepsExact(env, i, t);
    case StartHook(_) => HookKeepsExact(env, i, t, step);
    case EndHook => HookKeepsExact(env, i, t, step);
    case CallPlain(_) =>
  }

  lemma {:induction false} RunKeepsExact(env: Env, i: Instrumented, es: seq<(Tid, Step)>)
    requires ToldEverything(env) && ExactInv(env, i) && Exec(env, i, es).Some?
    ensures ExactInv(env, Exec(env, i, es).value)
    decreases |es|
  {
    if es == [] {
    } else {
      StepKeepsExact(env, i, es[0].0, es[0].1);
      RunKeepsExact(env, Next(env, i, es[0].0, es[0].1).value, es[1..]);
    }
  }

  /**
    In every interleaving without a NULL hook or locker: once all calls have returned, the recorder
    believes exactly what is held.
   */
  lemma RecorderUpToDate(env: Env, c: Core, es: seq<(Tid, Step)>, i: Instrumented)
    requires ToldEverything(env) && InitialCore(c) && Exec(env, Start(c), es) == Some(i)
    requires forall t :: t in i.places ==> i.places[t].Out?
    ensures i.recorded == View(i.core).holds
  {
    StartIsRecordInv(env, c);
    InitialFacts(c);
    RunKeepsExact(env, Start(c), es);
    ExactWhenAllReturned(env.psi, PictureOf(i));
  }

  lemma ExecTwo(env: Env, i: Instrumented, e: (Tid, Step), f: (Tid, Step))
    requires Next(env, i, e.0, e.1).Some?
    ensures Exec(env, i, [e, f]) == Next(env, Next(env, i, e.0, e.1).value, f.0, f.1)
  {
    assert [e, f][1..] == [f] && [f][1..] == [];
    var i' := Next(env, i, e.0, e.1).value;
    assert Exec(env, i', [f]) == Next(env, i', f.0, f.1) by {
      match Next(env, i', f.0, f.1)
      case None =>
      case Some(i'') => assert Exec(env, i'', []) == Some(i'');
    }
  }

  lemma {:induction false} ExecAppend(env: Env, i: Instrumented, es: seq<(Tid, Step)>, fs: seq<(Tid, Step)>)
    requires Exec(env, i, es).Some?
    ensures Exec(env, i, es + fs) == Exec(env, Exec(env, i, es).value, fs)
    decreases |es|
  {
    if es == [] {
      assert es + fs == fs;
    } else {
      assert (es + fs)[1..] == es[1..] + fs;
      ExecAppend(env, Next(env, i, es[0].0, es[0].1).value, es[1..], fs);
    }
  }

  const LockOp := Lock(Exclusive)

  /** The state in which a thread has locked a new mutex and its hold has not been noted. */
  function Missed(c: Core): Instrumented
    requires c.MutexCore?
  {
    var i1 := Put(Start(c).(starts := 1, log := Start(c).log + [Waiting(0, LockOp, None)]), 0, Started(LockOp, None));
    var s1 := Mx.At(c.mx, 0, Mx.Enter);
    var i2 := Put(i1.(core := MutexCore(s1), log := i1.log + [Entering(0, LockOp)]), 0, Inside(LockOp, None));
    var s2 := Mx.At(Mx.Entered(s1, 0), 0, Mx.Returned(LockOp, 0));
    var i3 := Put(i2.(core := MutexCore(s2)), 0, Inside(LockOp, None));
    Put(i3.(core := MutexCore(Mx.At(s2, 0, Mx.Idle))), 0, Out)
  }

  lemma LockRunMisses(env: Env, c: Core)
    requires env.psi && !env.grants(0) && c == MutexCore(Mx.Init({0}))
    ensures Exec(env, Start(c), [(0, StartHook(LockOp)), (0, CallNative)] + [(0, RunNative), (0, Leave)]) == Some(Missed(c))
  {
    var i1 := Next(env, Start(c), 0, StartHook(LockOp)).value;
    var i2 := Next(env, i1, 0, CallNative).value;
    var i3 := Next(env, i2, 0, RunNative).value;
    assert Next(env, i3, 0, Leave) == Some(Missed(c));
    ExecTwo(env, Start(c), (0, StartHook(LockOp)), (0, CallNative));
    ExecTwo(env, i2, (0, RunNative), (0, Leave));
    ExecAppend(env, Start(c), [(0, StartHook(LockOp)), (0, CallNative)], [(0, RunNative), (0, Leave)]);
  }

  /** A NULL locker is enough to miss a hold: all calls have returned, and the hold is not noted. */
  lemma NullLockerIsMissed(env: Env)
    requires env.psi && !env.grants(0)
    ensures var c := MutexCore(Mx.Init({0}));
            InitialCore(c) && exists es :: Exec(env, Start(c), es) == Some(Missed(c))
    ensures var i := Missed(MutexCore(Mx.Init({0})));
            (forall t :: t in i.places ==> i.places[t].Out?) && i.recorded == Free && View(i.core).holds.By(0)
  {
    LockRunMisses(env, MutexCore(Mx.Init({0})));
  }

  // ---------------------------------------------------------------- what the hooks tell

  /** Every hook tells of its own caller, operation, locker and result; the other steps tell nothing. */
  lemma StepTells(env: Env, i: Instrumented, t: Tid, step: Step)
    requires Next(env, i, t, step).Some?
    ensures t in i.places
    ensures var i' := Next(env, i, t, step).value;
            match step
            case StartHook(Unlock) => i'.log == i.log + [Unlocking(t)] && i'.places[t] == Started(Unlock, None)
            case StartHook(op) =>
              var locker := if env.grants(i.starts) then Some(i.starts) else None;
              i'.log == i.log + [Waiting(t, op, locker)] && i'.places[t] == Started(op, locker)
            case CallPlain(op) => i'.log == i.log + [Entering(t, op)] && i'.places[t] == Inside(op, None)
            case CallNative =>
              i.places[t].Started? && i'.log == i.log + [Entering(t, i.places[t].op)] &&
              i'.places[t] == Inside(i.places[t].op, i.places[t].locker)
            case RunNative => i'.log == i.log && i'.places == i.places
            case EndHook =>
              i.places[t].Inside? && i.places[t].locker.Some? && Result(i.core, t).Some? &&
              i'.log == i.log + [Waited(i.places[t].locker.value, Result(i.core, t).value)] && i'.places[t].Ended?
            case Leave => i'.log == i.log && i'.places[t].Out?
  {
  }

  /** A recorder that has nothing but these events to go by: what it takes to be held, and the waits it knows. */
  datatype Belief = Belief(holds: Holds, waits: map<nat, (Tid, Op)>)

  /** A wait that ends with rc 0 is a hold gained by the thread that waited; an unlock is one given up. */
  function Hears(b: Belief, e: Event): Belief {
    match e
    case Waiting(t, op, locker) => if locker.Some? then b.(waits := b.waits[locker.value := (t, op)]) else b
    case Unlocking(t) => b.(holds := b.holds.GiveUp(t))
    case Entering(_, _) => b
    case Waited(k, rc) =>
      if rc == 0 && k in b.waits && !b.waits[k].1.Unlock? then b.(holds := b.holds.Add(b.waits[k].0, b.waits[k].1.mode))
      else b
  }

  function Believed(log: seq<Event>): Belief {
    if log == [] then Belief(Free, map[]) else Hears(Believed(log[..|log| - 1]), log[|log| - 1])
  }

  lemma BelievedSnoc(log: seq<Event>, e: Event)
    ensures Believed(log + [e]) == Hears(Believed(log), e)
  {
    assert (log + [e])[..|log|] == log;
  }

  /** The recorder remembers the wait of every open locker. */
  ghost predicate Heard(recorded: Holds, log: seq<Event>, places: map<Tid, Place>, starts: nat) {
    && recorded == Believed(log).holds
    && forall t :: t in places && OpenLocker(places[t]).Some? ==>
         var k := OpenLocker(places[t]).value;
         k < starts && k in Believed(log).waits && Believed(log).waits[k] == (t, places[t].op)
  }

  ghost predicate HeardInv(i: Instrumented) {
    Heard(i.recorded, i.log, i.places, i.starts)
  }

  /** An event that is no news, or none: the caller moves on with the locker it has, or without one. */
  lemma MovingKeepsHeard(recorded: Holds, log: seq<Event>, places: map<Tid, Place>, starts: nat, t: Tid, p: Place, op: Op)
    requires Heard(recorded, log, places, starts) && t in places
    requires OpenLocker(p).Some? ==> OpenLocker(p) == OpenLocker(places[t]) && p.op == places[t].op
    ensures Heard(recorded, log, places[t := p], starts)
    ensures Heard(recorded, log + [Entering(t, op)], places[t := p], starts)
  {
    BelievedSnoc(log, Entering(t, op));
  }

  lemma UnlockingKeepsHeard(recorded: Holds, log: seq<Event>, places: map<Tid, Place>, starts: nat, t: Tid, p: Place)
    requires Heard(recorded, log, places, starts) && OpenLocker(p) == None
    ensures Heard(recorded.GiveUp(t), log + [Unlocking(t)], places[t := p], starts)
  {
    BelievedSnoc(log, Unlocking(t));
  }

  lemma WaitingKeepsHeard(recorded: Holds, log: seq<Event>, places: map<Tid, Place>, starts: nat, t: Tid, op: Op, grant: bool)
    requires Heard(recorded, log, places, starts)
    ensures var locker := if grant then Some(starts) else None;
            Heard(recorded, log + [Waiting(t, op, locker)], places[t := Started(op, locker)], starts + 1)
  {
    BelievedSnoc(log, Waiting(t, op, if grant then Some(starts) else None));
  }

  lemma EndingKeepsHeard(recorded: Holds, log: seq<Event>, places: map<Tid, Place>, starts: nat, t: Tid, op: Op, k: nat, rc: int)
    requires Heard(recorded, log, places, starts) && t in places && places[t] == Inside(op, Some(k))
    ensures Heard(if rc == 0 && !op.Unlock? then recorded.Add(t, op.mode) else recorded, log + [Waited(k, rc)],
                  places[t := Ended(op)], starts)
  {
    assert OpenLocker(places[t]) == Some(k);
    BelievedSnoc(log, Waited(k, rc));
  }

  lemma StepKeepsHeard(env: Env, i: Instrumented, t: Tid, step: Step)
    requires HeardInv(i) && Next(env, i, t, step).Some?
    ensures HeardInv(Next(env, i, t, step).value)
  {
    match step
    case StartHook(op) =>
      if op.Unlock? {
        UnlockingKeepsHeard(i.recorded, i.log, i.places, i.starts, t, Started(op, None));
      } else {
        WaitingKeepsHeard(i.recorded, i.log, i.places, i.starts, t, op, env.grants(i.starts));
      }
    case CallPlain(op) => MovingKeepsHeard(i.recorded, i.log, i.places, i.starts, t, Inside(op, None), op);
    case CallNative =>
      MovingKeepsHeard(i.recorded, i.log, i.places, i.starts, t, Inside(i.places[t].op, i.places[t].locker), i.places[t].op);
    case RunNative => MovingKeepsHeard(i.recorded, i.log, i.places, i.starts, t, i.places[t], Unlock);
    case EndHook =>
      EndingKeepsHeard(i.recorded, i.log, i.places, i.starts, t, i.places[t].op, i.places[t].locker.value, Result(i.core, t).value);
    case Leave => MovingKeepsHeard(i.recorded, i.log, i.places, i.starts, t, Out, Unlock);
  }

  lemma {:induction false} RunKeepsHeard(env: Env, i: Instrumented, es: seq<(Tid, Step)>)
    requires HeardInv(i) && Exec(env, i, es).Some?
    ensures HeardInv(Exec(env, i, es).value)
    decreases |es|
  {
    if es == [] {
    } else {
      StepKeepsHeard(env, i, es[0].0, es[0].1);
      RunKeepsHeard(env, Next(env, i, es[0].0, es[0].1).value, es[1..]);
    }
  }

  /** In every interleaving, what is recorded is what the hooks have told, and nothing else. */
  lemma RecordedIsTold(env: Env, c: Core, es: seq<(Tid, Step)>, i: Instrumented)
    requires Exec(env, Start(c), es) == Some(i)
    ensures i.recorded == Believed(i.log).holds
  {
    assert HeardInv(Start(c));
    RunKeepsHeard(env, Start(c), es);
  }

  // ---------------------------------------------------------------- transparency

  /** The native step in a step of the wrapper, if there is one. */
  function NativeIn(i: Instrumented, t: Tid, step: Step): seq<(Tid, Act)> {
    match step
    case StartHook(_) => []
    case EndHook => []
    case CallPlain(op) => [(t, Call(op))]
    case CallNative => if t in i.places && i.places[t].Started? then [(t, Call(i.places[t].op))] else []
    case RunNative => [(t, Run)]
    case Leave => [(t, Return)]
  }

  /** The steps of the native lock that an instrumented run contains. */
  function NativePart(env: Env, i: Instrumented, es: seq<(Tid, Step)>): seq<(Tid, Act)>
    requires Exec(env, i, es).Some?
    decreases |es|
  {
    if es == [] then []
    else NativeIn(i, es[0].0, es[0].1) + NativePart(env, Next(env, i, es[0].0, es[0].1).value, es[1..])
  }

  lemma StepAndItsNativePart(env: Env, i: Instrumented, t: Tid, step: Step)
    requires Next(env, i, t, step).Some?
    ensures var native := NativeIn(i, t, step);
            if native == [] then Next(env, i, t, step).value.core == i.core
            else native == [native[0]] &&
                 NativeCore.Next(i.core, native[0].0, native[0].1) == Some(Next(env, i, t, step).value.core)
  {
  }

  /** Hooks change nothing: with them removed, an instrumented run is a run of the native lock. */
  lemma {:induction false} HooksAreInvisible(env: Env, i: Instrumented, es: seq<(Tid, Step)>)
    requires Exec(env, i, es).Some?
    ensures NativeCore.Exec(i.core, NativePart(env, i, es)) == Some(Exec(env, i, es).value.core)
    decreases |es|
  {
    if es == [] {
    } else {
      var t, step := es[0].0, es[0].1;
      var i' := Next(env, i, t, step).value;
      HooksAreInvisible(env, i', es[1..]);
      StepAndItsNativePart(env, i, t, step);
      var rest := NativePart(env, i', es[1..]);
      if NativeIn(i, t, step) == [] {
        assert [] + rest == rest;
      } else {
      }
    }
  }

  /** How the wrapper makes a thread's next native step. */
  function Wrapped(env: Env, i: Instrumented, t: Tid, act: Act): seq<(Tid, Step)>
    requires t in i.places
  {
    match act
    case Call(op) => if env.psi then [(t, StartHook(op)), (t, CallNative)] else [(t, CallPlain(op))]
    case Run => [(t, RunNative)]
    case Return =>
      if i.places[t].Inside? && i.places[t].locker.Some? then [(t, EndHook), (t, Leave)] else [(t, Leave)]
  }

  /** No thread is between a hook and a native call. */
  ghost predicate Aligned(i: Instrumented) {
    && NativeCore.Inv(i.core)
    && i.places.Keys == Threads(i.core)
    && forall t :: t in i.places ==> if Outside(i.core, t) then i.places[t].Out? else i.places[t].Inside?
  }

  lemma ExecOne(env: Env, i: Instrumented, f: (Tid, Step))
    ensures Exec(env, i, [f]) == Next(env, i, f.0, f.1)
  {
  }

  lemma EnteringPlaces(i: Instrumented, t: Tid, op: Op, locker: Option<nat>)
    requires EnterNative(i, t, op, locker).Some?
    ensures EnterNative(i, t, op, locker).value.places == i.places[t := Inside(op, locker)]
    ensures Some(EnterNative(i, t, op, locker).value.core) == NativeCore.Next(i.core, t, Call(op))
  {
  }

  lemma WrappedCall(env: Env, i: Instrumented, t: Tid, op: Op)
    requires Aligned(i) && NativeCore.Next(i.core, t, Call(op)).Some?
    ensures t in i.places && Exec(env, i, Wrapped(env, i, t, Call(op))).Some?
    ensures var i' := Exec(env, i, Wrapped(env, i, t, Call(op))).value;
            i'.core == NativeCore.Next(i.core, t, Call(op)).value &&
            exists locker :: i'.places == i.places[t := Inside(op, locker)]
  {
    ActAndPlace(i.core, t, Call(op));
    CallNeedsHold(i.core, t, op);
    if env.psi {
      var i1 := HookBefore(env, i, t, op).value;
      var locker := i1.places[t].locker;
      ExecTwo(env, i, (t, StartHook(op)), (t, CallNative));
      EnteringPlaces(i1, t, op, locker);
      assert i1.places[t := Inside(op, locker)] == i.places[t := Inside(op, locker)];
    } else {
      ExecOne(env, i, (t, CallPlain(op)));
      EnteringPlaces(i, t, op, None);
    }
  }

  lemma WrappedRest(env: Env, i: Instrumented, t: Tid, act: Act)
    requires !act.Call? && Aligned(i) && NativeCore.Next(i.core, t, act).Some?
    ensures t in i.places && Exec(env, i, Wrapped(env, i, t, act)).Some?
    ensures var i' := Exec(env, i, Wrapped(env, i, t, act)).value;
            i'.core == NativeCore.Next(i.core, t, act).value &&
            i'.places == if act.Run? then i.places else i.places[t := Out]
  {
    ActAndPlace(i.core, t, act);
    var w := Wrapped(env, i, t, act);
    if |w| == 1 { ExecOne(env, i, w[0]); } else { ExecTwo(env, i, w[0], w[1]); }
  }

  lemma WrappedStep(env: Env, i: Instrumented, t: Tid, act: Act)
    requires Aligned(i) && NativeCore.Next(i.core, t, act).Some?
    ensures t in i.places && Exec(env, i, Wrapped(env, i, t, act)).Some?
    ensures Exec(env, i, Wrapped(env, i, t, act)).value.core == NativeCore.Next(i.core, t, act).value
    ensures Aligned(Exec(env, i, Wrapped(env, i, t, act)).value)
  {
    StepKeepsThreads(i.core, t, act);
    StepKeepsInv(i.core, t, act);
    ActAndPlace(i.core, t, act);
    if act.Call? { WrappedCall(env, i, t, act.op); } else { WrappedRest(env, i, t, act); }
    var c' := NativeCore.Next(i.core, t, act).value;
    forall u | u in i.places && u != t ensures u in Threads(c') && Outside(c', u) == Outside(i.core, u) {
      OutsideIsLocal(i.core, t, act, u);
    }
  }

  function WrappedRun(env: Env, i: Instrumented, es: seq<(Tid, Act)>): seq<(Tid, Step)>
    requires Aligned(i) && NativeCore.Exec(i.core, es).Some?
    decreases |es|
  {
    if es == [] then []
    else
      WrappedStep(env, i, es[0].0, es[0].1);
      var w := Wrapped(env, i, es[0].0, es[0].1);
      w + WrappedRun(env, Exec(env, i, w).value, es[1..])
  }

  lemma {:induction false} NativePartAppend(env: Env, i: Instrumented, es: seq<(Tid, Step)>, fs: seq<(Tid, Step)>)
    requires Exec(env, i, es).Some? && Exec(env, Exec(env, i, es).value, fs).Some?
    ensures Exec(env, i, es + fs).Some?
    ensures NativePart(env, i, es + fs) == NativePart(env, i, es) + NativePart(env, Exec(env, i, es).value, fs)
    decreases |es|
  {
    ExecAppend(env, i, es, fs);
    if es == [] {
      assert es + fs == fs;
    } else {
      assert (es + fs)[1..] == es[1..] + fs;
      NativePartAppend(env, Next(env, i, es[0].0, es[0].1).value, es[1..], fs);
    }
  }

  lemma NativePartOfOne(env: Env, i: Instrumented, e: (Tid, Step))
    requires Exec(env, i, [e]).Some?
    ensures NativePart(env, i, [e]) == NativeIn(i, e.0, e.1)
  {
  }

  lemma NativePartOfTwo(env: Env, i: Instrumented, e: (Tid, Step), f: (Tid, Step))
    requires Exec(env, i, [e, f]).Some? && Next(env, i, e.0, e.1).Some?
    ensures NativePart(env, i, [e, f]) == NativeIn(i, e.0, e.1) + NativeIn(Next(env, i, e.0, e.1).value, f.0, f.1)
  {
    ExecTwo(env, i, e, f);
    var i1 := Next(env, i, e.0, e.1).value;
    ExecOne(env, i1, f);
    NativePartOfOne(env, i1, f);
    assert [e, f][1..] == [f];
  }

  lemma NativePartOfTwoWrapped(env: Env, i: Instrumented, t: Tid, act: Act)
    requires Aligned(i) && NativeCore.Next(i.core, t, act).Some? && t in i.places
    requires Exec(env, i, Wrapped(env, i, t, act)).Some? && |Wrapped(env, i, t, act)| == 2
    ensures NativePart(env, i, Wrapped(env, i, t, act)) == [(t, act)]
  {
    ActAndPlace(i.core, t, act);
    var w := Wrapped(env, i, t, act);
    assert w == [w[0], w[1]] && NativeIn(i, t, w[0].1) == [];
    var i1 := Next(env, i, t, w[0].1).value;
    assert NativeIn(i1, t, w[1].1) == [(t, act)];
    NativePartOfTwo(env, i, w[0], w[1]);
  }

  lemma NativePartOfWrapped(env: Env, i: Instrumented, t: Tid, act: Act)
    requires Aligned(i) && NativeCore.Next(i.core, t, act).Some?
    ensures t in i.places && Exec(env, i, Wrapped(env, i, t, act)).Some?
    ensures NativePart(env, i, Wrapped(env, i, t, act)) == [(t, act)]
  {
    WrappedStep(env, i, t, act);
    var w := Wrapped(env, i, t, act);
    if |w| == 2 {
      NativePartOfTwoWrapped(env, i, t, act);
    } else {
      assert w == [w[0]];
      NativePartOfOne(env, i, w[0]);
    }
  }

  /**
    Instrumentation hinders nothing: whatever hooks are NULL, every run of the native lock is the
    native part of an instrumented run, with the same results and the same lock state.
   */
  lemma {:induction false} EveryNativeRunIsWrapped(env: Env, i: Instrumented, es: seq<(Tid, Act)>)
    requires Aligned(i) && NativeCore.Exec(i.core, es).Some?
    ensures Exec(env, i, WrappedRun(env, i, es)).Some?
    ensures Exec(env, i, WrappedRun(env, i, es)).value.core == NativeCore.Exec(i.core, es).value
    ensures NativePart(env, i, WrappedRun(env, i, es)) == es
    decreases |es|
  {
    if es == [] {
    } else {
      WrappedStep(env, i, es[0].0, es[0].1);
      NativePartOfWrapped(env, i, es[0].0, es[0].1);
      var w := Wrapped(env, i, es[0].0, es[0].1);
      var i' := Exec(env, i, w).value;
      EveryNativeRunIsWrapped(env, i', es[1..]);
      ExecAppend(env, i, w, WrappedRun(env, i', es[1..]));
      NativePartAppend(env, i, w, WrappedRun(env, i', es[1..]));
      assert es == [es[0]] + es[1..];
    }
  }

  lemma StartIsAligned(c: Core)
    requires InitialCore(c)
    ensures Aligned(Start(c))
  {
    InitialFacts(c);
  }

  /** In particular every native run of a new lock. */
  lemma NewLocksAreNotHindered(env: Env, c: Core, es: seq<(Tid, Act)>, c': Core)
    requires InitialCore(c) && NativeCore.Exec(c, es) == Some(c')
    ensures exists steps :: Exec(env, Start(c), steps).Some? && Exec(env, Start(c), steps).value.core == c' &&
                            NativePart(env, Start(c), steps) == es
  {
    StartIsAligned(c);
    EveryNativeRunIsWrapped(env, Start(c), es);
    assert Exec(env, Start(c), WrappedRun(env, Start(c), es)).Some?;
  }

  // ---------------------------------------------------------------- lockers

  ghost predicate WithSomeThread(places: map<Tid, Place>, k: nat) {
    exists t :: t in places && OpenLocker(places[t]) == Some(k)
  }

  /** Every locker issued is either still with exactly one thread or has been ended exactly once. */
  ghost predicate LockersOk(env: Env, places: map<Tid, Place>, starts: nat, ended: multiset<nat>) {
    && (forall k: nat :: k in ended ==> ended[k] == 1 && k < starts && env.grants(k))
    && (forall t, k :: t in places && OpenLocker(places[t]) == Some(k) ==> k < starts && env.grants(k) && k !in ended)
    && (forall t, u, k :: t in places && u in places && OpenLocker(places[t]) == Some(k) && OpenLocker(places[u]) == Some(k)
          ==> t == u)
    && (forall k: nat :: k < starts && env.grants(k) && k !in ended ==> WithSomeThread(places, k))
  }

  ghost predicate LockerInv(env: Env, i: Instrumented) {
    LockersOk(env, i.places, i.starts, i.ended)
  }

  lemma MovingKeepsLockers(env: Env, places: map<Tid, Place>, starts: nat, ended: multiset<nat>, t: Tid, p: Place)
    requires LockersOk(env, places, starts, ended) && t in places && OpenLocker(p) == OpenLocker(places[t])
    ensures LockersOk(env, places[t := p], starts, ended)
  {
    forall k: nat | k < starts && env.grants(k) && k !in ended ensures WithSomeThread(places[t := p], k) {
      var u :| u in places && OpenLocker(places[u]) == Some(k);
      assert u in places[t := p] && OpenLocker(places[t := p][u]) == Some(k);
    }
  }

  lemma IssuingKeepsLockers(env: Env, places: map<Tid, Place>, starts: nat, ended: multiset<nat>, t: Tid, p: Place)
    requires LockersOk(env, places, starts, ended) && t in places && OpenLocker(places[t]) == None
    requires OpenLocker(p) == if env.grants(starts) then Some(starts) else None
    ensures LockersOk(env, places[t := p], starts + 1, ended)
  {
    forall k: nat | k < starts + 1 && env.grants(k) && k !in ended ensures WithSomeThread(places[t := p], k) {
      if k == starts {
        assert OpenLocker(places[t := p][t]) == Some(k);
      } else {
        var u :| u in places && OpenLocker(places[u]) == Some(k);
        assert u in places[t := p] && OpenLocker(places[t := p][u]) == Some(k);
      }
    }
  }

  lemma EndingKeepsLockers(env: Env, places: map<Tid, Place>, starts: nat, ended: multiset<nat>, t: Tid, p: Place)
    requires LockersOk(env, places, starts, ended) && t in places && OpenLocker(places[t]).Some? && OpenLocker(p) == None
    ensures LockersOk(env, places[t := p], starts, ended + multiset{OpenLocker(places[t]).value})
  {
    var ended' := ended + multiset{OpenLocker(places[t]).value};
    forall k: nat | k < starts && env.grants(k) && k !in ended' ensures WithSomeThread(places[t := p], k) {
      assert k !in ended;
      var u :| u in places && OpenLocker(places[u]) == Some(k);
      assert u in places[t := p] && OpenLocker(places[t := p][u]) == Some(k);
    }
  }

  /** What a step does to places and lockers, leaving the native lock out of it. */
  lemma StepMovesLockers(env: Env, i: Instrumented, t: Tid, step: Step)
    requires Next(env, i, t, step).Some?
    ensures var i' := Next(env, i, t, step).value;
            t in i.places && t in i'.places && i'.places == i.places[t := i'.places[t]] &&
            (if step.EndHook? then
               OpenLocker(i.places[t]).Some? && OpenLocker(i'.places[t]) == None && i'.starts == i.starts &&
               i'.ended == i.ended + multiset{OpenLocker(i.places[t]).value}
             else if step.StartHook? && !step.op.Unlock? then
               OpenLocker(i.places[t]) == None && i'.starts == i.starts + 1 && i'.ended == i.ended &&
               OpenLocker(i'.places[t]) == if env.grants(i.starts) then Some(i.starts) else None
             else
               OpenLocker(i'.places[t]) == OpenLocker(i.places[t]) && i'.starts == i.starts && i'.ended == i.ended)
  {
  }

  lemma StepKeepsLockers(env: Env, i: Instrumented, t: Tid, step: Step)
    requires LockerInv(env, i) && Next(env, i, t, step).Some?
    ensures LockerInv(env, Next(env, i, t, step).value)
  {
    StepMovesLockers(env, i, t, step);
    var p := Next(env, i, t, step).value.places[t];
    if step.EndHook? {
      EndingKeepsLockers(env, i.places, i.starts, i.ended, t, p);
    } else if step.StartHook? && !step.op.Unlock? {
      IssuingKeepsLockers(env, i.places, i.starts, i.ended, t, p);
    } else {
      MovingKeepsLockers(env, i.places, i.starts, i.ended, t, p);
    }
  }

  lemma {:induction false} RunKeepsLockers(env: Env, i: Instrumented, es: seq<(Tid, Step)>)
    requires LockerInv(env, i) && Exec(env, i, es).Some?
    ensures LockerInv(env, Exec(env, i, es).value)
    decreases |es|
  {
    if es == [] {
    } else {
      StepKeepsLockers(env, i, es[0].0, es[0].1);
      RunKeepsLockers(env, Next(env, i, es[0].0, es[0].1).value, es[1..]);
    }
  }

  /**
    In every interleaving, no locker is ended twice and no NULL locker is ended; once all calls have
    returned, each non-NULL locker that a start hook issued has been passed to exactly one end hook.
   */
  lemma EveryLockerEndsOnce(env: Env, c: Core, es: seq<(Tid, Step)>, i: Instrumented)
    requires Exec(env, Start(c), es) == Some(i)
    ensures forall k: nat :: k in i.ended ==> i.ended[k] == 1 && k < i.starts && env.grants(k)
    ensures (forall t :: t in i.places ==> i.places[t].Out?) ==>
              forall k: nat :: k < i.starts && env.grants(k) ==> i.ended[k] == 1
  {
    assert LockerInv(env, Start(c));
    RunKeepsLockers(env, Start(c), es);
    if forall t :: t in i.places ==> i.places[t].Out? {
      forall k: nat | k < i.starts && env.grants(k) ensures k in i.ended {
        assert !WithSomeThread(i.places, k);
      }
    }
  }
}
