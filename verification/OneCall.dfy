/** One instrumented call that nobody interferes with, as a run of the wrapper's steps. */
module OneCall {
  import opened Wrappers
  import opened LockTypes
  import opened NativeCore
  import opened Recording
  import Wrapper = Instrumentation
  import RwLockRuns
  import MutexRuns
  import Rw = RwLockSteps
  import Mx = MutexSteps

  type Instrumented = Wrapper.Instrumented
  type Env = Wrapper.Env
  type Steps = seq<(Tid, Wrapper.Step)>

  /** The outside choices of one call: is `m_psi` non-NULL, and would the start hook return a locker? */
  function Choice(psi: bool, grant: bool): Env {
    Wrapper.Env(psi, (k: nat) => grant)
  }

  /** `t` outside all calls on the lock `c`, with nothing logged yet; `starts` numbers the next locker. */
  function Before(c: Core, t: Tid, starts: nat): Instrumented {
    Wrapper.Instrumented(c, map[t := Out], Free, starts, multiset{}, [])
  }

  function Opening(psi: bool, t: Tid, op: Op): Steps {
    if psi then [(t, Wrapper.StartHook(op)), (t, Wrapper.CallNative)] else [(t, Wrapper.CallPlain(op))]
  }

  function Runs(t: Tid, n: nat): Steps {
    if n == 0 then [] else [(t, Wrapper.RunNative)] + Runs(t, n - 1)
  }

  function Closing(t: Tid, locker: Option<nat>): Steps {
    if locker.Some? then [(t, Wrapper.EndHook), (t, Wrapper.Leave)] else [(t, Wrapper.Leave)]
  }

  /** Somewhere on the way the native call is over with return code `rc`, and the wrapper then comes to `after`. */
  ghost predicate Returns(env: Env, i: Instrumented, t: Tid, op: Op, n: nat, rc: int, after: Instrumented) {
    match Wrapper.Exec(env, i, Opening(env.psi, t, op) + Runs(t, n))
    case None => false
    case Some(j) =>
      t in j.places && j.places[t].Inside? && t in Threads(j.core) && Result(j.core, t) == Some(rc) &&
      Wrapper.Exec(env, j, Closing(t, j.places[t].locker)) == Some(after)
  }

  /** The call cannot move in the native lock; `after` is where it waits. */
  ghost predicate Waits(env: Env, i: Instrumented, t: Tid, op: Op, after: Instrumented) {
    && Wrapper.Exec(env, i, Opening(env.psi, t, op)) == Some(after)
    && t in Threads(after.core) && Result(after.core, t) == None
    && Wrapper.Next(env, after, t, Wrapper.RunNative) == None
  }

  /**
    The call is a run of the instrumented lock. It returns `rc`, leaves the lock as `c`, has had the
    events `log` and used up lockers to `starts` - or, with `rc` None, it waits and the lock stays `c`.
   */
  ghost predicate Performs(env: Env, i: Instrumented, t: Tid, op: Op, rc: Option<int>, c: Core, log: seq<Wrapper.Event>, starts: nat) {
    match rc
    case Some(code) =>
      exists n, after :: Returns(env, i, t, op, n, code, after) &&
                         after.core == c && after.log == log && after.starts == starts
    case None =>
      exists after :: Waits(env, i, t, op, after) && i.core == c && after.log == log && after.starts == starts
  }

  // ---------------------------------------------------------------- every call is such a run

  /** What happens, in order; a call that waits does not reach its end hook. */
  function Events(psi: bool, t: Tid, op: Op, grant: bool, starts: nat, rc: Option<int>): seq<Wrapper.Event> {
    if !psi then [Wrapper.Entering(t, op)]
    else if op.Unlock? then [Wrapper.Unlocking(t), Wrapper.Entering(t, op)]
    else if !grant then [Wrapper.Waiting(t, op, None), Wrapper.Entering(t, op)]
    else [Wrapper.Waiting(t, op, Some(starts)), Wrapper.Entering(t, op)] +
         if rc.Some? then [Wrapper.Waited(starts, rc.value)] else []
  }

  function StartsAfter(psi: bool, op: Op, starts: nat): nat {
    if psi && !op.Unlock? then starts + 1 else starts
  }

  predicate MayCall(c: Core, t: Tid, op: Op) {
    t in Threads(c) && Next(c, t, Call(op)).Some? && (op.Unlock? ==> View(c).holds.By(t))
  }

  /** Between calls a mutex counts the entries of its owner, so that both locks either move at once or wait. */
  predicate Counted(c: Core) {
    c.MutexCore? ==> (c.mx.owner == None <==> c.mx.count == 0)
  }

  /** Which calls a thread outside may make: all of a rwlock, the exclusive ones of a mutex, unlock if it holds the lock. */
  lemma MayCallIff(c: Core, t: Tid, op: Op)
    requires t in Threads(c) && Outside(c, t) && Counted(c)
    ensures MayCall(c, t, op) <==>
            match c
            case RwCore(s) => op.Unlock? ==> s.holds.By(t)
            case MutexCore(s) => if op.Unlock? then s.owner == Some(t) else op.mode.Exclusive?
  {
    match c
    case RwCore(s) => Rw.CallStartsIff(s, t, op);
    case MutexCore(s) => Mx.CallStartsIff(s, t, op);
  }

  /** The way out of the native call. */
  lemma ClosingIs(env: Env, j: Instrumented, t: Tid, op: Op, rc: int)
    requires t in j.places && j.places[t].Inside? && t in Threads(j.core) && Result(j.core, t) == Some(rc)
    ensures var locker := j.places[t].locker;
            match Wrapper.Exec(env, j, Closing(t, locker))
            case None => false
            case Some(after) =>
              after.places == j.places[t := Out] && after.core == Left(j.core, t) && after.starts == j.starts &&
              after.log == j.log + if locker.Some? then [Wrapper.Waited(locker.value, rc)] else []
  {
    var w := Closing(t, j.places[t].locker);
    if |w| == 2 { Wrapper.ExecTwo(env, j, w[0], w[1]); } else { Wrapper.ExecOne(env, j, w[0]); }
  }

  /** The state between the opening and the native call's first action. */
  function Opened(psi: bool, grant: bool, c: Core, t: Tid, op: Op, starts: nat): Instrumented {
    var locker := if psi && grant && !op.Unlock? then Some(starts) else None;
    Wrapper.Instrumented(Entered(c, t, op), map[t := Inside(op, locker)], Free,
                         StartsAfter(psi, op, starts), multiset{}, Events(psi, t, op, grant, starts, None))
  }

  lemma OpeningWithHook(grant: bool, c: Core, t: Tid, op: Op, starts: nat)
    requires MayCall(c, t, op)
    ensures Wrapper.Exec(Choice(true, grant), Before(c, t, starts), Opening(true, t, op))
            == Some(Opened(true, grant, c, t, op, starts))
  {
    var env, i, entry := Choice(true, grant), Before(c, t, starts), Opened(true, grant, c, t, op, starts);
    var i1 := Wrapper.HookBefore(env, i, t, op).value;
    assert i1 == i.(log := i1.log, starts := entry.starts, places := map[t := Started(op, entry.places[t].locker)]);
    assert i1.log + [Wrapper.Entering(t, op)] == entry.log;
    Wrapper.ExecTwo(env, i, (t, Wrapper.StartHook(op)), (t, Wrapper.CallNative));
    assert Wrapper.Put(i1.(core := entry.core, log := entry.log), t, entry.places[t]).places == entry.places;
  }

  lemma OpeningPlain(grant: bool, c: Core, t: Tid, op: Op, starts: nat)
    requires MayCall(c, t, op)
    ensures Wrapper.Exec(Choice(false, grant), Before(c, t, starts), Opening(false, t, op))
            == Some(Opened(false, grant, c, t, op, starts))
  {
    var env, i, entry := Choice(false, grant), Before(c, t, starts), Opened(false, grant, c, t, op, starts);
    Wrapper.ExecOne(env, i, (t, Wrapper.CallPlain(op)));
    assert i.log + [Wrapper.Entering(t, op)] == entry.log;
    assert Wrapper.Put(i.(core := entry.core, log := entry.log), t, entry.places[t]).places == entry.places;
  }

  lemma OpeningIs(psi: bool, grant: bool, c: Core, t: Tid, op: Op, starts: nat)
    requires MayCall(c, t, op)
    ensures Wrapper.Exec(Choice(psi, grant), Before(c, t, starts), Opening(psi, t, op))
            == Some(Opened(psi, grant, c, t, op, starts))
  {
    if psi { OpeningWithHook(grant, c, t, op, starts); } else { OpeningPlain(grant, c, t, op, starts); }
  }

  /** Native actions change nothing but the native lock. */
  lemma {:induction false} FinishIsARun(env: Env, i: Instrumented, t: Tid, fuel: nat) returns (n: nat, j: Instrumented)
    requires t in i.places && i.places[t].Inside? && t in Threads(i.core) && Finish(i.core, t, fuel).0.Some?
    ensures Wrapper.Exec(env, i, Runs(t, n)) == Some(j) && j == i.(core := j.core)
    ensures t in Threads(j.core) && Result(j.core, t) == Finish(i.core, t, fuel).0
    ensures Left(j.core, t) == Finish(i.core, t, fuel).1
    decreases fuel
  {
    if Result(i.core, t).Some? {
      n, j := 0, i;
    } else {
      StepKeepsThreads(i.core, t, Run);
      var i' := Wrapper.Next(env, i, t, Wrapper.RunNative).value;
      assert i'.places == i.places;
      n, j := FinishIsARun(env, i', t, fuel - 1);
      n := n + 1;
      assert Runs(t, n)[1..] == Runs(t, n - 1);
    }
  }

  lemma WaitsAtOnce(c: Core, t: Tid, op: Op)
    requires MayCall(c, t, op) && Counted(c) && Alone(c, t, op).0 == None
    ensures Next(Entered(c, t, op), t, Run) == None
  {
    match c
    case RwCore(s) =>
      if op.Unlock? { RwLockRuns.UnlockAlone(s, t); } else { RwLockRuns.AcquireAlone(s, t, op); }
    case MutexCore(s) =>
      if op.TryLock? { MutexRuns.TryLockAlone(s, t); } else { MutexRuns.OneStepAlone(s, t, op); }
  }

  lemma ReturningCall(psi: bool, grant: bool, c: Core, t: Tid, op: Op, starts: nat, rc: int)
    requires MayCall(c, t, op) && Alone(c, t, op).0 == Some(rc)
    ensures Performs(Choice(psi, grant), Before(c, t, starts), t, op, Some(rc), Alone(c, t, op).1,
                     Events(psi, t, op, grant, starts, Some(rc)), StartsAfter(psi, op, starts))
  {
    var env, i, entry := Choice(psi, grant), Before(c, t, starts), Opened(psi, grant, c, t, op, starts);
    OpeningIs(psi, grant, c, t, op, starts);
    var n, j := FinishIsARun(env, entry, t, MostActions(op));
    Wrapper.ExecAppend(env, i, Opening(psi, t, op), Runs(t, n));
    ClosingIs(env, j, t, op, rc);
    var after := Wrapper.Exec(env, j, Closing(t, j.places[t].locker)).value;
    assert Returns(env, i, t, op, n, rc, after);
  }

  lemma WaitingCall(psi: bool, grant: bool, c: Core, t: Tid, op: Op, starts: nat)
    requires MayCall(c, t, op) && Counted(c) && Alone(c, t, op).0 == None
    ensures Performs(Choice(psi, grant), Before(c, t, starts), t, op, None, c,
                     Events(psi, t, op, grant, starts, None), StartsAfter(psi, op, starts))
  {
    OpeningIs(psi, grant, c, t, op, starts);
    WaitsAtOnce(c, t, op);
  }

  /** Whatever hooks are NULL: with these hooks, the undisturbed native call is a run of the wrapper. */
  lemma CallPerforms(psi: bool, grant: bool, c: Core, t: Tid, op: Op, starts: nat)
    requires MayCall(c, t, op) && Counted(c)
    ensures var (rc, c') := Alone(c, t, op);
            Performs(Choice(psi, grant), Before(c, t, starts), t, op, rc, c',
                     Events(psi, t, op, grant, starts, rc), StartsAfter(psi, op, starts))
  {
    match Alone(c, t, op).0
    case None => WaitingCall(psi, grant, c, t, op, starts);
    case Some(rc) => ReturningCall(psi, grant, c, t, op, starts, rc);
  }

  // ---------------------------------------------------------------- what that says

  lemma {:induction false} RunsAreOwn(t: Tid, n: nat)
    ensures |Runs(t, n)| == n && forall k :: 0 <= k < n ==> Runs(t, n)[k].0 == t
  {
    if n == 0 {
    } else {
      RunsAreOwn(t, n - 1);
    }
  }

  lemma ScriptIsOwn(psi: bool, t: Tid, op: Op, n: nat, locker: Option<nat>)
    ensures var es := Opening(psi, t, op) + Runs(t, n) + Closing(t, locker);
            es != [] && es[0] == (t, if psi then Wrapper.StartHook(op) else Wrapper.CallPlain(op)) &&
            forall k :: 0 <= k < |es| ==> es[k].0 == t
  {
    RunsAreOwn(t, n);
  }

  lemma ReturnedRun(env: Env, i: Instrumented, t: Tid, op: Op, n: nat, rc: int, after: Instrumented) returns (es: Steps)
    requires Returns(env, i, t, op, n, rc, after)
    ensures Wrapper.Exec(env, i, es) == Some(after)
    ensures es != [] && es[0] == (t, if env.psi then Wrapper.StartHook(op) else Wrapper.CallPlain(op))
    ensures forall k :: 0 <= k < |es| ==> es[k].0 == t
    ensures t in after.places && after.places[t].Out?
  {
    var front := Opening(env.psi, t, op) + Runs(t, n);
    var j := Wrapper.Exec(env, i, front).value;
    var locker := j.places[t].locker;
    es := front + Closing(t, locker);
    ScriptIsOwn(env.psi, t, op, n, locker);
    ClosingIs(env, j, t, op, rc);
    Wrapper.ExecAppend(env, i, front, Closing(t, locker));
  }

  /** A call that returns is a run of `t` alone, from the first step of that call until `t` is out again. */
  lemma PerformsIsARun(env: Env, i: Instrumented, t: Tid, op: Op, rc: int, c: Core, log: seq<Wrapper.Event>, starts: nat)
    requires Performs(env, i, t, op, Some(rc), c, log, starts)
    ensures exists es: Steps, after ::
              Wrapper.Exec(env, i, es) == Some(after) &&
              es != [] && es[0] == (t, if env.psi then Wrapper.StartHook(op) else Wrapper.CallPlain(op)) &&
              (forall k :: 0 <= k < |es| ==> es[k].0 == t) &&
              t in after.places && after.places[t].Out? &&
              after.core == c && after.log == log && after.starts == starts
  {
    var n, after :| Returns(env, i, t, op, n, rc, after) && after.core == c && after.log == log && after.starts == starts;
    var es := ReturnedRun(env, i, t, op, n, rc, after);
    assert Wrapper.Exec(env, i, es) == Some(after);
  }

  /** A call that does not has begun, and can neither move in the native lock nor leave it. */
  lemma PerformsOrWaits(env: Env, i: Instrumented, t: Tid, op: Op, c: Core, log: seq<Wrapper.Event>, starts: nat)
    requires Performs(env, i, t, op, None, c, log, starts)
    ensures exists after ::
              Wrapper.Exec(env, i, if env.psi then [(t, Wrapper.StartHook(op)), (t, Wrapper.CallNative)]
                                   else [(t, Wrapper.CallPlain(op))]) == Some(after) &&
              t in Threads(after.core) && Result(after.core, t) == None && Wrapper.Next(env, after, t, Wrapper.RunNative) == None &&
              i.core == c && after.log == log && after.starts == starts
  {
  }
}
