/**
  mysql_thread.h in the source's own form: an instrumented mutex or reader-writer lock, whose calls wrap
  the native ones in hooks. The schema logs its hooks; whether an init hook returns an instrument, and a
  start hook a locker, is up to the caller's `grant`.
 */
module MysqlThread {
  import opened Wrappers
  import opened LockTypes
  import NativeMutex
  import NativeRwLock
  import Native = NativeCore
  import Wrapper = Instrumentation
  import OneCall

  /** A hook, or an event of a call on the lock with this instrument; the native call itself is an event too. */
  datatype Hook =
    | InitHook(made: Option<nat>)
    | DestroyHook(instrument: nat)
    | LockEvent(about: Option<nat>, event: Wrapper.Event)

  function About(psi: Option<nat>, events: seq<Wrapper.Event>): seq<Hook> {
    seq(|events|, j requires 0 <= j < |events| => LockEvent(psi, events[j]))
  }

  lemma AboutEvents(psi: Option<nat>, t: Tid, op: Op, grant: bool, starts: nat, rc: Option<int>)
    ensures var entering := LockEvent(psi, Wrapper.Entering(t, op));
            About(psi, OneCall.Events(psi.Some?, t, op, grant, starts, rc)) ==
            if psi == None then [entering]
            else if op.Unlock? then [LockEvent(psi, Wrapper.Unlocking(t)), entering]
            else [LockEvent(psi, Wrapper.Waiting(t, op, if grant then Some(starts) else None)), entering] +
                 if grant && rc.Some? then [LockEvent(psi, Wrapper.Waited(starts, rc.value))] else []
  {
  }

  /** The performance schema: hands out fresh instruments and lockers, or NULL, and logs every hook. For the record, the log also notes where native calls begin. */
  class Psi {
    var log: seq<Hook>
    var instruments: nat
    var starts: nat

    constructor ()
      ensures log == [] && instruments == 0 && starts == 0
    {
      log, instruments, starts := [], 0, 0;
    }

    method Init(grant: bool) returns (made: Option<nat>)
      modifies this
      ensures made == if grant then Some(old(instruments)) else None
      ensures instruments == old(instruments) + (if grant then 1 else 0) && starts == old(starts)
      ensures log == old(log) + [InitHook(made)]
    {
      made := None;
      if grant {
        made := Some(instruments);
        instruments := instruments + 1;
      }
      log := log + [InitHook(made)];
    }

    method StartWait(psi: Option<nat>, t: Tid, op: Op, grant: bool) returns (locker: Option<nat>)
      modifies this
      ensures locker == if grant then Some(old(starts)) else None
      ensures starts == old(starts) + 1 && instruments == old(instruments)
      ensures log == old(log) + [LockEvent(psi, Wrapper.Waiting(t, op, locker))]
    {
      locker := if grant then Some(starts) else None;
      starts := starts + 1;
      log := log + [LockEvent(psi, Wrapper.Waiting(t, op, locker))];
    }

    method Note(hook: Hook)
      modifies this`log
      ensures log == old(log) + [hook]
    {
      log := log + [hook];
    }
  }

  /** The native lock inside: mutexes and reader-writer locks are wrapped in the same way. */
  datatype NativeLock = OfMutex(mutex: NativeMutex.Mutex) | OfRwLock(rwLock: NativeRwLock.RwLock) {
    ghost function Object(): object {
      if OfMutex? then mutex else rwLock
    }

    ghost predicate Valid()
      reads Object()
    {
      match this case OfMutex(m) => m.Valid() case OfRwLock(l) => l.Valid()
    }

    /** The lock as a state of the step machines in which `t` is the thread that will move. */
    ghost function Core(t: Tid): Native.Core
      reads Object()
    {
      match this case OfMutex(m) => m.Core(t) case OfRwLock(l) => l.Core(t)
    }

    method Perform(t: Tid, op: Op) returns (rc: Option<int>)
      requires Valid() && OneCall.MayCall(Core(t), t, op)
      modifies Object()
      ensures Valid() && (rc, Core(t)) == Native.Alone(old(Core(t)), t, op)
    {
      match this {
        case OfMutex(m) =>
          match op {
            case Lock(_) => rc := m.Lock(t);
            case TryLock(_) => rc := m.TryLock(t);
            case Unlock => rc := m.Unlock(t);
          }
        case OfRwLock(l) =>
          match op {
            case Lock(mode) => if mode.Shared? { rc := l.RdLock(t); } else { rc := l.WrLock(t); }
            case TryLock(mode) => if mode.Shared? { rc := l.TryRdLock(t); } else { rc := l.TryWrLock(t); }
            case Unlock => rc := l.Unlock(t);
          }
      }
    }
  }

  class MysqlLock {
    const native: NativeLock
    const schema: Psi
    var psi: Option<nat>

    ghost predicate Valid()
      reads this, native.Object()
    {
      native.Valid()
    }

    constructor InitMutex(schema: Psi, grant: bool)
      modifies schema
      ensures Valid() && native.OfMutex? && fresh(native.Object()) && native.mutex.owner == None
      ensures this.schema == schema && psi == if grant then Some(old(schema.instruments)) else None
      ensures schema.log == old(schema.log) + [InitHook(psi)]
      ensures schema.instruments == old(schema.instruments) + if grant then 1 else 0
    {
      this.schema := schema;
      psi := None;
      var mutex := new NativeMutex.Mutex.Init();
      native := OfMutex(mutex);
      new;
      psi := schema.Init(grant);
    }

    constructor InitRwLock(schema: Psi, grant: bool)
      modifies schema
      ensures Valid() && native.OfRwLock? && fresh(native.Object()) && native.rwLock.holds == Free
      ensures this.schema == schema && psi == if grant then Some(old(schema.instruments)) else None
      ensures schema.log == old(schema.log) + [InitHook(psi)]
      ensures schema.instruments == old(schema.instruments) + if grant then 1 else 0
    {
      this.schema := schema;
      psi := None;
      var rwLock := new NativeRwLock.RwLock.Init();
      native := OfRwLock(rwLock);
      new;
      psi := schema.Init(grant);
    }

    method Destroy() returns (rc: int)
      modifies this`psi, schema`log
      ensures rc == 0 && psi == None
      ensures schema.log == old(schema.log) + if old(psi).Some? then [DestroyHook(old(psi).value)] else []
    {
      if psi != None {
        schema.Note(DestroyHook(psi.value));
        psi := None;
      }
      rc := 0;
    }

    /** The native call, of which only the log takes notice. */
    method Enter(t: Tid, op: Op) returns (rc: Option<int>)
      requires Valid() && OneCall.MayCall(native.Core(t), t, op)
      modifies native.Object(), schema`log
      ensures Valid() && (rc, native.Core(t)) == Native.Alone(old(native.Core(t)), t, op)
      ensures schema.log == old(schema.log) + [LockEvent(psi, Wrapper.Entering(t, op))]
    {
      schema.Note(LockEvent(psi, Wrapper.Entering(t, op)));
      rc := native.Perform(t, op);
    }

    /** A lock or trylock call: the hooks around it. */
    method Acquire(t: Tid, op: Op, grant: bool) returns (rc: Option<int>)
      requires Valid() && !op.Unlock? && OneCall.MayCall(native.Core(t), t, op)
      modifies native.Object(), schema
      ensures Valid() && (rc, native.Core(t)) == Native.Alone(old(native.Core(t)), t, op)
      ensures schema.instruments == old(schema.instruments)
      ensures schema.starts == old(schema.starts) + if psi.Some? then 1 else 0
      ensures var locker := if grant then Some(old(schema.starts)) else None;
              var entering := LockEvent(psi, Wrapper.Entering(t, op));
              schema.log == old(schema.log) +
                if psi == None then [entering]
                else [LockEvent(psi, Wrapper.Waiting(t, op, locker)), entering] +
                     if grant && rc.Some? then [LockEvent(psi, Wrapper.Waited(old(schema.starts), rc.value))] else []
    {
      if psi != None {
        var locker := schema.StartWait(psi, t, op, grant);
        rc := Enter(t, op);
        if locker != None && rc != None {
          schema.Note(LockEvent(psi, Wrapper.Waited(locker.value, rc.value)));
        }
      } else {
        rc := Enter(t, op);
      }
    }

    /** An unlock call, by a thread that holds the lock: the schema is told before the release. */
    method Release(t: Tid) returns (rc: Option<int>)
      requires Valid() && OneCall.MayCall(native.Core(t), t, Unlock)
      modifies native.Object(), schema`log
      ensures Valid() && (rc, native.Core(t)) == Native.Alone(old(native.Core(t)), t, Unlock)
      ensures schema.log == old(schema.log) +
                if psi == None then [LockEvent(None, Wrapper.Entering(t, Unlock))]
                else [LockEvent(psi, Wrapper.Unlocking(t)), LockEvent(psi, Wrapper.Entering(t, Unlock))]
    {
      if psi != None {
        schema.Note(LockEvent(psi, Wrapper.Unlocking(t)));
      }
      rc := Enter(t, Unlock);
    }

    /**
      Any of the seven calls. Result and native lock are those of the bare call, and all that happens on
      the way, in its order, is what happens in a run of the instrumented lock.
     */
    method Call(t: Tid, op: Op, grant: bool) returns (rc: Option<int>, ghost events: seq<Wrapper.Event>)
      requires Valid() && OneCall.MayCall(native.Core(t), t, op)
      modifies native.Object(), schema
      ensures Valid() && (rc, native.Core(t)) == Native.Alone(old(native.Core(t)), t, op)
      ensures schema.log == old(schema.log) + About(psi, events) && schema.instruments == old(schema.instruments)
      ensures OneCall.Performs(OneCall.Choice(psi.Some?, grant), OneCall.Before(old(native.Core(t)), t, old(schema.starts)),
                               t, op, rc, native.Core(t), events, schema.starts)
    {
      ghost var c, starts := native.Core(t), schema.starts;
      if op.Unlock? {
        rc := Release(t);
      } else {
        rc := Acquire(t, op, grant);
      }
      events := OneCall.Events(psi.Some?, t, op, grant, starts, rc);
      AboutEvents(psi, t, op, grant, starts, rc);
      OneCall.CallPerforms(psi.Some?, grant, c, t, op, starts);
    }
  }

  // ---------------------------------------------------------------- instruments

  /** A call that is about the instrument of one of any number of lock objects. */
  datatype LifeCall = InitCall(lock: nat, mutex: bool, grant: bool) | DestroyCall(lock: nat)

  /** Every instrument that is destroyed was made before that, and is destroyed only once. */
  ghost predicate DestroyedOncePerInit(log: seq<Hook>) {
    forall j :: 0 <= j < |log| && log[j].DestroyHook? ==>
      (exists i :: 0 <= i < j && log[i] == InitHook(Some(log[j].instrument))) &&
      (forall k :: 0 <= k < |log| && log[k] == log[j] ==> k == j)
  }

  /** An instrument that is in use: made, and not destroyed. */
  ghost predicate Live(log: seq<Hook>, k: nat) {
    InitHook(Some(k)) in log && DestroyHook(k) !in log
  }

  lemma HookKeepsOnce(log: seq<Hook>, hook: Hook)
    requires DestroyedOncePerInit(log) && (hook.DestroyHook? ==> Live(log, hook.instrument))
    ensures DestroyedOncePerInit(log + [hook])
  {
    var all := log + [hook];
    forall j | 0 <= j < |all| && all[j].DestroyHook?
      ensures exists i :: 0 <= i < j && all[i] == InitHook(Some(all[j].instrument))
    {
      var i :| 0 <= i < |log| && (j < |log| ==> i < j) && log[i] == InitHook(Some(all[j].instrument));
      assert all[i] == log[i];
    }
  }

  /** The log, the number of instruments made, and every object's instrument. */
  datatype Life = Life(log: seq<Hook>, instruments: nat, psis: map<nat, Option<nat>>)

  const NewLife := Life([], 0, map[])

  /** Destroying an object that was never initialised means nothing in the source, and nothing here. */
  function AfterCall(s: Life, call: LifeCall): Life {
    match call
    case InitCall(o, _, grant) =>
      var made := if grant then Some(s.instruments) else None;
      Life(s.log + [InitHook(made)], s.instruments + (if grant then 1 else 0), s.psis[o := made])
    case DestroyCall(o) =>
      if o in s.psis && s.psis[o].Some? then
        s.(log := s.log + [DestroyHook(s.psis[o].value)], psis := s.psis[o := None])
      else s
  }

  function AfterCalls(calls: seq<LifeCall>): Life {
    if calls == [] then NewLife else AfterCall(AfterCalls(calls[..|calls| - 1]), calls[|calls| - 1])
  }

  /** Every object's instrument is in use, by that object alone; no instrument is known that has not been made yet. */
  ghost predicate Owned(s: Life) {
    && DestroyedOncePerInit(s.log)
    && (forall o :: o in s.psis && s.psis[o].Some? ==> Live(s.log, s.psis[o].value))
    && (forall o, p :: o in s.psis && p in s.psis && o != p && s.psis[o].Some? ==> s.psis[o] != s.psis[p])
    && (forall k: nat :: InitHook(Some(k)) in s.log || DestroyHook(k) in s.log ==> k < s.instruments)
  }

  lemma InitKeepsOwned(s: Life, o: nat, mutex: bool, grant: bool)
    requires Owned(s)
    ensures Owned(AfterCall(s, InitCall(o, mutex, grant)))
  {
    HookKeepsOnce(s.log, InitHook(if grant then Some(s.instruments) else None));
    forall p | p in s.psis && s.psis[p].Some? ensures s.psis[p].value < s.instruments {
      assert Live(s.log, s.psis[p].value);
    }
  }

  lemma DestroyKeepsOwned(s: Life, o: nat)
    requires Owned(s)
    ensures Owned(AfterCall(s, DestroyCall(o)))
  {
    if o in s.psis && s.psis[o].Some? {
      assert Live(s.log, s.psis[o].value);
      HookKeepsOnce(s.log, DestroyHook(s.psis[o].value));
    }
  }

  /**
    Over any sequence of init and destroy calls on any objects - repeated destroys, repeated inits and
    NULL instruments included - each destroy hook runs at most once, for an instrument made before.
   */
  lemma {:induction false} DestroyedAtMostOncePerInit(calls: seq<LifeCall>)
    ensures Owned(AfterCalls(calls))
    ensures var log := AfterCalls(calls).log;
            forall j :: 0 <= j < |log| && log[j].DestroyHook? ==>
              (exists i :: 0 <= i < j && log[i] == InitHook(Some(log[j].instrument))) &&
              (forall k :: 0 <= k < |log| && log[k] == log[j] ==> k == j)
  {
    if calls == [] {
    } else {
      var before, last := AfterCalls(calls[..|calls| - 1]), calls[|calls| - 1];
      DestroyedAtMostOncePerInit(calls[..|calls| - 1]);
      match last
      case InitCall(o, mutex, grant) => InitKeepsOwned(before, o, mutex, grant);
      case DestroyCall(o) => DestroyKeepsOwned(before, o);
    }
  }

  /** What one more call does: an init hook always, a destroy hook if the object has an instrument. */
  lemma OneMoreCall(calls: seq<LifeCall>, o: nat, mutex: bool, grant: bool)
    ensures var s, s' := AfterCalls(calls), AfterCalls(calls + [InitCall(o, mutex, grant)]);
            s'.log == s.log + [InitHook(if grant then Some(s.instruments) else None)] &&
            s'.psis == s.psis[o := if grant then Some(s.instruments) else None]
    ensures var s, s' := AfterCalls(calls), AfterCalls(calls + [DestroyCall(o)]);
            if o in s.psis && s.psis[o].Some? then s'.log == s.log + [DestroyHook(s.psis[o].value)] && s'.psis == s.psis[o := None]
            else s' == s
  {
    assert (calls + [InitCall(o, mutex, grant)])[..|calls|] == calls;
    assert (calls + [DestroyCall(o)])[..|calls|] == calls;
  }

  ghost function Psis(locks: map<nat, MysqlLock>): map<nat, Option<nat>>
    reads locks.Values
  {
    map o | o in locks :: locks[o].psi
  }

  method NewLock(schema: Psi, mutex: bool, grant: bool) returns (lock: MysqlLock)
    modifies schema
    ensures fresh(lock) && (lock.native.OfMutex? <==> mutex) && lock.schema == schema && lock.psi == if grant then Some(old(schema.instruments)) else None
    ensures schema.log == old(schema.log) + [InitHook(lock.psi)]
    ensures schema.instruments == old(schema.instruments) + if grant then 1 else 0
  {
    if mutex {
      lock := new MysqlLock.InitMutex(schema, grant);
    } else {
      lock := new MysqlLock.InitRwLock(schema, grant);
    }
  }

  /** A program that makes these calls, and what the schema has logged in the end. */
  method LifeCycle(calls: seq<LifeCall>) returns (schema: Psi)
    ensures schema.log == AfterCalls(calls).log && schema.instruments == AfterCalls(calls).instruments
    ensures DestroyedOncePerInit(schema.log)
  {
    schema := new Psi();
    var locks: map<nat, MysqlLock> := map[];
    for n := 0 to |calls|
      invariant forall o :: o in locks ==> locks[o].schema == schema
      invariant forall o, p :: o in locks && p in locks && o != p ==> locks[o] != locks[p]
      invariant Life(schema.log, schema.instruments, Psis(locks)) == AfterCalls(calls[..n])
    {
      assert calls[..n + 1][..n] == calls[..n];
      var call := calls[n];
      ghost var psis := Psis(locks);
      if call.InitCall? {
        var lock := NewLock(schema, call.mutex, call.grant);
        locks := locks[call.lock := lock];
        assert Psis(locks) == psis[call.lock := lock.psi];
      } else if call.lock in locks {
        var rc := locks[call.lock].Destroy();
        assert Psis(locks) == psis[call.lock := None];
      }
    }
    assert calls[..|calls|] == calls;
    DestroyedAtMostOncePerInit(calls);
  }
}
