/** Vocabulary shared by the lock models. */
module LockTypes {
  type Tid = nat

  datatype Mode = Shared | Exclusive

  /** A call on a lock object. A mutex is only ever called with mode `Exclusive`. */
  datatype Op = Lock(mode: Mode) | TryLock(mode: Mode) | Unlock

  /** What one thread does next: enter a native call, execute its next atomic action, or leave it. */
  datatype Act = Call(op: Op) | Run | Return

  const EBUSY: int := 16

  /** Who holds a lock, in which mode, and how many times. */
  datatype Holds = Holds(shared: multiset<Tid>, exclusive: multiset<Tid>) {
    function In(m: Mode): multiset<Tid> {
      if m.Shared? then shared else exclusive
    }

    predicate By(t: Tid) {
      t in shared || t in exclusive
    }

    function Add(t: Tid, m: Mode): Holds {
      if m.Shared? then Holds(shared + multiset{t}, exclusive) else Holds(shared, exclusive + multiset{t})
    }

    /** What remains once `t` has given up one of its own holds. */
    function GiveUp(t: Tid): Holds {
      if t in exclusive then Holds(shared, exclusive - multiset{t}) else Holds(shared - multiset{t}, exclusive)
    }
  }

  const Free := Holds(multiset{}, multiset{})
}
