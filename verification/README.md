# Verified model of the locks, codecs, waits and input detectors

This project models the self-contained logic of the repository and proves what callers rely on. Every
`.dfy` file is one module; `dafny verify dfyconfig.toml` checks them all.

**Windows locks and their instrumentation.** An SRWLOCK does not know in which mode it is held, so the
wrapper keeps a flag that one `unlock` reads to choose a release; a CRITICAL_SECTION lets its owner in
again, so the wrapper's trylock has to back out. `RwLockSteps` and `MutexSteps` split every call into its
atomic actions and let any number of threads interleave them; a schedule is a list of moves, and the
theorems hold for every schedule. `NativeCore` joins the two machines and proves once that their runs
refine `AtomicLock`, the lock a caller has in mind, in which each call takes effect in one step;
`RwLockRuns` and `MutexRuns` say what follows for each. `Recording` proves once, over that atomic lock,
that the performance schema never believes in a hold that is not there; `Instrumentation` puts the hooks
around either native machine and adds transparency and locker accounting; `UpToDate` says when the
recorder knows every hold. `NativeRwLock`, `NativeMutex` and `MysqlThread` are the same calls in the
source's own form, methods that update the lock structure and run hooks. Their contracts tie them to the
step machines: a native call does what the native machine does when one thread runs alone, and an
instrumented call is a run of the instrumented machine (`OneCall`), hooks included. The seven instrumented
lock calls share two texts and are two methods, `Acquire` and `Release`, which `Call` joins. A call that
would block for ever when nobody else moves returns `None`.

**Bytes.** `Bytes` has base-256 digits, C's fixed-width conversions and the bitwise operators.
`ByteOrder` has the loads, `ByteStore` the stores and the round trips, `HostOrder` the float, double,
short and long pairs of both kinds of host, `SkipSpace` the two fast forms of `skip_trailing_space`.

**Deadlines.** `TimedWait` has the timespec functions and `get_milliseconds` in both build configurations.

**Smaller state.** `SslOptions` (client SSL options), `FileWrappers` (streams and byte counts),
`PressEdges` and `InputDevices` (three press detectors), `BinaryBuffer` (cursor buffer).

## Assumptions

- The operating system's lock primitives are atomic and do what their documentation says: a shared
  acquire succeeds unless the lock is held exclusively, an exclusive one only when it is free, the owner
  of a critical section may enter again.
- The recorder behind the hooks notes a hold when a wait ends with rc 0 and drops one hold of the calling
  thread when it is told of an unlock. Whether hooks and lockers are NULL is arbitrary.
- Clock readings, memory allocation, `fopen` results, key states and the contents of uninitialised
  memory are parameters. The raw file transfers keep their documented NABP contract.
- Overflowing signed additions and shifts (`sint4korr`, 64-bit tick arithmetic) wrap in two's complement,
  which C leaves to the compiler. `time_t` has 64 bits in `cmp_timespec` and `diff_timespec`, where seconds
  in the range of a narrower one make no difference; `long` has 32 bits on Windows.

## Where code and comments differ

- `skip_trailing_space` is documented to return the last non-space character; it returns the position
  after it, and the model follows the code.
- `native_mutex_trylock` says recursion is not allowed; `native_mutex_lock` by the owner does nest on
  Windows, and the model follows the code (`AtomicLock.Reentrant`).

## Results that are not unconditional

Each of these holds under an exact condition, and fails at the input named with it.

- `unlock` by a thread that holds nothing corrupts the lock (`RwLockRuns.UnlockCorrectIffHeld`; a new
  lock in `UnlockOfNewLockFaults`, somebody else's in `UnlockOfOthersLockFrees`).
- `unlock` of a mutex by a thread that does not own it leaves a section that is not its own
  (`MutexRuns.UnlockCorrectIffOwner`; `UnlockOfNewMutexFaults`).
- The recorder is never ahead, and up to date after every run exactly when no hook or locker is NULL
  (`UpToDate.UpToDateIff`; `Instrumentation.NullLockerIsMissed`).
- `get_milliseconds` of the struct timespec build truncates waits of 2^32 ms, 49.7 days, and more. Then
  the wait is not within 1 ms of the truth (`TimedWait.WaitWithinOneMsecIff`), may grow as the clock
  advances (`WaitNeverGrowsIff`), leaves more to wait after it (`WaitEndsAfterItselfIff`) or is 0 though
  the deadline lies ahead (`WaitsIffMillisecondAhead`); `LongWaitGrows` and `LongWaitIsNone` are inputs.
- Where `time_t` has 32 bits it computes the deadline in 32 bits as well. The wait is right while true and
  wrapped deadline are on the same side of the clock (`TimedWait.NarrowWaitRightIff`; `NarrowWaitForEver`,
  `NarrowWaitIsNone`), at all clock readings only for deadlines up to 25 January 1970
  (`NarrowWaitAlwaysRightIff`).
- Deadlines that overflow 64 bits, or are clamped, do not encode the requested time
  (`TimedWait.Deadline.SetNsec`, `TimedWait.Deadline.SetSec`; `OverflowedDeadline`, `ClampedDeadline`,
  `OverflowedTimeout`).
- The timespec difference is exact only for a first argument that is not earlier and less than 2^64 ns
  later (`TimedWait.DiffExactIff`; `ReversedDifference`).
- A CA option after an enabling `--ssl-verify-server-cert` lowers the mode unless `--ssl-mode` came before
  (`SslOptions.IdentityKeptIff`; `CaTakesIdentityAway`).
- A given CA is dropped without a warning after a disabling `--ssl` (`SslOptions.DroppedSilentlyIff`;
  `SkipSslDropsCa`).
- The keyboard's first frame, and queries before it, look at uninitialised memory
  (`InputDevices.Keyboard.IsPushKey`, `IsHoldKey`; `FirstPushMissed`, `HeldBeforeFirstFrame`).
- A request of 2^64-1 bytes without NABP, moved in full, looks like an error
  (`FileWrappers.ReportedIffSafe`; `UnsafeIsMissed`).

## Model

| member | source | states |
|---|---|---|
| RwLockRuns.UnlockReleasesTheHeldMode | AttractionCypher/Solution/MySQL/include/thr_rwlock.h:73-131 | in every interleaving of threads that unlock only what they hold, unlock is about to release the mode its caller holds and the SRWLOCK is held in; the flag is TRUE exactly while an exclusive holder has set and not yet cleared it, and never beside a shared holder |
| NativeCore.RunRefines | AttractionCypher/Solution/MySQL/include/thr_rwlock.h:52-131 | every interleaving of the split calls of either lock, this one or the mutex of thr_mutex.h, is a run of the atomic lock with the same return codes; the extra entry of a failing mutex trylock is never seen |
| RwLockSteps.StepRefines | AttractionCypher/Solution/MySQL/include/thr_rwlock.h:73-131 | each atomic action is invisible to callers or is exactly one step of the atomic lock |
| RwLockSteps.StepKeepsInv | AttractionCypher/Solution/MySQL/include/thr_rwlock.h:73-131 | every action keeps SRWLOCK mode, flag, holders and program counters consistent, and no release is called in the wrong mode |
| RwLockSteps.WaitsOnlyForHolders | AttractionCypher/Solution/MySQL/include/thr_rwlock.h:73-115 | an acquiring call is stuck exactly when the atomic lock would make it wait, hence only while somebody holds the lock |
| RwLockSteps.CallStartsIff | AttractionCypher/Solution/MySQL/include/thr_rwlock.h:73-131 | a thread outside may start any call at any time, unlock if and only if it holds the lock |
| RwLockSteps.StuckIff | AttractionCypher/Solution/MySQL/include/thr_rwlock.h:73-131 | a thread can make no move at all if and only if it is in a blocking acquire that a holder keeps out |
| RwLockRuns.UnlockCorrectIffHeld | AttractionCypher/Solution/MySQL/include/thr_rwlock.h:117-131 | an undisturbed unlock leaves the SRWLOCK agreeing with the threads' holds if and only if its caller held something |
| RwLockRuns.UnlockOfNewLockFaults | AttractionCypher/Solution/MySQL/include/thr_rwlock.h:117-131 | the failing case: unlocking a new lock releases an SRWLOCK that is not held |
| RwLockRuns.UnlockOfOthersLockFrees | AttractionCypher/Solution/MySQL/include/thr_rwlock.h:117-131 | the failing case with a reader: a thread that holds nothing takes the reader's lock away |
| RwLockRuns.UnlockAlone | AttractionCypher/Solution/MySQL/include/thr_rwlock.h:117-131 | the whole effect of an undisturbed unlock, from any state |
| RwLockRuns.AcquireAlone | AttractionCypher/Solution/MySQL/include/thr_rwlock.h:73-115 | the whole effect of each undisturbed acquiring call, from any state |
| NativeRwLock.RwLock.Init | AttractionCypher/Solution/MySQL/include/thr_rwlock.h:52-62 | a new lock is free and consistent |
| NativeRwLock.RwLock.RdLock | AttractionCypher/Solution/MySQL/include/thr_rwlock.h:73-81 | returns 0 with a shared hold added exactly when no exclusive hold exists; agrees with the step machine |
| NativeRwLock.RwLock.TryRdLock | AttractionCypher/Solution/MySQL/include/thr_rwlock.h:83-92 | the same, with EBUSY and nothing changed otherwise |
| NativeRwLock.RwLock.WrLock | AttractionCypher/Solution/MySQL/include/thr_rwlock.h:94-103 | returns 0 with an exclusive hold added exactly when the lock is free, flag and mode consistent afterwards |
| NativeRwLock.RwLock.TryWrLock | AttractionCypher/Solution/MySQL/include/thr_rwlock.h:105-115 | the same, with EBUSY and nothing changed otherwise |
| NativeRwLock.RwLock.Unlock | AttractionCypher/Solution/MySQL/include/thr_rwlock.h:117-131 | one hold of the caller is given up, in the mode it was held in |
| AtomicLock.ExclusionAlways | AttractionCypher/Solution/MySQL/include/thr_rwlock.h:73-131 | over every run a writer is alone and a mutex has one owner |
| AtomicLock.ExclusionMeans | AttractionCypher/Solution/MySQL/include/thr_rwlock.h:73-131 | exclusion means at most one writer and no reader beside it, and one owner for all entries of a mutex |
| MutexSteps.StepRefines | AttractionCypher/Solution/MySQL/include/thr_mutex.h:78-114 | each atomic action is invisible to callers or is exactly one step of the atomic mutex |
| MutexRuns.TryLockSucceedsIffFree | AttractionCypher/Solution/MySQL/include/thr_mutex.h:88-104 | in every interleaving trylock returns 0 exactly when the critical section was free when it tried to enter |
| MutexRuns.OwnerTryLockFails | AttractionCypher/Solution/MySQL/include/thr_mutex.h:88-104 | a second attempt by the owner, interleaved with anything, returns EBUSY and leaves owner and recursion count as they were |
| MutexRuns.TryLockOnlyNeverNests | AttractionCypher/Solution/MySQL/include/thr_mutex.h:88-104 | runs that acquire only by trylock never hold a count above 1 between calls |
| MutexRuns.UnlockCorrectIffOwner | AttractionCypher/Solution/MySQL/include/thr_mutex.h:106-114 | an undisturbed unlock takes one entry from a section its caller owns if and only if it does own it |
| MutexRuns.UnlockOfNewMutexFaults | AttractionCypher/Solution/MySQL/include/thr_mutex.h:106-114 | the failing case: unlocking a new mutex leaves a section that is not owned |
| MutexSteps.WaitsOnlyForTheOwner | AttractionCypher/Solution/MySQL/include/thr_mutex.h:78-86 | lock is stuck exactly when another thread owns the mutex |
| MutexSteps.CallStartsIff | AttractionCypher/Solution/MySQL/include/thr_mutex.h:78-114 | a thread outside may start lock and trylock at any time, unlock if and only if it owns the mutex |
| MutexSteps.StuckIff | AttractionCypher/Solution/MySQL/include/thr_mutex.h:78-114 | a thread can make no move at all if and only if it is in a lock call while another thread owns the mutex |
| NativeMutex.Mutex.Lock | AttractionCypher/Solution/MySQL/include/thr_mutex.h:78-86 | blocks exactly when another thread owns the section, else one more entry; agrees with the step machine |
| NativeMutex.Mutex.TryLock | AttractionCypher/Solution/MySQL/include/thr_mutex.h:88-104 | 0 and one entry exactly when free, else EBUSY and unchanged, also for the owner |
| NativeMutex.Mutex.Unlock | AttractionCypher/Solution/MySQL/include/thr_mutex.h:106-114 | one entry fewer |
| NativeCore.ExclusionHolds | AttractionCypher/Solution/MySQL/include/thr_rwlock.h:73-131 | over every run of either native lock, what is held is what its kind allows |
| Recording.RecordedIsHeld | AttractionCypher/Solution/MySQL/include/mysql/psi/mysql_thread.h:876-1100 | the recording invariant implies that nothing is recorded that is not held, so nothing the lock forbids is recorded |
| Recording.CommitKeepsInv | AttractionCypher/Solution/MySQL/include/mysql/psi/mysql_thread.h:692-799 | the native call between the hooks keeps recorded holds below real ones |
| Recording.StartHookKeepsInv | AttractionCypher/Solution/MySQL/include/mysql/psi/mysql_thread.h:1090-1100 | running the unlock hook before the real release keeps recorded holds below real ones |
| Recording.EndHookKeepsInv | AttractionCypher/Solution/MySQL/include/mysql/psi/mysql_thread.h:885-903 | running the end-of-wait hook after the real acquire keeps recorded holds below real ones |
| Instrumentation.RecorderNeverAhead | AttractionCypher/Solution/MySQL/include/mysql/psi/mysql_thread.h:692-1100 | in every interleaving, whatever hooks are NULL, recorded holds are real holds: never two writers, a reader beside a writer or two owners |
| Instrumentation.RecorderUpToDate | AttractionCypher/Solution/MySQL/include/mysql/psi/mysql_thread.h:692-1100 | in every interleaving without a NULL hook or locker, once all calls have returned the recorded holds are exactly the real ones |
| UpToDate.UpToDateIff | AttractionCypher/Solution/MySQL/include/mysql/psi/mysql_thread.h:692-1100 | for every new lock with a thread: after every run whose calls have all returned the recorded holds are exactly the real ones, if and only if the object is instrumented and no start hook returns NULL |
| Instrumentation.NullLockerIsMissed | AttractionCypher/Solution/MySQL/include/mysql/psi/mysql_thread.h:692-733 | the failing case: one lock call whose start hook returns NULL leaves a hold that is not recorded |
| Instrumentation.HooksAreInvisible | AttractionCypher/Solution/MySQL/include/mysql/psi/mysql_thread.h:692-1100 | with its hooks removed, an instrumented run is a run of the native lock ending in the same state |
| Instrumentation.EveryNativeRunIsWrapped | AttractionCypher/Solution/MySQL/include/mysql/psi/mysql_thread.h:692-1100 | every run of the native lock is the native part of an instrumented run, for every choice of NULL hooks |
| Instrumentation.NewLocksAreNotHindered | AttractionCypher/Solution/MySQL/include/mysql/psi/mysql_thread.h:692-1100 | in particular every run of a new native lock |
| Instrumentation.EveryLockerEndsOnce | AttractionCypher/Solution/MySQL/include/mysql/psi/mysql_thread.h:692-1100 | no locker is ended twice, no NULL locker is ended, and once all calls have returned each issued locker has been ended exactly once |
| Instrumentation.StepTells | AttractionCypher/Solution/MySQL/include/mysql/psi/mysql_thread.h:692-1100 | every hook tells of its own caller, operation, locker and result, in every interleaving |
| Instrumentation.RecordedIsTold | AttractionCypher/Solution/MySQL/include/mysql/psi/mysql_thread.h:692-1100 | in every interleaving what is recorded is what a recorder makes of the hooks alone, reading them in order |
| OneCall.CallPerforms | AttractionCypher/Solution/MySQL/include/mysql/psi/mysql_thread.h:692-1100 | an undisturbed native call with its hooks around it is a run of the instrumented step machine that ends outside, with the same result, lock state, events and lockers; a call that waits is one that has run its start hook and cannot move |
| OneCall.MayCallIff | AttractionCypher/Solution/MySQL/include/mysql/psi/mysql_thread.h:692-1100 | which calls a thread outside may make: all of a rwlock, lock and trylock of a mutex, unlock if and only if it holds the lock |
| OneCall.PerformsIsARun | AttractionCypher/Solution/MySQL/include/mysql/psi/mysql_thread.h:692-1100 | a returning call is a run of its own thread, from the first step of that call until the thread is out again |
| OneCall.PerformsOrWaits | AttractionCypher/Solution/MySQL/include/mysql/psi/mysql_thread.h:692-1100 | a call that does not return has begun and can neither move in the native lock nor leave it |
| MysqlThread.MysqlLock.InitMutex | AttractionCypher/Solution/MySQL/include/mysql/psi/mysql_thread.h:648-669 | a new mutex is free, and its instrument is the one the init hook has just made, if any |
| MysqlThread.MysqlLock.InitRwLock | AttractionCypher/Solution/MySQL/include/mysql/psi/mysql_thread.h:818-828 | the same for a reader-writer lock |
| MysqlThread.MysqlLock.Destroy | AttractionCypher/Solution/MySQL/include/mysql/psi/mysql_thread.h:671-690 | the destroy hook runs exactly when there is an instrument, which is then gone |
| MysqlThread.MysqlLock.Call | AttractionCypher/Solution/MySQL/include/mysql/psi/mysql_thread.h:692-1100 | result and native lock of each of the seven calls, on mutexes and rwlocks, are those of the bare call, and the call is a run of the instrumented step machine in which just what the log gained happens: start or unlock hook, native call, end hook |
| MysqlThread.MysqlLock.Acquire | AttractionCypher/Solution/MySQL/include/mysql/psi/mysql_thread.h:692-776 | the lock and trylock calls: the start hook is told of the object's own instrument, the caller and the operation, before the native call; the end hook runs after it exactly when there is a locker, with the result of the call |
| MysqlThread.MysqlLock.Release | AttractionCypher/Solution/MySQL/include/mysql/psi/mysql_thread.h:778-799 | the unlock calls: the unlock hook is told of the object's own instrument before the release |
| MysqlThread.DestroyedAtMostOncePerInit | AttractionCypher/Solution/MySQL/include/mysql/psi/mysql_thread.h:648-690 | over any sequence of inits and destroys of any objects, repeated ones included, each destroy hook runs at most once and only after its instrument was made, and no two objects share an instrument |
| MysqlThread.OneMoreCall | AttractionCypher/Solution/MySQL/include/mysql/psi/mysql_thread.h:648-690 | after any such sequence one more init runs the init hook, one more destroy the destroy hook if and only if the object has an instrument |
| MysqlThread.LifeCycle | AttractionCypher/Solution/MySQL/include/mysql/psi/mysql_thread.h:648-690 | the constructors and destroy methods, called in any such sequence, log exactly the hooks of that sequence, so this holds of the log |
| Bytes.ValueOfDigits | AttractionCypher/Solution/MySQL/include/my_byteorder.h:20-24 | the little-endian value of the digits of a number is the number modulo 256^width, at any width |
| Bytes.DigitsOfValue | AttractionCypher/Solution/MySQL/include/my_byteorder.h:20-24 | the digits of the value of a byte string are the byte string |
| Bytes.ValueIsInjective | AttractionCypher/Solution/MySQL/include/m_string.h:320-321 | byte strings of one length with one value are equal |
| ByteOrder.PortableLoadsAreNativeLoads | AttractionCypher/Solution/MySQL/include/byte_order_generic.h:20-74 | on every memory and offset the portable loads, wrapping at every step, equal the x86 native loads, signed and unsigned, at widths 2, 3, 4, 5, 6 and 8 |
| ByteOrder.EightIsExact | AttractionCypher/Solution/MySQL/include/byte_order_generic.h:56-74 | the split 64-bit load loses no carry, unsigned and signed |
| ByteOrder.SignedFour | AttractionCypher/Solution/MySQL/include/byte_order_generic.h:28-36 | the signed 32-bit sums give the two's-complement value |
| ByteOrder.SignedThree | AttractionCypher/Solution/MySQL/include/my_byteorder.h:31-43 | `sint3korr` gives the two's-complement value of three bytes |
| ByteOrder.ThreeJoined | AttractionCypher/Solution/MySQL/include/my_byteorder.h:31-43 | its bit fields do not overlap and its sign test is the top bit |
| ByteStore.Int2store | AttractionCypher/Solution/MySQL/include/byte_order_generic.h:76-81 | writes the two low digits at the pointer and nothing else |
| ByteStore.Int3store | AttractionCypher/Solution/MySQL/include/my_byteorder.h:77-82 | writes the three low digits and nothing else |
| ByteStore.Int4store | AttractionCypher/Solution/MySQL/include/byte_order_generic.h:83-89 | writes the four digits and nothing else |
| ByteStore.Int5store | AttractionCypher/Solution/MySQL/include/my_byteorder.h:84-91 | writes the five low digits and nothing else |
| ByteStore.Int6store | AttractionCypher/Solution/MySQL/include/my_byteorder.h:93-101 | writes the six low digits and nothing else |
| ByteStore.Int8store | AttractionCypher/Solution/MySQL/include/byte_order_generic.h:91-97 | the store split into two halves writes the eight digits and nothing else |
| ByteStore.StoresAgree | AttractionCypher/Solution/MySQL/include/byte_order_generic_x86.h:40-56 | run on equal memories, the native and the portable store of 2, 4 or 8 bytes leave equal memories, and the portable load of the one and the native load of the other give the value back |
| ByteStore.UnsignedRoundTrip | AttractionCypher/Solution/MySQL/include/my_byteorder.h:45-101 | load after store gives the value modulo 256^width at all six widths |
| ByteStore.SignedRoundTrip | AttractionCypher/Solution/MySQL/include/my_byteorder.h:31-43 | signed load after store gives every number in range back, including all of -2^23 to 2^23-1 in three bytes |
| ByteStore.StoreAfterLoad | AttractionCypher/Solution/MySQL/include/byte_order_generic.h:20-97 | storing what was loaded restores the bytes, also through a sign-extending load |
| HostOrder.BigFloat4store | AttractionCypher/Solution/MySQL/include/big_endian.h:21-25 | writes the same bytes as a little-endian host for the same bit pattern |
| HostOrder.BigFloat4get | AttractionCypher/Solution/MySQL/include/big_endian.h:27-33 | loads the bit pattern those bytes stand for |
| HostOrder.BigFloat8store | AttractionCypher/Solution/MySQL/include/big_endian.h:35-43 | the same for doubles |
| HostOrder.BigFloat8get | AttractionCypher/Solution/MySQL/include/big_endian.h:45-55 | the same for doubles |
| HostOrder.FloatCrossesHosts | AttractionCypher/Solution/MySQL/include/little_endian.h:24-42 | a float or double stored on either kind of host loads with the same bit pattern on either kind of host |
| HostOrder.BiEndianDoublestore | AttractionCypher/Solution/MySQL/include/little_endian.h:49-57 | writes the two halves of the image in exchanged order |
| HostOrder.BiEndianDoubleget | AttractionCypher/Solution/MySQL/include/little_endian.h:58-68 | reads them exchanged |
| HostOrder.HalvesSwapBack | AttractionCypher/Solution/MySQL/include/little_endian.h:49-68 | the pair gives every double back, and what lies in memory is its pattern with the words exchanged |
| HostOrder.BigUshortget | AttractionCypher/Solution/MySQL/include/big_endian.h:57-59 | loads the pattern of a big-endian short |
| HostOrder.BigShortget | AttractionCypher/Solution/MySQL/include/big_endian.h:60-62 | loads it as a signed number |
| HostOrder.BigLongget | AttractionCypher/Solution/MySQL/include/big_endian.h:63-69 | loads a big-endian long as a signed number |
| HostOrder.BigUlongget | AttractionCypher/Solution/MySQL/include/big_endian.h:70-76 | loads its pattern |
| HostOrder.BigShortstore | AttractionCypher/Solution/MySQL/include/big_endian.h:77-80 | writes the big-endian image of a signed short |
| HostOrder.BigLongstore | AttractionCypher/Solution/MySQL/include/big_endian.h:81-85 | writes the big-endian image of a signed long, shifting negative numbers arithmetically |
| HostOrder.LittleUshortget | AttractionCypher/Solution/MySQL/include/little_endian.h:77-77 | loads the pattern of a little-endian short |
| HostOrder.LittleUlongget | AttractionCypher/Solution/MySQL/include/little_endian.h:80-80 | loads the pattern of a little-endian long |
| HostOrder.LittleShortget | AttractionCypher/Solution/MySQL/include/little_endian.h:78-78 | loads a little-endian signed short |
| HostOrder.LittleLongget | AttractionCypher/Solution/MySQL/include/little_endian.h:79-79 | loads a little-endian signed long |
| HostOrder.LittleShortstore | AttractionCypher/Solution/MySQL/include/little_endian.h:81-81 | writes the little-endian image of a signed short |
| HostOrder.LittleLongstore | AttractionCypher/Solution/MySQL/include/little_endian.h:82-82 | writes the little-endian image of a signed long |
| HostOrder.HostOrderRoundTrip | AttractionCypher/Solution/MySQL/include/big_endian.h:57-85 | the host-order short and long pairs give every number back on either host |
| SkipSpace.SkipAligned | AttractionCypher/Solution/MySQL/include/m_string.h:280-310 | for every buffer, length and start address the three-zone form returns what the byte loop returns; the words it loads are aligned and inside the buffer, and are exactly those with only spaces after them, the topmost only if it ends in a space |
| SkipSpace.SkipByEights | AttractionCypher/Solution/MySQL/include/m_string.h:317-329 | the 8-byte-stride form returns what the byte loop returns |
| SkipSpace.StrippedIsShortest | AttractionCypher/Solution/MySQL/include/m_string.h:325-329 | that is the shortest prefix whose removed suffix is all 0x20 |
| SkipSpace.EightSpaces | AttractionCypher/Solution/MySQL/include/m_string.h:322-323 | `uint8korr` yields the mask exactly on eight spaces |
| SkipSpace.WordOfSpaces | AttractionCypher/Solution/MySQL/include/m_string.h:304-305 | an aligned word equals SPACE_INT exactly when it is all spaces, on hosts of either byte order |
| TimedWait.Deadline.SetNsec | AttractionCypher/Solution/MySQL/include/my_global.h:688-698 | the deadline is normalized always, and encodes 100*now+nsec exactly when that is representable |
| TimedWait.Deadline.SetSec | AttractionCypher/Solution/MySQL/include/my_global.h:712-715 | a deadline in seconds is exact exactly when neither the product nor the sum overflows; it encodes the wrapped product exactly when that is representable |
| TimedWait.OverflowedDeadline | AttractionCypher/Solution/MySQL/include/my_global.h:688-698 | the failing case: 100 ns after the last clock reading is the year 1970 |
| TimedWait.ClampedDeadline | AttractionCypher/Solution/MySQL/include/my_global.h:688-698 | the clamped case: with a narrow time_t no deadline is later than January 2038 |
| TimedWait.OverflowedTimeout | AttractionCypher/Solution/MySQL/include/my_global.h:712-715 | the failing case: a timeout of 18446744074 s, set by `set_timespec`, is less than 0.3 s |
| TimedWait.WaitIsOffBy | AttractionCypher/Solution/MySQL/include/thr_cond.h:89-94 | with the deadline ahead, the wait differs from the true remaining time by exactly the fractions of a millisecond that deadline and clock drop and the multiple of 2^32 ms that the DWORD drops |
| TimedWait.WaitWithinOneMsecIff | AttractionCypher/Solution/MySQL/include/thr_cond.h:89-94 | with the deadline ahead, the wait is within 1 ms of the truth if and only if it fits 32 bits |
| TimedWait.WaitNeverGrowsIff | AttractionCypher/Solution/MySQL/include/thr_cond.h:89-94 | the wait never increases as the clock advances if and only if the whole milliseconds left fit 32 bits or the wait is already 2^32-1 |
| TimedWait.WaitEndsAfterItselfIff | AttractionCypher/Solution/MySQL/include/thr_cond.h:89-94 | once the clock has advanced by the returned wait, the wait is 0 and stays 0, if and only if the whole milliseconds left fit 32 bits |
| TimedWait.WaitsIffMillisecondAhead | AttractionCypher/Solution/MySQL/include/thr_cond.h:89-94 | the wait is positive exactly when the deadline lies in a later millisecond, unless it is a positive multiple of 2^32 ms ahead, when it is 0 |
| TimedWait.LongWaitGrows | AttractionCypher/Solution/MySQL/include/thr_cond.h:89-94 | the failing case: a deadline 2^32+5 ms ahead gives a wait of 5 ms, and one of 2^32-1 ms only 6 ms later |
| TimedWait.LongWaitIsNone | AttractionCypher/Solution/MySQL/include/thr_cond.h:89-94 | the failing case: a deadline 2^32 ms ahead gives no wait |
| TimedWait.NarrowWaitRightIff | AttractionCypher/Solution/MySQL/include/thr_cond.h:89-94 | where time_t and long have 32 bits: at a given deadline and clock reading the wait is the right one if and only if the true and the wrapped deadline both lie ahead or have both passed, or the later of them lies a whole multiple of 2^32 ms ahead |
| TimedWait.NarrowWaitAlwaysRightIff | AttractionCypher/Solution/MySQL/include/thr_cond.h:89-94 | it is right at every clock reading if and only if the deadline is less than 2^31 ms after 1970 |
| TimedWait.NarrowWaitForEver | AttractionCypher/Solution/MySQL/include/thr_cond.h:89-94 | the failing case: one millisecond after a deadline of 2147484 s has passed, the wait is INFINITE |
| TimedWait.NarrowWaitIsNone | AttractionCypher/Solution/MySQL/include/thr_cond.h:89-94 | the failing case: one second before a deadline of 1500000000 s, there is no wait |
| TimedWait.FileDeadline.SetNsec | AttractionCypher/Solution/MySQL/include/my_global.h:700-708 | the FILETIME deadline in ticks and the longest wait it may cause: the timeout in milliseconds, or exactly INT_MAX32 where long is narrow and that is less |
| TimedWait.FileWaitNeverExceedsTimeout | AttractionCypher/Solution/MySQL/include/thr_cond.h:53-83 | for every clock reading the FILETIME wait is at most the original timeout, and never INFINITE where long has 32 bits |
| TimedWait.FileWaitIs | AttractionCypher/Solution/MySQL/include/thr_cond.h:53-83 | the wait is the remaining time in whole milliseconds, or the original timeout or the greatest DWORD if that is less, 0 for a deadline that has passed, INFINITE without a deadline |
| TimedWait.CappedWaits | AttractionCypher/Solution/MySQL/include/thr_cond.h:74-83 | for instance 1 s after the clock has gone back 2 s, and the longest 32-bit wait for a timeout of a year |
| TimedWait.BuildsDifferByAtMostOne | AttractionCypher/Solution/MySQL/include/thr_cond.h:53-95 | for a clock that does not go back, the struct timespec build waits as long or exactly 1 ms more, and when it does |
| TimedWait.CmpIsOrder | AttractionCypher/Solution/MySQL/include/my_global.h:724-732 | on normalized timespecs the comparison is the total order of total nanoseconds |
| TimedWait.CmpFileTimespec | AttractionCypher/Solution/MySQL/include/my_global.h:734-739 | the comparison is the order of the ticks |
| TimedWait.DiffIsResidue | AttractionCypher/Solution/MySQL/include/my_global.h:742-746 | the difference is that of the total nanoseconds modulo 2^64, whatever wraps |
| TimedWait.DiffExactIff | AttractionCypher/Solution/MySQL/include/my_global.h:742-746 | it is exact if and only if the first is not earlier and less than 2^64 ns later |
| TimedWait.ReversedDifference | AttractionCypher/Solution/MySQL/include/my_global.h:742-746 | the failing case: one nanosecond the wrong way round is 2^64-1 |
| TimedWait.DiffIsAdditive | AttractionCypher/Solution/MySQL/include/my_global.h:742-746 | differences add up along chains modulo 2^64 |
| TimedWait.FileDiffIsAdditive | AttractionCypher/Solution/MySQL/include/my_global.h:747-749 | the same for FILETIME deadlines, with the exactness condition |
| SslOptions.Client.Option | AttractionCypher/Solution/MySQL/include/sslopt-case.h:22-62 | each case of the switch moves mode and settings as the transition function does |
| SslOptions.Client.SetClientSslOptions | AttractionCypher/Solution/MySQL/include/sslopt-vars.h:44-69 | CA settings are forwarded exactly when the mode is at least VERIFY_CA, the rest always; the warning is printed exactly when an explicit mode drops a CA setting |
| SslOptions.ModeIsFinalMode | AttractionCypher/Solution/MySQL/include/sslopt-case.h:22-50 | for every option list the mode reached option by option is a closed form: the last outright setting, raised and capped by what follows it |
| SslOptions.ExplicitModeResistsCa | AttractionCypher/Solution/MySQL/include/sslopt-case.h:45-50 | after an explicit --ssl-mode a CA option never changes the mode |
| SslOptions.EnabledStaysRequired | AttractionCypher/Solution/MySQL/include/sslopt-case.h:27-33 | after an enabling --ssl the mode stays at least REQUIRED until --ssl-mode or a disabling --ssl |
| SslOptions.ModeNumbers | AttractionCypher/Solution/MySQL/include/sslopt-case.h:22-50 | the modes that no option and single options ask for, by their numbers |
| SslOptions.IdentityKeptIff | AttractionCypher/Solution/MySQL/include/sslopt-case.h:34-50 | exactly which later options take VERIFY_IDENTITY away again |
| SslOptions.CaTakesIdentityAway | AttractionCypher/Solution/MySQL/include/sslopt-case.h:34-50 | the failing case: a CA option after an enabling --ssl-verify-server-cert |
| SslOptions.LastCaIsKept | AttractionCypher/Solution/MySQL/include/sslopt-case.h:45-50 | over every list the CA settings are those of the last CA option of each kind |
| SslOptions.LastSettingIsKept | AttractionCypher/Solution/MySQL/include/sslopt-case.h:51-61 | over every list key, cert, cipher, tls-version, crl and crlpath are the argument of the last option of their own kind; with yaSSL the crl settings are unset |
| SslOptions.UngivenStaysUnset | AttractionCypher/Solution/MySQL/include/sslopt-vars.h:31-42 | a setting whose option is not in the list stays unset |
| SslOptions.YasslDropsCrl | AttractionCypher/Solution/MySQL/include/sslopt-case.h:51-61 | with yaSSL each of these six options unsets both crl settings, and the other options leave them alone |
| SslOptions.DroppedSilentlyIff | AttractionCypher/Solution/MySQL/include/sslopt-vars.h:44-63 | a given CA is dropped without the warning if and only if no --ssl-mode is given and a disabling --ssl follows it after which neither a CA option nor an enabling --ssl-verify-server-cert comes |
| SslOptions.SkipSslDropsCa | AttractionCypher/Solution/MySQL/include/sslopt-vars.h:44-63 | for instance --ssl-ca=file --skip-ssl |
| SslOptions.Client.Connect | AttractionCypher/Solution/MySQL/include/sslopt-vars.h:31-69 | for every option list, from the command line to the connection: the final mode, which CA settings are forwarded, when the warning is printed, and when a CA is dropped without it |
| FileWrappers.FileLayer.Fopen | AttractionCypher/Solution/MySQL/include/mysql/psi/mysql_file.h:802-843 | the allocation made at the start is freed again on both failure paths: without memory and stream nothing stays allocated or open; otherwise allocations and streams stay in one-to-one correspondence |
| FileWrappers.FileLayer.Fclose | AttractionCypher/Solution/MySQL/include/mysql/psi/mysql_file.h:845-874 | frees the allocation and gives up its stream whether or not the close succeeds; keeps the correspondence |
| FileWrappers.AllocationsMatchStreams | AttractionCypher/Solution/MySQL/include/mysql/psi/mysql_file.h:802-874 | under that correspondence live allocations, from my_malloc to my_free, and open streams are equally many |
| FileWrappers.RunKeepsOneToOne | AttractionCypher/Solution/MySQL/include/mysql/psi/mysql_file.h:802-874 | after every run of opens and closes allocations and open streams are in one-to-one correspondence and equally many |
| FileWrappers.OneMoreCall | AttractionCypher/Solution/MySQL/include/mysql/psi/mysql_file.h:802-874 | after any run one more open adds its allocation and stream, one more close takes both away whatever my_fclose answers |
| FileWrappers.OpensAndCloses | AttractionCypher/Solution/MySQL/include/mysql/psi/mysql_file.h:802-874 | the open and close methods, called in any such run, leave exactly the allocations and streams of that run, equally many |
| FileWrappers.Counter.Move | AttractionCypher/Solution/MySQL/include/mysql/psi/mysql_file.h:876-936 | over every run the reported counts sum to the bytes of the successful instrumented transfers less 2^64-1 for each transfer taken for an error, and results pass through |
| FileWrappers.ReportedIffSafe | AttractionCypher/Solution/MySQL/include/mysql/psi/mysql_file.h:1111-1117 | whatever the raw call does its successful bytes are reported, if and only if NABP is set or the count asked for is less than 2^64-1 |
| FileWrappers.UnsafeIsMissed | AttractionCypher/Solution/MySQL/include/mysql/psi/mysql_file.h:1111-1117 | the failing case: 2^64-1 bytes without NABP, all moved, are reported as none |
| FileWrappers.SafeRunsMissNothing | AttractionCypher/Solution/MySQL/include/mysql/psi/mysql_file.h:876-936 | in runs of such requests no transfer is taken for an error |
| PressEdges.PushesCountIntervals | Framework2018/Keyboard.cpp:97-100 | over every history pushes are as many as maximal pressed intervals |
| PressEdges.PushesAreStarts | Framework2018/Keyboard.cpp:97-100 | over every history pushes are as many as frames in which the button is down and was not down in the frame before |
| InputDevices.Mouse.Update | Framework2018/Mouse.cpp:22-45 | the saturating counters keep telling released, just pressed and kept pressed apart, over the whole history |
| InputDevices.Mouse.IsPushRightButton | Framework2018/Mouse.cpp:63-69 | answers push for the history of the right button |
| InputDevices.Mouse.IsHoldRightButton | Framework2018/Mouse.cpp:71-77 | answers hold for it |
| InputDevices.Mouse.IsPushLeftButton | Framework2018/Mouse.cpp:79-85 | answers push for the history of the left button |
| InputDevices.Mouse.IsHoldLeftButton | Framework2018/Mouse.cpp:87-93 | answers hold for it |
| InputDevices.Keyboard.Update | Framework2018/Keyboard.cpp:84-90 | the two buffers are the last two frames |
| InputDevices.Keyboard.IsHoldKey | Framework2018/Keyboard.cpp:92-95 | answers hold for the key's history, except exactly before the first frame over uninitialised memory that says pressed; an unknown name asks for index 0 and is entered |
| InputDevices.Keyboard.IsPushKey | Framework2018/Keyboard.cpp:97-100 | answers push for the key's history, except exactly in a first frame over uninitialised memory that is not 0, and before it where that memory says just pressed |
| InputDevices.FirstPushMissed | Framework2018/Keyboard.cpp:97-100 | the failing case: a key pressed in the first frame over memory of ones is not seen as pushed |
| InputDevices.HeldBeforeFirstFrame | Framework2018/Keyboard.cpp:92-95 | the failing case: before the first frame memory of ones answers that a key is held |
| InputDevices.Device.UpdateNoJoypad | Framework2018/Device.cpp:123-150 | after the loop form every bit of pad 0's masks answers hold and push for its button's history; other pads keep theirs |
| InputDevices.Device.UpdatePad | Framework2018/Device.cpp:183-221 | the same for the unrolled form |
| InputDevices.Device.UpdateJoypad | Framework2018/Device.cpp:153-223 | exactly the connected pads get one more frame |
| InputDevices.Device.Update | Framework2018/Device.cpp:90-96 | without joypads the keyboard feeds pad 0, otherwise exactly the connected pads get one more frame |
| InputDevices.Device.GetButton | Framework2018/Device.cpp:76-79 | the bits 0x01 to 0x20 answer hold for the buttons A to F, the others are 0; 0 for a negative index |
| InputDevices.Device.GetPush | Framework2018/Device.cpp:81-84 | the bits 0x01 to 0x20 answer push for the buttons A to F, the others are 0; 0 for a negative index |
| BinaryBuffer.Binary.Ensure | Framework2018/Binary.cpp:23-36 | a fresh buffer of the size asked for, none for sizes up to 0, cursor at the start |
| BinaryBuffer.Binary.Read | Framework2018/Binary.cpp:42-46 | copies the bytes at the cursor and moves it past them, never past the size |
| BinaryBuffer.Binary.Write | Framework2018/Binary.cpp:48-52 | replaces the bytes at the cursor and no others |
| BinaryBuffer.RoundTrip | Framework2018/Binary.cpp:23-52 | whatever chunks are written and whatever split they are read back with, the concatenated bytes are the same |

## Left out

- Functions without a visible body (`rw_pr_*`, `safe_mutex_*`, key cache, `decimal_*`, charset handlers, the client API): their behaviour would have to be invented.
- The pthread branches of the lock wrappers: each is a single call.
- Condition variables: `native_cond_timedwait` only passes the wait on to the operating system and maps its answer; the wait itself is modelled.
- The instrumented prlocks and condition variables: the same hook pattern around calls without a visible body.
- MysqlThread.MysqlLock.Call: the class methods describe one thread's call without interference; interleavings are the subject of the step machines.
- The remaining file wrappers (`fgets`, `seek`, `delete`, `rename` and others): one hook pair around one call each.
- FileWrappers.Counter.Move: the six counted wrappers share one text and are one method.
- Deprecation warnings of the SSL options and the texts of messages: output only.
- Stick directions, mouse position and wheel, drawing, sound, movies and sockets: calls into the graphics library.
- Floating-point arithmetic: floats and doubles are bit patterns here.
- `Game`, `TouchEffecter` and the other scenes: they depend on code that is not in the repository.
