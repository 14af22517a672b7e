/**
  Deadlines and waits: the timespec functions of my_global.h and `get_milliseconds` of thr_cond.h, in
  both build configurations. Clocks are parameters, read in ticks of 100 ns; fixed-width arithmetic is
  written out.
 */
module TimedWait {
  import opened Wrappers
  import opened Bytes

  const BILLION: nat := 1_000_000_000
  const TICKS_PER_SEC: nat := 10_000_000
  const TICKS_PER_MSEC: nat := 10_000
  const NS_PER_MSEC: nat := 1_000_000
  const INT_MAX32: nat := 0x7FFF_FFFF
  const UINT_MAX: nat := 0xFFFF_FFFF
  const INFINITE: nat := 0xFFFF_FFFF

  // ---------------------------------------------------------------- struct timespec

  datatype Timespec = Timespec(sec: int, nsec: int)

  predicate Normalized(t: Timespec) {
    0 <= t.nsec < BILLION
  }

  /** The point in time it stands for, in nanoseconds. */
  function Total(t: Timespec): int {
    t.sec * BILLION + t.nsec
  }

  /** Whether `nsec` from clock reading `now` can be represented at all. */
  predicate Representable(now: nat, nsec: nat, narrowTime: bool) {
    now + nsec / 100 < TWO64 && (narrowTime ==> (now + nsec / 100) / TICKS_PER_SEC <= INT_MAX32)
  }

  /** What `get_milliseconds` may be given: `tv_sec * 1000` does not wrap. */
  predicate Plausible(t: Timespec) {
    Normalized(t) && 0 <= t.sec && t.sec * 1000 + 1000 < TWO64
  }

  /** Deadlines that `SetNsec` makes for a narrow time_t. */
  predicate NarrowPlausible(t: Timespec) {
    Normalized(t) && 0 <= t.sec <= INT_MAX32
  }

  lemma SumOfTicks(now: nat, nsec: nat)
    requires now < TWO64 && nsec < TWO64
    ensures var sum := now + nsec / 100;
            U64(sum) == if sum < TWO64 then sum else sum - TWO64
  {
    var sum := now + nsec / 100;
    if sum < TWO64 { Small(sum, TWO64); } else { ModShift(sum - TWO64, 1, TWO64); Small(sum - TWO64, TWO64); }
  }

  class Deadline {
    var at: Timespec

    constructor (at: Timespec)
      ensures this.at == at
    {
      this.at := at;
    }

    /**
      `narrowTime` is SIZEOF_TIME_T < SIZEOF_LONG_LONG. The result is normalized whatever happens, and
      is the requested point in time exactly when that is representable. A sum that overflows is off by
      2^64 ticks, a clamped one is in the last second of a narrow time_t.
     */
    method SetNsec(now: nat, nsec: nat, narrowTime: bool)
      requires now < TWO64 && nsec < TWO64
      modifies this
      ensures Normalized(at) && Plausible(at) && (narrowTime ==> NarrowPlausible(at))
      ensures Total(at) <= 100 * now + nsec
      ensures Total(at) == 100 * now + nsec <==> Representable(now, nsec, narrowTime)
      ensures var ticks := U64(now + nsec / 100);
              at.nsec == ticks % 10_000_000 * 100 + nsec % 100 &&
              at.sec == if narrowTime && ticks / 10_000_000 > 0x7FFF_FFFF then 0x7FFF_FFFF else ticks / 10_000_000
      ensures Total(at) != 100 * now + nsec ==>
                (narrowTime && at.sec == INT_MAX32) || Total(at) == 100 * now + nsec - 100 * TWO64
    {
      var moment := U64(now + nsec / 100);
      var sec := moment / TICKS_PER_SEC;
      if narrowTime {
        sec := if sec < INT_MAX32 then sec else INT_MAX32;
      }
      at := Timespec(sec, moment % TICKS_PER_SEC * 100 + nsec % 100);
      SumOfTicks(now, nsec);
    }

    /**
      A request of whole seconds. The multiplication wraps from 2^64 ns, about 584 years, and then it is
      the wrapped timeout that is encoded.
     */
    method SetSec(now: nat, sec: nat, narrowTime: bool)
      requires now < TWO64 && sec < TWO64
      modifies this
      ensures Normalized(at) && Plausible(at) && (narrowTime ==> NarrowPlausible(at))
      ensures Total(at) == 100 * now + sec * BILLION <==>
                (sec * BILLION < TWO64 && Representable(now, sec * BILLION, narrowTime))
      ensures Total(at) == 100 * now + U64(sec * BILLION) <==> Representable(now, U64(sec * BILLION), narrowTime)
    {
      SetNsec(now, U64(sec * BILLION), narrowTime);
      if sec * BILLION < TWO64 { Small(sec * BILLION, TWO64); }
    }
  }

  /** 100 ns ahead of the last reading of the clock is the year 1970. */
  method OverflowedDeadline() returns (d: Deadline)
    ensures Total(d.at) == 0
  {
    d := new Deadline(Timespec(0, 0));
    d.SetNsec(TWO64 - 1, 100, false);
  }

  /** Where time_t is narrow, no deadline is later than January 2038. */
  method ClampedDeadline(now: nat, nsec: nat) returns (d: Deadline)
    requires now < TWO64 && nsec < TWO64
    ensures Total(d.at) < (INT_MAX32 + 1) * BILLION
  {
    d := new Deadline(Timespec(0, 0));
    d.SetNsec(now, nsec, true);
  }

  /** A timeout of 18446744074 s, asked for at clock reading 0, is not even 0.3 s. */
  method OverflowedTimeout() returns (d: Deadline)
    ensures Total(d.at) == 18446744074 * BILLION - TWO64 == 290_448_384
  {
    d := new Deadline(Timespec(0, 0));
    assert U64(18446744074 * BILLION) == 290_448_384;
    d.SetSec(0, 18446744074, false);
  }

  // ---------------------------------------------------------------- get_milliseconds, struct timespec

  /** The wait from `now` to `future`, both in milliseconds, truncated to a DWORD. */
  function WaitUntil(future: nat, now: nat): nat {
    if future < now then 0 else U32(future - now)
  }

  /** `get_milliseconds` with HAVE_STRUCT_TIMESPEC and a 64-bit time_t. */
  function Milliseconds(t: Timespec, clock: nat): nat {
    WaitUntil(U64(t.sec * 1000 + t.nsec / NS_PER_MSEC), clock / TICKS_PER_MSEC)
  }

  /** The whole milliseconds between the deadline's and the clock's. */
  function WholeMsec(t: Timespec, clock: nat): int {
    Total(t) / NS_PER_MSEC - clock / TICKS_PER_MSEC
  }

  lemma TotalMsec(t: Timespec)
    requires Normalized(t)
    ensures Total(t) / NS_PER_MSEC == t.sec * 1000 + t.nsec / NS_PER_MSEC
  {
    ModUnique(t.sec * 1000 + t.nsec / NS_PER_MSEC, NS_PER_MSEC, t.nsec % NS_PER_MSEC);
  }

  lemma MillisecondsIs(t: Timespec, clock: nat)
    requires Plausible(t)
    ensures Milliseconds(t, clock) == if WholeMsec(t, clock) < 0 then 0 else WholeMsec(t, clock) % TWO32
  {
    TotalMsec(t);
    Small(t.sec * 1000 + t.nsec / NS_PER_MSEC, TWO64);
  }

  lemma ClockFraction(clock: nat)
    ensures (100 * clock) / NS_PER_MSEC == clock / TICKS_PER_MSEC
    ensures (100 * clock) % NS_PER_MSEC == 100 * (clock % TICKS_PER_MSEC)
  {
    ModUnique(clock / TICKS_PER_MSEC, NS_PER_MSEC, 100 * (clock % TICKS_PER_MSEC));
  }

  /**
    While the deadline lies ahead, the wait is off by an exactly known amount: the fractions of a
    millisecond that deadline and clock each drop, and the multiple of 2^32 ms that a DWORD drops.
   */
  lemma WaitIsOffBy(t: Timespec, clock: nat)
    requires Plausible(t) && Total(t) >= 100 * clock
    ensures Total(t) - 100 * clock - Milliseconds(t, clock) * NS_PER_MSEC
              == Total(t) % NS_PER_MSEC - 100 * (clock % TICKS_PER_MSEC)
                 + WholeMsec(t, clock) / TWO32 * TWO32 * NS_PER_MSEC
  {
    MillisecondsIs(t, clock);
    ClockFraction(clock);
    var whole := WholeMsec(t, clock);
    assert whole == whole / TWO32 * TWO32 + whole % TWO32;
  }

  /** So it is within 1 ms of the truth - if and only if the whole milliseconds fit a DWORD. */
  lemma WaitWithinOneMsecIff(t: Timespec, clock: nat)
    requires Plausible(t) && Total(t) >= 100 * clock
    ensures (-(NS_PER_MSEC as int) < Total(t) - 100 * clock - Milliseconds(t, clock) * NS_PER_MSEC < NS_PER_MSEC)
            <==> WholeMsec(t, clock) < TWO32
  {
    WaitIsOffBy(t, clock);
    ClockFraction(clock);
    assert 0 <= WholeMsec(t, clock);
  }

  /** A clock reading `ms` whole milliseconds after `clock`. */
  function After(clock: nat, ms: nat): (later: nat)
    ensures later >= clock
  {
    clock + ms * TICKS_PER_MSEC
  }

  lemma WholeMsecAfter(t: Timespec, clock: nat, ms: nat)
    ensures WholeMsec(t, After(clock, ms)) == WholeMsec(t, clock) - ms
  {
    ModUnique(clock / TICKS_PER_MSEC + ms, TICKS_PER_MSEC, clock % TICKS_PER_MSEC);
  }

  /** A wait that is not the greatest DWORD is exceeded one millisecond after it has run down, if there is one. */
  lemma WaitGrowsAfterZero(t: Timespec, clock: nat)
    requires Plausible(t) && WholeMsec(t, clock) >= TWO32
    ensures var ms := WholeMsec(t, clock) % TWO32 + 1;
            Milliseconds(t, After(clock, ms)) == TWO32 - 1
  {
    var whole := WholeMsec(t, clock);
    var ms := whole % TWO32 + 1;
    WholeMsecAfter(t, clock, ms);
    MillisecondsIs(t, After(clock, ms));
    ModUnique(whole / TWO32 - 1, TWO32, TWO32 - 1);
  }

  /**
    The wait never grows as the clock advances - if and only if the whole milliseconds fit a DWORD, or
    the wait already is the greatest DWORD.
   */
  lemma WaitNeverGrowsIff(t: Timespec, clock: nat)
    requires Plausible(t)
    ensures (forall later: nat :: clock <= later ==> Milliseconds(t, later) <= Milliseconds(t, clock))
            <==> (WholeMsec(t, clock) < TWO32 || WholeMsec(t, clock) % TWO32 == TWO32 - 1)
  {
    var whole := WholeMsec(t, clock);
    MillisecondsIs(t, clock);
    forall later: nat | clock <= later && (whole < TWO32 || whole % TWO32 == TWO32 - 1)
      ensures Milliseconds(t, later) <= Milliseconds(t, clock)
    {
      MillisecondsIs(t, later);
      if 0 <= whole < TWO32 { Small(whole, TWO32); }
      if 0 <= WholeMsec(t, later) < TWO32 { Small(WholeMsec(t, later), TWO32); }
    }
    if whole >= TWO32 { WaitGrowsAfterZero(t, clock); }
  }

  /**
    Once the clock has advanced by the returned wait, nothing is left to wait, then and ever after - if
    and only if the whole milliseconds fit a DWORD.
   */
  lemma WaitEndsAfterItselfIff(t: Timespec, clock: nat)
    requires Plausible(t)
    ensures (forall later: nat :: later >= After(clock, Milliseconds(t, clock)) ==> Milliseconds(t, later) == 0)
            <==> WholeMsec(t, clock) < TWO32
  {
    var whole, wait := WholeMsec(t, clock), Milliseconds(t, clock);
    MillisecondsIs(t, clock);
    WholeMsecAfter(t, clock, wait);
    forall later: nat | later >= After(clock, wait) && whole < TWO32 ensures Milliseconds(t, later) == 0 {
      MillisecondsIs(t, later);
      if 0 <= whole { Small(whole, TWO32); }
    }
    if whole >= TWO32 {
      WaitGrowsAfterZero(t, clock);
      assert After(clock, wait + 1) >= After(clock, wait);
    }
  }

  /**
    A positive wait is asked for when the deadline is in a later millisecond, and only then - unless it
    is a whole number of times 2^32 ms ahead, when none is.
   */
  lemma WaitsIffMillisecondAhead(t: Timespec, clock: nat)
    requires Plausible(t)
    ensures (Milliseconds(t, clock) > 0 <==> Total(t) / NS_PER_MSEC > clock / TICKS_PER_MSEC)
            <==> !(WholeMsec(t, clock) >= TWO32 && WholeMsec(t, clock) % TWO32 == 0)
  {
    MillisecondsIs(t, clock);
    if 0 <= WholeMsec(t, clock) < TWO32 { Small(WholeMsec(t, clock), TWO32); }
  }

  /** A deadline of 2^32 + 5 ms: a wait of 5 ms, and 6 ms later one of 49.7 days. */
  lemma LongWaitGrows()
    ensures var t := Timespec(4_294_967, 301_000_000);
            Plausible(t) && Milliseconds(t, 0) == 5 && Milliseconds(t, 6 * TICKS_PER_MSEC) == TWO32 - 1
  {
  }

  /** A deadline of 2^32 ms: no wait at all. */
  lemma LongWaitIsNone()
    ensures var t := Timespec(4_294_967, 296_000_000);
            Plausible(t) && Total(t) == TWO32 * NS_PER_MSEC && Milliseconds(t, 0) == 0
  {
  }

  // ---------------------------------------------------------------- the same with a 32-bit time_t

  /** `tv_sec * 1000` is a time_t and `tv_nsec` a long: with 32 bits each, the deadline wraps before it is widened. */
  function NarrowMilliseconds(t: Timespec, clock: nat): nat {
    WaitUntil(U64(I32(I32(t.sec * 1000) + t.nsec / NS_PER_MSEC)), clock / TICKS_PER_MSEC)
  }

  /** The wrapped deadline is the true one, a multiple of 2^32 ms earlier, or past all clock readings. */
  lemma WrappedFuture(ms: nat)
    ensures var future := U64(I32(ms));
            future % TWO32 == ms % TWO32 && (future < TWO32 / 2 || future >= TWO64 - TWO32 / 2)
    ensures ms < TWO32 / 2 ==> U64(I32(ms)) == ms
  {
    var r := ms % TWO32;
    if r < TWO32 / 2 {
      Small(r, TWO64);
    } else {
      ModUnique(-1, TWO64, r + (TWO64 - TWO32));
      ModUnique(TWO32 - 1, TWO32, r);
    }
    if ms < TWO32 { Small(ms, TWO32); }
  }

  /** Two deadlines with the same low 32 bits, at a clock reading by which just one of them has passed. */
  lemma WaitsAgreeIff(x: nat, y: nat, now: nat)
    requires x % TWO32 == y % TWO32 && x < now <= y
    ensures WaitUntil(x, now) == 0 && WaitUntil(y, now) == (y - now) % TWO32
  {
  }

  /** Both deadlines of the two lie ahead, or both have passed, or the later is a whole multiple of 2^32 ms ahead. */
  predicate SameWait(x: nat, y: nat, now: nat) {
    (now <= x <==> now <= y) || ((if x < y then y else x) - now) % TWO32 == 0
  }

  lemma SameResidue(x: nat, y: nat, z: nat)
    requires x % TWO32 == y % TWO32
    ensures (x - z) % TWO32 == (y - z) % TWO32
  {
    ModShift(x - z, y / TWO32 - x / TWO32, TWO32);
    assert x - z + (y / TWO32 - x / TWO32) * TWO32 == y - z;
  }

  lemma SameWaitIff(x: nat, y: nat, now: nat)
    requires x % TWO32 == y % TWO32
    ensures WaitUntil(x, now) == WaitUntil(y, now) <==> SameWait(x, y, now)
  {
    if x < now <= y {
      WaitsAgreeIff(x, y, now);
    } else if y < now <= x {
      WaitsAgreeIff(y, x, now);
    } else if now <= x && now <= y {
      SameResidue(x, y, now);
    }
  }

  /** The deadline in milliseconds as it is, and as the 32-bit arithmetic leaves it. */
  function TrueFuture(t: Timespec): int {
    Total(t) / NS_PER_MSEC
  }

  function NarrowFuture(t: Timespec): nat {
    U64(I32(TrueFuture(t)))
  }

  lemma FuturesOf(t: Timespec, clock: nat)
    requires NarrowPlausible(t)
    ensures TrueFuture(t) >= 0
    ensures Milliseconds(t, clock) == WaitUntil(TrueFuture(t), clock / TICKS_PER_MSEC)
    ensures NarrowMilliseconds(t, clock) == WaitUntil(NarrowFuture(t), clock / TICKS_PER_MSEC)
  {
    TotalMsec(t);
    Small(t.sec * 1000 + t.nsec / NS_PER_MSEC, TWO64);
    SignedSum(t.sec * 1000, t.nsec / NS_PER_MSEC, TWO32);
  }

  /**
    One call: the 32-bit wait is the right one if and only if at this clock reading the true and the
    wrapped deadline both lie ahead or have both passed - or the later lies whole times 2^32 ms ahead,
    when the wait is 0 anyway.
   */
  lemma NarrowWaitRightIff(t: Timespec, clock: nat)
    requires NarrowPlausible(t)
    ensures NarrowMilliseconds(t, clock) == Milliseconds(t, clock) <==>
            SameWait(TrueFuture(t), NarrowFuture(t), clock / TICKS_PER_MSEC)
  {
    FuturesOf(t, clock);
    WrappedFuture(TrueFuture(t));
    SameWaitIff(TrueFuture(t), NarrowFuture(t), clock / TICKS_PER_MSEC);
  }

  /** One millisecond after the earlier of two different deadlines just one of them has passed. */
  lemma SomeWaitDiffers(x: nat, y: nat)
    requires x % TWO32 == y % TWO32 && x < y
    ensures !SameWait(x, y, x + 1) && !SameWait(y, x, x + 1)
  {
    SameResidue(x, y, x + 1);
  }

  /**
    All calls: it is right at every clock reading if and only if the deadline is less than 2^31 ms after
    1970, that is until 25 January 1970.
   */
  lemma NarrowWaitAlwaysRightIff(t: Timespec)
    requires NarrowPlausible(t)
    ensures (forall clock: nat :: NarrowMilliseconds(t, clock) == Milliseconds(t, clock))
            <==> TrueFuture(t) < TWO32 / 2
  {
    var x, y := TrueFuture(t), NarrowFuture(t);
    FuturesOf(t, 0);
    WrappedFuture(x);
    if x < TWO32 / 2 {
      forall clock: nat ensures NarrowMilliseconds(t, clock) == Milliseconds(t, clock) { NarrowWaitRightIff(t, clock); }
    } else {
      TotalMsec(t);
      var early := if x < y then x else y;
      SomeWaitDiffers(early, if x < y then y else x);
      var clock := (early + 1) * TICKS_PER_MSEC;
      NarrowWaitRightIff(t, clock);
      assert NarrowMilliseconds(t, clock) != Milliseconds(t, clock);
    }
  }

  /** A deadline of January 1970, one millisecond after it has passed: a wait for ever. */
  lemma NarrowWaitForEver()
    ensures var t, clock := Timespec(2_147_484, 0), 2_147_484_001 * TICKS_PER_MSEC;
            NarrowPlausible(t) && Milliseconds(t, clock) == 0 && NarrowMilliseconds(t, clock) == INFINITE
  {
    assert I32(2_147_484_000) == 2_147_484_000 - TWO32;
    assert U64(2_147_484_000 - TWO32) == TWO64 + 2_147_484_000 - TWO32;
    assert 2_147_484_001 * TICKS_PER_MSEC / TICKS_PER_MSEC == 2_147_484_001;
    assert U32(TWO64 - TWO32 - 1) == INFINITE;
  }

  /** A deadline of July 2017, one second ahead: no wait. */
  lemma NarrowWaitIsNone()
    ensures var t, clock := Timespec(1_500_000_000, 0), 1_499_999_999_000 * TICKS_PER_MSEC;
            NarrowPlausible(t) && Milliseconds(t, clock) == 1000 && NarrowMilliseconds(t, clock) == 0
  {
  }

  // ---------------------------------------------------------------- FILETIME

  /** The FILETIME build's timespec: the deadline in ticks, and the longest wait it may cause. */
  datatype FileTimespec = FileTimespec(ticks: int, maxMsec: int)

  class FileDeadline {
    var at: FileTimespec

    constructor (at: FileTimespec)
      ensures this.at == at
    {
      this.at := at;
    }

    /** `narrowLong` is SIZEOF_LONG < SIZEOF_LONG_LONG. */
    method SetNsec(fileTime: int, nsec: nat, narrowLong: bool)
      requires nsec < TWO64
      modifies this
      ensures at.ticks == I64(fileTime + nsec / 100)
      ensures 0 <= at.maxMsec <= nsec / NS_PER_MSEC
      ensures at.maxMsec == nsec / NS_PER_MSEC <==> (narrowLong ==> nsec / NS_PER_MSEC <= INT_MAX32)
      ensures narrowLong ==> at.maxMsec <= INT_MAX32
      ensures at.maxMsec < nsec / NS_PER_MSEC ==> at.maxMsec == INT_MAX32
    {
      var max := nsec / NS_PER_MSEC;
      var ticks := I64(fileTime + I64(nsec / 100));
      SignedSumRight(fileTime, nsec / 100, TWO64);
      if narrowLong {
        max := if max < INT_MAX32 then max else INT_MAX32;
      }
      at := FileTimespec(ticks, max);
    }
  }

  /** C's division: towards zero. */
  function TruncDiv(x: int, d: nat): int
    requires d > 0
  {
    if x >= 0 then x / d else -(-x / d)
  }

  /** `get_milliseconds` without HAVE_STRUCT_TIMESPEC; None is a NULL `abstime`. */
  function FileMilliseconds(t: Option<FileTimespec>, fileTime: int): nat {
    match t
    case None => INFINITE
    case Some(at) =>
      var millis := TruncDiv(I64(at.ticks - fileTime), TICKS_PER_MSEC);
      if millis < 0 then 0
      else
        var capped := if millis > at.maxMsec then at.maxMsec else millis;
        if capped > UINT_MAX then UINT_MAX else U32(capped)
  }

  /**
    What is waited for: the remaining ticks in milliseconds, but no longer than the timeout that was asked
    for, nor than a DWORD can hold; nothing once the deadline has passed. Without a deadline, for ever.
   */
  lemma FileWaitIs(at: FileTimespec, fileTime: int)
    requires at.maxMsec >= 0 && -TWO64 <= 2 * (at.ticks - fileTime) < TWO64
    ensures var left := (at.ticks - fileTime) / 10_000;
            FileMilliseconds(Some(at), fileTime) ==
            if at.ticks < fileTime then 0
            else if left <= at.maxMsec && left <= 0xFFFF_FFFF then left
            else if at.maxMsec <= 0xFFFF_FFFF then at.maxMsec
            else 0xFFFF_FFFF
    ensures FileMilliseconds(None, fileTime) == 0xFFFF_FFFF
  {
    var diff := at.ticks - fileTime;
    if diff >= 0 {
      Small(diff, TWO64);
      if diff / 10_000 <= UINT_MAX { Small(diff / 10_000, TWO32); }
      if at.maxMsec <= UINT_MAX { Small(at.maxMsec, TWO32); }
    } else {
      ModShift(diff + TWO64, -1, TWO64);
      Small(diff + TWO64, TWO64);
    }
  }

  /** A timeout of 1 s, after the clock has gone back by 2 s; and one of a year, where `long` has 32 bits. */
  lemma CappedWaits()
    ensures FileMilliseconds(Some(FileTimespec(1_000_010_000_000, 1000)), 999_980_000_000) == 1000
    ensures FileMilliseconds(Some(FileTimespec(316_360_000_000_000, INT_MAX32)), 1_000_000_000_000) == 2_147_483_647
  {
    FileWaitIs(FileTimespec(1_000_010_000_000, 1000), 999_980_000_000);
    FileWaitIs(FileTimespec(316_360_000_000_000, INT_MAX32), 1_000_000_000_000);
  }

  /**
    However the clock is stepped between setting the deadline and waiting, and whatever overflows: the
    wait is never longer than the original timeout, and a deadline set where `long` has 32 bits never
    becomes a wait for ever.
   */
  lemma FileWaitNeverExceedsTimeout(at: FileTimespec, nsec: nat, fileTime: int)
    requires 0 <= at.maxMsec <= nsec / NS_PER_MSEC
    ensures FileMilliseconds(Some(at), fileTime) <= nsec / NS_PER_MSEC
    ensures at.maxMsec <= INT_MAX32 ==> FileMilliseconds(Some(at), fileTime) < INFINITE
  {
    var millis := TruncDiv(I64(at.ticks - fileTime), TICKS_PER_MSEC);
    if millis >= 0 {
      var capped := if millis > at.maxMsec then at.maxMsec else millis;
      if capped <= UINT_MAX { Small(capped, TWO32); }
    }
  }

  lemma DeadlineMsec(start: nat, nsec: nat)
    ensures (100 * start + nsec) / NS_PER_MSEC == (start + nsec / 100) / TICKS_PER_MSEC
  {
    var deadline := start + nsec / 100;
    var low := 100 * (deadline % TICKS_PER_MSEC) + nsec % 100;
    assert 100 * start + nsec == deadline / TICKS_PER_MSEC * NS_PER_MSEC + low;
    ModUnique(deadline / TICKS_PER_MSEC, NS_PER_MSEC, low);
  }

  lemma FloorOfDifference(x: nat, y: nat)
    requires x >= y
    ensures (x - y) / TICKS_PER_MSEC ==
            x / TICKS_PER_MSEC - y / TICKS_PER_MSEC - (if x % TICKS_PER_MSEC < y % TICKS_PER_MSEC then 1 else 0)
  {
  }

  lemma FileMillisecondsIs(start: nat, nsec: nat, clock: nat, epoch: int, at: FileTimespec)
    requires start <= clock && nsec / NS_PER_MSEC <= INT_MAX32
    requires start + nsec / 100 < TWO64 / 2 && clock < TWO64 / 2
    requires at == FileTimespec(I64(start + epoch + nsec / 100), nsec / NS_PER_MSEC)
    ensures var deadline := start + nsec / 100;
            FileMilliseconds(Some(at), clock + epoch) ==
            if deadline >= clock then (deadline - clock) / TICKS_PER_MSEC else 0
  {
    var diff := start + nsec / 100 - clock;
    SignedSum(start + epoch + nsec / 100, -(clock + epoch), TWO64);
    assert I64(at.ticks - (clock + epoch)) == I64(diff);
    if diff >= 0 {
      Small(diff, TWO64);
      assert diff <= nsec / 100 && diff / TICKS_PER_MSEC <= nsec / NS_PER_MSEC;
      Small(diff / TICKS_PER_MSEC, TWO32);
    } else {
      ModShift(diff + TWO64, -1, TWO64);
      Small(diff + TWO64, TWO64);
      assert I64(diff) == diff;
    }
  }

  /**
    The two builds on one machine: deadline set at `start`, `nsec` ahead, and read at a clock that has
    not gone back. With nothing saturated, the struct timespec build waits as long as the FILETIME
    build, or exactly one millisecond more - namely when the deadline is ahead and has dropped a
    smaller fraction of a millisecond than the clock. `epoch` is what separates the two clocks.
   */
  lemma BuildsDifferByAtMostOne(start: nat, nsec: nat, clock: nat, epoch: int, t: Timespec, at: FileTimespec)
    requires start <= clock && nsec / NS_PER_MSEC <= INT_MAX32
    requires start + nsec / 100 < TWO64 / 2 && clock < TWO64 / 2
    requires Normalized(t) && t.sec >= 0 && Total(t) == 100 * start + nsec
    requires at == FileTimespec(I64(start + epoch + nsec / 100), nsec / NS_PER_MSEC)
    ensures var deadline := start + nsec / 100;
            Milliseconds(t, clock) == FileMilliseconds(Some(at), clock + epoch) +
              (if deadline >= clock && deadline % TICKS_PER_MSEC < clock % TICKS_PER_MSEC then 1 else 0)
  {
    var deadline := start + nsec / 100;
    DeadlineMsec(start, nsec);
    MillisecondsIs(t, clock);
    FileMillisecondsIs(start, nsec, clock, epoch, at);
    var d, c := deadline / TICKS_PER_MSEC, clock / TICKS_PER_MSEC;
    if deadline >= clock {
      FloorOfDifference(deadline, clock);
      Small(d - c, TWO32);
    } else {
      assert d <= c;
    }
  }

  // ---------------------------------------------------------------- comparing and subtracting

  function CmpTimespec(a: Timespec, b: Timespec): int {
    if a.sec > b.sec || (a.sec == b.sec && a.nsec > b.nsec) then 1
    else if a.sec < b.sec || (a.sec == b.sec && a.nsec < b.nsec) then -1
    else 0
  }

  function CmpFileTimespec(a: FileTimespec, b: FileTimespec): (r: int)
    ensures -1 <= r <= 1 && (r > 0 <==> a.ticks > b.ticks) && (r < 0 <==> a.ticks < b.ticks)
  {
    if a.ticks > b.ticks then 1 else if a.ticks < b.ticks then -1 else 0
  }

  /** On normalized timespecs the comparison is the order of the points in time, all three outcomes. */
  lemma CmpIsOrder(a: Timespec, b: Timespec)
    requires Normalized(a) && Normalized(b)
    ensures CmpTimespec(a, b) == 1 <==> Total(a) > Total(b)
    ensures CmpTimespec(a, b) == -1 <==> Total(a) < Total(b)
    ensures CmpTimespec(a, b) == 0 <==> a == b
    ensures CmpTimespec(b, a) == -CmpTimespec(a, b)
  {
  }

  /** `(ts1->tv_sec - ts2->tv_sec) * 1000000000ULL + ts1->tv_nsec - ts2->tv_nsec` with a 64-bit time_t. */
  function DiffTimespec(a: Timespec, b: Timespec): nat {
    U64(U64(U64(U64(I64(a.sec - b.sec)) * BILLION) + a.nsec) - b.nsec)
  }

  /** `(ts1->tv.i64 - ts2->tv.i64) * 100`. */
  function DiffFileTimespec(a: FileTimespec, b: FileTimespec): nat {
    U64(I64(I64(a.ticks - b.ticks) * 100))
  }

  lemma ResidueOfSigned(x: int)
    ensures U64(I64(x)) == U64(x)
  {
    var k := if I64(x) == x % TWO64 then x / TWO64 else x / TWO64 + 1;
    assert I64(x) == x + -k * TWO64;
    ModShift(x, -k, TWO64);
  }

  lemma ResidueOfSum(x: int, y: int)
    ensures U64(U64(x) + y) == U64(x + y)
  {
    ModShift(x + y, -(x / TWO64), TWO64);
    assert x + y + -(x / TWO64) * TWO64 == U64(x) + y;
  }

  lemma ResidueOfProduct(x: int, c: int)
    ensures U64(U64(x) * c) == U64(x * c)
  {
    var k := x / TWO64;
    assert U64(x) * c == x * c + -(k * c) * TWO64 by {
      assert U64(x) == x - k * TWO64;
    }
    ModShift(x * c, -(k * c), TWO64);
  }

  lemma DiffIsResidue(a: Timespec, b: Timespec)
    ensures DiffTimespec(a, b) == U64(Total(a) - Total(b))
  {
    var s := a.sec - b.sec;
    ResidueOfSigned(s);
    ResidueOfProduct(s, BILLION);
    ResidueOfSum(s * BILLION, a.nsec);
    ResidueOfSum(s * BILLION + a.nsec, -b.nsec);
  }

  /** The difference is exact if and only if it is not negative and fits 64 bits. */
  lemma DiffExactIff(a: Timespec, b: Timespec)
    ensures DiffTimespec(a, b) == Total(a) - Total(b) <==> 0 <= Total(a) - Total(b) < TWO64
  {
    DiffIsResidue(a, b);
    if 0 <= Total(a) - Total(b) < TWO64 { Small(Total(a) - Total(b), TWO64); }
  }

  /** One nanosecond the wrong way round is 584 years. */
  lemma ReversedDifference()
    ensures DiffTimespec(Timespec(0, 0), Timespec(0, 1)) == TWO64 - 1
  {
  }

  lemma AddResidues(x: int, y: int)
    ensures U64(U64(x) + U64(y)) == U64(x + y)
  {
    ResidueOfSum(x, U64(y));
    ResidueOfSum(y, x);
  }

  /** Differences add up along chains modulo 2^64, in both builds and whatever wraps. */
  lemma DiffIsAdditive(a: Timespec, b: Timespec, c: Timespec)
    ensures U64(DiffTimespec(a, b) + DiffTimespec(b, c)) == DiffTimespec(a, c)
  {
    DiffIsResidue(a, b);
    DiffIsResidue(b, c);
    DiffIsResidue(a, c);
    AddResidues(Total(a) - Total(b), Total(b) - Total(c));
  }

  lemma FileDiffIsResidue(a: FileTimespec, b: FileTimespec)
    ensures DiffFileTimespec(a, b) == U64((a.ticks - b.ticks) * 100)
  {
    var d := a.ticks - b.ticks;
    ResidueOfSigned(I64(d) * 100);
    ResidueOfProduct(I64(d), 100);
    ResidueOfSigned(d);
    ResidueOfProduct(d, 100);
  }

  lemma FileDiffIsAdditive(a: FileTimespec, b: FileTimespec, c: FileTimespec)
    ensures U64(DiffFileTimespec(a, b) + DiffFileTimespec(b, c)) == DiffFileTimespec(a, c)
    ensures DiffFileTimespec(a, b) == (a.ticks - b.ticks) * 100 <==> 0 <= (a.ticks - b.ticks) * 100 < TWO64
  {
    FileDiffIsResidue(a, b);
    FileDiffIsResidue(b, c);
    FileDiffIsResidue(a, c);
    AddResidues((a.ticks - b.ticks) * 100, (b.ticks - c.ticks) * 100);
    if 0 <= (a.ticks - b.ticks) * 100 < TWO64 { Small((a.ticks - b.ticks) * 100, TWO64); }
  }
}
