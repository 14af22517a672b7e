/** Bytes, base-256 digits, and the fixed-width C arithmetic the byte-order code is written in. */
module Bytes {
  type byte = x: int | 0 <= x < 256

  const TWO8: int := 0x100
  const TWO16: int := 0x1_0000
  const TWO24: int := 0x100_0000
  const TWO32: int := 0x1_0000_0000
  const TWO40: int := 0x100_0000_0000
  const TWO48: int := 0x1_0000_0000_0000
  const TWO64: int := 0x1_0000_0000_0000_0000

  /** `v >> ...`: the quotient by a power of two. */
  function Quot(v: nat, p: nat): nat
    requires p > 0
  {
    v / p
  }

  function Pow256(n: nat): (p: nat)
    ensures p > 0
  {
    if n == 0 then 1 else 256 * Pow256(n - 1)
  }

  /** The number whose base-256 digits are `bs`, lowest first. */
  function Value(bs: seq<byte>): nat {
    if bs == [] then 0 else bs[0] + 256 * Value(bs[1..])
  }

  /** The `n` lowest base-256 digits of `v`, lowest first. */
  function Digits(v: nat, n: nat): (bs: seq<byte>)
    ensures |bs| == n
  {
    if n == 0 then [] else [v % 256] + Digits(v / 256, n - 1)
  }

  function Reverse(bs: seq<byte>): (r: seq<byte>)
    ensures |r| == |bs| && forall i :: 0 <= i < |bs| ==> r[i] == bs[|bs| - 1 - i]
  {
    if bs == [] then [] else Reverse(bs[1..]) + [bs[0]]
  }

  /** Two's complement: the signed number with the same residue as `v` modulo `m`. */
  function Signed(v: int, m: nat): (s: int)
    requires m > 0
  {
    if v % m < m - v % m then v % m else v % m - m
  }

  lemma Powers()
    ensures Pow256(0) == 1 && Pow256(1) == TWO8 && Pow256(2) == TWO16 && Pow256(3) == TWO24
    ensures Pow256(4) == TWO32 && Pow256(5) == TWO40 && Pow256(6) == TWO48 && Pow256(8) == TWO64
  {
  }

  lemma MulGe(a: int, m: nat)
    requires a >= 1
    ensures a * m >= m
  {
  }

  lemma ModUnique(q: int, m: nat, r: nat)
    requires r < m
    ensures (q * m + r) % m == r && (q * m + r) / m == q
  {
    var x := q * m + r;
    var d := x / m;
    assert x == d * m + x % m;
    assert (q - d) * m == x % m - r;
    if q > d { MulGe(q - d, m); } else if q < d { MulGe(d - q, m); }
  }

  lemma Small(x: nat, m: nat)
    requires x < m
    ensures x % m == x
  {
    ModUnique(0, m, x);
  }

  lemma ModShift(x: int, k: int, m: nat)
    requires m > 0
    ensures (x + k * m) % m == x % m
  {
    assert x + k * m == (x / m + k) * m + x % m;
    ModUnique(x / m + k, m, x % m);
  }

  /** The two's complement number differs from the original by a multiple of the modulus. */
  lemma SignedShift(x: int, m: nat) returns (k: int)
    requires m > 0
    ensures Signed(x, m) == x + k * m
  {
    var q := x / m;
    assert x == q * m + x % m;
    if Signed(x, m) == x % m {
      k := -q;
    } else {
      k := -q - 1;
      assert (-q - 1) * m == -q * m - m;
    }
    assert -q * m == -(q * m);
  }

  /** Reducing to two's complement before an addition changes nothing after it. */
  lemma SignedSum(x: int, y: int, m: nat)
    requires m > 0
    ensures Signed(Signed(x, m) + y, m) == Signed(x + y, m)
  {
    var k := SignedShift(x, m);
    ModShift(x + y, k, m);
  }

  lemma SignedSumRight(x: int, y: int, m: nat)
    requires m > 0
    ensures Signed(x + Signed(y, m), m) == Signed(x + y, m)
  {
    SignedSum(y, x, m);
  }

  lemma SplitMod(v: nat, p: nat)
    requires p > 0
    ensures v % (256 * p) == v % 256 + 256 * ((v / 256) % p)
    ensures v / (256 * p) == (v / 256) / p
  {
    var q, r := v / 256, v % 256;
    var low := 256 * (q % p) + r;
    assert q == (q / p) * p + q % p;
    assert v == (q / p) * (256 * p) + low;
    assert q % p <= p - 1;
    ModUnique(q / p, 256 * p, low);
  }

  lemma {:induction false} ValueBound(bs: seq<byte>)
    ensures Value(bs) < Pow256(|bs|)
  {
    if bs == [] {
    } else {
      ValueBound(bs[1..]);
    }
  }

  /** Load after store: the value modulo 256^width. */
  lemma {:induction false} ValueOfDigits(v: nat, n: nat)
    ensures Value(Digits(v, n)) == v % Pow256(n)
  {
    if n == 0 {
    } else {
      assert Digits(v, n)[1..] == Digits(v / 256, n - 1);
      ValueOfDigits(v / 256, n - 1);
      SplitMod(v, Pow256(n - 1));
    }
  }

  /** Store after load: the bytes themselves. */
  lemma {:induction false} DigitsOfValue(bs: seq<byte>)
    ensures Digits(Value(bs), |bs|) == bs
  {
    if bs == [] {
    } else {
      var rest := Value(bs[1..]);
      assert Value(bs) % 256 == bs[0] && Value(bs) / 256 == rest;
      DigitsOfValue(bs[1..]);
      assert bs == [bs[0]] + bs[1..];
    }
  }

  /** Byte strings of one length with one value are one byte string. */
  lemma ValueIsInjective(a: seq<byte>, b: seq<byte>)
    requires |a| == |b| && Value(a) == Value(b)
    ensures a == b
  {
  }

  lemma {:induction false} DigitAt(v: nat, n: nat, k: nat)
    requires k < n
    ensures Digits(v, n)[k] == (v / Pow256(k)) % 256
  {
    if k == 0 {
    } else {
      DigitAt(v / 256, n - 1, k - 1);
      SplitMod(v, Pow256(k - 1));
    }
  }

  /** Storing the low and the high part one after the other stores the whole. */
  lemma {:induction false} DigitsSplit(v: nat, m: nat, n: nat)
    ensures Digits(v, m + n) == Digits(v, m) + Digits(Quot(v, Pow256(m)), n)
  {
    if m == 0 {
    } else {
      DigitsSplit(v / 256, m - 1, n);
      SplitMod(v, Pow256(m - 1));
    }
  }

  /** Digits do not see what lies above them. */
  lemma {:induction false} DigitsOfResidue(v: nat, n: nat)
    ensures Digits(v % Pow256(n), n) == Digits(v, n)
  {
    ValueOfDigits(v, n);
    DigitsOfValue(Digits(v, n));
  }

  // ---------------------------------------------------------------- C arithmetic

  /** Conversion to `uint16`, `uint32`, `ulonglong`, `uchar`: reduction modulo 2^width. */
  function U8(x: int): byte { x % TWO8 }
  function U16(x: int): nat { x % TWO16 }
  function U32(x: int): nat { x % TWO32 }
  function U64(x: int): nat { x % TWO64 }

  /** Conversion to `int16`, `int32`, `longlong`: two's complement. */
  function I16(x: int): int { Signed(x, TWO16) }
  function I32(x: int): int { Signed(x, TWO32) }
  function I64(x: int): int { Signed(x, TWO64) }

  function Pow2(k: nat): (p: nat)
    ensures p > 0
  {
    if k == 0 then 1 else 2 * Pow2(k - 1)
  }

  /** Bitwise `|` and `&` on unsigned numbers. */
  function BitOr(x: nat, y: nat): nat
    decreases x + y
  {
    if x == 0 then y else if y == 0 then x
    else (if x % 2 == 1 || y % 2 == 1 then 1 else 0) + 2 * BitOr(x / 2, y / 2)
  }

  function BitAnd(x: nat, y: nat): nat
    decreases x + y
  {
    if x == 0 || y == 0 then 0
    else (if x % 2 == 1 && y % 2 == 1 then 1 else 0) + 2 * BitAnd(x / 2, y / 2)
  }

  /** Joining disjoint bit fields with `|` is adding them. */
  lemma {:induction false} OrIsAdd(high: nat, low: nat, k: nat)
    requires low < Pow2(k)
    ensures BitOr(high * Pow2(k), low) == high * Pow2(k) + low
  {
    if k == 0 || high == 0 || low == 0 {
    } else {
      var x := high * Pow2(k);
      assert x == 2 * (high * Pow2(k - 1));
      assert x / 2 == high * Pow2(k - 1) && x % 2 == 0;
      OrIsAdd(high, low / 2, k - 1);
    }
  }

  lemma HalfDiv(x: nat, p: nat)
    requires p > 0
    ensures x / (2 * p) == (x / 2) / p
  {
    var q := x / 2;
    var low := 2 * (q % p) + x % 2;
    assert q == (q / p) * p + q % p && q % p <= p - 1;
    assert x == (q / p) * (2 * p) + low;
    ModUnique(q / p, 2 * p, low);
  }

  /** Masking with one bit tests that bit. */
  lemma {:induction false} AndTestsBit(x: nat, k: nat)
    ensures BitAnd(x, Pow2(k)) == if Quot(x, Pow2(k)) % 2 == 1 then Pow2(k) else 0
  {
    if x == 0 {
      assert Quot(0, Pow2(k)) == 0;
    } else if k == 0 {
    } else {
      var p := Pow2(k - 1);
      AndTestsBit(x / 2, k - 1);
      HalfDiv(x, p);
      assert Pow2(k) / 2 == p && Pow2(k) % 2 == 0;
    }
  }
}
