/**
  big_endian.h and little_endian.h. Floats and doubles are opaque bit patterns; a C object of a given
  pattern has a memory image that depends on the host. `float4store` and `float8store` must write the
  same bytes on every host, the short and long pairs the host's own image.
 */
module HostOrder {
  import opened Bytes
  import opened ByteOrder
  import opened ByteStore

  datatype Host = Little | Big

  /** The bytes, in address order, of an object with bit pattern `v` of `n` bytes. */
  function Image(h: Host, v: nat, n: nat): (bs: seq<byte>)
    ensures |bs| == n
  {
    if h.Little? then Digits(v, n) else Reverse(Digits(v, n))
  }

  /** The bit pattern of an object whose bytes are `bs`. */
  function Pattern(h: Host, bs: seq<byte>): nat {
    if h.Little? then Value(bs) else Value(Reverse(bs))
  }

  lemma ReverseTwice(bs: seq<byte>)
    ensures Reverse(Reverse(bs)) == bs
  {
  }

  lemma PatternOfImage(h: Host, v: nat, n: nat)
    ensures Pattern(h, Image(h, v, n)) == v % Pow256(n)
  {
    ReverseTwice(Digits(v, n));
    ValueOfDigits(v, n);
  }

  // ---------------------------------------------------------------- floats, host independent

  method BigFloat4store(t: array<byte>, at: nat, bits: nat)
    requires at + 4 <= t.Length && bits < TWO32
    modifies t
    ensures t[..] == Patched(old(t[..]), at, Digits(bits, 4))
  {
    ghost var before := t[..];
    var a := Image(Big, bits, 4);
    t[at] := a[3];
    t[at + 1] := a[2];
    t[at + 2] := a[1];
    t[at + 3] := a[0];
    IsPatched(before, t[..], at, Digits(bits, 4));
  }

  method BigFloat4get(m: array<byte>, at: nat) returns (bits: nat)
    requires at + 4 <= m.Length
    ensures bits == Value(m[at..at + 4])
  {
    var temp := new byte[4];
    temp[0] := m[at + 3];
    temp[1] := m[at + 2];
    temp[2] := m[at + 1];
    temp[3] := m[at];
    bits := Pattern(Big, temp[..]);
    assert Reverse(temp[..]) == m[at..at + 4];
  }

  method BigFloat8store(t: array<byte>, at: nat, bits: nat)
    requires at + 8 <= t.Length && bits < TWO64
    modifies t
    ensures t[..] == Patched(old(t[..]), at, Digits(bits, 8))
  {
    ghost var before := t[..];
    var v := Image(Big, bits, 8);
    t[at] := v[7];
    t[at + 1] := v[6];
    t[at + 2] := v[5];
    t[at + 3] := v[4];
    t[at + 4] := v[3];
    t[at + 5] := v[2];
    t[at + 6] := v[1];
    t[at + 7] := v[0];
    IsPatched(before, t[..], at, Digits(bits, 8));
  }

  method BigFloat8get(m: array<byte>, at: nat) returns (bits: nat)
    requires at + 8 <= m.Length
    ensures bits == Value(m[at..at + 8])
  {
    var temp := new byte[8];
    temp[0] := m[at + 7];
    temp[1] := m[at + 6];
    temp[2] := m[at + 5];
    temp[3] := m[at + 4];
    temp[4] := m[at + 3];
    temp[5] := m[at + 2];
    temp[6] := m[at + 1];
    temp[7] := m[at];
    bits := Pattern(Big, temp[..]);
    assert Reverse(temp[..]) == m[at..at + 8];
  }

  /** `memcpy` of an object into memory and of memory into an object; `n` is its size. */
  method CopyOut(h: Host, t: array<byte>, at: nat, bits: nat, n: nat)
    requires at + n <= t.Length && bits < Pow256(n)
    modifies t
    ensures t[..] == Patched(old(t[..]), at, Image(h, bits, n))
  {
    ghost var before := t[..];
    var image := Image(h, bits, n);
    forall i | 0 <= i < n { t[at + i] := image[i]; }
    IsPatched(before, t[..], at, image);
  }

  method CopyIn(h: Host, m: array<byte>, at: nat, n: nat) returns (bits: nat)
    requires at + n <= m.Length
    ensures bits == Pattern(h, m[at..at + n])
  {
    bits := Pattern(h, m[at..at + n]);
  }

  method LittleFloat4store(t: array<byte>, at: nat, bits: nat)
    requires at + 4 <= t.Length && bits < TWO32
    modifies t
    ensures t[..] == Patched(old(t[..]), at, Digits(bits, 4))
  {
    Powers();
    CopyOut(Little, t, at, bits, 4);
  }

  method LittleFloat4get(m: array<byte>, at: nat) returns (bits: nat)
    requires at + 4 <= m.Length
    ensures bits == Value(m[at..at + 4])
  {
    bits := CopyIn(Little, m, at, 4);
  }

  method LittleFloat8store(t: array<byte>, at: nat, bits: nat)
    requires at + 8 <= t.Length && bits < TWO64
    modifies t
    ensures t[..] == Patched(old(t[..]), at, Digits(bits, 8))
  {
    Powers();
    CopyOut(Little, t, at, bits, 8);
  }

  method LittleFloat8get(m: array<byte>, at: nat) returns (bits: nat)
    requires at + 8 <= m.Length
    ensures bits == Value(m[at..at + 8])
  {
    bits := CopyIn(Little, m, at, 8);
  }

  method StoreFloat(h: Host, t: array<byte>, at: nat, bits: nat, double: bool)
    requires at + (if double then 8 else 4) <= t.Length && bits < if double then TWO64 else TWO32
    modifies t
    ensures t[..] == Patched(old(t[..]), at, Digits(bits, if double then 8 else 4))
  {
    if h.Little? {
      if double { LittleFloat8store(t, at, bits); } else { LittleFloat4store(t, at, bits); }
    } else {
      if double { BigFloat8store(t, at, bits); } else { BigFloat4store(t, at, bits); }
    }
  }

  /**
    A float or double stored on any host loads with the same bit pattern on any host: here a store
    compiled for `writer` is followed by a load compiled for `reader` over the same memory.
   */
  method FloatCrossesHosts(writer: Host, reader: Host, t: array<byte>, at: nat, bits: nat, double: bool) returns (loaded: nat)
    requires at + (if double then 8 else 4) <= t.Length && bits < if double then TWO64 else TWO32
    modifies t
    ensures loaded == bits
  {
    var n := if double then 8 else 4;
    StoreFloat(writer, t, at, bits, double);
    Powers();
    ValueOfDigits(bits, n);
    Small(bits, Pow256(n));
    assert t[at..at + n] == Digits(bits, n) by { assert t[at..at + n] == t[..][at..at + n]; }
    if reader.Little? {
      if double { loaded := LittleFloat8get(t, at); } else { loaded := LittleFloat4get(t, at); }
    } else {
      if double { loaded := BigFloat8get(t, at); } else { loaded := BigFloat4get(t, at); }
    }
  }

  // ---------------------------------------------------------------- bi-endian doubles

  method BiEndianDoublestore(t: array<byte>, at: nat, bits: nat)
    requires at + 8 <= t.Length && bits < TWO64
    modifies t
    ensures t[..] == Patched(old(t[..]), at, Digits(bits, 8)[4..] + Digits(bits, 8)[..4])
  {
    ghost var before := t[..];
    var v := Image(Little, bits, 8);
    t[at] := v[4];
    t[at + 1] := v[5];
    t[at + 2] := v[6];
    t[at + 3] := v[7];
    t[at + 4] := v[0];
    t[at + 5] := v[1];
    t[at + 6] := v[2];
    t[at + 7] := v[3];
    IsPatched(before, t[..], at, Digits(bits, 8)[4..] + Digits(bits, 8)[..4]);
  }

  method BiEndianDoubleget(m: array<byte>, at: nat) returns (bits: nat)
    requires at + 8 <= m.Length
    ensures bits == Value(m[at + 4..at + 8] + m[at..at + 4])
  {
    var temp := new byte[8];
    temp[0] := m[at + 4];
    temp[1] := m[at + 5];
    temp[2] := m[at + 6];
    temp[3] := m[at + 7];
    temp[4] := m[at];
    temp[5] := m[at + 1];
    temp[6] := m[at + 2];
    temp[7] := m[at + 3];
    bits := Pattern(Little, temp[..]);
    assert temp[..] == m[at + 4..at + 8] + m[at..at + 4];
  }

  /** The half-swapping pair gives every double back, and a stored double is its pattern with the words exchanged. */
  lemma HalvesSwapBack(m: seq<byte>, at: nat, bits: nat)
    requires at + 8 <= |m| && bits < TWO64
    ensures var r := Patched(m, at, Digits(bits, 8)[4..] + Digits(bits, 8)[..4]);
            Value(r[at + 4..at + 8] + r[at..at + 4]) == bits &&
            Value(r[at..at + 8]) == bits / TWO32 + TWO32 * (bits % TWO32)
  {
    Powers();
    var d := Digits(bits, 8);
    var r := Patched(m, at, d[4..] + d[..4]);
    var w := r[at..at + 8];
    assert w == d[4..] + d[..4];
    assert r[at + 4..at + 8] == w[4..] == d[..4] && r[at..at + 4] == w[..4] == d[4..];
    assert r[at + 4..at + 8] + r[at..at + 4] == d;
    ValueOfDigits(bits, 8);
    Small(bits, TWO64);
    DigitsSplit(bits, 4, 4);
    assert d[..4] == Digits(bits, 4) && d[4..] == Digits(bits / TWO32, 4);
    ValueOfDigits(bits, 4);
    ValueOfDigits(bits / TWO32, 4);
    ValueOfMore(w, 0, 8);
    assert w[0..8] == w && w[0..4] == d[4..] && w[4..8] == d[..4];
    Small(bits / TWO32, TWO32);
  }

  // ---------------------------------------------------------------- shorts and longs, host order

  lemma BigTwo(m: seq<byte>, at: nat)
    requires at + 2 <= |m|
    ensures Pattern(Big, m[at..at + 2]) == m[at + 1] + m[at] * TWO8
    ensures U16(m[at]) == m[at] && U16(m[at + 1]) == m[at + 1] && I16(m[at]) == m[at] && I16(m[at + 1]) == m[at + 1]
    ensures U16(m[at + 1] + m[at] * TWO8) == m[at + 1] + m[at] * TWO8
  {
    var r := Reverse(m[at..at + 2]);
    assert r == [m[at + 1], m[at]];
    ValueOfTwo(r, 0);
    assert r[0..2] == r;
    Small(m[at], TWO16);
    Small(m[at + 1], TWO16);
    Small(m[at + 1] + m[at] * TWO8, TWO16);
  }

  method BigUshortget(m: array<byte>, at: nat) returns (v: nat)
    requires at + 2 <= m.Length
    ensures v == Pattern(Big, m[at..at + 2])
  {
    v := U16(U16(m[at + 1]) + U16(U16(m[at])) * TWO8);
    BigTwo(m[..], at);
  }

  method BigShortget(m: array<byte>, at: nat) returns (v: int)
    requires at + 2 <= m.Length
    ensures v == I16(Pattern(Big, m[at..at + 2]))
  {
    v := I16(I16(m[at + 1]) + I16(I16(m[at])) * TWO8);
    BigTwo(m[..], at);
  }

  method BigUlongget(m: array<byte>, at: nat) returns (v: nat)
    requires at + 4 <= m.Length
    ensures v == Pattern(Big, m[at..at + 4])
  {
    var temp := new byte[4];
    temp[0] := m[at];
    temp[1] := m[at + 1];
    temp[2] := m[at + 2];
    temp[3] := m[at + 3];
    v := Pattern(Big, temp[..]);
    assert temp[..] == m[at..at + 4];
  }

  method BigLongget(m: array<byte>, at: nat) returns (v: int)
    requires at + 4 <= m.Length
    ensures v == I32(Pattern(Big, m[at..at + 4]))
  {
    var pattern := BigUlongget(m, at);
    v := I32(pattern);
  }

  lemma SameLowDigits(v: int)
    ensures Digits(U32(v), 2) == Digits(U16(v), 2)
  {
    Powers();
    DigitsOfResidue(U32(v), 2);
    var k := v / TWO32;
    assert U32(v) == v + (-k * TWO16) * TWO16;
    ModShift(v, -k * TWO16, TWO16);
    assert U32(v) % TWO16 == U16(v);
  }

  method BigShortstore(t: array<byte>, at: nat, v: int)
    requires at + 2 <= t.Length && -TWO16 <= 2 * v < TWO16
    modifies t
    ensures t[..] == Patched(old(t[..]), at, Image(Big, U16(v), 2))
  {
    ghost var before := t[..];
    var temp := U32(v);
    t[at + 1] := U8(temp);
    t[at] := U8(temp / TWO8);
    Powers(); DigitsHere(U16(v), 2); DigitsHere(temp, 2);
    SameLowDigits(v);
    IsPatched(before, t[..], at, Image(Big, U16(v), 2));
  }

  /** An arithmetic right shift of a negative number shows the digits of its two's complement. */
  lemma ArithmeticShift(v: int)
    ensures U8(v) == U32(v) % TWO8 && U8(v / TWO8) == (U32(v) / TWO8) % TWO8
    ensures U8(v / TWO16) == (U32(v) / TWO16) % TWO8 && U8(v / TWO24) == (U32(v) / TWO24) % TWO8
  {
    var k := v / TWO32;
    var u := U32(v);
    assert v == u + k * TWO32;
    ModShift(u, k * TWO24, TWO8);
    assert v / TWO8 == u / TWO8 + k * TWO24;
    ModShift(u / TWO8, k * TWO16, TWO8);
    assert v / TWO16 == u / TWO16 + k * TWO16;
    ModShift(u / TWO16, k * TWO8, TWO8);
    assert v / TWO24 == u / TWO24 + k * TWO8;
    ModShift(u / TWO24, k, TWO8);
  }

  method BigLongstore(t: array<byte>, at: nat, v: int)
    requires at + 4 <= t.Length && -TWO32 <= 2 * v < TWO32
    modifies t
    ensures t[..] == Patched(old(t[..]), at, Image(Big, U32(v), 4))
  {
    ghost var before := t[..];
    t[at + 3] := U8(v);
    t[at + 2] := U8(v / TWO8);
    t[at + 1] := U8(v / TWO16);
    t[at] := U8(v / TWO24);
    Powers(); DigitsHere(U32(v), 4);
    ArithmeticShift(v);
    IsPatched(before, t[..], at, Image(Big, U32(v), 4));
  }

  method LittleShortstore(t: array<byte>, at: nat, v: int)
    requires at + 2 <= t.Length && -TWO16 <= 2 * v < TWO16
    modifies t
    ensures t[..] == Patched(old(t[..]), at, Image(Little, U16(v), 2))
  {
    Int2store(t, at, U16(v));
  }

  method LittleLongstore(t: array<byte>, at: nat, v: int)
    requires at + 4 <= t.Length && -TWO32 <= 2 * v < TWO32
    modifies t
    ensures t[..] == Patched(old(t[..]), at, Image(Little, U32(v), 4))
  {
    Int4store(t, at, U32(v));
  }

  method LittleShortget(m: array<byte>, at: nat) returns (v: int)
    requires at + 2 <= m.Length
    ensures v == I16(Pattern(Little, m[at..at + 2]))
  {
    v := Sint2korr(m[..], at);
    Powers();
    TwoIsExact(m[..], at);
    assert m[..][at..at + 2] == m[at..at + 2];
  }

  method LittleUshortget(m: array<byte>, at: nat) returns (v: nat)
    requires at + 2 <= m.Length
    ensures v == Pattern(Little, m[at..at + 2])
  {
    v := Uint2korr(m[..], at);
    TwoIsExact(m[..], at);
    assert m[..][at..at + 2] == m[at..at + 2];
  }

  method LittleUlongget(m: array<byte>, at: nat) returns (v: nat)
    requires at + 4 <= m.Length
    ensures v == Pattern(Little, m[at..at + 4])
  {
    v := Uint4korr(m[..], at);
    UnsignedFour(m[..], at);
    assert m[..][at..at + 4] == m[at..at + 4];
  }

  method LittleLongget(m: array<byte>, at: nat) returns (v: int)
    requires at + 4 <= m.Length
    ensures v == I32(Pattern(Little, m[at..at + 4]))
  {
    v := Sint4korr(m[..], at);
    Powers();
    SignedFour(m[..], at);
    assert m[..][at..at + 4] == m[at..at + 4];
  }

  /** The host-order pairs give every number back on either host; the unsigned getters see its residue. */
  lemma HostOrderRoundTrip(h: Host, m: seq<byte>, at: nat, v: int)
    ensures at + 2 <= |m| && -TWO16 <= 2 * v < TWO16 ==>
              var bs := Patched(m, at, Image(h, U16(v), 2))[at..at + 2];
              I16(Pattern(h, bs)) == v && Pattern(h, bs) == U16(v)
    ensures at + 4 <= |m| && -TWO32 <= 2 * v < TWO32 ==>
              var bs := Patched(m, at, Image(h, U32(v), 4))[at..at + 4];
              I32(Pattern(h, bs)) == v && Pattern(h, bs) == U32(v)
  {
    Powers();
    PatternOfImage(h, U16(v), 2);
    PatternOfImage(h, U32(v), 4);
    Small(U16(v), TWO16);
    Small(U32(v), TWO32);
    if -TWO16 <= 2 * v < TWO16 { InRange(v, TWO16, TWO16); }
    if -TWO32 <= 2 * v < TWO32 { InRange(v, TWO32, TWO32); }
  }
}
