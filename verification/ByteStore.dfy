/**
  The stores of byte_order_generic.h, byte_order_generic_x86.h and my_byteorder.h, which write through
  a pointer, and what storing and loading make of each other.
 */
module ByteStore {
  import opened Bytes
  import opened ByteOrder

  /** Memory `m` with `bs` written at `a` and nothing else touched. */
  function Patched(m: seq<byte>, a: nat, bs: seq<byte>): (r: seq<byte>)
    requires a + |bs| <= |m|
    ensures |r| == |m| && r[a..a + |bs|] == bs
    ensures forall i :: 0 <= i < a || a + |bs| <= i < |m| ==> r[i] == m[i]
  {
    m[..a] + bs + m[a + |bs|..]
  }

  lemma IsPatched(m: seq<byte>, r: seq<byte>, a: nat, bs: seq<byte>)
    requires a + |bs| <= |m| == |r|
    requires forall i :: 0 <= i < |bs| ==> r[a + i] == bs[i]
    requires forall i :: 0 <= i < a || a + |bs| <= i < |m| ==> r[i] == m[i]
    ensures r == Patched(m, a, bs)
  {
  }

  lemma DigitsHere(v: nat, n: nat)
    ensures forall k :: 0 <= k < n ==> Digits(v, n)[k] == Quot(v, Pow256(k)) % 256
  {
    forall k | 0 <= k < n ensures Digits(v, n)[k] == Quot(v, Pow256(k)) % 256 { DigitAt(v, n, k); }
  }

  // ---------------------------------------------------------------- portable stores

  method Int2store(t: array<byte>, at: nat, v: nat)
    requires at + 2 <= t.Length && v < TWO16
    modifies t
    ensures t[..] == Patched(old(t[..]), at, Digits(v, 2))
  {
    ghost var before := t[..];
    var temp := U32(v);
    t[at] := U8(temp);
    t[at + 1] := U8(temp / TWO8);
    Powers(); DigitsHere(v, 2); Small(v, TWO32);
    IsPatched(before, t[..], at, Digits(v, 2));
  }

  method Int3store(t: array<byte>, at: nat, v: nat)
    requires at + 3 <= t.Length && v < TWO32
    modifies t
    ensures t[..] == Patched(old(t[..]), at, Digits(v, 3))
  {
    ghost var before := t[..];
    t[at] := U8(v);
    t[at + 1] := U8(v / TWO8);
    t[at + 2] := U8(v / TWO16);
    Powers(); DigitsHere(v, 3);
    IsPatched(before, t[..], at, Digits(v, 3));
  }

  method Int4store(t: array<byte>, at: nat, v: nat)
    requires at + 4 <= t.Length && v < TWO32
    modifies t
    ensures t[..] == Patched(old(t[..]), at, Digits(v, 4))
  {
    ghost var before := t[..];
    t[at] := U8(v);
    t[at + 1] := U8(v / TWO8);
    t[at + 2] := U8(v / TWO16);
    t[at + 3] := U8(v / TWO24);
    Powers(); DigitsHere(v, 4);
    IsPatched(before, t[..], at, Digits(v, 4));
  }

  method Int5store(t: array<byte>, at: nat, v: nat)
    requires at + 5 <= t.Length && v < TWO64
    modifies t
    ensures t[..] == Patched(old(t[..]), at, Digits(v, 5))
  {
    ghost var before := t[..];
    t[at] := U8(v);
    t[at + 1] := U8(v / TWO8);
    t[at + 2] := U8(v / TWO16);
    t[at + 3] := U8(v / TWO24);
    t[at + 4] := U8(v / TWO32);
    Powers(); DigitsHere(v, 5);
    IsPatched(before, t[..], at, Digits(v, 5));
  }

  method Int6store(t: array<byte>, at: nat, v: nat)
    requires at + 6 <= t.Length && v < TWO64
    modifies t
    ensures t[..] == Patched(old(t[..]), at, Digits(v, 6))
  {
    ghost var before := t[..];
    t[at] := U8(v);
    t[at + 1] := U8(v / TWO8);
    t[at + 2] := U8(v / TWO16);
    t[at + 3] := U8(v / TWO24);
    t[at + 4] := U8(v / TWO32);
    t[at + 5] := U8(v / TWO40);
    Powers(); DigitsHere(v, 6);
    IsPatched(before, t[..], at, Digits(v, 6));
  }

  lemma EightInTwoFours(v: nat)
    ensures Digits(v, 8) == Digits(U32(v), 4) + Digits(U32(v / TWO32), 4)
  {
    Powers();
    DigitsSplit(v, 4, 4);
    DigitsOfResidue(v, 4);
    DigitsOfResidue(v / TWO32, 4);
  }

  lemma PatchTwice(m: seq<byte>, a: nat, low: seq<byte>, high: seq<byte>)
    requires a + |low| + |high| <= |m|
    ensures Patched(Patched(m, a, low), a + |low|, high) == Patched(m, a, low + high)
  {
  }

  method Int8store(t: array<byte>, at: nat, v: nat)
    requires at + 8 <= t.Length && v < TWO64
    modifies t
    ensures t[..] == Patched(old(t[..]), at, Digits(v, 8))
  {
    ghost var before := t[..];
    var low, high := U32(v), U32(v / TWO32);
    Int4store(t, at, low);
    Int4store(t, at + 4, high);
    EightInTwoFours(v);
    PatchTwice(before, at, Digits(low, 4), Digits(high, 4));
  }

  // ---------------------------------------------------------------- x86 stores

  /** `*((T*) at)= v` for an unsigned T of `n` bytes on a little-endian host. */
  method NativeStore(t: array<byte>, at: nat, v: nat, n: nat)
    requires at + n <= t.Length && v < Pow256(n)
    modifies t
    ensures t[..] == Patched(old(t[..]), at, Digits(v, n))
  {
    ghost var before := t[..];
    var image := Digits(v, n);
    forall i | 0 <= i < n { t[at + i] := image[i]; }
    IsPatched(before, t[..], at, image);
  }

  /** `int2store`, `int4store` and `int8store`, which also have a native form. */
  method PortableStore(t: array<byte>, at: nat, v: nat, n: nat)
    requires n in {2, 4, 8} && at + n <= t.Length && v < Pow256(n)
    modifies t
    ensures t[..] == Patched(old(t[..]), at, Digits(v, n))
  {
    Powers();
    if n == 2 { Int2store(t, at, v); } else if n == 4 { Int4store(t, at, v); } else { Int8store(t, at, v); }
  }

  lemma StoredValue(m: seq<byte>, a: nat, v: nat, n: nat)
    requires a + n <= |m|
    ensures var r := Patched(m, a, Digits(v, n));
            NativeLoad(r, a, n) == v % Pow256(n)
    ensures var r := Patched(m, a, Digits(v, n));
            match n
            case 2 => Uint2korr(r, a) == NativeLoad(r, a, 2) && Sint2korr(r, a) == NativeLoadSigned(r, a, 2)
            case 3 => Uint3korr(r, a) == NativeLoad(r, a, 3) && Sint3korr(r, a) == NativeLoadSigned(r, a, 3)
            case 4 => Uint4korr(r, a) == NativeLoad(r, a, 4) && Sint4korr(r, a) == NativeLoadSigned(r, a, 4)
            case 5 => Uint5korr(r, a) == NativeLoad(r, a, 5)
            case 6 => Uint6korr(r, a) == NativeLoad(r, a, 6)
            case 8 => Uint8korr(r, a) == NativeLoad(r, a, 8) && Sint8korr(r, a) == NativeLoadSigned(r, a, 8)
            case _ => true
  {
    ValueOfDigits(v, n);
    PortableLoadsAreNativeLoads(Patched(m, a, Digits(v, n)), a);
  }

  /** On equal memories the portable and the native store leave equal memories, and either load gives the value back. */
  method StoresAgree(t: array<byte>, u: array<byte>, at: nat, v: nat, n: nat) returns (portable: nat, native: nat)
    requires n in {2, 4, 8} && at + n <= t.Length && v < Pow256(n)
    requires t != u && t[..] == u[..]
    modifies t, u
    ensures t[..] == u[..] == Patched(old(t[..]), at, Digits(v, n))
    ensures portable == native == v
  {
    PortableStore(t, at, v, n);
    NativeStore(u, at, v, n);
    Powers();
    StoredValue(old(t[..]), at, v, n);
    Small(v, Pow256(n));
    native := NativeLoad(t[..], at, n);
    portable := if n == 2 then Uint2korr(u[..], at) else if n == 4 then Uint4korr(u[..], at) else Uint8korr(u[..], at);
  }

  // ---------------------------------------------------------------- round trips

  /** Load after store, unsigned: the value modulo 256^width, at every width and offset. */
  lemma UnsignedRoundTrip(m: seq<byte>, a: nat, v: nat)
    ensures a + 2 <= |m| ==> Uint2korr(Patched(m, a, Digits(v, 2)), a) == v % TWO16
    ensures a + 3 <= |m| ==> Uint3korr(Patched(m, a, Digits(v, 3)), a) == v % TWO24
    ensures a + 4 <= |m| ==> Uint4korr(Patched(m, a, Digits(v, 4)), a) == v % TWO32
    ensures a + 5 <= |m| ==> Uint5korr(Patched(m, a, Digits(v, 5)), a) == v % TWO40
    ensures a + 6 <= |m| ==> Uint6korr(Patched(m, a, Digits(v, 6)), a) == v % TWO48
    ensures a + 8 <= |m| ==> Uint8korr(Patched(m, a, Digits(v, 8)), a) == v % TWO64
  {
    Powers();
    if a + 2 <= |m| { StoredValue(m, a, v, 2); }
    if a + 3 <= |m| { StoredValue(m, a, v, 3); }
    if a + 4 <= |m| { StoredValue(m, a, v, 4); }
    if a + 5 <= |m| { StoredValue(m, a, v, 5); }
    if a + 6 <= |m| { StoredValue(m, a, v, 6); }
    if a + 8 <= |m| { StoredValue(m, a, v, 8); }
  }

  lemma InRange(v: int, m: nat, wide: nat)
    requires m > 1 && -(m as int) <= 2 * v < m && (wide == m || (m == TWO24 && wide == TWO32))
    ensures Signed(v % wide % m, m) == v
  {
    if v >= 0 {
      Small(v, m);
      Small(v, wide);
    } else {
      ModShift(v + m, -1, m);
      Small(v + m, m);
      ModShift(v + wide, -1, wide);
      Small(v + wide, wide);
      if wide != m { ModShift(v + m, 255, m); }
    }
    Small(v % m, m);
  }

  /**
    Load after store, signed: a number in range comes back, negative or not. The store is given its
    conversion to the unsigned parameter type; three bytes hold -2^23 to 2^23-1.
   */
  lemma SignedRoundTrip(m: seq<byte>, a: nat, v: int)
    ensures a + 2 <= |m| && -TWO16 <= 2 * v < TWO16 ==> Sint2korr(Patched(m, a, Digits(U16(v), 2)), a) == v
    ensures a + 3 <= |m| && -TWO24 <= 2 * v < TWO24 ==> Sint3korr(Patched(m, a, Digits(U32(v), 3)), a) == v
    ensures a + 4 <= |m| && -TWO32 <= 2 * v < TWO32 ==> Sint4korr(Patched(m, a, Digits(U32(v), 4)), a) == v
    ensures a + 8 <= |m| && -TWO64 <= 2 * v < TWO64 ==> Sint8korr(Patched(m, a, Digits(U64(v), 8)), a) == v
  {
    Powers();
    if a + 2 <= |m| && -TWO16 <= 2 * v < TWO16 { StoredValue(m, a, U16(v), 2); InRange(v, TWO16, TWO16); }
    if a + 3 <= |m| && -TWO24 <= 2 * v < TWO24 { StoredValue(m, a, U32(v), 3); InRange(v, TWO24, TWO32); }
    if a + 4 <= |m| && -TWO32 <= 2 * v < TWO32 { StoredValue(m, a, U32(v), 4); InRange(v, TWO32, TWO32); }
    if a + 8 <= |m| && -TWO64 <= 2 * v < TWO64 { StoredValue(m, a, U64(v), 8); InRange(v, TWO64, TWO64); }
  }

  lemma RestoredUnsigned(m: seq<byte>, a: nat, n: nat)
    requires a + n <= |m|
    ensures Patched(m, a, Digits(NativeLoad(m, a, n), n)) == m
  {
    DigitsOfValue(m[a..a + n]);
    IsPatched(m, m, a, m[a..a + n]);
  }

  /** The conversion to an unsigned number that is at least as wide keeps the digits. */
  lemma SignedDigits(v: nat, n: nat, wide: nat)
    requires n > 0 && v < Pow256(n) && (wide == Pow256(n) || (n == 3 && wide == TWO32))
    ensures Digits(Signed(v, Pow256(n)) % wide, n) == Digits(v, n)
  {
    Powers();
    Small(v, Pow256(n));
    var s := Signed(v, Pow256(n));
    if s == v {
      Small(v, wide);
    } else {
      var w := v + (wide - Pow256(n));
      assert s + wide == w;
      ModShift(w, -1, wide);
      Small(w, wide);
      if wide != Pow256(n) { ModShift(v, 255, Pow256(n)); }
      DigitsOfResidue(w, n);
      DigitsOfResidue(v, n);
    }
  }

  lemma Restored(m: seq<byte>, a: nat, n: nat, wide: nat)
    requires a + n <= |m| && n > 0 && (wide == Pow256(n) || (n == 3 && wide == TWO32))
    ensures Patched(m, a, Digits(NativeLoad(m, a, n), n)) == m
    ensures Patched(m, a, Digits(NativeLoadSigned(m, a, n) % wide, n)) == m
  {
    ValueBound(m[a..a + n]);
    SignedDigits(Value(m[a..a + n]), n, wide);
    RestoredUnsigned(m, a, n);
  }

  /** Store after load: the bytes are what they were. A sign-extended load is cut back by the store. */
  lemma StoreAfterLoad(m: seq<byte>, a: nat)
    ensures a + 2 <= |m| ==> Patched(m, a, Digits(Uint2korr(m, a), 2)) == m == Patched(m, a, Digits(U16(Sint2korr(m, a)), 2))
    ensures a + 3 <= |m| ==> Patched(m, a, Digits(Uint3korr(m, a), 3)) == m == Patched(m, a, Digits(U32(Sint3korr(m, a)), 3))
    ensures a + 4 <= |m| ==> Patched(m, a, Digits(Uint4korr(m, a), 4)) == m == Patched(m, a, Digits(U32(Sint4korr(m, a)), 4))
    ensures a + 5 <= |m| ==> Patched(m, a, Digits(Uint5korr(m, a), 5)) == m
    ensures a + 6 <= |m| ==> Patched(m, a, Digits(Uint6korr(m, a), 6)) == m
    ensures a + 8 <= |m| ==> Patched(m, a, Digits(Uint8korr(m, a), 8)) == m == Patched(m, a, Digits(U64(Sint8korr(m, a)), 8))
  {
    Powers();
    PortableLoadsAreNativeLoads(m, a);
    if a + 2 <= |m| { Restored(m, a, 2, TWO16); }
    if a + 3 <= |m| { Restored(m, a, 3, TWO32); }
    if a + 4 <= |m| { Restored(m, a, 4, TWO32); }
    if a + 5 <= |m| { Restored(m, a, 5, TWO40); }
    if a + 6 <= |m| { Restored(m, a, 6, TWO48); }
    if a + 8 <= |m| { Restored(m, a, 8, TWO64); }
  }
}
