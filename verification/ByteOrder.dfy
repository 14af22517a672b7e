/**
  byte_order_generic.h, byte_order_generic_x86.h and my_byteorder.h: integers stored low byte first.
  Memory is a sequence (to load from) or an array (to store into) of bytes, a pointer an index.
 */
module ByteOrder {
  import opened Bytes

  // ---------------------------------------------------------------- portable loads

  function Sint2korr(m: seq<byte>, a: nat): int
    requires a + 2 <= |m|
  {
    I16(I16(m[a]) + I16(m[a + 1]) * TWO8)
  }

  function Uint2korr(m: seq<byte>, a: nat): nat
    requires a + 2 <= |m|
  {
    U16(U16(m[a]) + U16(m[a + 1]) * TWO8)
  }

  function Sint4korr(m: seq<byte>, a: nat): int
    requires a + 4 <= |m|
  {
    I32(I32(I32(I32(m[a]) + I32(m[a + 1] * TWO8)) + I32(m[a + 2] * TWO16)) + I32(m[a + 3] * TWO24))
  }

  function Uint4korr(m: seq<byte>, a: nat): nat
    requires a + 4 <= |m|
  {
    U32(U32(U32(U32(m[a]) + U32(m[a + 1] * TWO8)) + U32(m[a + 2] * TWO16)) + U32(m[a + 3] * TWO24))
  }

  function Uint8korr(m: seq<byte>, a: nat): nat
    requires a + 8 <= |m|
  {
    U64(U64(Uint4korr(m, a)) + U64(U64(Uint4korr(m, a + 4)) * TWO32))
  }

  function Sint8korr(m: seq<byte>, a: nat): int
    requires a + 8 <= |m|
  {
    I64(Uint8korr(m, a))
  }

  function Sint3korr(m: seq<byte>, a: nat): int
    requires a + 3 <= |m|
  {
    I32(if BitAnd(m[a + 2], 128) != 0 then
          BitOr(BitOr(BitOr(U32(255 * TWO24), U32(m[a + 2] * TWO16)), U32(m[a + 1] * TWO8)), U32(m[a]))
        else
          BitOr(BitOr(U32(m[a + 2] * TWO16), U32(m[a + 1] * TWO8)), U32(m[a])))
  }

  function Uint3korr(m: seq<byte>, a: nat): nat
    requires a + 3 <= |m|
  {
    U32(U32(U32(m[a]) + U32(m[a + 1] * TWO8)) + U32(m[a + 2] * TWO16))
  }

  function Uint5korr(m: seq<byte>, a: nat): nat
    requires a + 5 <= |m|
  {
    U64(U64(Uint4korr(m, a)) + U64(m[a + 4] * TWO32))
  }

  function Uint6korr(m: seq<byte>, a: nat): nat
    requires a + 6 <= |m|
  {
    U64(U64(U64(Uint4korr(m, a)) + U64(m[a + 4] * TWO32)) + U64(m[a + 5] * TWO40))
  }

  // ---------------------------------------------------------------- x86 loads

  /** `*((T*) A)` for an unsigned T of `n` bytes on a little-endian host. */
  function NativeLoad(m: seq<byte>, a: nat, n: nat): nat
    requires a + n <= |m|
  {
    Value(m[a..a + n])
  }

  /** The same for a signed T. */
  function NativeLoadSigned(m: seq<byte>, a: nat, n: nat): int
    requires a + n <= |m|
  {
    Signed(Value(m[a..a + n]), Pow256(n))
  }

  // ---------------------------------------------------------------- no carry is lost

  lemma ValueStep(m: seq<byte>, a: nat, n: nat)
    requires n > 0 && a + n <= |m|
    ensures Value(m[a..a + n]) == m[a] + 256 * Value(m[a + 1..a + n])
  {
  }

  lemma ValueOfFour(m: seq<byte>, a: nat)
    requires a + 4 <= |m|
    ensures Value(m[a..a + 4]) == m[a] + m[a + 1] * TWO8 + m[a + 2] * TWO16 + m[a + 3] * TWO24
  {
    ValueStep(m, a, 4);
    ValueStep(m, a + 1, 3);
    ValueStep(m, a + 2, 2);
    ValueStep(m, a + 3, 1);
  }

  lemma ValueOfMore(m: seq<byte>, a: nat, n: nat)
    requires n >= 4 && a + n <= |m|
    ensures Value(m[a..a + n]) == Value(m[a..a + 4]) + TWO32 * Value(m[a + 4..a + n])
  {
    ValueOfFour(m, a);
    ValueStep(m, a, n);
    ValueStep(m, a + 1, n - 1);
    ValueStep(m, a + 2, n - 2);
    ValueStep(m, a + 3, n - 3);
  }

  lemma ValueOfThree(m: seq<byte>, a: nat)
    requires a + 3 <= |m|
    ensures Value(m[a..a + 3]) == m[a] + m[a + 1] * TWO8 + m[a + 2] * TWO16
  {
    ValueStep(m, a, 3);
    ValueStep(m, a + 1, 2);
    ValueStep(m, a + 2, 1);
  }

  lemma ValueOfTwo(m: seq<byte>, a: nat)
    requires a + 2 <= |m|
    ensures Value(m[a..a + 2]) == m[a] + m[a + 1] * TWO8
  {
    ValueStep(m, a, 2);
    ValueStep(m, a + 1, 1);
  }

  lemma UnsignedFour(m: seq<byte>, a: nat)
    requires a + 4 <= |m|
    ensures Uint4korr(m, a) == NativeLoad(m, a, 4)
  {
    ValueOfFour(m, a);
    Small(m[a], TWO32);
    Small(m[a + 1] * TWO8, TWO32);
    Small(m[a + 2] * TWO16, TWO32);
    Small(m[a + 3] * TWO24, TWO32);
    Small(m[a] + m[a + 1] * TWO8, TWO32);
    Small(m[a] + m[a + 1] * TWO8 + m[a + 2] * TWO16, TWO32);
    Small(m[a] + m[a + 1] * TWO8 + m[a + 2] * TWO16 + m[a + 3] * TWO24, TWO32);
  }

  lemma SumOfTwo(x: int, y: int)
    ensures I32(I32(x) + I32(y)) == I32(x + y)
  {
    SignedSum(x, I32(y), TWO32);
    SignedSumRight(x, y, TWO32);
  }

  /** Wrapping every term and every partial sum is wrapping the sum. */
  lemma SumOfFour(x0: int, x1: int, x2: int, x3: int)
    ensures I32(I32(I32(I32(x0) + I32(x1)) + I32(x2)) + I32(x3)) == I32(x0 + x1 + x2 + x3)
  {
    SumOfTwo(x0, x1);
    SumOfTwo(x0 + x1, x2);
    SumOfTwo(x0 + x1 + x2, x3);
  }

  lemma SignedFour(m: seq<byte>, a: nat)
    requires a + 4 <= |m|
    ensures Sint4korr(m, a) == NativeLoadSigned(m, a, 4)
  {
    ValueOfFour(m, a);
    Powers();
    SumOfFour(m[a], m[a + 1] * TWO8, m[a + 2] * TWO16, m[a + 3] * TWO24);
  }

  lemma EightIsExact(m: seq<byte>, a: nat)
    requires a + 8 <= |m|
    ensures Uint8korr(m, a) == NativeLoad(m, a, 8)
    ensures Sint8korr(m, a) == NativeLoadSigned(m, a, 8)
  {
    ValueOfMore(m, a, 8);
    UnsignedFour(m, a);
    UnsignedFour(m, a + 4);
    ValueBound(m[a..a + 4]);
    ValueBound(m[a + 4..a + 8]);
    Powers();
    var low, high := NativeLoad(m, a, 4), NativeLoad(m, a + 4, 4);
    Small(low, TWO64);
    Small(high, TWO64);
    Small(high * TWO32, TWO64);
    Small(low + high * TWO32, TWO64);
  }

  lemma FiveIsExact(m: seq<byte>, a: nat)
    requires a + 5 <= |m|
    ensures Uint5korr(m, a) == NativeLoad(m, a, 5)
  {
    UnsignedFour(m, a);
    ValueBound(m[a..a + 4]);
    Powers();
    ValueOfMore(m, a, 5);
    ValueStep(m, a + 4, 1);
    var low := NativeLoad(m, a, 4);
    Small(low, TWO64);
    Small(m[a + 4] * TWO32, TWO64);
    Small(low + m[a + 4] * TWO32, TWO64);
  }

  lemma SixIsExact(m: seq<byte>, a: nat)
    requires a + 6 <= |m|
    ensures Uint6korr(m, a) == NativeLoad(m, a, 6)
  {
    UnsignedFour(m, a);
    ValueBound(m[a..a + 4]);
    Powers();
    ValueOfMore(m, a, 6);
    ValueOfTwo(m, a + 4);
    var low := NativeLoad(m, a, 4);
    Small(low, TWO64);
    Small(m[a + 4] * TWO32, TWO64);
    Small(m[a + 5] * TWO40, TWO64);
    Small(low + m[a + 4] * TWO32, TWO64);
    Small(low + m[a + 4] * TWO32 + m[a + 5] * TWO40, TWO64);
  }

  lemma UnsignedThree(m: seq<byte>, a: nat)
    requires a + 3 <= |m|
    ensures Uint3korr(m, a) == NativeLoad(m, a, 3)
  {
    ValueOfThree(m, a);
    Small(m[a], TWO32);
    Small(m[a + 1] * TWO8, TWO32);
    Small(m[a + 2] * TWO16, TWO32);
    Small(m[a] + m[a + 1] * TWO8, TWO32);
    Small(m[a] + m[a + 1] * TWO8 + m[a + 2] * TWO16, TWO32);
  }

  lemma PowersOfTwo()
    ensures Pow2(7) == 128 && Pow2(8) == TWO8 && Pow2(16) == TWO16 && Pow2(24) == TWO24
  {
    assert Pow2(4) == 16;
    assert Pow2(7) == 8 * Pow2(4);
    assert Pow2(10) == 8 * Pow2(7);
    assert Pow2(13) == 8 * Pow2(10);
    assert Pow2(16) == 8 * Pow2(13);
    assert Pow2(19) == 8 * Pow2(16);
    assert Pow2(22) == 8 * Pow2(19);
  }

  /** The sign test of `sint3korr` is the top bit, and the bit fields it joins do not overlap. */
  lemma SignTest(b2: byte)
    ensures BitAnd(b2, 128) != 0 <==> b2 >= 128
  {
    PowersOfTwo();
    AndTestsBit(b2, 7);
  }

  lemma Fields(b0: byte, b1: byte, b2: byte)
    ensures BitOr(BitOr(b2 * TWO16, b1 * TWO8), b0) == b2 * TWO16 + b1 * TWO8 + b0
  {
    PowersOfTwo();
    OrIsAdd(b2, b1 * TWO8, 16);
    OrIsAdd(b2 * TWO8 + b1, b0, 8);
  }

  lemma ExtendedFields(b0: byte, b1: byte, b2: byte)
    ensures BitOr(BitOr(BitOr(255 * TWO24, b2 * TWO16), b1 * TWO8), b0) == 255 * TWO24 + b2 * TWO16 + b1 * TWO8 + b0
  {
    PowersOfTwo();
    OrIsAdd(255, b2 * TWO16, 24);
    OrIsAdd(255 * TWO8 + b2, b1 * TWO8, 16);
    OrIsAdd(255 * TWO16 + b2 * TWO8 + b1, b0, 8);
  }

  /** `sint3korr` joins its bytes without a carry, with eight ones above them for a negative number. */
  lemma ThreeJoined(m: seq<byte>, a: nat)
    requires a + 3 <= |m|
    ensures var v := m[a + 2] * TWO16 + m[a + 1] * TWO8 + m[a];
            Sint3korr(m, a) == if m[a + 2] >= 128 then I32(255 * TWO24 + v) else I32(v)
  {
    var b0, b1, b2 := m[a], m[a + 1], m[a + 2];
    Small(b0, TWO32);
    Small(b1 * TWO8, TWO32);
    Small(b2 * TWO16, TWO32);
    Small(255 * TWO24, TWO32);
    SignTest(b2);
    if b2 >= 128 { ExtendedFields(b0, b1, b2); } else { Fields(b0, b1, b2); }
  }

  lemma TwentyFourBits(v: nat)
    requires v < TWO24
    ensures Signed(v, TWO24) == if v >= 128 * TWO16 then I32(255 * TWO24 + v) else I32(v)
  {
    Small(v, TWO24);
    Small(v, TWO32);
    Small(255 * TWO24 + v, TWO32);
  }

  lemma SignedThree(m: seq<byte>, a: nat)
    requires a + 3 <= |m|
    ensures Sint3korr(m, a) == NativeLoadSigned(m, a, 3)
  {
    ValueOfThree(m, a);
    Powers();
    ThreeJoined(m, a);
    TwentyFourBits(m[a + 2] * TWO16 + m[a + 1] * TWO8 + m[a]);
  }

  lemma TwoIsExact(m: seq<byte>, a: nat)
    requires a + 2 <= |m|
    ensures Uint2korr(m, a) == NativeLoad(m, a, 2) && Sint2korr(m, a) == NativeLoadSigned(m, a, 2)
  {
    ValueOfTwo(m, a);
    Powers();
    Small(m[a], TWO16);
    Small(m[a + 1], TWO16);
    Small(m[a] + m[a + 1] * TWO8, TWO16);
  }

  /** The portable loads never lose a carry: on every memory and offset they are the x86 loads. */
  lemma PortableLoadsAreNativeLoads(m: seq<byte>, a: nat)
    ensures a + 2 <= |m| ==> Uint2korr(m, a) == NativeLoad(m, a, 2) && Sint2korr(m, a) == NativeLoadSigned(m, a, 2)
    ensures a + 3 <= |m| ==> Uint3korr(m, a) == NativeLoad(m, a, 3) && Sint3korr(m, a) == NativeLoadSigned(m, a, 3)
    ensures a + 4 <= |m| ==> Uint4korr(m, a) == NativeLoad(m, a, 4) && Sint4korr(m, a) == NativeLoadSigned(m, a, 4)
    ensures a + 5 <= |m| ==> Uint5korr(m, a) == NativeLoad(m, a, 5)
    ensures a + 6 <= |m| ==> Uint6korr(m, a) == NativeLoad(m, a, 6)
    ensures a + 8 <= |m| ==> Uint8korr(m, a) == NativeLoad(m, a, 8) && Sint8korr(m, a) == NativeLoadSigned(m, a, 8)
  {
    if a + 2 <= |m| { TwoIsExact(m, a); }
    if a + 3 <= |m| { UnsignedThree(m, a); SignedThree(m, a); }
    if a + 4 <= |m| { UnsignedFour(m, a); SignedFour(m, a); }
    if a + 5 <= |m| { FiveIsExact(m, a); }
    if a + 6 <= |m| { SixIsExact(m, a); }
    if a + 8 <= |m| { EightIsExact(m, a); }
  }
}
