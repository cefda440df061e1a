/** A value that may be missing: a null pointer, an `std::optional`, an error return. */
module Options {
  datatype Option<+T> = None | Some(value: T)
}

/** The error numbers of the source's return codes. */
module Errno {
  const EINVAL := 22
  const ENOMEM := 12
}

/** Fixed-width integers and their little-endian images in memory, which is what the
    `memcpy` of an integral value stores and what the `memcpy` back loads. */
module Bytes {

  type Byte = b: int | 0 <= b < 0x100

  const TWO31: int := 0x8000_0000
  const TWO32: int := 0x1_0000_0000
  const TWO63: int := 0x8000_0000_0000_0000
  const TWO64: int := 0x1_0000_0000_0000_0000
  const INT32_MAX: int := 0x7fff_ffff

  type Int32 = x: int | -0x8000_0000 <= x < 0x8000_0000
  type UInt32 = x: int | 0 <= x < 0x1_0000_0000
  type Int64 = x: int | -0x8000_0000_0000_0000 <= x < 0x8000_0000_0000_0000
  type UInt64 = x: int | 0 <= x < 0x1_0000_0000_0000_0000

  function Min(a: int, b: int): int { if a < b then a else b }

  lemma Assoc(a: seq<Byte>, b: seq<Byte>, c: seq<Byte>)
    ensures (a + b) + c == a + (b + c)
  {
  }

  /** The conversion to `uint32_t`, and the reading of 32 bits as `int32_t`. */
  function Wrap32(x: int): UInt32 { x % 0x1_0000_0000 }

  function Signed32(u: UInt32): Int32 { if u >= 0x8000_0000 then u - 0x1_0000_0000 else u }

  function Pow256(n: nat): nat { if n == 0 then 1 else 256 * Pow256(n - 1) }

  function LittleEndian(v: nat, width: nat): (s: seq<Byte>)
    ensures |s| == width
  {
    if width == 0 then [] else [v % 256] + LittleEndian(v / 256, width - 1)
  }

  function FromLittleEndian(s: seq<Byte>): nat
  {
    if s == [] then 0 else s[0] + 256 * FromLittleEndian(s[1..])
  }

  lemma {:induction false} FromLittleEndianBound(s: seq<Byte>)
    ensures FromLittleEndian(s) < Pow256(|s|)
  {
    if s != [] {
      FromLittleEndianBound(s[1..]);
    }
  }

  lemma {:induction false} LittleEndianRoundTrip(v: nat, width: nat)
    requires v < Pow256(width)
    ensures FromLittleEndian(LittleEndian(v, width)) == v
  {
    if width != 0 {
      LittleEndianRoundTrip(v / 256, width - 1);
      assert LittleEndian(v, width)[1..] == LittleEndian(v / 256, width - 1);
    }
  }

  lemma {:induction false} LittleEndianCanonical(s: seq<Byte>)
    ensures LittleEndian(FromLittleEndian(s), |s|) == s
  {
    if s != [] {
      LittleEndianCanonical(s[1..]);
      assert FromLittleEndian(s) / 256 == FromLittleEndian(s[1..]);
      assert s == [s[0]] + s[1..];
    }
  }

  /** Four bytes as a number, and as a signed one in two's complement; eight as two fours. */
  lemma WordOf(s: seq<Byte>)
    requires |s| == 4
    ensures IntOf(U32, s) == s[0] + 0x100 * (s[1] as int) + 0x1_0000 * (s[2] as int) + 0x100_0000 * (s[3] as int)
    ensures IntOf(I32, s) == IntOf(U32, s) - if s[3] >= 128 then 0x1_0000_0000 else 0
  {
    FourBytes(s);
  }

  lemma FourBytes(s: seq<Byte>)
    requires |s| == 4
    ensures FromLittleEndian(s) == s[0] + 0x100 * (s[1] as int) + 0x1_0000 * (s[2] as int) + 0x100_0000 * (s[3] as int)
  {
    assert s[1..][1..] == s[2..] && s[2..][1..] == s[3..] && s[3..][1..] == [];
    assert FromLittleEndian(s[3..]) == s[3];
    assert FromLittleEndian(s[2..]) == s[2] + 256 * FromLittleEndian(s[3..]);
    assert FromLittleEndian(s[1..]) == s[1] + 256 * FromLittleEndian(s[2..]);
  }

  lemma DoubleWordOf(s: seq<Byte>)
    requires |s| == 8
    ensures IntOf(U64, s) == IntOf(U32, s[..4]) + 0x1_0000_0000 * IntOf(U32, s[4..])
    ensures IntOf(I64, s) == IntOf(U64, s) - if s[7] >= 128 then 0x1_0000_0000_0000_0000 else 0
  {
    FourBytes(s[..4]);
    FourBytes(s[4..]);
    EightBytes(s);
    WordOf(s[4..]);
  }

  lemma EightBytes(s: seq<Byte>)
    requires |s| == 8
    ensures FromLittleEndian(s) == s[0] + 0x100 * (s[1] as int) + 0x1_0000 * (s[2] as int) + 0x100_0000 * (s[3] as int)
                                   + 0x1_0000_0000 * FromLittleEndian(s[4..])
  {
    assert s[1..][1..] == s[2..] && s[2..][1..] == s[3..] && s[3..][1..] == s[4..];
    assert FromLittleEndian(s[3..]) == s[3] + 256 * FromLittleEndian(s[4..]);
    assert FromLittleEndian(s[2..]) == s[2] + 256 * FromLittleEndian(s[3..]);
    assert FromLittleEndian(s[1..]) == s[1] + 256 * FromLittleEndian(s[2..]);
  }

  /** The integral types the formats use. */
  datatype IntType = I32 | U32 | I64 | U64 {
    function Width(): nat { if I32? || U32? then 4 else 8 }
    function Modulus(): nat { if I32? || U32? then 0x1_0000_0000 else 0x1_0000_0000_0000_0000 }
    predicate IsSigned() { I32? || I64? }
    predicate InRange(v: int) {
      var m: int := Modulus();
      if IsSigned() then -(m / 2) <= v < m / 2 else 0 <= v < m
    }
  }

  lemma ModulusIsPow256(t: IntType)
    ensures Pow256(t.Width()) == t.Modulus()
  {
    assert Pow256(1) == 256;
    assert Pow256(2) == 0x1_0000;
    assert Pow256(3) == 0x100_0000;
    assert Pow256(4) == 0x1_0000_0000;
    assert Pow256(5) == 0x100_0000_0000;
    assert Pow256(6) == 0x1_0000_0000_0000;
    assert Pow256(7) == 0x100_0000_0000_0000;
    assert Pow256(8) == 0x1_0000_0000_0000_0000;
  }

  /** The bytes of `v` after the usual conversion to type `t`. */
  function IntBytes(t: IntType, v: int): (s: seq<Byte>)
    ensures |s| == t.Width()
  {
    LittleEndian(v % t.Modulus(), t.Width())
  }

  function IntOf(t: IntType, s: seq<Byte>): (v: int)
    requires |s| == t.Width()
    ensures t.InRange(v)
  {
    FromLittleEndianBound(s);
    ModulusIsPow256(t);
    var u := FromLittleEndian(s);
    if t.IsSigned() && u >= t.Modulus() / 2 then u - t.Modulus() else u
  }

  /** Storing and loading an in-range integer is the identity. */
  lemma IntRoundTrip(t: IntType, v: int)
    requires t.InRange(v)
    ensures IntOf(t, IntBytes(t, v)) == v
  {
    ModulusIsPow256(t);
    LittleEndianRoundTrip(v % t.Modulus(), t.Width());
    WrapSmall(v, t.Modulus());
  }

  lemma WrapSmall(v: int, m: nat)
    requires m > 0 && 0 <= v + m && v < m
    ensures v % m == if v < 0 then v + m else v
  {
    if v < 0 {
      assert v == -1 * m + (v + m);
    }
  }

  lemma IntCanonical(t: IntType, s: seq<Byte>)
    requires |s| == t.Width()
    ensures IntBytes(t, IntOf(t, s)) == s
  {
    FromLittleEndianBound(s);
    ModulusIsPow256(t);
    LittleEndianCanonical(s);
    WrapSmall(IntOf(t, s), t.Modulus());
  }
}
