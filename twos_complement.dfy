/** Fixed-width integers as the formatter's C# code sees them: the range of
    `long` and `ulong`, the unchecked negation `-value` of a `long`, and the
    reinterpreting cast `(ulong)value`. Dafny's `int` is unbounded, so the
    wrap-around of 64-bit arithmetic is written out here. */
module TwosComplement {

  /** 2^64, the number of distinct 64-bit patterns. */
  const Modulus: int := 0x1_0000_0000_0000_0000

  /** Int64.MinValue and Int64.MaxValue. */
  const Int64Min: int := -0x8000_0000_0000_0000
  const Int64Max: int := 0x7FFF_FFFF_FFFF_FFFF

  /** UInt64.MaxValue. */
  const UInt64Max: int := 0xFFFF_FFFF_FFFF_FFFF

  type int64 = x: int | Int64Min <= x <= Int64Max
  type uint64 = x: int | 0 <= x <= UInt64Max
  /** A C# `byte`. */
  type byte = x: int | 0 <= x < 0x100

  /** The signed 64-bit value whose bit pattern is the low 64 bits of `v`. */
  function Wrap(v: int): (r: int64)
    ensures (r - v) % Modulus == 0
    ensures Int64Min <= v <= Int64Max ==> r == v
  {
    var low := (v - Int64Min) % Modulus;
    assert low - (v - Int64Min) == -Modulus * ((v - Int64Min) / Modulus);
    low + Int64Min
  }

  /** Unchecked `-x` on a `long`: exact except at Int64.MinValue, whose
      negation wraps around to itself. */
  function Negate(x: int64): (r: int64)
    ensures x != Int64Min ==> r == -x
    ensures x == Int64Min ==> r == Int64Min
  {
    Wrap(-(x as int))
  }

  /** `(ulong)x`: the same 64 bits read as an unsigned number. */
  function ToUInt64(x: int64): (r: uint64)
    ensures x >= 0 ==> r == x
    ensures x < 0 ==> r == x + Modulus
  {
    x % Modulus
  }

  /** `b++` on a `byte`: unchecked, so 0xFF wraps around to 0. */
  function IncrementByte(b: byte): (r: byte)
    ensures b < 0xFF ==> r == b + 1
    ensures b == 0xFF ==> r == 0
  {
    (b + 1) % 0x100
  }

  /** The negation of a negative `long` is still negative exactly at
      Int64.MinValue, so one sign test after negating detects that case. */
  lemma NegationStaysNegativeOnlyAtMin(x: int64)
    ensures (x < 0 && Negate(x) < 0) <==> x == Int64Min
  {
  }

  /** Every other negative `long` has a positive negation that fits in a
      `long`, and the cast to `ulong` keeps it: it is the magnitude of `x`. */
  lemma OrdinaryNegativeMagnitude(x: int64)
    requires Int64Min < x < 0
    ensures 0 < Negate(x) <= Int64Max
    ensures ToUInt64(Negate(x)) == -x
  {
  }

  /** The magnitude of Int64.MinValue is one more than Int64.MaxValue, the
      magnitude the formatter can render directly. */
  lemma MinValueMagnitude()
    ensures -Int64Min == Int64Max + 1
    ensures ToUInt64(Int64Max) == Int64Max
    ensures ToUInt64(Int64Min) == Int64Max + 1
  {
  }
}
