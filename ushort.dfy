/**
 * UShortExtensions.cs: bit tests, byte splitting and the CPU flag helpers of a
 * 16-bit value. C# evaluates `&`, `|`, `^` and `<<` on the `int` promotion of a
 * `ushort`; a shift count is reduced `& 31`, which is Dafny's `% 32`. The flag
 * formulas only combine values below 2^16, so they are evaluated in 16 bits.
 */
module UShortExtensions {
  import opened Bits
  import opened BitOps
  import opened CarryFlags

  /** GetBit: `(value & (1 << index)) != 0`. */
  function GetBit(value: ushort, index: int32): (r: bool)
    ensures r == Bit(value, index % 32)
  {
    TestBitIsBit(32, value, index % 32);
    TestBit(32, value, index % 32)
  }

  /** MostSignificantByte: `(byte)(value >> 8)`. */
  function MostSignificantByte(value: ushort): (b: byte)
    ensures 0x100 * b <= value < 0x100 * b + 0x100
  {
    Pow2Byte();
    Shr(value, 8) % 256
  }

  /** LeastSignificantByte: `(byte)value`. */
  function LeastSignificantByte(value: ushort): (b: byte)
    ensures value == 0x100 * MostSignificantByte(value) + b
  {
    value % 256
  }

  /** ToBytes: the pair (MostSignificantByte, LeastSignificantByte). */
  function ToBytes(value: ushort): (r: (byte, byte))
    ensures 0x100 * r.0 + r.1 == value
  {
    (MostSignificantByte(value), LeastSignificantByte(value))
  }

  /** SignBit: `(value & 0b10000000_00000000) != 0`. */
  function SignBit(value: ushort): (r: bool)
    ensures r <==> value >= 0x8000
  {
    Pow2Values();
    AndPow2(32, value, 15);
    TopBit(16, value);
    And(32, value, 0x8000) != 0
  }

  /** DidAdditionOverflow: `((value ^ left) & (value ^ right) & 0x8000) != 0`. */
  function DidAdditionOverflow(value: ushort, left: ushort, right: ushort): (r: bool)
    ensures value == (left + right) % 0x1_0000 ==>
      (r <==> !(-0x8000 <= ToSigned(16, left) + ToSigned(16, right) < 0x8000))
  {
    Pow2Values();
    OverflowOfSum(16, left, right);
    AdditionOverflow(16, value, left, right)
  }

  /** DidSubtractionOverflow: `((left ^ right) & (value ^ left) & 0x8000) != 0`. */
  function DidSubtractionOverflow(value: ushort, left: ushort, right: ushort): (r: bool)
    ensures value == (left - right) % 0x1_0000 ==>
      (r <==> !(-0x8000 <= ToSigned(16, left) - ToSigned(16, right) < 0x8000))
  {
    Pow2Values();
    OverflowOfDifference(16, left, right);
    SubtractionOverflow(16, value, left, right)
  }

  /**
   * DidAdditionHalfCarry: `((left ^ right ^ value) & 0b00010000_00000000) != 0`,
   * the carry out of the low 12 bits (the source's comment counts that bit as 13).
   */
  function DidAdditionHalfCarry(value: ushort, left: ushort, right: ushort): (r: bool)
    ensures value == (left + right) % 0x1_0000 ==>
      (r <==> left % 0x1000 + right % 0x1000 >= 0x1000)
  {
    Pow2Values();
    HalfCarryOfSum(16, 12, left, right);
    HalfCarry(16, 12, value, left, right)
  }

  /** DidSubtractionHalfBorrow: the same formula, the borrow out of the low 12 bits. */
  function DidSubtractionHalfBorrow(value: ushort, left: ushort, right: ushort): (r: bool)
    ensures value == (left - right) % 0x1_0000 ==>
      (r <==> left % 0x1000 < right % 0x1000)
  {
    Pow2Values();
    HalfBorrowOfDifference(16, 12, left, right);
    HalfCarry(16, 12, value, left, right)
  }
}
