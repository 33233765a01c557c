/**
 * UInt16Extensions.cs: the extension members of `ushort`. The flag helpers,
 * GetBit, the byte split and SignBit are the same expressions as in
 * UShortExtensions.cs and share its model; SetBit and ResetBit compute in `int`
 * and cast back, `(ushort)(value | (1 << index))`.
 */
module UInt16Extensions {
  import opened Bits
  import opened BitOps
  import UShortExtensions
  import BinaryStringHelper

  function DidAdditionHalfCarry(value: ushort, left: ushort, right: ushort): (r: bool)
    ensures value == (left + right) % 0x1_0000 ==> (r <==> left % 0x1000 + right % 0x1000 >= 0x1000)
  {
    UShortExtensions.DidAdditionHalfCarry(value, left, right)
  }

  function DidAdditionOverflow(value: ushort, left: ushort, right: ushort): (r: bool)
    ensures value == (left + right) % 0x1_0000 ==>
      (r <==> !(-0x8000 <= ToSigned(16, left) + ToSigned(16, right) < 0x8000))
  {
    Pow2Values();
    UShortExtensions.DidAdditionOverflow(value, left, right)
  }

  function DidSubtractionHalfBorrow(value: ushort, left: ushort, right: ushort): (r: bool)
    ensures value == (left - right) % 0x1_0000 ==> (r <==> left % 0x1000 < right % 0x1000)
  {
    UShortExtensions.DidSubtractionHalfBorrow(value, left, right)
  }

  function DidSubtractionOverflow(value: ushort, left: ushort, right: ushort): (r: bool)
    ensures value == (left - right) % 0x1_0000 ==>
      (r <==> !(-0x8000 <= ToSigned(16, left) - ToSigned(16, right) < 0x8000))
  {
    Pow2Values();
    UShortExtensions.DidSubtractionOverflow(value, left, right)
  }

  function GetBit(value: ushort, index: int32): (r: bool)
    ensures r == Bit(value, index % 32)
  {
    UShortExtensions.GetBit(value, index)
  }

  function LeastSignificantByte(value: ushort): (b: byte)
    ensures b == value % 0x100
  {
    UShortExtensions.LeastSignificantByte(value)
  }

  function MostSignificantByte(value: ushort): (b: byte)
    ensures b == value / 0x100
  {
    var b := UShortExtensions.MostSignificantByte(value);
    DivMod(value, 0x100, b, value - 0x100 * b);
    b
  }

  function ToBytes(value: ushort): (r: (byte, byte))
    ensures r == (value / 0x100, value % 0x100)
  {
    (MostSignificantByte(value), LeastSignificantByte(value))
  }

  function SignBit(value: ushort): (r: bool)
    ensures r <==> value >= 0x8000
  {
    UShortExtensions.SignBit(value)
  }

  /** LeftMostBit: SignBit, bit 15. */
  function LeftMostBit(value: ushort): (r: bool)
    ensures r <==> Bit(value, 15)
  {
    Pow2Values();
    TopBit(16, value);
    SignBit(value)
  }

  /** RightMostBit: GetBit(0). */
  function RightMostBit(value: ushort): (r: bool)
    ensures r <==> value % 2 == 1
  {
    GetBit(value, 0)
  }

  /** ResetBit: `(ushort)(value & ~(1 << index))`. */
  function ResetBit(value: ushort, index: int32): (r: ushort)
    ensures forall i :: 0 <= i < 16 ==> Bit(r, i) == (i != index % 32 && Bit(value, i))
  {
    Pow2Values();
    NarrowWithoutBit(IntWidth, 16, value, index % 32);
    Pattern(16, WithoutBit(IntWidth, value, index % 32))
  }

  /** SetBit: `(ushort)(value | (1 << index))`. */
  function SetBit(value: ushort, index: int32): (r: ushort)
    ensures forall i :: 0 <= i < 16 ==> Bit(r, i) == (i == index % 32 || Bit(value, i))
  {
    Pow2Values();
    NarrowWithBit(IntWidth, 16, value, index % 32);
    Pattern(16, WithBit(IntWidth, value, index % 32))
  }

  /** After SetBit(index) GetBit reads it as set, after ResetBit as clear; every other bit reads as before. */
  lemma GetBitAfterSetBit(value: ushort, index: int32, other: int32)
    requires 0 <= index < 16
    ensures GetBit(SetBit(value, index), other) == (other % 32 == index || GetBit(value, other))
    ensures GetBit(ResetBit(value, index), other) == (other % 32 != index && GetBit(value, other))
  {
    var k := other % 32;
    var set1, reset := SetBit(value, index), ResetBit(value, index);
    DivMod(index, 32, 0, index);
    Pow2Values();
    if k < 16 {
      assert Bit(set1, k) == (k == index || Bit(value, k));
      assert Bit(reset, k) == (k != index && Bit(value, k));
    } else {
      NoHighBits(16, set1, k);
      NoHighBits(16, reset, k);
      NoHighBits(16, value, k);
    }
  }

  /**
   * ToBinaryString: "0b" and sixteen digits. The source calls a
   * `WriteWordChars` that BinaryStringHelper.cs does not define; its 16-bit
   * writer is WriteUInt16Chars.
   */
  method ToBinaryString(value: ushort) returns (s: string)
    ensures |s| == 18 && s[..2] == "0b"
    ensures s[2..] == BinaryStringHelper.BinaryDigits(value, 16)
    ensures BinaryStringHelper.BinaryValue(s[2..]) == value
  {
    var chars := new char[18];
    chars[0] := '0';
    chars[1] := 'b';
    ghost var c0 := chars[..];
    assert c0[..2] == "0b";
    BinaryStringHelper.WriteUInt16Chars(chars, 2, value);
    s := chars[..];
    BinaryStringHelper.BinaryStringOf(s, c0, value, 16);
    assert Pow2(16) == 0x1_0000 by { Pow2Values(); }
    PatternSmall(16, value);
  }
}
