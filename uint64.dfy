/**
 * UInt64Extensions.cs: bit access on `ulong`. The operators act on the value
 * itself; shift counts are reduced `& 63`.
 */
module UInt64Extensions {
  import opened Bits
  import opened BitOps
  import BinaryStringHelper

  /** GetBit: `(value & (1UL << index)) != 0`. */
  function GetBit(value: ulong, index: int32): (r: bool)
    ensures r == Bit(value, index % 64)
  {
    TestBitIsBit(LongWidth, value, index % 64);
    TestBit(LongWidth, value, index % 64)
  }

  /** ResetBit: `value & ~(1UL << index)`. */
  function ResetBit(value: ulong, index: int32): (r: ulong)
    ensures forall i :: 0 <= i < 64 ==> Bit(r, i) == (i != index % 64 && Bit(value, i))
  {
    Pow2Values();
    NarrowWithoutBit(LongWidth, LongWidth, value, index % 64);
    PatternSmall(LongWidth, WithoutBit(LongWidth, value, index % 64));
    WithoutBit(LongWidth, value, index % 64)
  }

  /** SetBit: `value | (1UL << index)`. */
  function SetBit(value: ulong, index: int32): (r: ulong)
    ensures forall i :: 0 <= i < 64 ==> Bit(r, i) == (i == index % 64 || Bit(value, i))
  {
    Pow2Values();
    NarrowWithBit(LongWidth, LongWidth, value, index % 64);
    PatternSmall(LongWidth, WithBit(LongWidth, value, index % 64));
    WithBit(LongWidth, value, index % 64)
  }

  /** After SetBit(index) GetBit reads it as set, after ResetBit as clear; every other bit reads as before. */
  lemma GetBitAfterSetBit(value: ulong, index: int32, other: int32)
    requires 0 <= index < 64
    ensures GetBit(SetBit(value, index), other) == (other % 64 == index || GetBit(value, other))
    ensures GetBit(ResetBit(value, index), other) == (other % 64 != index && GetBit(value, other))
  {
    DivMod(index, 64, 0, index);
    var k := other % 64;
    assert Bit(SetBit(value, index), k) == (k == index || Bit(value, k));
    assert Bit(ResetBit(value, index), k) == (k != index && Bit(value, k));
  }

  /** SignBit: `(value & 0x8000000000000000UL) != 0`. */
  function SignBit(value: ulong): (r: bool)
    ensures r <==> value >= 0x8000_0000_0000_0000
  {
    Pow2Values();
    AndPow2(LongWidth, value, 63);
    TopBit(64, value);
    And(LongWidth, value, Pow2(63)) != 0
  }

  /** LeftMostBit: SignBit, bit 63. */
  function LeftMostBit(value: ulong): (r: bool)
    ensures r <==> value >= 0x8000_0000_0000_0000
    ensures r == GetBit(value, 63)
  {
    Pow2Values();
    TopBit(64, value);
    SignBit(value)
  }

  /** RightMostBit: GetBit(0). */
  function RightMostBit(value: ulong): (r: bool)
    ensures r <==> value % 2 == 1
  {
    GetBit(value, 0)
  }

  /** ToBinaryString: "0b", then the digits of `(uint)(value >> 32)`, then those of `(uint)value`. */
  method ToBinaryString(value: ulong) returns (s: string)
    ensures |s| == 66 && s[..2] == "0b"
    ensures s[2..] == BinaryStringHelper.BinaryDigits(value, 64)
    ensures BinaryStringHelper.BinaryValue(s[2..]) == value
  {
    var chars := new char[66];
    chars[0] := '0';
    chars[1] := 'b';
    ghost var c0 := chars[..];
    assert c0[..2] == "0b";
    Pow2Values();
    var high, low := Pattern(32, Shr(value, 32)), Pattern(32, value);
    BinaryStringHelper.WriteUInt32Chars(chars, 2, high);
    ghost var c1 := chars[..];
    BinaryStringHelper.WriteUInt32Chars(chars, 34, low);
    s := chars[..];
    BinaryStringHelper.TwoWrites(c0, c1, s, 2, BinaryStringHelper.BinaryDigits(high, 32), BinaryStringHelper.BinaryDigits(low, 32));
    BinaryStringHelper.LongHalvesOfDigits(value);
    PatternSmall(64, value);
    BinaryStringHelper.BinaryStringOf(s, c0, value, 64);
  }
}
