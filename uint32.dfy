/**
 * UInt32Extensions.cs: bit access on `uint`. The operators act on the value
 * itself; shift counts are reduced `& 31`.
 */
module UInt32Extensions {
  import opened Bits
  import opened BitOps
  import BinaryStringHelper

  /** GetBit: `(value & (1u << index)) != 0`. */
  function GetBit(value: uint, index: int32): (r: bool)
    ensures r == Bit(value, index % 32)
  {
    TestBitIsBit(IntWidth, value, index % 32);
    TestBit(IntWidth, value, index % 32)
  }

  /** ResetBit: `value & ~(1u << index)`. */
  function ResetBit(value: uint, index: int32): (r: uint)
    ensures forall i :: 0 <= i < 32 ==> Bit(r, i) == (i != index % 32 && Bit(value, i))
  {
    Pow2Values();
    NarrowWithoutBit(IntWidth, IntWidth, value, index % 32);
    PatternSmall(IntWidth, WithoutBit(IntWidth, value, index % 32));
    WithoutBit(IntWidth, value, index % 32)
  }

  /** SetBit: `value | (1u << index)`. */
  function SetBit(value: uint, index: int32): (r: uint)
    ensures forall i :: 0 <= i < 32 ==> Bit(r, i) == (i == index % 32 || Bit(value, i))
  {
    Pow2Values();
    NarrowWithBit(IntWidth, IntWidth, value, index % 32);
    PatternSmall(IntWidth, WithBit(IntWidth, value, index % 32));
    WithBit(IntWidth, value, index % 32)
  }

  /** After SetBit(index) GetBit reads it as set, after ResetBit as clear; every other bit reads as before. */
  lemma GetBitAfterSetBit(value: uint, index: int32, other: int32)
    requires 0 <= index < 32
    ensures GetBit(SetBit(value, index), other) == (other % 32 == index || GetBit(value, other))
    ensures GetBit(ResetBit(value, index), other) == (other % 32 != index && GetBit(value, other))
  {
    DivMod(index, 32, 0, index);
    var k := other % 32;
    assert Bit(SetBit(value, index), k) == (k == index || Bit(value, k));
    assert Bit(ResetBit(value, index), k) == (k != index && Bit(value, k));
  }

  /** SignBit: `(value & 0x80000000u) != 0`. */
  function SignBit(value: uint): (r: bool)
    ensures r <==> value >= 0x8000_0000
  {
    Pow2Values();
    AndPow2(IntWidth, value, 31);
    TopBit(32, value);
    And(IntWidth, value, Pow2(31)) != 0
  }

  /** LeftMostBit: SignBit, bit 31. */
  function LeftMostBit(value: uint): (r: bool)
    ensures r <==> value >= 0x8000_0000
    ensures r == GetBit(value, 31)
  {
    Pow2Values();
    TopBit(32, value);
    SignBit(value)
  }

  /** RightMostBit: GetBit(0). */
  function RightMostBit(value: uint): (r: bool)
    ensures r <==> value % 2 == 1
  {
    GetBit(value, 0)
  }

  /** ToBinaryString: "0b" and the 32 digits of value, most significant first. */
  method ToBinaryString(value: uint) returns (s: string)
    ensures |s| == 34 && s[..2] == "0b"
    ensures s[2..] == BinaryStringHelper.BinaryDigits(value, 32)
    ensures BinaryStringHelper.BinaryValue(s[2..]) == value
  {
    var chars := new char[34];
    chars[0] := '0';
    chars[1] := 'b';
    ghost var c0 := chars[..];
    assert c0[..2] == "0b";
    BinaryStringHelper.WriteUInt32Chars(chars, 2, value);
    s := chars[..];
    BinaryStringHelper.BinaryStringOf(s, c0, value, 32);
    assert Pow2(32) == 0x1_0000_0000 by { Pow2Values(); }
    PatternSmall(32, value);
  }
}
