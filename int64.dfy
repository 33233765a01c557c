/**
 * Int64Extensions.cs: bit access on `long`, on the 64-bit two's-complement
 * pattern of the value. Shift counts are reduced `& 63`.
 */
module Int64Extensions {
  import opened Bits
  import opened BitOps
  import BinaryStringHelper

  /** GetBit: `(value & (1L << index)) != 0`. */
  function GetBit(value: long, index: int32): (r: bool)
    ensures r == Bit(Pattern(64, value), index % 64)
  {
    TestBitIsBit(LongWidth, Pattern(LongWidth, value), index % 64);
    TestBit(LongWidth, Pattern(LongWidth, value), index % 64)
  }

  /** ResetBit: `value & ~(1L << index)`. */
  function ResetBit(value: long, index: int32): (r: long)
    ensures forall i :: 0 <= i < 64 ==> Bit(Pattern(64, r), i) == (i != index % 64 && Bit(Pattern(64, value), i))
  {
    Pow2Values();
    var w := WithoutBit(LongWidth, Pattern(LongWidth, value), index % 64);
    SignedWithoutBit(LongWidth, value, index % 64);
    ToSignedRange(LongWidth, w);
    ToSigned(LongWidth, w)
  }

  /** SetBit: `value | (1L << index)`. */
  function SetBit(value: long, index: int32): (r: long)
    ensures forall i :: 0 <= i < 64 ==> Bit(Pattern(64, r), i) == (i == index % 64 || Bit(Pattern(64, value), i))
  {
    Pow2Values();
    var w := WithBit(LongWidth, Pattern(LongWidth, value), index % 64);
    SignedWithBit(LongWidth, value, index % 64);
    ToSignedRange(LongWidth, w);
    ToSigned(LongWidth, w)
  }

  /** After SetBit(index) GetBit reads it as set, after ResetBit as clear; every other bit reads as before. */
  lemma GetBitAfterSetBit(value: long, index: int32, other: int32)
    requires 0 <= index < 64
    ensures GetBit(SetBit(value, index), other) == (other % 64 == index || GetBit(value, other))
    ensures GetBit(ResetBit(value, index), other) == (other % 64 != index && GetBit(value, other))
  {
    DivMod(index, 64, 0, index);
    var k := other % 64;
    assert Bit(Pattern(64, SetBit(value, index)), k) == (k == index || Bit(Pattern(64, value), k));
    assert Bit(Pattern(64, ResetBit(value, index)), k) == (k != index && Bit(Pattern(64, value), k));
  }

  /** SignBit: `(value & unchecked((long)0x8000000000000000)) != 0`. */
  function SignBit(value: long): (r: bool)
    ensures r <==> value < 0
  {
    Pow2Values();
    AndPow2(LongWidth, Pattern(LongWidth, value), 63);
    SignAndParity(64, value);
    And(LongWidth, Pattern(LongWidth, value), Pow2(63)) != 0
  }

  /** LeftMostBit: SignBit, bit 63. */
  function LeftMostBit(value: long): (r: bool)
    ensures r <==> value < 0
    ensures r == GetBit(value, 63)
  {
    Pow2Values();
    SignAndParity(64, value);
    SignBit(value)
  }

  /** RightMostBit: GetBit(0). */
  function RightMostBit(value: long): (r: bool)
    ensures r <==> value % 2 == 1
  {
    Pow2Values();
    SignAndParity(64, value);
    GetBit(value, 0)
  }

  /**
   * ToBinaryString: "0b", then the 32 digits of `(uint)(value >> 32)`, then
   * those of `(uint)value`: the 64 digits of the pattern, which read back as a
   * `long` give value.
   */
  method ToBinaryString(value: long) returns (s: string)
    ensures |s| == 66 && s[..2] == "0b"
    ensures s[2..] == BinaryStringHelper.BinaryDigits(Pattern(64, value), 64)
    ensures ToSigned(64, BinaryStringHelper.BinaryValue(s[2..]) % Pow2(64)) == value
  {
    var chars := new char[66];
    chars[0] := '0';
    chars[1] := 'b';
    ghost var c0 := chars[..];
    assert c0[..2] == "0b";
    Pow2Values();
    var high, low := Pattern(32, Asr(value, 32)), Pattern(32, value);
    BinaryStringHelper.WriteUInt32Chars(chars, 2, high);
    ghost var c1 := chars[..];
    BinaryStringHelper.WriteUInt32Chars(chars, 34, low);
    s := chars[..];
    BinaryStringHelper.TwoWrites(c0, c1, s, 2, BinaryStringHelper.BinaryDigits(high, 32), BinaryStringHelper.BinaryDigits(low, 32));
    BinaryStringHelper.LongHalvesOfDigits(value);
    BinaryStringHelper.BinaryStringOf(s, c0, Pattern(64, value), 64);
    PatternSmall(64, Pattern(64, value));
    SignedOfPattern(64, value);
  }
}
