/**
 * ByteExtensions.cs: bit fields, nibbles, parity and the Z80-style flags of a
 * byte. C# promotes a `byte` operand of `&`, `|`, `~` and `<<` to a 32-bit
 * `int`, so those operations are written in 32 bits and the final `(byte)` cast
 * is `Pattern(8, ...)`; a shift count is reduced `& 31`, which is `% 32`.
 */
module ByteExtensions {
  import opened Bits
  import opened BitOps
  import opened CarryFlags
  import opened Errors
  import BinaryStringHelper

  /** CopyBitsFrom: `(byte)((input & ~mask) | (toCopyFrom & mask))`. */
  function CopyBitsFrom(input: byte, toCopyFrom: byte, mask: byte): (r: byte)
    ensures forall i :: 0 <= i < 8 ==> Bit(r, i) == if Bit(mask, i) then Bit(toCopyFrom, i) else Bit(input, i)
  {
    Pow2Byte();
    var r := Pattern(8, Merge(IntWidth, input, toCopyFrom, mask));
    forall i | 0 <= i < 8
      ensures Bit(r, i) == if Bit(mask, i) then Bit(toCopyFrom, i) else Bit(input, i)
    {
      BitModPow2(Merge(IntWidth, input, toCopyFrom, mask), 8, i);
      MergeBits(IntWidth, input, toCopyFrom, mask, i);
    }
    r
  }

  /** DidAdditionHalfCarry: `((left ^ right ^ sum) & 0b00010000) != 0`, the carry out of the low nibble. */
  function DidAdditionHalfCarry(sum: byte, left: byte, right: byte): (r: bool)
    ensures sum == (left + right) % 0x100 ==> (r <==> left % 0x10 + right % 0x10 >= 0x10)
  {
    Pow2Values();
    HalfCarryOfSum(8, 4, left, right);
    HalfCarry(8, 4, sum, left, right)
  }

  /** DidAdditionOverflow: `((sum ^ left) & (sum ^ right) & 0b10000000) != 0`. */
  function DidAdditionOverflow(sum: byte, left: byte, right: byte): (r: bool)
    ensures sum == (left + right) % 0x100 ==>
      (r <==> !(-0x80 <= ToSigned(8, left) + ToSigned(8, right) < 0x80))
  {
    Pow2Values();
    OverflowOfSum(8, left, right);
    AdditionOverflow(8, sum, left, right)
  }

  /** DidSubtractionHalfBorrow: the same formula as the half carry, the borrow into the low nibble. */
  function DidSubtractionHalfBorrow(difference: byte, left: byte, right: byte): (r: bool)
    ensures difference == (left - right) % 0x100 ==> (r <==> left % 0x10 < right % 0x10)
  {
    Pow2Values();
    HalfBorrowOfDifference(8, 4, left, right);
    HalfCarry(8, 4, difference, left, right)
  }

  /** DidSubtractionOverflow: `((left ^ right) & (difference ^ left) & 0b10000000) != 0`. */
  function DidSubtractionOverflow(difference: byte, left: byte, right: byte): (r: bool)
    ensures difference == (left - right) % 0x100 ==>
      (r <==> !(-0x80 <= ToSigned(8, left) - ToSigned(8, right) < 0x80))
  {
    Pow2Values();
    OverflowOfDifference(8, left, right);
    SubtractionOverflow(8, difference, left, right)
  }

  /** GetBit: `(value & (1 << index)) != 0`; an index of 8 to 31 (after `& 31`) finds no bit. */
  function GetBit(value: byte, index: int32): (r: bool)
    ensures r == Bit(value, index % 32)
    ensures r ==> index % 32 < 8
  {
    TestBitIsBit(IntWidth, value, index % 32);
    HighBitsClear(value, index % 32);
    TestBit(IntWidth, value, index % 32)
  }

  lemma HighBitsClear(value: byte, k: nat)
    ensures Bit(value, k) ==> k < 8
  {
    Pow2Byte();
    if k >= 8 {
      BitBound(value, 8, k);
    }
  }

  /** GetBitRangeMask: bits startInclusive to endInclusive, each bound checked to be 0 to 7. */
  function GetBitRangeMask(startInclusive: int32, endInclusive: int32): (r: Result<byte>)
    ensures r.Ok? <==> 0 <= startInclusive <= endInclusive <= 7
    ensures !r.Ok? ==> r.error == ArgumentOutOfRangeException
    ensures r.Ok? ==> forall i :: 0 <= i < 8 ==> Bit(r.value, i) == (startInclusive <= i <= endInclusive)
  {
    if startInclusive < 0 || startInclusive > 7 then Throws(ArgumentOutOfRangeException)
    else if endInclusive < 0 || endInclusive > 7 then Throws(ArgumentOutOfRangeException)
    else if endInclusive < startInclusive then Throws(ArgumentOutOfRangeException)
    else
      Pow2Byte();
      RangeMaskBound(8, startInclusive, endInclusive);
      Ok(RangeMask(startInclusive, endInclusive))
  }

  /** GetBits: `(byte)((value & mask) >> startInclusive)`. */
  function GetBits(value: byte, startInclusive: int32, endInclusive: int32): (r: Result<byte>)
    ensures r.Ok? <==> 0 <= startInclusive <= endInclusive <= 7
    ensures !r.Ok? ==> r.error == ArgumentOutOfRangeException
    ensures r.Ok? ==> r.value == Shr(value, startInclusive) % Pow2(endInclusive - startInclusive + 1)
  {
    match GetBitRangeMask(startInclusive, endInclusive)
    case Throws(e) => Throws(e)
    case Ok(mask) =>
      assert mask == RangeMask(startInclusive, endInclusive);
      var r := Shr(And(IntWidth, value, mask), startInclusive);
      FieldOfByte(value, startInclusive, endInclusive, r);
      Ok(Pattern(8, r))
  }

  lemma FieldOfByte(value: byte, s: nat, e: nat, r: nat)
    requires s <= e <= 7 && r == Shr(And(IntWidth, value, RangeMask(s, e)), s)
    ensures Pow2(8) == 0x100
    ensures r == Shr(value, s) % Pow2(e - s + 1) < 0x100
    ensures Pattern(8, r) == r
  {
    Pow2Byte();
    MaskedField(IntWidth, value, s, e);
    Pow2Le(e - s + 1, 8);
    PatternSmall(8, r);
  }

  /**
   * SetBits: `(byte)((original & ~mask(start, end)) | ((value & mask(0, end - start)) << start))`;
   * the first mask is the one validated.
   */
  function SetBits(original: byte, value: byte, startInclusive: int32, endInclusive: int32): (r: Result<byte>)
    ensures r.Ok? <==> 0 <= startInclusive <= endInclusive <= 7
    ensures !r.Ok? ==> r.error == ArgumentOutOfRangeException
    ensures r.Ok? ==> forall i :: 0 <= i < 8 ==>
      Bit(r.value, i) == if startInclusive <= i <= endInclusive then Bit(value, i - startInclusive) else Bit(original, i)
  {
    match GetBitRangeMask(startInclusive, endInclusive)
    case Throws(e) => Throws(e)
    case Ok(_) =>
      Pow2Byte();
      var placed := PlaceField(IntWidth, original, value, startInclusive, endInclusive);
      var r := Pattern(8, placed);
      forall i | 0 <= i < 8
        ensures Bit(r, i) == if startInclusive <= i <= endInclusive then Bit(value, i - startInclusive) else Bit(original, i)
      {
        BitModPow2(placed, 8, i);
        PlaceFieldBits(IntWidth, original, value, startInclusive, endInclusive, i);
      }
      Ok(r)
  }

  /** Reading a field back after writing it gives the low bits of what was written. */
  lemma GetBitsAfterSetBits(original: byte, value: byte, s: int32, e: int32)
    requires 0 <= s <= e <= 7
    ensures SetBits(original, value, s, e).Ok?
    ensures GetBits(SetBits(original, value, s, e).value, s, e) == Ok(value % Pow2(e - s + 1))
  {
    var r := SetBits(original, value, s, e).value;
    FieldReadBack(r, original, value, s, e);
  }

  lemma FieldReadBack(r: byte, original: byte, value: byte, s: nat, e: nat)
    requires s <= e <= 7
    requires forall i :: 0 <= i < 8 ==> Bit(r, i) == if s <= i <= e then Bit(value, i - s) else Bit(original, i)
    ensures Shr(r, s) % Pow2(e - s + 1) == value % Pow2(e - s + 1)
  {
    var a := Shr(r, s) % Pow2(e - s + 1);
    var b := value % Pow2(e - s + 1);
    Pow2Byte();
    Pow2Le(e - s + 1, 8);
    forall i | 0 <= i < 8
      ensures Bit(a, i) == Bit(b, i)
    {
      BitModPow2(Shr(r, s), e - s + 1, i);
      BitModPow2(value, e - s + 1, i);
      BitDivPow2(r, s, i);
    }
    Ext(8, a, b);
  }

  /** Writing a field leaves the rest of the byte as it was. */
  lemma SetBitsKeepsOtherBits(original: byte, value: byte, s: int32, e: int32, other: int32)
    requires 0 <= s <= e <= 7 && 0 <= other < 8 && !(s <= other <= e)
    ensures SetBits(original, value, s, e).Ok?
    ensures GetBit(SetBits(original, value, s, e).value, other) == GetBit(original, other)
  {
    var r := SetBits(original, value, s, e).value;
    DivMod(other, 32, 0, other);
    assert Bit(r, other) == Bit(original, other);
  }

  /** HighNibble: `(byte)((value & 0b11110000) >> 4)`. */
  function HighNibble(value: byte): (r: byte)
    ensures r == value / 0x10
  {
    Pow2Values();
    MaskedField(IntWidth, value, 4, 7);
    var r := Shr(And(IntWidth, value, 0xF0), 4);
    DivMod(value / 0x10, 0x10, 0, value / 0x10);
    r
  }

  /** LowNibble: `(byte)(value & 0b00001111)`. */
  function LowNibble(value: byte): (r: byte)
    ensures r == value % 0x10
    ensures 0x10 * HighNibble(value) + r == value
  {
    NibbleMask(value);
    And(IntWidth, value, 0x0F)
  }

  /** SetHighNibble: `(byte)((value & 0b00001111) | (nibble << 4))`. */
  function SetHighNibble(value: byte, nibble: byte): (r: byte)
    ensures r == 0x10 * (nibble % 0x10) + value % 0x10
  {
    NibbleMask(value);
    var low := And(IntWidth, value, 0x0F);
    var high := Shl(IntWidth, nibble, 4);
    NibbleJoin(low, nibble);
    Pattern(8, Or(IntWidth, low, high))
  }

  /** SetLowNibble: `(byte)((value & 0b11110000) | (nibble & 0b00001111))`. */
  function SetLowNibble(value: byte, nibble: byte): (r: byte)
    ensures r == 0x10 * (value / 0x10) + nibble % 0x10
  {
    var low := And(IntWidth, nibble, 0x0F);
    NibbleMask(nibble);
    LowNibbleJoin(value, low);
    Or(IntWidth, And(IntWidth, value, 0xF0), low)
  }

  lemma NibbleMask(value: byte)
    ensures And(IntWidth, value, 0x0F) == value % 0x10
  {
    Pow2Values();
    AndLowMask(IntWidth, value, 4);
  }

  lemma HighNibbleMask(value: byte)
    ensures And(IntWidth, value, 0xF0) == 0x10 * (value / 0x10)
  {
    Pow2Values();
    assert RangeMask(4, 7) == 0xF0;
    AndRangeMask(IntWidth, value, 4, 7);
    DivMod(value / 0x10, 0x10, 0, value / 0x10);
  }

  lemma NibbleJoin(low: nat, nibble: byte)
    requires low < 0x10
    ensures Pattern(8, Or(IntWidth, low, Shl(IntWidth, nibble, 4))) == 0x10 * (nibble % 0x10) + low < 0x100
  {
    Pow2Values();
    Pow2Le(12, IntWidth);
    Pow2Add(4, 8);
    DivMod(nibble * 0x10, Pow2(IntWidth), 0, nibble * 0x10);
    OrShifted(IntWidth, low, nibble, 4);
    var q, r := nibble / 0x10, nibble % 0x10;
    DivMod(low + nibble * 0x10, 0x100, q, low + 0x10 * r);
  }

  lemma LowNibbleJoin(value: byte, low: nat)
    requires low < 0x10
    ensures Or(IntWidth, And(IntWidth, value, 0xF0), low) == 0x10 * (value / 0x10) + low < 0x100
  {
    Pow2Values();
    var h := value / 0x10;
    DivMod(value, 0x10, h, value % 0x10);
    HighNibbleMask(value);
    OrComm(IntWidth, 0x10 * h, low);
    Pow2Le(8, IntWidth);
    assert h * Pow2(4) == 0x10 * h;
    assert low + h * Pow2(4) < Pow2(IntWidth);
    OrShifted(IntWidth, low, h, 4);
  }

  /** Each nibble setter keeps the other nibble and stores the low four bits of its argument. */
  lemma NibbleRoundTrip(value: byte, nibble: byte)
    ensures HighNibble(SetHighNibble(value, nibble)) == nibble % 0x10
    ensures LowNibble(SetHighNibble(value, nibble)) == LowNibble(value)
    ensures LowNibble(SetLowNibble(value, nibble)) == nibble % 0x10
    ensures HighNibble(SetLowNibble(value, nibble)) == HighNibble(value)
  {
    var h := SetHighNibble(value, nibble);
    DivMod(h, 0x10, nibble % 0x10, value % 0x10);
    var l := SetLowNibble(value, nibble);
    DivMod(l, 0x10, value / 0x10, nibble % 0x10);
  }

  /** LeftMostBit: `GetBit(7)`. */
  function LeftMostBit(value: byte): (r: bool)
    ensures r <==> value >= 0x80
  {
    Pow2Byte();
    TopBit(8, value);
    GetBit(value, 7)
  }

  /** SignBit: `GetBit(7)`. */
  function SignBit(value: byte): (r: bool)
    ensures r <==> ToSigned(8, value) < 0
  {
    Pow2Byte();
    TopBit(8, value);
    GetBit(value, 7)
  }

  /** RightMostBit: `GetBit(0)`. */
  function RightMostBit(value: byte): (r: bool)
    ensures r <==> value % 2 == 1
  {
    GetBit(value, 0)
  }

  /** Parity: `(BitOperations.PopCount(value) & 1) == 0`, where the byte is widened to `uint`. */
  function Parity(value: byte): (r: bool)
    ensures r <==> |Ones(8, value)| % 2 == 0
  {
    ParityOfCount(value, PopCount(IntWidth, value));
    And(IntWidth, PopCount(IntWidth, value), 1) == 0
  }

  lemma ParityOfCount(value: byte, count: nat)
    requires count == PopCount(IntWidth, value)
    ensures (And(IntWidth, count, 1) == 0) <==> |Ones(8, value)| % 2 == 0
  {
    CountOfOnes(value);
    LowBitOfCount(count);
  }

  lemma CountOfOnes(value: byte)
    ensures PopCount(IntWidth, value) == |Ones(8, value)|
  {
    Pow2Byte();
    Pow2Le(8, IntWidth);
    PopCountSmall(IntWidth, 8, value);
    PopCountOnes(8, value);
  }

  lemma LowBitOfCount(count: nat)
    ensures And(IntWidth, count, 1) == count % 2
  {
    assert Pow2(1) == 2;
    AndLowMask(IntWidth, count, 1);
  }

  /** ResetBit: `(byte)(value & ~(1 << index))`. */
  function ResetBit(value: byte, index: int32): (r: byte)
    ensures forall i :: 0 <= i < 8 ==> Bit(r, i) == (i != index % 32 && Bit(value, i))
  {
    Pow2Byte();
    var w := WithoutBit(IntWidth, value, index % 32);
    forall i | 0 <= i < 8
      ensures Bit(Pattern(8, w), i) == (i != index % 32 && Bit(value, i))
    {
      BitModPow2(w, 8, i);
      WithoutBitBits(IntWidth, value, index % 32, i);
    }
    Pattern(8, w)
  }

  /** SetBit: `(byte)(value | (1 << index))`. */
  function SetBit(value: byte, index: int32): (r: byte)
    ensures forall i :: 0 <= i < 8 ==> Bit(r, i) == (i == index % 32 || Bit(value, i))
  {
    Pow2Byte();
    var w := WithBit(IntWidth, value, index % 32);
    forall i | 0 <= i < 8
      ensures Bit(Pattern(8, w), i) == (i == index % 32 || Bit(value, i))
    {
      BitModPow2(w, 8, i);
      WithBitBits(IntWidth, value, index % 32, i);
    }
    Pattern(8, w)
  }

  /** After SetBit the bit reads as set and after ResetBit as clear; every other bit reads as before. */
  lemma GetBitAfterSetBit(value: byte, index: int32, other: int32)
    requires 0 <= index < 8
    ensures GetBit(SetBit(value, index), other) == (other % 32 == index || GetBit(value, other))
    ensures GetBit(ResetBit(value, index), other) == (other % 32 != index && GetBit(value, other))
  {
    var k := other % 32;
    var set1, reset := SetBit(value, index), ResetBit(value, index);
    DivMod(index, 32, 0, index);
    if k < 8 {
      assert Bit(set1, k) == (k == index || Bit(value, k));
      assert Bit(reset, k) == (k != index && Bit(value, k));
    } else {
      HighBitsClear(set1, k);
      HighBitsClear(reset, k);
      HighBitsClear(value, k);
    }
  }

  /** Toggling one bit changes the parity. */
  lemma ParityOfSetBit(value: byte, index: int32)
    requires 0 <= index < 8 && !GetBit(value, index)
    ensures Parity(SetBit(value, index)) != Parity(value)
  {
    var r := SetBit(value, index);
    DivMod(index, 32, 0, index);
    forall j: nat
      ensures j in Ones(8, r) <==> j in Ones(8, value) + {index as nat}
    {
      if j < 8 {
        assert Bit(r, j) == (j == index || Bit(value, j));
      }
    }
    assert Ones(8, r) == Ones(8, value) + {index as nat};
    assert index as nat !in Ones(8, value);
    var a := |Ones(8, value)|;
    assert |Ones(8, r)| == a + 1;
    assert Parity(value) <==> a % 2 == 0;
    assert Parity(r) <==> (a + 1) % 2 == 0;
    DivMod(a + 1, 2, a / 2 + a % 2, 1 - a % 2);
  }

  /** ToBinaryString: "0b" and the eight digits written by WriteByteChars. */
  method ToBinaryString(value: byte) returns (s: string)
    ensures |s| == 10 && s[..2] == "0b"
    ensures s[2..] == BinaryStringHelper.BinaryDigits(value, 8)
    ensures BinaryStringHelper.BinaryValue(s[2..]) == value
  {
    var chars := new char[10];
    chars[0] := '0';
    chars[1] := 'b';
    ghost var c0 := chars[..];
    assert c0[..2] == "0b";
    BinaryStringHelper.WriteByteChars(chars, 2, value);
    s := chars[..];
    BinaryStringHelper.BinaryStringOf(s, c0, value, 8);
    Pow2Byte();
  }
}
