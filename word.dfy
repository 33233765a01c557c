/**
 * WordExtensions.cs: `ushort` treated as a machine word. The bit tests, the byte
 * split and the flag helpers are the expressions of UShortExtensions.cs; what is
 * new is composing a word from two bytes, appending one to a collection and
 * reading one from a list. ToWord takes its two bytes in memory order: for
 * little endian the byte named `msb` becomes the low byte.
 */
module WordExtensions {
  import opened Bits
  import opened BitOps
  import opened Endianness
  import UShortExtensions
  import ByteICollectionExtensions

  function GetBit(value: ushort, index: int32): (r: bool)
    ensures r == Bit(value, index % 32)
  {
    UShortExtensions.GetBit(value, index)
  }

  function MostSignificantByte(value: ushort): (b: byte)
    ensures b == value / 0x100
  {
    var b := UShortExtensions.MostSignificantByte(value);
    DivMod(value, 0x100, b, value - 0x100 * b);
    b
  }

  function LeastSignificantByte(value: ushort): (b: byte)
    ensures b == value % 0x100
  {
    UShortExtensions.LeastSignificantByte(value)
  }

  function ToBytes(value: ushort): (r: (byte, byte))
    ensures r == (value / 0x100, value % 0x100)
  {
    (MostSignificantByte(value), LeastSignificantByte(value))
  }

  function SignBit(value: ushort): (r: bool)
    ensures r <==> value >= 0x8000
  {
    UShortExtensions.SignBit(value)
  }

  /** ToWord(endian, msb, lsb): `(ushort)(msb | lsb << 8)` for little endian, `(ushort)(lsb | msb << 8)` for big. */
  function ToWord(e: Endian, msb: byte, lsb: byte): (w: ushort)
    ensures e == Little ==> w == msb as int + 0x100 * lsb as int
    ensures e == Big ==> w == lsb as int + 0x100 * msb as int
  {
    var low, high := if e == Little then msb else lsb, if e == Little then lsb else msb;
    Pow2Values();
    Pow2Le(16, IntWidth);
    ShiftOr(IntWidth, low, high, 8);
    PatternSmall(16, low + 0x100 * high);
    Pattern(16, Or(IntWidth, low, Shl(IntWidth, high, 8)))
  }

  /** ToWord on a (Msb, Lsb) tuple, little endian unless another is given. */
  function ToWordOfBytes(bytes: (byte, byte), e: Endian := Little): (w: ushort)
    ensures w == ToWord(e, bytes.0, bytes.1)
  {
    ToWord(e, bytes.0, bytes.1)
  }

  /** ToWord reads its two bytes as the two-byte encoding in the given order. */
  lemma ToWordIsDecode(e: Endian, msb: byte, lsb: byte)
    ensures ToWord(e, msb, lsb) == Decode(UInt16, [msb, lsb], e)
  {
    LittleValue2(msb, lsb);
    LittleValue2(lsb, msb);
    assert Reverse([msb, lsb]) == [lsb, msb];
    Pow2Values();
  }

  /** ToBytes and big-endian ToWord are inverse; little endian wants the bytes swapped. */
  lemma ToWordOfToBytes(value: ushort)
    ensures ToWordOfBytes(ToBytes(value), Big) == value
    ensures ToWord(Little, LeastSignificantByte(value), MostSignificantByte(value)) == value
  {
  }

  lemma ToBytesOfToWord(msb: byte, lsb: byte)
    ensures ToBytes(ToWord(Big, msb, lsb)) == (msb, lsb)
    ensures ToBytes(ToWord(Little, msb, lsb)) == (lsb, msb)
  {
    DivMod(ToWord(Big, msb, lsb), 0x100, msb, lsb);
    DivMod(ToWord(Little, msb, lsb), 0x100, lsb, msb);
  }

  /** AddWord: lsb then msb for little endian, msb then lsb for big. */
  method AddWord(bytes: ByteICollectionExtensions.ByteCollection, value: ushort, e: Endian := Little)
    modifies bytes
    ensures e == Little ==> bytes.Items == old(bytes.Items) + [value % 0x100, value / 0x100]
    ensures e == Big ==> bytes.Items == old(bytes.Items) + [value / 0x100, value % 0x100]
    ensures bytes.Items == old(bytes.Items) + Encode(UInt16, value, e)
  {
    var (msb, lsb) := ToBytes(value);
    if e == Little {
      bytes.Add(lsb);
      bytes.Add(msb);
    } else {
      bytes.Add(msb);
      bytes.Add(lsb);
    }
    ByteICollectionExtensions.UInt16Bytes(value, msb, lsb);
  }

  /**
   * GetWord(List, index[, endian]): the two-byte read of the list's span from
   * `index`, little endian unless another is given.
   */
  function GetWord(bytes: seq<byte>, index: nat, e: Endian := Little): (w: ushort)
    requires index + 2 <= |bytes|
    ensures w == Decode(UInt16, bytes[index..index + 2], e)
    ensures e == Little ==> w == bytes[index] as int + 0x100 * bytes[index + 1] as int
    ensures e == Big ==> w == bytes[index + 1] as int + 0x100 * bytes[index] as int
  {
    var s := bytes[index..index + 2];
    assert s == [bytes[index], bytes[index + 1]];
    ToWordIsDecode(e, bytes[index], bytes[index + 1]);
    Decode(UInt16, s, e)
  }

  /** A word appended with AddWord reads back with GetWord at the old Count in the same order. */
  lemma GetWordAfterAddWord(items: seq<byte>, value: ushort, e: Endian)
    ensures GetWord(items + Encode(UInt16, value, e), |items|, e) == value
  {
    Pow2Values();
    assert UInt16.Holds(value);
    ByteICollectionExtensions.GetAfterAdd(UInt16, value, e, items);
  }

  function DidAdditionHalfCarry(sum: ushort, left: ushort, right: ushort): (r: bool)
    ensures sum == (left + right) % 0x1_0000 ==> (r <==> left % 0x1000 + right % 0x1000 >= 0x1000)
  {
    UShortExtensions.DidAdditionHalfCarry(sum, left, right)
  }

  function DidAdditionOverflow(sum: ushort, left: ushort, right: ushort): (r: bool)
    ensures sum == (left + right) % 0x1_0000 ==>
      (r <==> !(-0x8000 <= ToSigned(16, left) + ToSigned(16, right) < 0x8000))
  {
    Pow2Values();
    UShortExtensions.DidAdditionOverflow(sum, left, right)
  }

  function DidSubtractionHalfBorrow(difference: ushort, left: ushort, right: ushort): (r: bool)
    ensures difference == (left - right) % 0x1_0000 ==> (r <==> left % 0x1000 < right % 0x1000)
  {
    UShortExtensions.DidSubtractionHalfBorrow(difference, left, right)
  }

  function DidSubtractionOverflow(difference: ushort, left: ushort, right: ushort): (r: bool)
    ensures difference == (left - right) % 0x1_0000 ==>
      (r <==> !(-0x8000 <= ToSigned(16, left) - ToSigned(16, right) < 0x8000))
  {
    Pow2Values();
    UShortExtensions.DidSubtractionOverflow(difference, left, right)
  }
}
