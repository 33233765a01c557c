/**
 * ByteIListExtensions.cs: reading and writing the integer types at an index of
 * an `IList<byte>` with explicit shift-or and mask-shift expressions. The list's
 * elements are `bytes`; a write assigns elements and never changes the count, so
 * a writable list is an array here.
 *
 * `GetInt64` as the source writes it combines the first four bytes as an `int`
 * and then widens that `int` to `long`, which copies bit 31 into bits 32 to 63
 * before the remaining bytes are or-ed in. `GetInt64AsWritten` models that
 * expression; `GetInt64` is the intended read, and `Get` uses it.
 */
module ByteIListExtensions {
  import opened Bits
  import opened Endianness
  import UShortExtensions
  import ByteSpanExtensions

  /**
   * The n bytes at `index`, least significant first: the order in which the
   * shift-or expressions take them (`bytes[index]` first for little endian,
   * `bytes[index + n - 1]` first for big endian).
   */
  function Ordered(bytes: seq<byte>, index: nat, n: nat, e: Endian): (s: seq<byte>)
    requires index + n <= |bytes|
    ensures |s| == n
    ensures LittleValue(s) == Value(e, bytes[index..index + n])
  {
    var w := bytes[index..index + n];
    if e == Little then w else Reverse(w)
  }

  /**
   * GetInt16 … GetUInt64 and GetUInt24, little or big endian: the bytes or-ed
   * together least significant first, `b0 | b1 << 8 | …`, in `int` arithmetic
   * (in `ulong` arithmetic for UInt64), then cast to the result type:
   * `(short)` and `(ushort)` keep the low 16 bits, `(uint)` and the unchecked
   * `UInt24` constructor keep the pattern, and `int` reads it as signed.
   * Int64 is the intended read, see GetInt64.
   */
  function Get(t: IntegerType, bytes: seq<byte>, index: nat, e: Endian): (v: int)
    requires index + t.Size() <= |bytes|
    ensures v == Decode(t, bytes[index..index + t.Size()], e)
  {
    if t == Int64 then GetInt64(bytes, index, e)
    else
      var s := Ordered(bytes, index, t.Size(), e);
      var u := ShiftOrBytes(if t == UInt64 then 64 else 32, s);
      SignedDecode(t, bytes[index..index + t.Size()], e, u);
      var p := if t.Size() == 2 then (PatternSmall(16, u); Pattern(16, u)) else u;
      t.FromPattern(p)
  }

  /** GetInt64 as intended: all eight bytes or-ed in 64-bit arithmetic. */
  function GetInt64(bytes: seq<byte>, index: nat, e: Endian): (v: int)
    requires index + 8 <= |bytes|
    ensures v == Decode(Int64, bytes[index..index + 8], e)
  {
    var s := Ordered(bytes, index, 8, e);
    LittleValueBound(s);
    var u := ShiftOrBytes(64, s);
    SignedDecode(Int64, bytes[index..index + 8], e, u);
    ToSigned(64, u)
  }

  /**
   * GetInt64 as the source writes it: `b0 | b1 << 8 | b2 << 16 | b3 << 24` is an
   * `int`; or-ing it with `(long)b4 << 32` widens it to `long` by sign extension;
   * then `(long)b5 << 40`, `(long)b6 << 48` and `(long)b7 << 56` are or-ed in.
   */
  function GetInt64AsWritten(bytes: seq<byte>, index: nat, e: Endian): (v: int)
    requires index + 8 <= |bytes|
    ensures -0x8000_0000_0000_0000 <= v < 0x8000_0000_0000_0000
  {
    var s := Ordered(bytes, index, 8, e);
    LittleValueBound(s[..4]);
    Pow2Values();
    var low := ToSigned(32, ShiftOrBytes(32, s[..4]));
    var u := OrBytes(64, Pattern(64, low), s[4..], 4);
    OrBytesBound(64, Pattern(64, low), s[4..], 4);
    ToSignedRange(64, u);
    ToSigned(64, u)
  }

  /** The byte whose top bit decides the defect: the fourth least significant. */
  function SignByteOfLowHalf(bytes: seq<byte>, index: nat, e: Endian): byte
    requires index + 8 <= |bytes|
  {
    if e == Little then bytes[index + 3] else bytes[index + 4]
  }

  /** While that byte is below 0x80, the widening adds no bits and the read is right. */
  lemma GetInt64AsWrittenAgrees(bytes: seq<byte>, index: nat, e: Endian)
    requires index + 8 <= |bytes|
    requires SignByteOfLowHalf(bytes, index, e) < 0x80
    ensures GetInt64AsWritten(bytes, index, e) == GetInt64(bytes, index, e)
  {
    var s := Ordered(bytes, index, 8, e);
    SignByteInOrder(bytes, index, e);
    WidenedLowHalf(s);
  }

  /** The sign byte is the fourth of the eight bytes taken least significant first. */
  lemma SignByteInOrder(bytes: seq<byte>, index: nat, e: Endian)
    requires index + 8 <= |bytes|
    ensures Ordered(bytes, index, 8, e)[3] == SignByteOfLowHalf(bytes, index, e)
  {
  }

  /** With bit 31 clear, widening the low `int` and or-ing in the high bytes gives the value of all eight. */
  lemma WidenedLowHalf(s: seq<byte>)
    requires |s| == 8 && s[3] < 0x80
    ensures LittleValue(s[..4]) < Pow2(32)
      && OrBytes(64, Pattern(64, ToSigned(32, LittleValue(s[..4]))), s[4..], 4) == LittleValue(s)
  {
    var l := s[..4];
    assert l[3] == s[3];
    NonNegativeLowHalf(l);
    OrBytesValue(64, LittleValue(l), s[4..], 4);
    LittleValueSplit(s, 4);
  }

  /** Four bytes whose last is below 0x80 read as a non-negative `int`, widened unchanged. */
  lemma NonNegativeLowHalf(l: seq<byte>)
    requires |l| == 4 && l[3] < 0x80
    ensures LittleValue(l) < Pow2(32)
    ensures Pattern(64, ToSigned(32, LittleValue(l))) == LittleValue(l)
  {
    var low := LittleValue(l);
    LittleValueBound(l);
    TopBitOfLittle(l);
    Pow2Values();
    TopBit(32, low);
    Pow2Le(32, 64);
    PatternSmall(64, low);
  }

  /**
   * Once that byte is 0x80 or more, bits 32 to 63 are all ones whatever the other
   * bytes hold: the result is the `int` read of the low four bytes, a negative number.
   */
  lemma GetInt64AsWrittenSignExtends(bytes: seq<byte>, index: nat, e: Endian)
    requires index + 8 <= |bytes|
    requires SignByteOfLowHalf(bytes, index, e) >= 0x80
    ensures GetInt64AsWritten(bytes, index, e) == LittleValue(Ordered(bytes, index, 8, e)[..4]) - 0x1_0000_0000
    ensures GetInt64AsWritten(bytes, index, e) < 0
  {
    var s := Ordered(bytes, index, 8, e);
    var l := s[..4];
    assert l[3] == SignByteOfLowHalf(bytes, index, e);
    NegativeLowHalf(l);
    var w := SignExtended(LittleValue(l));
    assert Pattern(64, ToSigned(32, ShiftOrBytes(32, l))) == w;
    OrBytesOnes(64, w, s[4..], 4);
    assert GetInt64AsWritten(bytes, index, e) == ToSigned(64, w);
    assert Pow2(63) == 0x8000_0000_0000_0000 && Pow2(64) == 0x1_0000_0000_0000_0000 by { Pow2Values(); }
  }

  /** In that case the result is what GetInt32 reads from the four low-order bytes. */
  lemma GetInt64AsWrittenReadsInt32(bytes: seq<byte>, index: nat, e: Endian)
    requires index + 8 <= |bytes|
    requires SignByteOfLowHalf(bytes, index, e) >= 0x80
    ensures GetInt64AsWritten(bytes, index, e) == Get(Int32, bytes, if e == Little then index else index + 4, e)
  {
    var l := Ordered(bytes, index, 8, e)[..4];
    var j := if e == Little then index else index + 4;
    assert l == Ordered(bytes, j, 4, e);
    assert l[3] == SignByteOfLowHalf(bytes, index, e);
    NegativeLowHalf(l);
    GetInt64AsWrittenSignExtends(bytes, index, e);
  }

  /** A 32-bit pattern with bits 32 to 63 set. */
  function SignExtended(low: nat): nat
  {
    low + 0xFFFF_FFFF_0000_0000
  }

  /**
   * Four bytes whose last is 0x80 or more read as a negative `int`; widened to
   * `long`, its pattern has all of bits 32 to 63 set.
   */
  lemma NegativeLowHalf(l: seq<byte>)
    requires |l| == 4 && l[3] >= 0x80
    ensures 0x8000_0000 <= LittleValue(l) < Pow2(32) == 0x1_0000_0000
    ensures Pattern(64, ToSigned(32, LittleValue(l))) == SignExtended(LittleValue(l))
    ensures forall i :: 32 <= i < 64 ==> Bit(SignExtended(LittleValue(l)), i)
  {
    var low := LittleValue(l);
    LittleValueBound(l);
    TopBitOfLittle(l);
    Pow2Values();
    TopBit(32, low);
    var widened := low + (Pow2(32) - 1) * Pow2(32);
    assert widened == low + 0xFFFF_FFFF_0000_0000;
    DivMod(low - Pow2(32), Pow2(64), -1, widened);
    forall i | 32 <= i < 64
      ensures Bit(widened, i)
    {
      BitAddMul(low, Pow2(32) - 1, 32, i);
      BitLowMask(32, i - 32);
    }
  }

  /**
   * Reading back what SetInt64 wrote: the as-written read returns the value
   * exactly when bit 31 of the value is clear or the value is a negative `int`.
   */
  lemma GetInt64AsWrittenRoundTrip(v: long, e: Endian, memory: seq<byte>, index: nat)
    requires index + 8 <= |memory|
    ensures GetInt64AsWritten(Splice(memory, index, Encode(Int64, v, e)), index, e) == v
        <==> Pattern(32, v) < 0x8000_0000 || -0x8000_0000 <= v < 0
  {
    var m := Splice(memory, index, Encode(Int64, v, e));
    WrittenLowHalf(v, e, memory, index);
    if SignByteOfLowHalf(m, index, e) < 0x80 {
      RoundTripWithBit31Clear(v, e, memory, index);
    } else {
      GetInt64AsWrittenSignExtends(m, index, e);
      SignExtendedIsValue(v, LittleValue(Ordered(m, index, 8, e)[..4]));
    }
  }

  lemma RoundTripWithBit31Clear(v: long, e: Endian, memory: seq<byte>, index: nat)
    requires index + 8 <= |memory|
    requires SignByteOfLowHalf(Splice(memory, index, Encode(Int64, v, e)), index, e) < 0x80
    ensures GetInt64AsWritten(Splice(memory, index, Encode(Int64, v, e)), index, e) == v
  {
    var m := Splice(memory, index, Encode(Int64, v, e));
    GetInt64AsWrittenAgrees(m, index, e);
    assert Int64.Holds(v) by { Pow2Values(); }
    ReadBack(Int64, v, e, memory, index);
  }

  /** A low half of 0x80000000 or more, read as a negative `int`, is the value exactly when the value is a negative `int`. */
  lemma SignExtendedIsValue(v: long, low: int)
    requires low == Pattern(32, v) && low >= 0x8000_0000
    ensures low - 0x1_0000_0000 == v <==> -0x8000_0000 <= v < 0
  {
    assert Pow2(32) == 0x1_0000_0000 by { Pow2Values(); }
    if -0x8000_0000 <= v < 0 {
      DivMod(v, Pow2(32), -1, v + 0x1_0000_0000);
    }
  }

  /** After SetInt64, the low four bytes in order hold the low 32 bits of the value. */
  lemma WrittenLowHalf(v: long, e: Endian, memory: seq<byte>, index: nat)
    requires index + 8 <= |memory|
    ensures LittleValue(Ordered(Splice(memory, index, Encode(Int64, v, e)), index, 8, e)[..4]) == Pattern(32, v)
    ensures SignByteOfLowHalf(Splice(memory, index, Encode(Int64, v, e)), index, e) >= 0x80 <==> Pattern(32, v) >= 0x8000_0000
  {
    var m := Splice(memory, index, Encode(Int64, v, e));
    var s := Ordered(m, index, 8, e);
    WrittenInOrder(v, e, memory, index);
    SignByteInOrder(m, index, e);
    LowHalfOfBytes(v, s);
    var l := s[..4];
    assert l[3] == s[3];
    TopWeightOfLittle(l);
    assert Pow2(31) == 0x8000_0000 by { Pow2Values(); }
  }

  /** After SetInt64, the eight bytes in order are the bytes of the value, least significant first. */
  lemma WrittenInOrder(v: long, e: Endian, memory: seq<byte>, index: nat)
    requires index + 8 <= |memory|
    ensures Ordered(Splice(memory, index, Encode(Int64, v, e)), index, 8, e) == LittleBytes(Pattern(64, v), 8)
  {
    if e == Big {
      ReverseReverse(LittleBytes(Pattern(64, v), 8));
    }
  }

  /** The first four of the eight bytes of v, least significant first, stand for the low 32 bits of v. */
  lemma LowHalfOfBytes(v: int, s: seq<byte>)
    requires s == LittleBytes(Pattern(64, v), 8)
    ensures LittleValue(s[..4]) == Pattern(32, v)
  {
    var p := Pattern(64, v);
    LittleValueOfBytes(p, 8);
    PatternSmall(64, p);
    LittleValueSplit(s, 4);
    LittleValueBound(s[..4]);
    DivMod(p, Pow2(32), LittleValue(s[4..]), LittleValue(s[..4]));
    PatternOfPattern(v, 64, 32);
  }

  /** 0x80000000 is written as 00 00 00 80 00 00 00 00 and read back as -0x80000000. */
  lemma GetInt64AsWrittenCounterexample()
    ensures Encode(Int64, 0x8000_0000, Little) == [0, 0, 0, 0x80, 0, 0, 0, 0]
    ensures GetInt64AsWritten([0, 0, 0, 0x80, 0, 0, 0, 0], 0, Little) == -0x8000_0000
  {
    var s: seq<byte> := [0, 0, 0, 0x80, 0, 0, 0, 0];
    EncodeOfBit31();
    assert Ordered(s, 0, 8, Little)[..4] == [0, 0, 0, 0x80] by {
      assert s[0..8] == s;
    }
    LowHalfOfBit31();
    GetInt64AsWrittenSignExtends(s, 0, Little);
  }

  lemma LowHalfOfBit31()
    ensures LittleValue([0, 0, 0, 0x80]) == 0x8000_0000
  {
    LittleValue3(0, 0, 0x80);
    assert [0, 0, 0, 0x80][1..] == [0, 0, 0x80];
  }

  lemma EncodeOfBit31()
    ensures Encode(Int64, 0x8000_0000, Little) == [0, 0, 0, 0x80, 0, 0, 0, 0]
  {
    var s: seq<byte> := [0, 0, 0, 0x80, 0, 0, 0, 0];
    forall k | 0 <= k < 8
      ensures s[k] == Lane(0x8000_0000, k)
    {
      LaneOfBit31(k);
    }
    EncodeIs(Int64, 0x8000_0000, s);
  }

  lemma LaneOfBit31(k: nat)
    requires k < 8
    ensures Lane(0x8000_0000, k) == if k == 3 then 0x80 else 0
  {
    var p := Pow2(8 * k);
    if k == 0 {
      assert p == 1;
    } else if k == 1 {
      assert p == 0x100 by { Pow2Values(); }
    } else if k == 2 {
      assert p == 0x1_0000 by { Pow2Values(); }
    } else if k == 3 {
      assert p == 0x100_0000 by { Pow2Values(); }
    } else {
      assert Pow2(32) == 0x1_0000_0000 by { Pow2Values(); }
      Pow2Le(32, 8 * k);
      DivMod(0x8000_0000, p, 0, 0x8000_0000);
    }
  }

  /**
   * `(byte)((value & (0xFF << 8k)) >> 8k)` in w-bit arithmetic: the mask-and-shift
   * of the source's writes, on the two's-complement pattern of a signed value.
   */
  function ByteOf(w: nat, value: int, k: nat): (b: byte)
    requires 8 * k + 8 <= w
    ensures b == Lane(value, k)
  {
    ByteOfPattern(value, w, 8 * k);
    MaskedByte(w, Pattern(w, value), 8 * k)
  }

  /** SetInt16: masks 0x00FF and 0xFF00 on the `int` promotion of value. */
  method SetInt16(bytes: array<byte>, index: nat, value: short, e: Endian)
    requires index + 2 <= bytes.Length
    modifies bytes
    ensures bytes[..] == Splice(old(bytes[..]), index, Encode(Int16, value, e))
  {
    var b0, b1 := ByteOf(32, value, 0), ByteOf(32, value, 1);
    if e == Little {
      bytes[index] := b0;
      bytes[index + 1] := b1;
    } else {
      bytes[index + 1] := b0;
      bytes[index] := b1;
    }
    EncodeIs(Int16, value, [b0, b1]);
    SpliceOf(old(bytes[..]), bytes[..], index, Encode(Int16, value, e));
  }

  /** SetUInt16: the two bytes of ToBytes, least significant first for little endian. */
  method SetUInt16(bytes: array<byte>, index: nat, value: ushort, e: Endian)
    requires index + 2 <= bytes.Length
    modifies bytes
    ensures bytes[..] == Splice(old(bytes[..]), index, Encode(UInt16, value, e))
  {
    var (msb, lsb) := UShortExtensions.ToBytes(value);
    if e == Little {
      bytes[index] := lsb;
      bytes[index + 1] := msb;
    } else {
      bytes[index] := msb;
      bytes[index + 1] := lsb;
    }
    Pow2Byte();
    DivMod(value, 256, msb, lsb);
    EncodeIs(UInt16, value, [lsb, msb]);
    SpliceOf(old(bytes[..]), bytes[..], index, Encode(UInt16, value, e));
  }

  /** SetUInt24: `(byte)v`, `(byte)(v >> 8)`, `(byte)(v >> 16)`, as on a span. */
  method SetUInt24(bytes: array<byte>, index: nat, value: int, e: Endian)
    requires 0 <= value < 0x100_0000 && index + 3 <= bytes.Length
    modifies bytes
    ensures bytes[..] == Splice(old(bytes[..]), index, Encode(UInt24, value, e))
  {
    ByteSpanExtensions.SetUInt24(bytes, index, value, e);
  }

  /**
   * SetInt32: masks 0xFF, 0xFF00 and 0xFF0000 on the `int`; 0xFF000000 is a
   * `uint` literal, so the top byte is masked in `long` arithmetic.
   */
  method SetInt32(bytes: array<byte>, index: nat, value: int32, e: Endian)
    requires index + 4 <= bytes.Length
    modifies bytes
    ensures bytes[..] == Splice(old(bytes[..]), index, Encode(Int32, value, e))
  {
    var b0, b1, b2, b3 := ByteOf(32, value, 0), ByteOf(32, value, 1), ByteOf(32, value, 2), ByteOf(64, value, 3);
    EncodeIs(Int32, value, [b0, b1, b2, b3]);
    WriteFour(bytes, index, [b0, b1, b2, b3], e);
  }

  /** SetUInt32: the four masks in `uint` arithmetic. */
  method SetUInt32(bytes: array<byte>, index: nat, value: uint, e: Endian)
    requires index + 4 <= bytes.Length
    modifies bytes
    ensures bytes[..] == Splice(old(bytes[..]), index, Encode(UInt32, value, e))
  {
    var b0, b1, b2, b3 := ByteOf(32, value, 0), ByteOf(32, value, 1), ByteOf(32, value, 2), ByteOf(32, value, 3);
    EncodeIs(UInt32, value, [b0, b1, b2, b3]);
    WriteFour(bytes, index, [b0, b1, b2, b3], e);
  }

  /**
   * The four element assignments of SetInt32 and SetUInt32: byte k of the value
   * goes to `index + k` for little endian and to `index + 3 - k` for big endian.
   */
  method WriteFour(bytes: array<byte>, index: nat, s: seq<byte>, e: Endian)
    requires |s| == 4 && index + 4 <= bytes.Length
    modifies bytes
    ensures bytes[..] == Splice(old(bytes[..]), index, if e == Little then s else Reverse(s))
  {
    if e == Little {
      bytes[index] := s[0];
      bytes[index + 1] := s[1];
      bytes[index + 2] := s[2];
      bytes[index + 3] := s[3];
    } else {
      bytes[index + 3] := s[0];
      bytes[index + 2] := s[1];
      bytes[index + 1] := s[2];
      bytes[index] := s[3];
    }
    SpliceOf(old(bytes[..]), bytes[..], index, if e == Little then s else Reverse(s));
  }

  /**
   * SetInt64: the eight masks in `long` arithmetic; the top one, 0xFF00000000000000,
   * is applied to `(ulong)value`, which has the same bit pattern.
   */
  method SetInt64(bytes: array<byte>, index: nat, value: long, e: Endian)
    requires index + 8 <= bytes.Length
    modifies bytes
    ensures bytes[..] == Splice(old(bytes[..]), index, Encode(Int64, value, e))
  {
    var s := Lanes64(value);
    EncodeIs(Int64, value, s);
    WriteEight(bytes, index, s, e);
  }

  /** SetUInt64: the eight masks in `ulong` arithmetic. */
  method SetUInt64(bytes: array<byte>, index: nat, value: ulong, e: Endian)
    requires index + 8 <= bytes.Length
    modifies bytes
    ensures bytes[..] == Splice(old(bytes[..]), index, Encode(UInt64, value, e))
  {
    var s := Lanes64(value);
    EncodeIs(UInt64, value, s);
    WriteEight(bytes, index, s, e);
  }

  /**
   * The eight element assignments of SetInt64 and SetUInt64: byte k of the value
   * goes to `index + k` for little endian and to `index + 7 - k` for big endian.
   */
  method WriteEight(bytes: array<byte>, index: nat, s: seq<byte>, e: Endian)
    requires |s| == 8 && index + 8 <= bytes.Length
    modifies bytes
    ensures bytes[..] == Splice(old(bytes[..]), index, if e == Little then s else Reverse(s))
  {
    if e == Little {
      bytes[index] := s[0];
      bytes[index + 1] := s[1];
      bytes[index + 2] := s[2];
      bytes[index + 3] := s[3];
      bytes[index + 4] := s[4];
      bytes[index + 5] := s[5];
      bytes[index + 6] := s[6];
      bytes[index + 7] := s[7];
    } else {
      bytes[index] := s[7];
      bytes[index + 1] := s[6];
      bytes[index + 2] := s[5];
      bytes[index + 3] := s[4];
      bytes[index + 4] := s[3];
      bytes[index + 5] := s[2];
      bytes[index + 6] := s[1];
      bytes[index + 7] := s[0];
    }
    SpliceOf(old(bytes[..]), bytes[..], index, if e == Little then s else Reverse(s));
  }

  /** The eight masked bytes of a 64-bit pattern, least significant first. */
  function Lanes64(value: int): (s: seq<byte>)
    ensures |s| == 8
    ensures forall k :: 0 <= k < 8 ==> s[k] == Lane(value, k)
  {
    [ByteOf(64, value, 0), ByteOf(64, value, 1), ByteOf(64, value, 2), ByteOf(64, value, 3),
     ByteOf(64, value, 4), ByteOf(64, value, 5), ByteOf(64, value, 6), ByteOf(64, value, 7)]
  }

  /** What a SetX writes at `index`, the matching GetX reads back. */
  lemma GetAfterSet(t: IntegerType, v: int, e: Endian, memory: seq<byte>, index: nat)
    requires t.Holds(v) && index + t.Size() <= |memory|
    ensures Get(t, Splice(memory, index, Encode(t, v, e)), index, e) == v
  {
    ReadBack(t, v, e, memory, index);
  }
}
