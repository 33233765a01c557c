/**
 * ByteArrayExtensions.cs: reading and writing the integer types at an index of
 * a byte array. Little-endian reads are a raw unaligned memory read
 * (`Unsafe.ReadUnaligned<T>`); big-endian reads go through a span, except for
 * UInt16 and UInt24, which are explicit shift-or expressions. Writes go through a
 * span, except SetUInt24, whose value is an `int` and is masked to 24 bits.
 */
module ByteArrayExtensions {
  import opened Bits
  import opened Endianness
  import ByteSpanExtensions

  /** GetInt16 … GetUInt64 and GetUInt24 at `index`. */
  function Get(t: IntegerType, bytes: seq<byte>, index: nat, e: Endian): (v: int)
    requires index + t.Size() <= |bytes|
    ensures v == Decode(t, bytes[index..index + t.Size()], e)
  {
    var s := bytes[index..index + t.Size()];
    if t == UInt24 then
      GetUInt24(bytes, index, e)
    else if e == Little then
      // Unsafe.ReadUnaligned<T>(ref bytes[index])
      LittleValueBound(s);
      t.FromPattern(ReadUnaligned(s))
    else if t == UInt16 then
      // (ushort)(bytes[index + 1] | bytes[index] << 8)
      var u := ShiftOrBytes(32, [bytes[index + 1], bytes[index]]);
      assert Reverse(s) == [bytes[index + 1], bytes[index]];
      LittleValueBound(Reverse(s));
      PatternSmall(16, u);
      Pattern(16, u)
    else
      // bytes.AsSpan(index).GetT(Endian.Big)
      assert bytes[index..][..t.Size()] == s;
      ByteSpanExtensions.Get(t, bytes[index..], Big)
  }

  /**
   * GetUInt24: `Unsafe.ReadUnaligned<ushort>(ref bytes[index]) | bytes[index + 2] << 16`
   * for little endian, `bytes[index] << 16 | bytes[index + 1] << 8 | bytes[index + 2]`
   * for big endian (written here low byte first: `|` is commutative).
   */
  function GetUInt24(bytes: seq<byte>, index: nat, e: Endian): (v: int)
    requires index + 3 <= |bytes|
    ensures v == Decode(UInt24, bytes[index..index + 3], e)
    ensures 0 <= v < 0x100_0000
  {
    var s := bytes[index..index + 3];
    Pow2Le(24, 32);
    Pow2Values();
    if e == Little then
      UnalignedPairOrHigh(s);
      Or(32, ReadUnaligned(s[..2]), Shl(32, bytes[index + 2], 16))
    else
      assert Reverse(s) == [bytes[index + 2], bytes[index + 1], bytes[index]];
      LittleValueBound(Reverse(s));
      ShiftOrBytes(32, [bytes[index + 2], bytes[index + 1], bytes[index]])
  }

  lemma UnalignedPairOrHigh(s: seq<byte>)
    requires |s| == 3
    ensures Or(32, ReadUnaligned(s[..2]), Shl(32, s[2], 16)) == LittleValue(s)
    ensures LittleValue(s) < Pow2(24)
  {
    LittleValueBound(s[..2]);
    LittleValueBound(s);
    LittleValueLast(s);
    Pow2Le(24, 32);
    ShiftOr(32, ReadUnaligned(s[..2]), s[2], 16);
  }

  /** SetInt16 … SetUInt64: the span write at `index`. */
  method Set(t: IntegerType, bytes: array<byte>, index: nat, v: int, e: Endian)
    requires t != UInt24 && t.Holds(v) && index + t.Size() <= bytes.Length
    modifies bytes
    ensures bytes[..] == Splice(old(bytes[..]), index, Encode(t, v, e))
  {
    ByteSpanExtensions.Set(t, bytes, index, v, e);
  }

  /**
   * SetUInt24(index, int value): stores the low 24 bits of `value`. Little endian
   * masks first (`value &= 0xFFFFFF`); big endian takes the bytes by arithmetic
   * shifts of the unmasked value.
   */
  method SetUInt24(bytes: array<byte>, index: nat, value: int32, e: Endian)
    requires index + 3 <= bytes.Length
    modifies bytes
    ensures bytes[..] == Splice(old(bytes[..]), index, Encode(UInt24, value, e))
  {
    if e == Little {
      var masked := Mask24(value);
      bytes[index] := masked % 256;
      bytes[index + 1] := Shr(masked, 8) % 256;
      bytes[index + 2] := Shr(masked, 16) % 256;
      LowBytes24(value);
    } else {
      bytes[index] := Asr(value, 16) % 256;
      bytes[index + 1] := Asr(value, 8) % 256;
      bytes[index + 2] := value % 256;
      HighBytes24(value);
    }
    assert bytes[..] == Splice(old(bytes[..]), index, Encode(UInt24, value, e));
  }

  /** `value & 0xFFFFFF` on an `int`: the low 24 bits of its pattern. */
  function Mask24(value: int32): (m: nat)
    ensures m == Pattern(24, value)
  {
    Pow2Values();
    AndLowMask(32, Pattern(32, value), 24);
    PatternOfPattern(value, 32, 24);
    And(32, Pattern(32, value), 0xFF_FFFF)
  }

  /** The bytes of the masked value, least significant first, are the little-endian encoding. */
  lemma LowBytes24(value: int32)
    ensures var m := Mask24(value);
      Encode(UInt24, value, Little) == [m % 256, Shr(m, 8) % 256, Shr(m, 16) % 256]
  {
    var p := Pattern(24, value);
    PatternSmall(24, p);
    Pow2Values();
    ByteSpanExtensions.UInt24Bytes(p);
  }

  /** The bytes taken by arithmetic shifts, most significant first, are the big-endian encoding. */
  lemma HighBytes24(value: int32)
    ensures Encode(UInt24, value, Big) == [Asr(value, 16) % 256, Asr(value, 8) % 256, value % 256]
  {
    var p := Pattern(24, value);
    PatternSmall(24, p);
    Pow2Values();
    ByteSpanExtensions.UInt24Bytes(p);
    ByteOfPattern(value, 24, 16);
    ByteOfPattern(value, 24, 8);
    ByteOfPattern(value, 24, 0);
    assert Encode(UInt24, value, Big) == Reverse(Encode(UInt24, p, Little));
  }

  /** What Set writes at `index`, Get reads back from there. */
  lemma GetAfterSet(t: IntegerType, v: int, e: Endian, memory: seq<byte>, index: nat)
    requires t.Holds(v) && index + t.Size() <= |memory|
    ensures Get(t, Splice(memory, index, Encode(t, v, e)), index, e) == v
  {
    ReadBack(t, v, e, memory, index);
  }

  /** What SetUInt24 writes at `index`, GetUInt24 reads back as `value & 0xFFFFFF`. */
  lemma GetUInt24AfterSetUInt24(value: int32, e: Endian, memory: seq<byte>, index: nat)
    requires index + 3 <= |memory|
    ensures GetUInt24(Splice(memory, index, Encode(UInt24, value, e)), index, e)
         == Mask24(value)
  {
    var p := Pattern(24, value);
    Pow2Values();
    PatternSmall(24, p);
    assert Encode(UInt24, value, e) == Encode(UInt24, p, e);
    ReadBack(UInt24, p, e, memory, index);
  }
}
