/**
 * EndianExtensions.cs: composing a 24-bit or 16-bit value from separate bytes in
 * a given byte order.
 */
module EndianExtensions {
  import opened Bits
  import opened Endianness
  import opened UInt24Struct

  /**
   * ToUInt24: `new UInt24((uint)(byte0 | byte1 << 8 | byte2 << 16))` for little
   * endian and `new UInt24((uint)(byte2 | byte1 << 8 | byte0 << 16))` for big endian.
   */
  function ToUInt24(e: Endian, byte0: byte, byte1: byte, byte2: byte): (r: UInt24)
    ensures r == Value(e, [byte0, byte1, byte2])
  {
    var s := if e == Little then [byte0, byte1, byte2] else [byte2, byte1, byte0];
    assert Reverse([byte0, byte1, byte2]) == [byte2, byte1, byte0];
    LittleValueBound(s);
    Pow2Values();
    ShiftOrBytes(32, s)
  }

  /** ToUInt16: `(ushort)(byte0 | byte1 << 8)` or `(ushort)(byte1 | byte0 << 8)`. */
  function ToUInt16(e: Endian, byte0: byte, byte1: byte): (r: ushort)
    ensures r == Value(e, [byte0, byte1])
  {
    var s := if e == Little then [byte0, byte1] else [byte1, byte0];
    assert Reverse([byte0, byte1]) == [byte1, byte0];
    var u := ShiftOrBytes(32, s);
    LittleValueBound(s);
    Pow2Values();
    PatternSmall(16, u);
    Pattern(16, u)
  }

  /** The byte weights: little endian puts byte0 lowest, big endian puts it highest. */
  lemma ToUInt24Weights(byte0: byte, byte1: byte, byte2: byte)
    ensures ToUInt24(Little, byte0, byte1, byte2) == byte0 as int + 0x100 * byte1 as int + 0x1_0000 * byte2 as int
    ensures ToUInt24(Big, byte0, byte1, byte2) == byte2 as int + 0x100 * byte1 as int + 0x1_0000 * byte0 as int
    ensures ToUInt24(Big, byte0, byte1, byte2) == ToUInt24(Little, byte2, byte1, byte0)
  {
    assert Reverse([byte0, byte1, byte2]) == [byte2, byte1, byte0];
    LittleValue3(byte0, byte1, byte2);
    LittleValue3(byte2, byte1, byte0);
  }

  lemma ToUInt16Weights(byte0: byte, byte1: byte)
    ensures ToUInt16(Little, byte0, byte1) == byte0 as int + 0x100 * byte1 as int
    ensures ToUInt16(Big, byte0, byte1) == byte1 as int + 0x100 * byte0 as int
  {
    assert Reverse([byte0, byte1]) == [byte1, byte0];
    LittleValue2(byte0, byte1);
    LittleValue2(byte1, byte0);
  }

  /** Composing the three bytes of an encoded value gives the value back. */
  lemma ToUInt24OfEncoded(v: UInt24, e: Endian)
    ensures var s := Encode(Endianness.UInt24, v, e); ToUInt24(e, s[0], s[1], s[2]) == v
  {
    Pow2Values();
    var s := Encode(Endianness.UInt24, v, e);
    assert s == [s[0], s[1], s[2]];
    DecodeEncode(Endianness.UInt24, v, e);
  }

  lemma ToUInt16OfEncoded(v: ushort, e: Endian)
    ensures var s := Encode(UInt16, v, e); ToUInt16(e, s[0], s[1]) == v
  {
    Pow2Values();
    var s := Encode(UInt16, v, e);
    assert s == [s[0], s[1]];
    DecodeEncode(UInt16, v, e);
  }
}
