/**
 * ByteICollectionExtensions.cs: appending the integer types to a collection of
 * bytes. Each Add* fills a stack buffer with the span write of the value and
 * then adds the buffer's bytes to the collection one by one, in index order.
 */
module ByteICollectionExtensions {
  import opened Bits
  import opened Endianness
  import UShortExtensions
  import ByteSpanExtensions

  /** An `ICollection<byte>`: its elements in the order Add appended them. */
  class ByteCollection {
    var Items: seq<byte>

    constructor(items: seq<byte>)
      ensures Items == items
    {
      Items := items;
    }

    /** ICollection.Add: appends one element. */
    method Add(b: byte)
      modifies this
      ensures Items == old(Items) + [b]
    {
      Items := Items + [b];
    }
  }

  /** AddUInt16: the bytes of ToBytes, least significant first for little endian. */
  method AddUInt16(bytes: ByteCollection, value: ushort, e: Endian)
    modifies bytes
    ensures e == Little ==> bytes.Items == old(bytes.Items) + [value % 0x100, value / 0x100]
    ensures e == Big ==> bytes.Items == old(bytes.Items) + [value / 0x100, value % 0x100]
    ensures bytes.Items == old(bytes.Items) + Encode(UInt16, value, e)
  {
    var (msb, lsb) := UShortExtensions.ToBytes(value);
    if e == Little {
      bytes.Add(lsb);
      bytes.Add(msb);
    } else {
      bytes.Add(msb);
      bytes.Add(lsb);
    }
    UInt16Bytes(value, msb, lsb);
  }

  lemma UInt16Bytes(value: ushort, msb: byte, lsb: byte)
    requires 0x100 * msb + lsb == value
    ensures msb == value / 0x100 && lsb == value % 0x100
    ensures Encode(UInt16, value, Little) == [lsb, msb]
    ensures Encode(UInt16, value, Big) == [msb, lsb]
  {
    DivMod(value, 0x100, msb, lsb);
    Pow2Values();
    PatternSmall(16, value);
    LittleBytesAt(value, 2, 0);
    LittleBytesAt(value, 2, 1);
  }

  /** The second half of every other Add*: the buffer's bytes added in index order. */
  method AddAll(bytes: ByteCollection, buffer: array<byte>)
    modifies bytes
    ensures bytes.Items == old(bytes.Items) + buffer[..]
  {
    var k := 0;
    while k < buffer.Length
      invariant 0 <= k <= buffer.Length
      invariant bytes.Items == old(bytes.Items) + buffer[..k]
    {
      bytes.Add(buffer[k]);
      k := k + 1;
    }
  }

  /**
   * AddInt16, AddInt32, AddUInt32, AddInt64 and AddUInt64: a new buffer of the
   * type's size, the span SetX of the value into it, then the buffer appended.
   */
  method AddValue(bytes: ByteCollection, t: IntegerType, value: int, e: Endian)
    requires t != UInt16 && t != UInt24 && t.Holds(value)
    modifies bytes
    ensures bytes.Items == old(bytes.Items) + Encode(t, value, e)
  {
    var buffer := new byte[t.Size()];
    ByteSpanExtensions.Set(t, buffer, 0, value, e);
    assert buffer[..] == Encode(t, value, e);
    AddAll(bytes, buffer);
  }

  /**
   * AddUInt24(int value): the span SetUInt24 into a three-byte buffer. The
   * conversion of the `int` argument is not visible in the source; it is taken
   * to keep the low 24 bits.
   */
  method AddUInt24(bytes: ByteCollection, value: int32, e: Endian)
    modifies bytes
    ensures bytes.Items == old(bytes.Items) + Encode(UInt24, value, e)
  {
    var buffer := new byte[3];
    var v := Pattern(24, value);
    Pow2Values();
    PatternOfPattern(value, 24, 24);
    ByteSpanExtensions.SetUInt24(buffer, 0, v, e);
    assert buffer[..] == Encode(UInt24, value, e);
    AddAll(bytes, buffer);
  }

  /** Decoding the appended bytes at the old Count gives back the value. */
  lemma GetAfterAdd(t: IntegerType, v: int, e: Endian, items: seq<byte>)
    requires t.Holds(v)
    ensures Decode(t, (items + Encode(t, v, e))[|items|..|items| + t.Size()], e) == v
    ensures (items + Encode(t, v, e))[..|items|] == items
  {
    assert (items + Encode(t, v, e))[|items|..|items| + t.Size()] == Encode(t, v, e);
    assert (items + Encode(t, v, e))[..|items|] == items;
    DecodeEncode(t, v, e);
  }

  /** After AddUInt24 the appended bytes decode to `value & 0xFFFFFF`. */
  lemma GetAfterAddUInt24(value: int32, e: Endian, items: seq<byte>)
    ensures Decode(UInt24, (items + Encode(UInt24, value, e))[|items|..|items| + 3], e) == Pattern(24, value)
  {
    Pow2Values();
    PatternOfPattern(value, 24, 24);
    assert Encode(UInt24, value, e) == Encode(UInt24, Pattern(24, value), e);
    GetAfterAdd(UInt24, Pattern(24, value), e, items);
  }
}
