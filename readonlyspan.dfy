/**
 * ByteReadOnlySpanExtensions.cs: reading the integer types from the start of a
 * read-only span of bytes. The little-endian reads are a raw memory read of the
 * runtime (`MemoryMarshal.Read<T>`) on a little-endian host; the big-endian reads
 * are the runtime's `BinaryPrimitives.ReadXBigEndian`, a raw read of the bytes in
 * reverse order. The 24-bit reads are explicit shift-or expressions on `int`.
 */
module ByteReadOnlySpanExtensions {
  import opened Bits
  import opened Endianness

  /** GetInt16 … GetUInt64 and GetUInt24 (whose result is an `int`). */
  function Get(t: IntegerType, bytes: seq<byte>, e: Endian): (v: int)
    requires t.Size() <= |bytes|
    ensures v == Decode(t, bytes[..t.Size()], e)
    ensures t.Holds(v)
  {
    var s := bytes[..t.Size()];
    var ordered := if e == Little then s else Reverse(s);
    // bytes[0] | bytes[1] << 8 | bytes[2] << 16, or bytes[0] << 16 | bytes[1] << 8 | bytes[2]
    var u := if t == UInt24 then ShiftOrBytes(32, ordered) else ReadUnaligned(ordered);
    LittleValueBound(ordered);
    t.FromPattern(u)
  }
}
