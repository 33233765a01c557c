/**
 * ByteSpanExtensions.cs: reading and writing the integer types at the start of a
 * span. A span is a window on memory; here it is the part of array `bytes` that
 * begins at `start`. The unaligned writes and the runtime's
 * `BinaryPrimitives.WriteXLittleEndian`/`WriteXBigEndian` store the pattern of the
 * value byte by byte (reversed for big endian); the 24-bit writes store three
 * explicit bytes.
 */
module ByteSpanExtensions {
  import opened Bits
  import opened Endianness
  import ByteReadOnlySpanExtensions

  /** GetInt16 … GetUInt64 and GetUInt24: the same reads as on a read-only span. */
  function Get(t: IntegerType, bytes: seq<byte>, e: Endian): (v: int)
    requires t.Size() <= |bytes|
    ensures v == Decode(t, bytes[..t.Size()], e)
  {
    ByteReadOnlySpanExtensions.Get(t, bytes, e)
  }

  /**
   * SetInt16 … SetUInt64 and SetUInt24: writes the t.Size() bytes of v at
   * `start` and nothing else.
   */
  method Set(t: IntegerType, bytes: array<byte>, start: nat, v: int, e: Endian)
    requires t.Holds(v) && start + t.Size() <= bytes.Length
    modifies bytes
    ensures bytes[..] == Splice(old(bytes[..]), start, Encode(t, v, e))
  {
    if t == UInt24 {
      Pow2Values();
      SetUInt24(bytes, start, v, e);
    } else {
      var u := Pattern(t.Width(), v);
      assert t.Width() == 8 * t.Size();
      var s := WriteUnaligned(u, t.Size());
      assert Encode(t, v, e) == if e == Little then s else Reverse(s);
      Store(bytes, start, if e == Little then s else Reverse(s));
    }
  }

  /** SetUInt24: `(byte)v`, `(byte)(v >> 8)`, `(byte)(v >> 16)` in byte order e. */
  method SetUInt24(bytes: array<byte>, start: nat, v: int, e: Endian)
    requires 0 <= v < 0x100_0000 && start + 3 <= bytes.Length
    modifies bytes
    ensures bytes[..] == Splice(old(bytes[..]), start, Encode(UInt24, v, e))
  {
    var b0, b1, b2 := v % 256, Shr(v, 8) % 256, Shr(v, 16) % 256;
    if e == Little {
      bytes[start], bytes[start + 1], bytes[start + 2] := b0, b1, b2;
    } else {
      bytes[start], bytes[start + 1], bytes[start + 2] := b2, b1, b0;
    }
    UInt24Bytes(v);
    assert bytes[..] == Splice(old(bytes[..]), start, Encode(UInt24, v, e));
  }

  /** The three bytes of a 24-bit value, least significant first. */
  lemma UInt24Bytes(v: int)
    requires 0 <= v < 0x100_0000
    ensures Encode(UInt24, v, Little) == [v % 256, Shr(v, 8) % 256, Shr(v, 16) % 256]
  {
    Pow2Values();
    PatternSmall(24, v);
    LittleBytesAt(v, 3, 0);
    LittleBytesAt(v, 3, 1);
    LittleBytesAt(v, 3, 2);
  }

  /** What Set writes at `start`, Get reads back from there. */
  lemma GetAfterSet(t: IntegerType, v: int, e: Endian, memory: seq<byte>, start: nat)
    requires t.Holds(v) && start + t.Size() <= |memory|
    ensures Get(t, Splice(memory, start, Encode(t, v, e))[start..], e) == v
  {
    var m := Splice(memory, start, Encode(t, v, e));
    assert m[start..][..t.Size()] == m[start..start + t.Size()];
    ReadBack(t, v, e, memory, start);
  }
}
