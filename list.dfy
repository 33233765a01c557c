/**
 * ByteListExtensions.cs: reading and writing the integer types at an index of a
 * `List<byte>` through `CollectionsMarshal.AsSpan(bytes)[index..]`, the span of
 * its contents from `index` on. A write assigns elements of that span and never
 * changes Count, so the list's contents are an array here.
 */
module ByteListExtensions {
  import opened Bits
  import opened Endianness
  import ByteSpanExtensions

  /** GetInt16 … GetUInt64 and GetUInt24: the span read at offset `index`. */
  function Get(t: IntegerType, bytes: seq<byte>, index: nat, e: Endian): (v: int)
    requires index + t.Size() <= |bytes|
    ensures v == Decode(t, bytes[index..index + t.Size()], e)
  {
    assert bytes[index..][..t.Size()] == bytes[index..index + t.Size()];
    ByteSpanExtensions.Get(t, bytes[index..], e)
  }

  /** SetInt16 … SetUInt64: the span write at offset `index`. */
  method Set(t: IntegerType, bytes: array<byte>, index: nat, v: int, e: Endian)
    requires t != UInt24 && t.Holds(v) && index + t.Size() <= bytes.Length
    modifies bytes
    ensures bytes[..] == Splice(old(bytes[..]), index, Encode(t, v, e))
  {
    ByteSpanExtensions.Set(t, bytes, index, v, e);
  }

  /**
   * SetUInt24(index, int value): the span write of a UInt24. The conversion of
   * the `int` argument is not visible in the source; it is taken to keep the
   * low 24 bits, `value & 0xFFFFFF`.
   */
  method SetUInt24(bytes: array<byte>, index: nat, value: int32, e: Endian)
    requires index + 3 <= bytes.Length
    modifies bytes
    ensures bytes[..] == Splice(old(bytes[..]), index, Encode(UInt24, value, e))
  {
    var v := Pattern(24, value);
    Pow2Values();
    PatternOfPattern(value, 24, 24);
    ByteSpanExtensions.SetUInt24(bytes, index, v, e);
  }

  /** What Set writes at `index`, Get reads back there. */
  lemma GetAfterSet(t: IntegerType, v: int, e: Endian, memory: seq<byte>, index: nat)
    requires t.Holds(v) && index + t.Size() <= |memory|
    ensures Get(t, Splice(memory, index, Encode(t, v, e)), index, e) == v
  {
    ReadBack(t, v, e, memory, index);
  }

  /** GetUInt24 after SetUInt24 reads `value & 0xFFFFFF`. */
  lemma GetUInt24AfterSetUInt24(value: int32, e: Endian, memory: seq<byte>, index: nat)
    requires index + 3 <= |memory|
    ensures Get(UInt24, Splice(memory, index, Encode(UInt24, value, e)), index, e) == Pattern(24, value)
  {
    Pow2Values();
    PatternOfPattern(value, 24, 24);
    assert Encode(UInt24, value, e) == Encode(UInt24, Pattern(24, value), e);
    ReadBack(UInt24, Pattern(24, value), e, memory, index);
  }

  /** A big-endian write puts the most significant byte at `index`. */
  lemma BigPutsMostSignificantFirst(t: IntegerType, v: int, memory: seq<byte>, index: nat)
    requires index + t.Size() <= |memory|
    ensures Splice(memory, index, Encode(t, v, Big))[index] == Lane(v, t.Size() - 1)
  {
    var little := Encode(t, v, Little);
    var s := Splice(memory, index, Encode(t, v, Big));
    assert s[index] == s[index..index + t.Size()][0];
    BigIsReversedLittle(t, v, little);
    assert Reverse(little)[0] == little[t.Size() - 1];
    EncodeByteAt(t, v, t.Size() - 1);
  }
}
