/**
 * Int16Extensions.cs: GetInt16 on a read-only list, `(short)(b0 | b1 << 8)`,
 * and on a `List<byte>`, through the span of its contents.
 */
module Int16Extensions {
  import opened Bits
  import opened Endianness
  import ByteIReadOnlyListExtensions
  import ByteSpanExtensions

  /** GetInt16 on IReadOnlyList<byte>: the signed reading of the two bytes at `index`. */
  function GetInt16(bytes: seq<byte>, index: nat, e: Endian): (v: short)
    requires index + 2 <= |bytes|
    ensures e == Little ==> v == ToSigned(16, bytes[index] as int + 0x100 * bytes[index + 1] as int)
    ensures e == Big ==> v == ToSigned(16, bytes[index + 1] as int + 0x100 * bytes[index] as int)
  {
    var s := bytes[index..index + 2];
    assert s == [bytes[index], bytes[index + 1]];
    assert Reverse(s) == [bytes[index + 1], bytes[index]];
    LittleValue2(bytes[index], bytes[index + 1]);
    LittleValue2(bytes[index + 1], bytes[index]);
    Pow2Values();
    ByteIReadOnlyListExtensions.Get(Int16, bytes, index, e)
  }

  /** GetInt16 on List<byte>: `CollectionsMarshal.AsSpan(bytes)[index..].GetInt16(endian)`. */
  function GetInt16OfList(bytes: seq<byte>, index: nat, e: Endian): (v: short)
    requires index + 2 <= |bytes|
    ensures v == Decode(Int16, bytes[index..index + 2], e)
  {
    assert bytes[index..][..2] == bytes[index..index + 2];
    Pow2Values();
    ByteSpanExtensions.Get(Int16, bytes[index..], e)
  }

  /** The two overloads read the same value from the same contents. */
  lemma ListAgreesWithReadOnlyList(bytes: seq<byte>, index: nat, e: Endian)
    requires index + 2 <= |bytes|
    ensures GetInt16OfList(bytes, index, e) == GetInt16(bytes, index, e)
  {
  }
}
