/**
 * UInt24Extensions.cs: 24-bit values kept in an `int`, composed from bytes or
 * read from and written to a byte array.
 */
module UInt24Extensions {
  import opened Bits
  import opened Endianness
  import EndianExtensions
  import ByteArrayExtensions

  /**
   * ToUInt24(endian, msb, mid, lsb): `msb | mid << 8 | lsb << 16` for little
   * endian, `lsb | mid << 8 | msb << 16` otherwise; the composition of
   * EndianExtensions.ToUInt24. Despite its name, `msb` is the least significant
   * byte of a little-endian result.
   */
  function ToUInt24(e: Endian, msb: byte, mid: byte, lsb: byte): (r: int)
    ensures e == Little ==> r == msb as int + 0x100 * mid as int + 0x1_0000 * lsb as int
    ensures e == Big ==> r == lsb as int + 0x100 * mid as int + 0x1_0000 * msb as int
    ensures 0 <= r < 0x100_0000
  {
    EndianExtensions.ToUInt24Weights(msb, mid, lsb);
    EndianExtensions.ToUInt24(e, msb, mid, lsb)
  }

  /** GetUInt24: the same expressions as ByteArrayExtensions.GetUInt24. */
  function GetUInt24(bytes: seq<byte>, index: nat, e: Endian): (v: int)
    requires index + 3 <= |bytes|
    ensures e == Little ==> v == bytes[index] as int + 0x100 * bytes[index + 1] as int + 0x1_0000 * bytes[index + 2] as int
    ensures e == Big ==> v == bytes[index + 2] as int + 0x100 * bytes[index + 1] as int + 0x1_0000 * bytes[index] as int
    ensures 0 <= v < 0x100_0000
  {
    var s := bytes[index..index + 3];
    assert s == [bytes[index], bytes[index + 1], bytes[index + 2]];
    assert Reverse(s) == [bytes[index + 2], bytes[index + 1], bytes[index]];
    LittleValue3(bytes[index], bytes[index + 1], bytes[index + 2]);
    LittleValue3(bytes[index + 2], bytes[index + 1], bytes[index]);
    ByteArrayExtensions.GetUInt24(bytes, index, e)
  }

  /** SetUInt24: the same writes as ByteArrayExtensions.SetUInt24, without its debug assertion. */
  method SetUInt24(bytes: array<byte>, index: nat, value: int32, e: Endian)
    requires index + 3 <= bytes.Length
    modifies bytes
    ensures bytes[..] == Splice(old(bytes[..]), index, Encode(UInt24, value, e))
  {
    ByteArrayExtensions.SetUInt24(bytes, index, value, e);
  }

  /** GetUInt24 after SetUInt24 at the same index reads `value & 0xFFFFFF`. */
  lemma GetAfterSet(value: int32, e: Endian, memory: seq<byte>, index: nat)
    requires index + 3 <= |memory|
    ensures GetUInt24(Splice(memory, index, Encode(UInt24, value, e)), index, e) == Pattern(24, value)
  {
    ByteArrayExtensions.GetUInt24AfterSetUInt24(value, e, memory, index);
  }
}
