/**
 * ByteIReadOnlyListExtensions.cs: copying a read-only list of bytes to a span,
 * and reading the integer types at an index with the same shift-or expressions
 * as ByteIListExtensions.cs, GetInt64's sign extension included.
 */
module ByteIReadOnlyListExtensions {
  import opened Bits
  import opened Errors
  import opened Endianness
  import ByteIListExtensions
  import ReadOnlyListExtensions

  /** CopyTo(destination) and CopyTo(destination, start): the loop of ReadOnlyListExtensions. */
  method CopyTo(bytes: seq<byte>, destination: array<byte>, start: int32) returns (r: Outcome)
    modifies destination
    ensures r == Fails(ArgumentOutOfRangeException) <==> !(0 <= start <= destination.Length)
    ensures r == Fails(ArgumentException) <==> 0 <= start <= destination.Length && |bytes| > destination.Length - start
    ensures r.Fails? ==> destination[..] == old(destination[..])
    ensures r.Done? ==> 0 <= start && start + |bytes| <= destination.Length
    ensures r.Done? ==> destination[..] == old(destination[..start]) + bytes + old(destination[start + |bytes|..])
  {
    r := ReadOnlyListExtensions.CopyToAt(bytes, destination, start);
  }

  /** GetInt16 … GetUInt64 and GetUInt24, Int64 as intended. */
  function Get(t: IntegerType, bytes: seq<byte>, index: nat, e: Endian): (v: int)
    requires index + t.Size() <= |bytes|
    ensures v == Decode(t, bytes[index..index + t.Size()], e)
  {
    ByteIListExtensions.Get(t, bytes, index, e)
  }

  /** GetWord: `(ushort)(bytes[index] | bytes[index + 1] << 8)`, the UInt16 read. */
  function GetWord(bytes: seq<byte>, index: nat, e: Endian): (w: ushort)
    requires index + 2 <= |bytes|
    ensures e == Little ==> w == bytes[index] as int + 0x100 * bytes[index + 1] as int
    ensures e == Big ==> w == bytes[index + 1] as int + 0x100 * bytes[index] as int
  {
    var s := bytes[index..index + 2];
    assert s == [bytes[index], bytes[index + 1]];
    assert Reverse(s) == [bytes[index + 1], bytes[index]];
    LittleValue2(bytes[index], bytes[index + 1]);
    LittleValue2(bytes[index + 1], bytes[index]);
    ByteIListExtensions.Get(UInt16, bytes, index, e)
  }

  /** GetInt64 as written, the expression of ByteIListExtensions.GetInt64AsWritten. */
  function GetInt64AsWritten(bytes: seq<byte>, index: nat, e: Endian): (v: int)
    requires index + 8 <= |bytes|
    ensures -0x8000_0000_0000_0000 <= v < 0x8000_0000_0000_0000
  {
    ByteIListExtensions.GetInt64AsWritten(bytes, index, e)
  }

  /**
   * The read is right while byte `index + 3` (little endian) or `index + 4` (big
   * endian) is below 0x80, and ignores the four high-order bytes otherwise.
   */
  lemma GetInt64AsWrittenDefect(bytes: seq<byte>, index: nat, e: Endian)
    requires index + 8 <= |bytes|
    ensures ByteIListExtensions.SignByteOfLowHalf(bytes, index, e) < 0x80 ==>
      GetInt64AsWritten(bytes, index, e) == Get(Int64, bytes, index, e)
    ensures ByteIListExtensions.SignByteOfLowHalf(bytes, index, e) >= 0x80 ==>
      GetInt64AsWritten(bytes, index, e) == Get(Int32, bytes, if e == Little then index else index + 4, e) < 0
  {
    if ByteIListExtensions.SignByteOfLowHalf(bytes, index, e) < 0x80 {
      ByteIListExtensions.GetInt64AsWrittenAgrees(bytes, index, e);
    } else {
      ByteIListExtensions.GetInt64AsWrittenReadsInt32(bytes, index, e);
      ByteIListExtensions.GetInt64AsWrittenSignExtends(bytes, index, e);
    }
  }
}
