/**
 * The parts of .NET's `System.IO` that the two stream classes rely on:
 * `SeekOrigin`, and an in-memory readable stream in the manner of
 * `MemoryStream`, which PeekableStream wraps. The wrapped stream is not part
 * of the library; its checks follow the runtime's `MemoryStream` with origin 0,
 * and a `readable` flag stands for stream kinds whose `CanRead` is false.
 */
module Streams {
  import opened Bits
  import opened Errors
  import opened Endianness

  /** `SeekOrigin.Begin`, `Current` and `End`, and any other value of the enumeration. */
  datatype SeekOrigin = Begin | Current | End | Undefined

  /** `int.MaxValue`, the largest count and position of a .NET stream over an array or list. */
  const IntMax: int := 0x7FFF_FFFF

  /**
   * How many bytes a read of `count` bytes at `position` of `length` bytes
   * copies: the count, capped by the bytes left, and none at or past the end.
   */
  function Available(count: int, position: int, length: int): (k: int)
    requires count >= 0
    ensures 0 <= k <= count
    ensures position <= length ==> position + k <= length
    ensures k < count ==> position + k >= length
    ensures k > 0 ==> position + k <= length
  {
    if count <= length - position then count
    else if length - position > 0 then length - position
    else 0
  }

  /** The k bytes of data from position on (none when k is 0, wherever position lies). */
  function Segment(data: seq<byte>, position: int, k: int): (s: seq<byte>)
    requires 0 <= position && 0 <= k && (k > 0 ==> position + k <= |data|)
    ensures |s| == k
    ensures forall i :: 0 <= i < k ==> s[i] == data[position + i]
  {
    if k == 0 then [] else data[position..position + k]
  }

  /** An in-memory stream: its bytes, a cursor, and whether it is open. */
  class MemoryStream {
    const data: seq<byte>
    const readable: bool
    var position: int
    var open: bool

    predicate Valid()
      reads this
    {
      |data| <= IntMax && 0 <= position <= IntMax
    }

    constructor(data: seq<byte>, readable: bool)
      requires |data| <= IntMax
      ensures this.data == data && this.readable == readable
      ensures position == 0 && open && Valid()
    {
      this.data := data;
      this.readable := readable;
      position := 0;
      open := true;
    }

    /** `CanRead`: open and of a readable kind. */
    predicate CanRead()
      reads this
    {
      open && readable
    }

    /** `CanSeek`: open. */
    predicate CanSeek()
      reads this
    {
      open
    }

    /**
     * What `Read(buffer, offset, count)` returns on a buffer of `bufferLength`
     * bytes: the argument checks first, then the open and readable checks,
     * then the number of bytes copied.
     */
    function ReadOutcome(bufferLength: int, offset: int32, count: int32): (r: Result<int32>)
      reads this
      ensures r.Ok? ==> count >= 0 && r.value == Available(count, position, |data|)
    {
      if offset < 0 || count < 0 || count > bufferLength - offset then Throws(ArgumentOutOfRangeException)
      else if !open then Throws(ObjectDisposedException)
      else if !readable then Throws(NotSupportedException)
      else Ok(Available(count, position, |data|))
    }

    /** `Read`: copies the bytes from the cursor into the buffer at offset and advances the cursor. */
    method Read(buffer: array<byte>, offset: int32, count: int32) returns (r: Result<int32>)
      requires Valid()
      modifies this, buffer
      ensures Valid() && open == old(open)
      ensures r == old(ReadOutcome(buffer.Length, offset, count))
      ensures r.Throws? ==> position == old(position) && buffer[..] == old(buffer[..])
      ensures r.Ok? ==> position == old(position) + r.value
      ensures r.Ok? ==> buffer[..] == Splice(old(buffer[..]), offset, Segment(data, old(position), r.value))
    {
      var outcome := ReadOutcome(buffer.Length, offset, count);
      if outcome.Throws? {
        return Throws(outcome.error);
      }
      var k := outcome.value;
      Store(buffer, offset, Segment(data, position, k));
      position := position + k;
      r := Ok(k);
    }

    /** Where `Seek(offset, origin)` moves the cursor, or what it throws. */
    function SeekOutcome(offset: long, origin: SeekOrigin): (r: Result<long>)
      reads this
      ensures r.Ok? ==> 0 <= r.value <= IntMax
    {
      if !open then Throws(ObjectDisposedException)
      else if origin == Undefined then Throws(ArgumentException)
      else
        var target := match origin
          case Begin => offset
          case Current => position + offset
          case _ => |data| + offset;
        if target < 0 then Throws(IOException)
        else if target > IntMax then Throws(ArgumentOutOfRangeException)
        else Ok(target)
    }

    /** `Seek`: moves the cursor, and returns the new position. */
    method Seek(offset: long, origin: SeekOrigin) returns (r: Result<long>)
      requires Valid()
      modifies this
      ensures Valid() && open == old(open)
      ensures r == old(SeekOutcome(offset, origin))
      ensures position == if r.Ok? then r.value else old(position)
    {
      var outcome := SeekOutcome(offset, origin);
      if outcome.Throws? {
        return Throws(outcome.error);
      }
      position := outcome.value;
      r := Ok(position);
    }

    /** The `Position` getter. */
    method GetPosition() returns (r: Result<long>)
      requires Valid()
      ensures r == if open then Ok(position) else Throws(ObjectDisposedException)
    {
      if !open {
        return Throws(ObjectDisposedException);
      }
      r := Ok(position);
    }

    /** The `Position` setter: a negative value, a closed stream and a value past `int.MaxValue` are refused, in that order. */
    method SetPosition(value: long) returns (o: Outcome)
      requires Valid()
      modifies this
      ensures Valid() && open == old(open)
      ensures o == if value < 0 then Fails(ArgumentOutOfRangeException)
        else if !open then Fails(ObjectDisposedException)
        else if value > IntMax then Fails(ArgumentOutOfRangeException)
        else Done
      ensures position == if o.Done? then value else old(position)
    {
      if value < 0 {
        return Fails(ArgumentOutOfRangeException);
      }
      if !open {
        return Fails(ObjectDisposedException);
      }
      if value > IntMax {
        return Fails(ArgumentOutOfRangeException);
      }
      position := value;
      o := Done;
    }

    /** The `Length` getter. */
    method GetLength() returns (r: Result<long>)
      requires Valid()
      ensures r == if open then Ok(|data|) else Throws(ObjectDisposedException)
    {
      if !open {
        return Throws(ObjectDisposedException);
      }
      var length: long := |data|;
      r := Ok(length);
    }

    /** `Dispose`: closes the stream. */
    method Dispose()
      modifies this
      ensures !open && position == old(position)
    {
      open := false;
    }
  }
}
