/**
 * ReadOnlyListStream.cs: a read-only, seekable stream over a read-only list of
 * bytes. Its state is a cursor `position` over the list and a `disposed` flag;
 * every member first checks the flag.
 */
module ReadOnlyListStreams {
  import opened Bits
  import opened Errors
  import opened Endianness
  import opened Streams

  /** The `long` that C# computes for an unchecked 64-bit sum: x wrapped into the range of `long`. */
  function Wrap64(x: int): (w: long)
    ensures w == ToSigned(64, Pattern(64, x))
  {
    assert Pow2(64) == 0x1_0000_0000_0000_0000 && Pow2(63) == 0x8000_0000_0000_0000 by { Pow2Values(); }
    ToSigned(64, Pattern(64, x))
  }

  /**
   * The wrap of a sum of a position and a `long` offset (within 2^64 - 2^31 of
   * zero) lies in 0 to count - 1 exactly when the sum itself does: a sum that
   * wraps was already outside the range, and lands outside it again.
   */
  lemma WrapKeepsRange(x: int, count: int)
    requires 0 <= count <= IntMax + 1
    requires -0x1_0000_0000_0000_0000 + 0x8000_0000 < x < 0x1_0000_0000_0000_0000 - 0x8000_0000
    ensures 0 <= Wrap64(x) < count <==> 0 <= x < count
    ensures 0 <= x < count ==> Wrap64(x) == x
  {
    var m := 0x1_0000_0000_0000_0000;
    assert Pow2(64) == m && Pow2(63) == 0x8000_0000_0000_0000 by { Pow2Values(); }
    if x < -0x8000_0000_0000_0000 {
      DivMod(x, m, -1, x + m);
    } else if x < 0 {
      DivMod(x, m, -1, x + m);
    } else if x < 0x8000_0000_0000_0000 {
      DivMod(x, m, 0, x);
    } else {
      DivMod(x, m, 0, x);
    }
  }

  /** Where the source's `Seek` asks to go, in unbounded arithmetic. */
  function SeekTarget(position: int, count: int, offset: int, origin: SeekOrigin): int
    requires origin != Undefined
  {
    match origin
    case Begin => offset
    case Current => position + offset
    case End => count - 1 - offset
  }

  class ReadOnlyListStream {
    const list: seq<byte>
    var position: int
    var disposed: bool

    /** The cursor never leaves 0 to Count: a read stops at the end and the setter stops short of it. */
    predicate Valid()
      reads this
    {
      |list| <= IntMax && 0 <= position <= |list|
    }

    constructor(list: seq<byte>)
      requires |list| <= IntMax
      ensures this.list == list && position == 0 && !disposed && Valid()
    {
      this.list := list;
      position := 0;
      disposed := false;
    }

    /**
     * `Read`: after the disposal check, an offset outside the buffer and a
     * negative count are refused; then min(count, Count - position) bytes are
     * copied from the list at the cursor into the buffer at offset, the cursor
     * advances by that many, and that number is returned. The copy goes
     * through an unchecked reference, so the bytes copied must fit in the buffer.
     */
    method Read(buffer: array<byte>, offset: int32, count: int32) returns (r: Result<int32>)
      requires Valid()
      requires !disposed && 0 <= offset < buffer.Length && count >= 0 ==> offset + Available(count, position, |list|) <= buffer.Length
      modifies this, buffer
      ensures Valid() && disposed == old(disposed)
      ensures r == if old(disposed) then Throws(ObjectDisposedException)
        else if offset < 0 || offset >= buffer.Length || count < 0 then Throws(ArgumentOutOfRangeException)
        else Ok(Available(count, old(position), |list|))
      ensures r.Throws? ==> position == old(position) && buffer[..] == old(buffer[..])
      ensures r.Ok? ==> position == old(position) + r.value
      ensures r.Ok? ==> buffer[..] == Splice(old(buffer[..]), offset, list[old(position)..old(position) + r.value])
    {
      if disposed {
        return Throws(ObjectDisposedException);
      }
      if offset < 0 || offset >= buffer.Length {
        return Throws(ArgumentOutOfRangeException);
      }
      if count < 0 {
        return Throws(ArgumentOutOfRangeException);
      }
      var startPosition := position;
      var maximumCanRead := Available(count, position, |list|);
      var f := startPosition;
      while f < startPosition + maximumCanRead
        invariant startPosition <= f <= startPosition + maximumCanRead
        invariant position == f && !disposed
        invariant forall j :: 0 <= j < buffer.Length ==>
          buffer[j] == if offset <= j < offset + (f - startPosition) then list[startPosition + j - offset] else old(buffer[j])
      {
        buffer[offset + (f - startPosition)] := list[f];
        position := position + 1;
        f := f + 1;
      }
      SpliceOf(old(buffer[..]), buffer[..], offset, list[startPosition..startPosition + maximumCanRead]);
      r := Ok(position - startPosition);
    }

    /**
     * `Seek`: Begin, Current and End name the target `offset`,
     * `position + offset` and `Count - 1 - offset` (computed as unchecked
     * `long` sums), which the Position setter then validates; any other
     * origin is not supported. The new position is returned.
     */
    method Seek(offset: long, origin: SeekOrigin) returns (r: Result<long>)
      requires Valid()
      modifies this
      ensures Valid() && disposed == old(disposed)
      ensures old(disposed) ==> r == Throws(ObjectDisposedException)
      ensures !old(disposed) && origin == Undefined ==> r == Throws(NotSupportedException)
      ensures !old(disposed) && origin != Undefined ==>
        var target := SeekTarget(old(position), |list|, offset, origin);
        r == if 0 <= target < |list| then Ok(target) else Throws(ArgumentOutOfRangeException)
      ensures position == if r.Ok? then r.value else old(position)
    {
      if disposed {
        return Throws(ObjectDisposedException);
      }
      var target: long;
      match origin {
        case Begin =>
          target := offset;
        case Current =>
          target := Wrap64(position + offset);
        case End =>
          target := Wrap64(|list| - 1 - offset);
        case Undefined =>
          return Throws(NotSupportedException);
      }
      WrapKeepsRange(SeekTarget(position, |list|, offset, origin), |list|);
      var outcome := SetPosition(target);
      if outcome.Fails? {
        return Throws(outcome.error);
      }
      r := GetPosition();
    }

    /** The `Position` getter. */
    method GetPosition() returns (r: Result<long>)
      requires Valid()
      ensures r == if disposed then Throws(ObjectDisposedException) else Ok(position)
    {
      if disposed {
        return Throws(ObjectDisposedException);
      }
      r := Ok(position);
    }

    /**
     * The `Position` setter: only 0 to Count - 1 is accepted, so the end
     * position that reads reach cannot be set (and nothing can be set on
     * an empty list).
     */
    method SetPosition(value: long) returns (o: Outcome)
      requires Valid()
      modifies this
      ensures Valid() && disposed == old(disposed)
      ensures o == if disposed then Fails(ObjectDisposedException)
        else if value < 0 || value >= |list| then Fails(ArgumentOutOfRangeException)
        else Done
      ensures position == if o.Done? then value else old(position)
    {
      if disposed {
        return Fails(ObjectDisposedException);
      }
      if value < 0 || value >= |list| {
        return Fails(ArgumentOutOfRangeException);
      }
      position := value;
      o := Done;
    }

    /** `CanRead`: true until disposed. */
    method CanRead() returns (r: Result<bool>)
      ensures r == if disposed then Throws(ObjectDisposedException) else Ok(true)
    {
      if disposed {
        return Throws(ObjectDisposedException);
      }
      r := Ok(true);
    }

    /** `CanSeek`: true until disposed. */
    method CanSeek() returns (r: Result<bool>)
      ensures r == if disposed then Throws(ObjectDisposedException) else Ok(true)
    {
      if disposed {
        return Throws(ObjectDisposedException);
      }
      r := Ok(true);
    }

    /** `CanWrite`: false, and it too throws once disposed. */
    method CanWrite() returns (r: Result<bool>)
      ensures r == if disposed then Throws(ObjectDisposedException) else Ok(false)
    {
      if disposed {
        return Throws(ObjectDisposedException);
      }
      r := Ok(false);
    }

    /** `Length`: the list's Count. */
    method GetLength() returns (r: Result<long>)
      requires Valid()
      ensures r == if disposed then Throws(ObjectDisposedException) else Ok(|list|)
    {
      if disposed {
        return Throws(ObjectDisposedException);
      }
      var length: long := |list|;
      r := Ok(length);
    }

    /** The failure of every writing member: disposed first, otherwise not writable. */
    function NotWriteable(): (o: Outcome)
      reads this
      ensures o.Fails? && (o.error == ObjectDisposedException <==> disposed)
      ensures o.error in {ObjectDisposedException, NotSupportedException}
    {
      if disposed then Fails(ObjectDisposedException) else Fails(NotSupportedException)
    }

    /** `Flush`: the stream is not writable. */
    method Flush() returns (o: Outcome)
      ensures o == NotWriteable()
    {
      o := NotWriteable();
    }

    /** `SetLength`: the stream is not writable. */
    method SetLength(value: long) returns (o: Outcome)
      ensures o == NotWriteable()
    {
      o := NotWriteable();
    }

    /** `Write`: the stream is not writable. */
    method Write(buffer: array<byte>, offset: int32, count: int32) returns (o: Outcome)
      ensures o == NotWriteable()
    {
      o := NotWriteable();
    }

    /** `Dispose(disposing)`: sets the flag when disposing; a second call changes nothing. */
    method Dispose(disposing: bool)
      modifies this
      ensures disposed == (old(disposed) || disposing)
      ensures position == old(position)
    {
      if disposing && !disposed {
        disposed := true;
      }
    }
  }
}
