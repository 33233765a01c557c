/**
 * PeekableStream.cs: a read-only stream over another stream that can look at
 * the next byte without consuming it. `peeked` caches what the last Peek saw,
 * a byte or -1 for the end, or `int.MinValue` when nothing is cached; a cached
 * byte has already been read from the wrapped stream, whose cursor is then one
 * past it. The wrapped stream is the in-memory stream of module Streams.
 */
module PeekableStreams {
  import opened Bits
  import opened Errors
  import opened Endianness
  import opened Streams

  /** `int.MinValue`: nothing is cached. */
  const NotPeeked: int := -0x8000_0000

  /** The byte at position, or -1 at or past the end: what ReadByte and Peek return. */
  function NextByte(data: seq<byte>, position: int): (r: int)
    requires 0 <= position
    ensures -1 <= r < 0x100
    ensures r == -1 <==> position >= |data|
    ensures r >= 0 ==> r == data[position]
  {
    if position < |data| then data[position] else -1
  }

  /** The unchecked `count - 1` of an `int`: `int.MinValue - 1` wraps to `int.MaxValue`. */
  function Decrement(count: int32): (r: int32)
    ensures count > -0x8000_0000 ==> r == count - 1
    ensures Pattern(32, r) == Pattern(32, count - 1)
  {
    if count == -0x8000_0000 then
      assert Pow2(32) == 0x1_0000_0000 by { Pow2Values(); }
      DivMod(count - 1, 0x1_0000_0000, -1, IntMax);
      DivMod(IntMax, 0x1_0000_0000, 0, IntMax);
      IntMax
    else
      count - 1
  }

  /** Reading one byte at p and then up to count - 1 from p + 1 reads as much as up to count from p. */
  lemma AvailableAfterOne(count: int, p: int, length: int)
    requires 1 <= count && 0 <= p < length
    ensures Available(count - 1, p + 1, length) + 1 == Available(count, p, length)
  {
  }

  /**
   * The read with byte b, cached from q - 1, is the plain read from q - 1:
   * b, then, unless count is 1, the read of up to count - 1 bytes from q.
   */
  lemma CachedReadIsPlain(data: seq<byte>, q: int, b: byte, count: int, offset: int, before: seq<byte>,
                          rest: int, r: Result<int32>, position: int, after: seq<byte>)
    requires 1 <= q <= |data| && data[q - 1] == b && 1 <= count
    requires 0 <= offset && offset + count <= |before|
    requires count == 1 ==> r == Ok(1) && position == q && after == before[offset := b]
    requires count != 1 ==> (rest == Available(count - 1, q, |data|) && r == Ok(rest + 1) && position == q + rest
      && after == Splice(before[offset := b], offset + 1, Segment(data, q, rest)))
    ensures
      var k := Available(count, q - 1, |data|);
      r == Ok(k) && position == q - 1 + k && after == Splice(before, offset, Segment(data, q - 1, k))
  {
    if count == 1 {
      assert Segment(data, q - 1, 1) == [b];
      SpliceOne(before, offset, b);
    } else {
      AvailableAfterOne(count, q - 1, |data|);
      assert rest + 1 == Available(count, q - 1, |data|);
      SpliceAfterByte(before, offset, b, data, q - 1, rest + 1);
      assert Segment(data, q - 1 + 1, rest + 1 - 1) == Segment(data, q, rest);
    }
  }

  /** Splicing in one byte is an update. */
  lemma SpliceOne(a: seq<byte>, offset: int, b: byte)
    requires 0 <= offset < |a|
    ensures Splice(a, offset, [b]) == a[offset := b]
  {
    assert Splice(a, offset, [b])[offset..offset + 1][0] == Splice(a, offset, [b])[offset];
  }

  /** Splicing in nothing changes nothing. */
  lemma SpliceNothing(a: seq<byte>, offset: int)
    requires 0 <= offset <= |a|
    ensures Splice(a, offset, []) == a
  {
  }

  /**
   * Writing byte b at offset and then the k - 1 bytes after data[p] just past
   * it writes the k bytes from data[p] at offset, when data[p] is b.
   */
  lemma SpliceAfterByte(a: seq<byte>, offset: int, b: byte, data: seq<byte>, p: int, k: int)
    requires 0 <= offset && offset + k <= |a| && 1 <= k && 0 <= p && p + k <= |data| && data[p] == b
    ensures Splice(a[offset := b], offset + 1, Segment(data, p + 1, k - 1)) == Splice(a, offset, Segment(data, p, k))
  {
    var left := Splice(a[offset := b], offset + 1, Segment(data, p + 1, k - 1));
    var right := Segment(data, p, k);
    forall j | 0 <= j < k
      ensures left[offset + j] == right[j]
    {
      if j > 0 {
        SpliceAt(a[offset := b], offset + 1, Segment(data, p + 1, k - 1), offset + j);
      }
    }
    SpliceOf(a, left, offset, right);
  }

  /** Position j of a splice. */
  lemma SpliceAt(a: seq<byte>, start: nat, s: seq<byte>, j: nat)
    requires start + |s| <= |a| && start <= j < start + |s|
    ensures Splice(a, start, s)[j] == s[j - start]
  {
    var r := Splice(a, start, s);
    assert r[start..start + |s|][j - start] == r[j];
  }

  class PeekableStream {
    const stream: MemoryStream
    const leaveOpen: bool
    var peeked: int
    var disposed: bool

    predicate Valid()
      reads this, stream
    {
      stream.Valid() && (peeked == NotPeeked || -1 <= peeked < 0x100)
    }

    /** What the Position getter reports: one less than the wrapped cursor while a byte is cached. */
    function ReportedPosition(): long
      reads this, stream
      requires Valid()
    {
      if peeked >= 0 then stream.position - 1 else stream.position
    }

    /**
     * The cache agrees with the wrapped stream: a cached byte is the one just
     * before its cursor, and a cached end is at or past its end. Every member
     * keeps this as long as nothing else moves the wrapped stream.
     */
    predicate Consistent()
      reads this, stream
    {
      Valid()
        && (peeked >= 0 ==> 1 <= stream.position <= |stream.data| && stream.data[stream.position - 1] == peeked)
        && (peeked == -1 ==> stream.position >= |stream.data|)
    }

    /** The constructor, for a readable stream; `Create` makes the readability check. */
    constructor(stream: MemoryStream, leaveOpen: bool)
      requires stream.Valid() && stream.CanRead()
      ensures this.stream == stream && this.leaveOpen == leaveOpen
      ensures peeked == NotPeeked && !disposed && Consistent()
    {
      this.stream := stream;
      this.leaveOpen := leaveOpen;
      peeked := NotPeeked;
      disposed := false;
    }

    /**
     * `Read`: after the disposal check, a cached end reads nothing and an
     * empty cache reads straight from the wrapped stream. A cached byte is put
     * at `buffer[offset]` and the cache cleared; a count of 1 then returns 1,
     * any other count reads `count - 1` more bytes after it from the wrapped
     * stream and returns one more than those. So a count of 0 with a byte
     * cached writes the byte, empties the cache and throws from the wrapped
     * stream's check of the count -1.
     */
    method Read(buffer: array<byte>, offset: int32, count: int32) returns (r: Result<int32>)
      requires Valid() && buffer.Length <= IntMax
      modifies this, stream, buffer
      ensures Valid() && disposed == old(disposed) && stream.open == old(stream.open)
      ensures old(disposed) ==> (r == Throws(ObjectDisposedException) && peeked == old(peeked)
        && stream.position == old(stream.position) && buffer[..] == old(buffer[..]))
      ensures !old(disposed) && old(peeked) == -1 ==> (r == Ok(0) && peeked == -1
        && stream.position == old(stream.position) && buffer[..] == old(buffer[..]))
      ensures !old(disposed) && old(peeked) == NotPeeked ==> (peeked == NotPeeked
        && r == old(stream.ReadOutcome(buffer.Length, offset, count))
        && stream.position == old(stream.position) + (if r.Ok? then r.value else 0)
        && buffer[..] == if r.Ok? then Splice(old(buffer[..]), offset, Segment(stream.data, old(stream.position), r.value)) else old(buffer[..]))
      ensures !old(disposed) && old(peeked) >= 0 && !(0 <= offset < buffer.Length) ==> (
        r == Throws(IndexOutOfRangeException) && peeked == old(peeked)
        && stream.position == old(stream.position) && buffer[..] == old(buffer[..]))
      ensures !old(disposed) && old(peeked) >= 0 && 0 <= offset < buffer.Length ==> (
        var rest := old(stream.ReadOutcome(buffer.Length, offset + 1, Decrement(count)));
        var written := old(buffer[..])[offset := old(peeked) as byte];
        peeked == NotPeeked
        && r == (if count == 1 then Ok(1) else if rest.Ok? then Ok(rest.value + 1) else Throws(rest.error))
        && stream.position == old(stream.position) + (if count != 1 && rest.Ok? then rest.value else 0)
        && buffer[..] == if count != 1 && rest.Ok?
          then Splice(written, offset + 1, Segment(stream.data, old(stream.position), rest.value))
          else written)
      ensures old(Consistent()) ==> Consistent()
      // Peeking changes nothing a reader sees: with valid arguments, and a
      // count of at least 1 while a byte is cached, the read is the one the
      // wrapped stream would make at the reported position.
      ensures (!old(disposed) && old(Consistent()) && old(stream.CanRead())
        && 0 <= offset && 0 <= count && offset + count <= buffer.Length && (count >= 1 || old(peeked) < 0)) ==> (
        var p := old(ReportedPosition());
        var k := Available(count, p, |stream.data|);
        r == Ok(k) && ReportedPosition() == p + k
        && buffer[..] == Splice(old(buffer[..]), offset, Segment(stream.data, p, k)))
    {
      if disposed {
        return Throws(ObjectDisposedException);
      }
      if peeked == -1 {
        if Consistent() && 0 <= offset && 0 <= count && offset + count <= buffer.Length {
          assert Available(count, stream.position, |stream.data|) == 0;
          SpliceNothing(buffer[..], offset);
        }
        return Ok(0);
      }
      if peeked == NotPeeked {
        r := ReadThrough(buffer, offset, count);
        return;
      }
      if offset < 0 || offset >= buffer.Length {
        return Throws(IndexOutOfRangeException);
      }
      r := ReadCached(buffer, offset, count);
    }

    /** Read with nothing cached: the wrapped stream's read. */
    method ReadThrough(buffer: array<byte>, offset: int32, count: int32) returns (r: Result<int32>)
      requires Valid() && buffer.Length <= IntMax && !disposed && peeked == NotPeeked
      modifies stream, buffer
      ensures Valid() && stream.open == old(stream.open)
      ensures r == old(stream.ReadOutcome(buffer.Length, offset, count))
      ensures stream.position == old(stream.position) + (if r.Ok? then r.value else 0)
      ensures buffer[..] == if r.Ok? then Splice(old(buffer[..]), offset, Segment(stream.data, old(stream.position), r.value)) else old(buffer[..])
      ensures (stream.CanRead() && 0 <= offset && 0 <= count && offset + count <= buffer.Length) ==>
        r == Ok(Available(count, old(stream.position), |stream.data|))
    {
      r := stream.Read(buffer, offset, count);
    }

    /** Read with a byte cached and an offset inside the buffer. */
    method ReadCached(buffer: array<byte>, offset: int32, count: int32) returns (r: Result<int32>)
      requires Valid() && buffer.Length <= IntMax && !disposed && peeked >= 0 && 0 <= offset < buffer.Length
      modifies this, stream, buffer
      ensures Valid() && !disposed && stream.open == old(stream.open) && peeked == NotPeeked
      ensures count == 1 ==> (r == Ok(1) && stream.position == old(stream.position)
        && buffer[..] == old(buffer[..])[offset := old(peeked) as byte])
      ensures count != 1 ==> (
        var rest := old(stream.ReadOutcome(buffer.Length, offset + 1, Decrement(count)));
        && r == (if rest.Ok? then Ok(rest.value + 1) else Throws(rest.error))
        && stream.position == old(stream.position) + (if rest.Ok? then rest.value else 0)
        && buffer[..] == if rest.Ok?
          then Splice(old(buffer[..])[offset := old(peeked) as byte], offset + 1, Segment(stream.data, old(stream.position), rest.value))
          else old(buffer[..])[offset := old(peeked) as byte])
      ensures (old(Consistent()) && old(stream.CanRead()) && 1 <= count && offset + count <= buffer.Length) ==> (
        var p := old(ReportedPosition());
        var k := Available(count, p, |stream.data|);
        r == Ok(k) && stream.position == p + k
        && buffer[..] == Splice(old(buffer[..]), offset, Segment(stream.data, p, k)))
    {
      ghost var q, before := stream.position, buffer[..];
      ghost var consistent := Consistent() && stream.CanRead() && 1 <= count && offset + count <= buffer.Length;
      var b: byte := peeked;
      ghost var expected := stream.ReadOutcome(buffer.Length, offset + 1, Decrement(count));
      if consistent && count != 1 {
        assert expected == Ok(Available(count - 1, q, |stream.data|));
      }
      buffer[offset] := b;
      peeked := NotPeeked;
      if count == 1 {
        r := Ok(1);
      } else {
        var rest := stream.Read(buffer, offset + 1, Decrement(count));
        r := if rest.Throws? then Throws(rest.error) else Ok(rest.value + 1);
      }
      if consistent {
        CachedReadIsPlain(stream.data, q, b, count, offset, before,
          if expected.Ok? then expected.value else 0, r, stream.position, buffer[..]);
      }
    }

    /**
     * The base `Stream.ReadByte`: a one-byte read through this class's Read,
     * -1 when it reads nothing.
     */
    method ReadByte() returns (r: Result<int>)
      requires Valid()
      modifies this, stream
      ensures Valid() && disposed == old(disposed) && stream.open == old(stream.open)
      ensures old(disposed) ==> r == Throws(ObjectDisposedException) && peeked == old(peeked) && stream.position == old(stream.position)
      ensures !old(disposed) && old(peeked) != NotPeeked ==> (r == Ok(old(peeked)) && stream.position == old(stream.position)
        && peeked == if old(peeked) == -1 then -1 else NotPeeked)
      ensures !old(disposed) && old(peeked) == NotPeeked ==> (peeked == NotPeeked
        && if old(stream.CanRead())
        then r == Ok(NextByte(stream.data, old(stream.position))) && stream.position == old(stream.position) + (if r.value >= 0 then 1 else 0)
        else r == Throws(if stream.open then NotSupportedException else ObjectDisposedException) && stream.position == old(stream.position))
      ensures old(Consistent()) ==> Consistent()
      ensures !old(disposed) && old(Consistent()) && old(stream.CanRead()) ==>
        r == Ok(NextByte(stream.data, old(ReportedPosition())))
        && ReportedPosition() == old(ReportedPosition()) + (if r.value >= 0 then 1 else 0)
    {
      var one := new byte[1];
      var n := Read(one, 0, 1);
      if n.Throws? {
        return Throws(n.error);
      }
      r := if n.value == 0 then Ok(-1) else Ok(one[0]);
    }

    /** `Peek`: the next byte, or -1 at the end, remembered until the next read or move. */
    method Peek() returns (r: Result<int>)
      requires Valid()
      modifies this, stream
      ensures Valid() && disposed == old(disposed) && stream.open == old(stream.open)
      ensures old(disposed) ==> r == Throws(ObjectDisposedException) && peeked == old(peeked) && stream.position == old(stream.position)
      ensures !old(disposed) && old(peeked) != NotPeeked ==> r == Ok(old(peeked)) && peeked == old(peeked) && stream.position == old(stream.position)
      ensures !old(disposed) && old(peeked) == NotPeeked && old(stream.CanRead()) ==> (
        r == Ok(NextByte(stream.data, old(stream.position))) && peeked == r.value
        && stream.position == old(stream.position) + (if r.value >= 0 then 1 else 0))
      ensures !old(disposed) && old(peeked) == NotPeeked && !old(stream.CanRead()) ==> (
        r == Throws(if stream.open then NotSupportedException else ObjectDisposedException)
        && peeked == NotPeeked && stream.position == old(stream.position))
      ensures r.Ok? ==> ReportedPosition() == old(ReportedPosition())
      ensures old(Consistent()) ==> Consistent()
      ensures !old(disposed) && old(Consistent()) && old(stream.CanRead()) ==>
        r == Ok(NextByte(stream.data, old(ReportedPosition())))
    {
      if disposed {
        return Throws(ObjectDisposedException);
      }
      var b := ReadByte();
      if b.Throws? {
        return b;
      }
      peeked := b.value;
      r := b;
    }

    /** `EndOfStream`: whether Peek returns -1. */
    method EndOfStream() returns (r: Result<bool>)
      requires Valid()
      modifies this, stream
      ensures Valid() && disposed == old(disposed) && stream.open == old(stream.open)
      ensures old(disposed) ==> r == Throws(ObjectDisposedException)
      ensures r.Ok? ==> ReportedPosition() == old(ReportedPosition())
      ensures old(Consistent()) ==> Consistent()
      ensures !old(disposed) && old(Consistent()) && old(stream.CanRead()) ==>
        r == Ok(old(ReportedPosition()) >= |stream.data|)
    {
      var next := Peek();
      if next.Throws? {
        return Throws(next.error);
      }
      r := Ok(next.value == -1);
    }

    /** `Seek`: empties the cache, then moves the wrapped stream; a seek that fails still loses the cached byte. */
    method Seek(offset: long, origin: SeekOrigin) returns (r: Result<long>)
      requires Valid()
      modifies this, stream
      ensures Valid() && disposed == old(disposed) && stream.open == old(stream.open)
      ensures old(disposed) ==> r == Throws(ObjectDisposedException) && peeked == old(peeked) && stream.position == old(stream.position)
      ensures !old(disposed) ==> (peeked == NotPeeked && r == old(stream.SeekOutcome(offset, origin))
        && stream.position == if r.Ok? then r.value else old(stream.position))
      ensures old(Consistent()) ==> Consistent()
    {
      if disposed {
        return Throws(ObjectDisposedException);
      }
      peeked := NotPeeked;
      r := stream.Seek(offset, origin);
    }

    /** The `Position` getter: the wrapped position, less the cached byte. */
    method GetPosition() returns (r: Result<long>)
      requires Valid()
      ensures r == if disposed || !stream.open then Throws(ObjectDisposedException) else Ok(ReportedPosition())
    {
      if disposed {
        return Throws(ObjectDisposedException);
      }
      var p := stream.GetPosition();
      if p.Throws? {
        return p;
      }
      if peeked >= 0 {
        return Ok(p.value - 1);
      }
      r := p;
    }

    /** The `Position` setter: empties the cache, then sets the wrapped position. */
    method SetPosition(value: long) returns (o: Outcome)
      requires Valid()
      modifies this, stream
      ensures Valid() && disposed == old(disposed) && stream.open == old(stream.open)
      ensures old(disposed) ==> o == Fails(ObjectDisposedException) && peeked == old(peeked) && stream.position == old(stream.position)
      ensures !old(disposed) ==> (peeked == NotPeeked
        && o == (if value < 0 then Fails(ArgumentOutOfRangeException)
          else if !stream.open then Fails(ObjectDisposedException)
          else if value > IntMax then Fails(ArgumentOutOfRangeException)
          else Done)
        && stream.position == if o.Done? then value else old(stream.position))
      ensures old(Consistent()) ==> Consistent()
    {
      if disposed {
        return Fails(ObjectDisposedException);
      }
      peeked := NotPeeked;
      o := stream.SetPosition(value);
    }

    /** `CanRead`: false once disposed, rather than throwing, and otherwise whether the wrapped stream reads. */
    predicate CanRead(): (r: bool)
      reads this, stream
      ensures r <==> !disposed && stream.open && stream.readable
      ensures r ==> CanSeek()
    {
      !disposed && stream.CanRead()
    }

    /** `CanSeek`: false once disposed, rather than throwing, and otherwise whether the wrapped stream seeks. */
    predicate CanSeek(): (r: bool)
      reads this, stream
      ensures r <==> !disposed && stream.open
    {
      !disposed && stream.CanSeek()
    }

    /** `CanWrite`: always false, so every write is refused. */
    predicate CanWrite(): (r: bool)
      ensures !r
    {
      false
    }

    /** The `Length` getter: the wrapped stream's length. */
    method GetLength() returns (r: Result<long>)
      requires Valid()
      ensures r == if disposed || !stream.open then Throws(ObjectDisposedException) else Ok(|stream.data|)
    {
      if disposed {
        return Throws(ObjectDisposedException);
      }
      r := stream.GetLength();
    }

    /** `Flush`: only the disposal check; there is nothing to flush. */
    method Flush() returns (o: Outcome)
      ensures o == if disposed then Fails(ObjectDisposedException) else Done
    {
      if disposed {
        return Fails(ObjectDisposedException);
      }
      o := Done;
    }

    /** The failure of the writing members: disposed first, otherwise not writable. */
    function NotWriteable(): (o: Outcome)
      reads this
      ensures o.Fails? && (o.error == ObjectDisposedException <==> disposed)
      ensures o.error in {ObjectDisposedException, NotSupportedException}
    {
      if disposed then Fails(ObjectDisposedException) else Fails(NotSupportedException)
    }

    /** `SetLength`: the stream is not writable. */
    method SetLength(value: long) returns (o: Outcome)
      ensures o == NotWriteable()
    {
      o := NotWriteable();
    }

    /** `Write`: the stream is not writable. */
    method Write(buffer: array<byte>, offset: int32, count: int32) returns (o: Outcome)
      ensures o == NotWriteable()
    {
      o := NotWriteable();
    }

    /**
     * `Dispose(disposing)`: the first disposing call sets the flag and closes
     * the wrapped stream unless it was to be left open; later calls change nothing.
     */
    method Dispose(disposing: bool)
      modifies this, stream
      ensures disposed == (old(disposed) || disposing)
      ensures stream.open == (old(stream.open) && !(disposing && !old(disposed) && !leaveOpen))
      ensures peeked == old(peeked) && stream.position == old(stream.position)
    {
      if disposing && !disposed {
        disposed := true;
        if !leaveOpen {
          stream.Dispose();
        }
      }
    }
  }

  /** `new PeekableStream(stream, leaveOpen)`: refuses a stream that cannot be read. */
  method Create(stream: MemoryStream, leaveOpen: bool) returns (r: Result<PeekableStream>)
    requires stream.Valid()
    ensures r.Ok? <==> stream.CanRead()
    ensures !stream.CanRead() ==> r == Throws(ArgumentException)
    ensures r.Ok? ==> fresh(r.value) && r.value.stream == stream && r.value.leaveOpen == leaveOpen
    ensures r.Ok? ==> r.value.peeked == NotPeeked && !r.value.disposed && r.value.Consistent()
  {
    if !stream.CanRead() {
      return Throws(ArgumentException);
    }
    var p := new PeekableStream(stream, leaveOpen);
    r := Ok(p);
  }
}
