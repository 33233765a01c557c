/**
 * ReadOnlyListExtensions.cs: copying a read-only list of bytes into a span.
 * The span is the part of array `destination` that begins at `start`.
 */
module ReadOnlyListExtensions {
  import opened Bits
  import opened Errors

  /**
   * CopyTo(destination): throws ArgumentException when the list does not fit,
   * before writing anything; otherwise writes `source[k]` at position k of the
   * span, one element at a time through a moving reference.
   */
  method CopyTo(source: seq<byte>, destination: array<byte>, start: nat) returns (r: Outcome)
    requires start <= destination.Length
    modifies destination
    ensures r == Fails(ArgumentException) <==> |source| > destination.Length - start
    ensures r == Done || r == Fails(ArgumentException)
    ensures r.Fails? ==> destination[..] == old(destination[..])
    ensures r.Done? ==> destination[..] == old(destination[..start]) + source + old(destination[start + |source|..])
  {
    if |source| > destination.Length - start {
      return Fails(ArgumentException);
    }
    var k := 0;
    while k < |source|
      invariant 0 <= k <= |source|
      invariant destination[..] == old(destination[..start]) + source[..k] + old(destination[start + k..])
    {
      destination[start + k] := source[k];
      k := k + 1;
    }
    return Done;
  }

  /**
   * CopyTo(destination, start): `destination[start..]` throws
   * ArgumentOutOfRangeException unless 0 <= start <= Length; the copy then goes
   * to that slice.
   */
  method CopyToAt(source: seq<byte>, destination: array<byte>, start: int32) returns (r: Outcome)
    modifies destination
    ensures r == Fails(ArgumentOutOfRangeException) <==> !(0 <= start <= destination.Length)
    ensures r == Fails(ArgumentException) <==> 0 <= start <= destination.Length && |source| > destination.Length - start
    ensures r.Fails? ==> destination[..] == old(destination[..])
    ensures r.Done? ==> 0 <= start && start + |source| <= destination.Length
    ensures r.Done? ==> destination[..] == old(destination[..start]) + source + old(destination[start + |source|..])
  {
    if !(0 <= start <= destination.Length) {
      return Fails(ArgumentOutOfRangeException);
    }
    r := CopyTo(source, destination, start);
  }
}
