/**
 * Single-bit operations as the C# source writes them in n-bit arithmetic:
 * `(value & (1 << index)) != 0`, `value | (1 << index)` and
 * `value & ~(1 << index)`, where the shift count has already been reduced the
 * way C# reduces it (`& 31` for `int`/`uint`, `& 63` for `long`/`ulong`).
 */
module BitOps {
  import opened Bits

  /** The widths of C#'s `int` and `long`, in which narrower operands are computed. */
  const IntWidth: nat := 32
  const LongWidth: nat := 64

  /** `(value & (1 << k)) != 0`. */
  predicate TestBit(n: nat, value: nat, k: nat)
  {
    And(n, value, Shl(n, 1, k)) != 0
  }

  /** `value | (1 << k)`. */
  function WithBit(n: nat, value: nat, k: nat): (r: nat)
    ensures r < Pow2(n)
  {
    Or(n, value, Shl(n, 1, k))
  }

  /** `value & ~(1 << k)`. */
  function WithoutBit(n: nat, value: nat, k: nat): (r: nat)
    ensures r < Pow2(n)
  {
    And(n, value, Not(n, Shl(n, 1, k)))
  }

  /** `1 << k` is 2^k while k is below the width. */
  lemma ShlOne(n: nat, k: nat)
    requires k < n
    ensures Shl(n, 1, k) == Pow2(k)
  {
    Pow2Le(k + 1, n);
    PatternSmall(n, Pow2(k));
  }

  /** The mask test reads bit k. */
  lemma TestBitIsBit(n: nat, value: nat, k: nat)
    requires k < n
    ensures TestBit(n, value, k) == Bit(value, k)
  {
    ShlOne(n, k);
    AndPow2(n, value, k);
  }

  /** Or-ing the mask sets bit k and keeps every other bit below n. */
  lemma WithBitBits(n: nat, value: nat, k: nat, i: nat)
    requires k < n
    ensures Bit(WithBit(n, value, k), i) == (i < n && (i == k || Bit(value, i)))
  {
    ShlOne(n, k);
    BitOr(n, value, Pow2(k), i);
    BitPow2(k, i);
  }

  /** And-ing the inverted mask clears bit k and keeps every other bit below n. */
  lemma WithoutBitBits(n: nat, value: nat, k: nat, i: nat)
    requires k < n
    ensures Bit(WithoutBit(n, value, k), i) == (i < n && i != k && Bit(value, i))
  {
    ShlOne(n, k);
    BitAnd(n, value, Not(n, Pow2(k)), i);
    BitNot(n, Pow2(k), i);
    BitPow2(k, i);
  }
  /** `(1 << (e + 1)) - (1 << s)`: bits s to e set. */
  function RangeMask(s: nat, e: nat): (m: nat)
    requires s <= e
    ensures forall i: nat :: Bit(m, i) == (s <= i <= e)
  {
    Pow2Le(s, e + 1);
    var m := Pow2(e + 1) - Pow2(s);
    RangeMaskBits(s, e, m);
    m
  }

  lemma RangeMaskBits(s: nat, e: nat, m: nat)
    requires s <= e && m == Pow2(e + 1) - Pow2(s)
    ensures forall i: nat :: Bit(m, i) == (s <= i <= e)
  {
    forall i: nat
      ensures Bit(m, i) == (s <= i <= e)
    {
      BitRange(e + 1, s, i);
    }
  }

  lemma RangeMaskBound(n: nat, s: nat, e: nat)
    requires s <= e < n
    ensures RangeMask(s, e) < Pow2(n)
  {
    Pow2Le(e + 1, n);
  }

  /** `(value & mask(s, e)) >> s` is the field of bits s to e, moved down to bit 0. */
  lemma MaskedField(n: nat, x: nat, s: nat, e: nat)
    requires s <= e < n
    ensures Shr(And(n, x, RangeMask(s, e)), s) == Shr(x, s) % Pow2(e - s + 1)
  {
    var a := Shr(And(n, x, RangeMask(s, e)), s);
    var b := Shr(x, s) % Pow2(e - s + 1);
    Pow2Le(e - s + 1, n);
    forall i | 0 <= i < n
      ensures Bit(a, i) == Bit(b, i)
    {
      BitDivPow2(And(n, x, RangeMask(s, e)), s, i);
      BitAnd(n, x, RangeMask(s, e), i + s);
      BitModPow2(Shr(x, s), e - s + 1, i);
      BitDivPow2(x, s, i);
    }
    Ext(n, a, b);
  }

  /** `value & mask(s, e)` is the field of bits s to e, left in place. */
  lemma AndRangeMask(n: nat, x: nat, s: nat, e: nat)
    requires s <= e < n
    ensures And(n, x, RangeMask(s, e)) == (Shr(x, s) % Pow2(e - s + 1)) * Pow2(s)
  {
    var a := And(n, x, RangeMask(s, e));
    var f := Shr(x, s) % Pow2(e - s + 1);
    FieldBound(f, s, e);
    Pow2Le(e + 1, n);
    forall i | 0 <= i < n
      ensures Bit(a, i) == Bit(f * Pow2(s), i)
    {
      BitAnd(n, x, RangeMask(s, e), i);
      BitMulPow2(f, s, i);
      if s <= i {
        BitModPow2(Shr(x, s), e - s + 1, i - s);
        BitDivPow2(x, s, i - s);
      }
    }
    Ext(n, a, f * Pow2(s));
  }

  lemma FieldBound(f: nat, s: nat, e: nat)
    requires s <= e && f < Pow2(e - s + 1)
    ensures f * Pow2(s) < Pow2(e + 1)
  {
    Pow2Add(e - s + 1, s);
    MulLe(Pow2(s), f + 1, Pow2(e - s + 1));
  }

  /**
   * `(x & ~mask(s, e)) | ((v & mask(0, e - s)) << s)`: the field of bits s to e
   * replaced by the low bits of v.
   */
  function PlaceField(n: nat, x: nat, v: nat, s: nat, e: nat): (r: nat)
    requires s <= e
    ensures r < Pow2(n)
  {
    Or(n, And(n, x, Not(n, RangeMask(s, e))), Shl(n, And(n, v, RangeMask(0, e - s)), s))
  }

  lemma PlaceFieldBits(n: nat, x: nat, v: nat, s: nat, e: nat, i: nat)
    requires s <= e
    ensures Bit(PlaceField(n, x, v, s, e), i) == (i < n && if s <= i <= e then Bit(v, i - s) else Bit(x, i))
  {
    var keep := And(n, x, Not(n, RangeMask(s, e)));
    var field := And(n, v, RangeMask(0, e - s));
    BitOr(n, keep, Shl(n, field, s), i);
    BitAnd(n, x, Not(n, RangeMask(s, e)), i);
    BitNot(n, RangeMask(s, e), i);
    BitShl(n, field, s, i);
    if s <= i {
      BitAnd(n, v, RangeMask(0, e - s), i - s);
    }
  }

  /** `(input & ~mask) | (source & mask)`: the bits of source where mask is set, of input elsewhere. */
  function Merge(n: nat, input: nat, source: nat, mask: nat): (r: nat)
    ensures r < Pow2(n)
  {
    Or(n, And(n, input, Not(n, mask)), And(n, source, mask))
  }

  lemma MergeBits(n: nat, input: nat, source: nat, mask: nat, i: nat)
    ensures Bit(Merge(n, input, source, mask), i) == (i < n && if Bit(mask, i) then Bit(source, i) else Bit(input, i))
  {
    BitOr(n, And(n, input, Not(n, mask)), And(n, source, mask), i);
    BitAnd(n, input, Not(n, mask), i);
    BitNot(n, mask, i);
    BitAnd(n, source, mask, i);
  }

  /** `(T)(value | (1 << k))` for an m-bit T computed in n bits: bit k set when it lies below m. */
  lemma NarrowWithBit(n: nat, m: nat, value: nat, k: nat)
    requires k < n && m <= n
    ensures forall i :: 0 <= i < m ==> Bit(Pattern(m, WithBit(n, value, k)), i) == (i == k || Bit(value, i))
  {
    forall i | 0 <= i < m
      ensures Bit(Pattern(m, WithBit(n, value, k)), i) == (i == k || Bit(value, i))
    {
      BitModPow2(WithBit(n, value, k), m, i);
      WithBitBits(n, value, k, i);
    }
  }

  /** `(T)(value & ~(1 << k))` for an m-bit T computed in n bits: bit k cleared. */
  lemma NarrowWithoutBit(n: nat, m: nat, value: nat, k: nat)
    requires k < n && m <= n
    ensures forall i :: 0 <= i < m ==> Bit(Pattern(m, WithoutBit(n, value, k)), i) == (i != k && Bit(value, i))
  {
    forall i | 0 <= i < m
      ensures Bit(Pattern(m, WithoutBit(n, value, k)), i) == (i != k && Bit(value, i))
    {
      BitModPow2(WithoutBit(n, value, k), m, i);
      WithoutBitBits(n, value, k, i);
    }
  }

  /** A value below 2^m has no bit at m or above. */
  lemma NoHighBits(m: nat, value: nat, k: nat)
    requires value < Pow2(m)
    ensures Bit(value, k) ==> k < m
  {
    if k >= m {
      BitBound(value, m, k);
    }
  }

  /** `value | (1 << k)` on an n-bit signed value: the result's pattern is its pattern with bit k set. */
  lemma SignedWithBit(n: nat, value: int, k: nat)
    requires k < n
    ensures forall i :: 0 <= i < n ==>
      Bit(Pattern(n, ToSigned(n, WithBit(n, Pattern(n, value), k))), i) == (i == k || Bit(Pattern(n, value), i))
  {
    var w := WithBit(n, Pattern(n, value), k);
    PatternOfSigned(n, w);
    forall i | 0 <= i < n
      ensures Bit(w, i) == (i == k || Bit(Pattern(n, value), i))
    {
      WithBitBits(n, Pattern(n, value), k, i);
    }
  }

  /** `value & ~(1 << k)` on an n-bit signed value: the result's pattern is its pattern with bit k clear. */
  lemma SignedWithoutBit(n: nat, value: int, k: nat)
    requires k < n
    ensures forall i :: 0 <= i < n ==>
      Bit(Pattern(n, ToSigned(n, WithoutBit(n, Pattern(n, value), k))), i) == (i != k && Bit(Pattern(n, value), i))
  {
    var w := WithoutBit(n, Pattern(n, value), k);
    PatternOfSigned(n, w);
    forall i | 0 <= i < n
      ensures Bit(w, i) == (i != k && Bit(Pattern(n, value), i))
    {
      WithoutBitBits(n, Pattern(n, value), k, i);
    }
  }

  /** The sign of an n-bit signed value is the top bit of its pattern, and its parity bit 0. */
  lemma SignAndParity(n: nat, value: int)
    requires 1 <= n && -(Pow2(n - 1) as int) <= value < Pow2(n - 1)
    ensures Bit(Pattern(n, value), n - 1) <==> value < 0
    ensures Bit(Pattern(n, value), 0) <==> value % 2 == 1
  {
    SignedOfPattern(n, value);
    ToSignedRange(n, Pattern(n, value));
    PatternOfPattern(value, n, 1);
  }
}
