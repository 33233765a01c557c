/**
 * Int32Extensions.cs: bit access on `int`. A value is modelled as a Dafny
 * integer in the `int` range, and every bitwise operator acts on its 32-bit
 * two's-complement pattern; the result is read back as a signed value. Shift
 * counts are reduced `& 31`, and `>>` on an `int` is arithmetic (it rounds towards
 * minus infinity).
 */
module Int32Extensions {
  import opened Bits
  import opened BitOps
  import opened Errors
  import BinaryStringHelper

  /** GetBit: `(value & (1 << index)) != 0`. */
  function GetBit(value: int32, index: int32): (r: bool)
    ensures r == Bit(Pattern(32, value), index % 32)
  {
    TestBitIsBit(IntWidth, Pattern(IntWidth, value), index % 32);
    TestBit(IntWidth, Pattern(IntWidth, value), index % 32)
  }

  /** ResetBit: `value & ~(1 << index)`. */
  function ResetBit(value: int32, index: int32): (r: int32)
    ensures forall i :: 0 <= i < 32 ==> Bit(Pattern(32, r), i) == (i != index % 32 && Bit(Pattern(32, value), i))
  {
    Pow2Values();
    var w := WithoutBit(IntWidth, Pattern(IntWidth, value), index % 32);
    SignedWithoutBit(IntWidth, value, index % 32);
    ToSignedRange(IntWidth, w);
    ToSigned(IntWidth, w)
  }

  /** SetBit: `value | (1 << index)`. */
  function SetBit(value: int32, index: int32): (r: int32)
    ensures forall i :: 0 <= i < 32 ==> Bit(Pattern(32, r), i) == (i == index % 32 || Bit(Pattern(32, value), i))
  {
    Pow2Values();
    var w := WithBit(IntWidth, Pattern(IntWidth, value), index % 32);
    SignedWithBit(IntWidth, value, index % 32);
    ToSignedRange(IntWidth, w);
    ToSigned(IntWidth, w)
  }

  /** After SetBit(index) GetBit reads it as set, after ResetBit as clear; every other bit reads as before. */
  lemma GetBitAfterSetBit(value: int32, index: int32, other: int32)
    requires 0 <= index < 32
    ensures GetBit(SetBit(value, index), other) == (other % 32 == index || GetBit(value, other))
    ensures GetBit(ResetBit(value, index), other) == (other % 32 != index && GetBit(value, other))
  {
    DivMod(index, 32, 0, index);
    var k := other % 32;
    assert Bit(Pattern(32, SetBit(value, index)), k) == (k == index || Bit(Pattern(32, value), k));
    assert Bit(Pattern(32, ResetBit(value, index)), k) == (k != index && Bit(Pattern(32, value), k));
  }

  /** SignBit: `(value & unchecked((int)0x80000000)) != 0`. */
  function SignBit(value: int32): (r: bool)
    ensures r <==> value < 0
  {
    Pow2Values();
    AndPow2(IntWidth, Pattern(IntWidth, value), 31);
    SignAndParity(32, value);
    And(IntWidth, Pattern(IntWidth, value), Pow2(31)) != 0
  }

  /** LeftMostBit: SignBit, bit 31. */
  function LeftMostBit(value: int32): (r: bool)
    ensures r <==> value < 0
    ensures r == GetBit(value, 31)
  {
    Pow2Values();
    SignAndParity(32, value);
    SignBit(value)
  }

  /** RightMostBit: GetBit(0). */
  function RightMostBit(value: int32): (r: bool)
    ensures r <==> value % 2 == 1
  {
    Pow2Values();
    SignAndParity(32, value);
    GetBit(value, 0)
  }

  /**
   * GetBitRangeMask: each bound checked to be 0 to 31, then
   * `(int)(((1L << end) << 1) - (1L << start))`, computed in `long` so that
   * end = 31 does not overflow and narrowed to the `int` with that pattern.
   */
  function GetBitRangeMask(startInclusive: int32, endInclusive: int32): (r: Result<int32>)
    ensures r.Ok? <==> 0 <= startInclusive <= endInclusive <= 31
    ensures !r.Ok? ==> r.error == ArgumentOutOfRangeException
    ensures r.Ok? ==> forall i :: 0 <= i < 32 ==> Bit(Pattern(32, r.value), i) == (startInclusive <= i <= endInclusive)
    ensures r.Ok? ==> (r.value < 0 <==> endInclusive == 31)
  {
    if startInclusive < 0 || startInclusive > 31 then Throws(ArgumentOutOfRangeException)
    else if endInclusive < 0 || endInclusive > 31 then Throws(ArgumentOutOfRangeException)
    else if endInclusive < startInclusive then Throws(ArgumentOutOfRangeException)
    else
      MaskAsInt(startInclusive, endInclusive);
      Ok(ToSigned(IntWidth, RangeMask(startInclusive, endInclusive)))
  }

  lemma MaskAsInt(s: nat, e: nat)
    requires s <= e <= 31
    ensures RangeMask(s, e) < Pow2(IntWidth)
    ensures -0x8000_0000 <= ToSigned(IntWidth, RangeMask(s, e)) < 0x8000_0000
    ensures Pattern(32, ToSigned(IntWidth, RangeMask(s, e))) == RangeMask(s, e)
    ensures ToSigned(IntWidth, RangeMask(s, e)) < 0 <==> e == 31
  {
    Pow2Values();
    RangeMaskBound(IntWidth, s, e);
    ToSignedRange(IntWidth, RangeMask(s, e));
    PatternOfSigned(IntWidth, RangeMask(s, e));
  }

  /**
   * GetBits: `(value & mask) >> startInclusive`. Below bit 31 this is the field
   * of bits start to end; a field that reaches bit 31 is sign-extended by the
   * arithmetic shift.
   */
  function GetBits(value: int32, startInclusive: int32, endInclusive: int32): (r: Result<int32>)
    ensures r.Ok? <==> 0 <= startInclusive <= endInclusive <= 31
    ensures !r.Ok? ==> r.error == ArgumentOutOfRangeException
    ensures r.Ok? && endInclusive < 31 ==>
      r.value == Asr(value, startInclusive) % Pow2(endInclusive - startInclusive + 1)
    ensures r.Ok? && endInclusive == 31 ==> r.value == Asr(value, startInclusive)
  {
    match GetBitRangeMask(startInclusive, endInclusive)
    case Throws(x) => Throws(x)
    case Ok(mask) =>
      ExtractField(value, startInclusive, endInclusive, mask);
      Ok(Asr(AndInt(value, mask), startInclusive))
  }

  /** `a & b` on two `int`s. */
  function AndInt(a: int32, b: int32): (r: int32)
    ensures forall i :: 0 <= i < 32 ==> Bit(Pattern(32, r), i) == (Bit(Pattern(32, a), i) && Bit(Pattern(32, b), i))
  {
    var u := And(IntWidth, Pattern(IntWidth, a), Pattern(IntWidth, b));
    AndIntBits(a, b, u);
    ToSigned(IntWidth, u)
  }

  lemma AndIntBits(a: int32, b: int32, u: nat)
    requires u == And(IntWidth, Pattern(IntWidth, a), Pattern(IntWidth, b))
    ensures u < Pow2(IntWidth) && -0x8000_0000 <= ToSigned(IntWidth, u) < 0x8000_0000
    ensures forall i :: 0 <= i < 32 ==> Bit(Pattern(32, ToSigned(IntWidth, u)), i) == (Bit(Pattern(32, a), i) && Bit(Pattern(32, b), i))
  {
    Pow2Values();
    ToSignedRange(IntWidth, u);
    PatternOfSigned(IntWidth, u);
    forall i | 0 <= i < 32
      ensures Bit(u, i) == (Bit(Pattern(32, a), i) && Bit(Pattern(32, b), i))
    {
      BitAnd(IntWidth, Pattern(IntWidth, a), Pattern(IntWidth, b), i);
    }
  }

  lemma ExtractField(value: int32, s: int32, e: int32, mask: int32)
    requires 0 <= s <= e <= 31 && GetBitRangeMask(s, e) == Ok(mask)
    ensures e < 31 ==> Asr(AndInt(value, mask), s) == Asr(value, s) % Pow2(e - s + 1)
    ensures e == 31 ==> Asr(AndInt(value, mask), s) == Asr(value, s)
    ensures -0x8000_0000 <= Asr(AndInt(value, mask), s) < 0x8000_0000
  {
    MaskAsInt(s, e);
    assert mask == ToSigned(IntWidth, RangeMask(s, e));
    assert AndInt(value, mask) == ToSigned(IntWidth, And(IntWidth, Pattern(IntWidth, value), RangeMask(s, e)));
    if e < 31 {
      LowField(value, s, e);
    } else {
      TopField(value, s);
    }
    AsrRange(AndInt(value, mask), s);
  }

  /** An arithmetic shift keeps an `int` in range. */
  lemma AsrRange(x: int32, k: nat)
    ensures -0x8000_0000 <= Asr(x, k) < 0x8000_0000
  {
    if x >= 0 {
      DivBound(x, Pow2(k));
    } else {
      NegativeQuotient(x, Pow2(k));
    }
  }

  /** Dividing a negative number by a positive one rounds down to a value no smaller than it. */
  lemma NegativeQuotient(x: int, p: int)
    requires x < 0 && p > 0
    ensures x <= x / p < 0
  {
    var q, r := x / p, x % p;
    assert x == p * q + r && 0 <= r < p;
    if q >= 0 {
      MulLe(p, 0, q);
    }
    if q < x {
      var t := -(q + 1);
      MulLe(t, 1, p);
    }
  }

  /** A field that ends below bit 31 is non-negative and the arithmetic shift moves it down. */
  lemma LowField(value: int32, s: nat, e: nat)
    requires s <= e < 31
    ensures And(IntWidth, Pattern(IntWidth, value), RangeMask(s, e)) < Pow2(IntWidth)
    ensures Asr(ToSigned(IntWidth, And(IntWidth, Pattern(IntWidth, value), RangeMask(s, e))), s)
      == Asr(value, s) % Pow2(e - s + 1) < 0x8000_0000
  {
    Pow2Values();
    var P := Pattern(IntWidth, value);
    var A := And(IntWidth, P, RangeMask(s, e));
    var f := Shr(P, s) % Pow2(e - s + 1);
    AndRangeMask(IntWidth, P, s, e);
    FieldBound(f, s, e);
    Pow2Le(e + 1, 31);
    assert ToSigned(IntWidth, A) == A;
    DivMod(A, Pow2(s), f, 0);
    ChunkOfPattern(value, 32, s, e - s + 1);
    Pow2Le(e - s + 1, 31);
  }

  /** A field that reaches bit 31: the masked value is value rounded down to a multiple of 2^s. */
  lemma TopField(value: int32, s: nat)
    requires s <= 31
    ensures And(IntWidth, Pattern(IntWidth, value), RangeMask(s, 31)) < Pow2(IntWidth)
    ensures Asr(ToSigned(IntWidth, And(IntWidth, Pattern(IntWidth, value), RangeMask(s, 31))), s) == Asr(value, s)
  {
    Pow2Values();
    var P := Pattern(IntWidth, value);
    var A := And(IntWidth, P, RangeMask(s, 31));
    var p, m := Pow2(s), Pow2(32 - s);
    Pow2Add(s, 32 - s);
    var c := if value < 0 then 1 else 0;
    if value < 0 {
      DivMod(value, Pow2(32), -1, value + Pow2(32));
    } else {
      DivMod(value, Pow2(32), 0, value);
    }
    assert P == value + c * (p * m);
    BitAnd(IntWidth, P, RangeMask(s, 31), 31);
    TopBit(32, A);
    TopBit(32, P);
    AndRangeMask(IntWidth, P, s, 31);
    FloorMultiple(value, P, p, m, c);
    DivMod(Shr(P, s), m, 0, Shr(P, s));
    assert ToSigned(IntWidth, A) == p * (value / p);
    DivMod(p * (value / p), p, value / p, 0);
  }

  /** With P = value + c·p·m in [0, p·m): P / p is value / p shifted by c·m. */
  lemma FloorMultiple(value: int, P: int, p: int, m: int, c: int)
    requires p > 0 && m > 0 && 0 <= c <= 1
    requires P == value + c * (p * m) && 0 <= P < p * m
    ensures P / p == value / p + c * m < m
    ensures (P / p) * p - c * (p * m) == p * (value / p)
  {
    var q, r := value / p, value % p;
    assert value == p * q + r;
    assert P == p * (q + c * m) + r;
    DivMod(P, p, q + c * m, r);
    if P / p >= m {
      MulLe(p, m, P / p);
    }
  }

  /** `int.MinValue.GetBits(31, 31)` is -1: the sign bit is spread through the result. */
  lemma GetBitsOfSignBit()
    ensures GetBits(-0x8000_0000, 31, 31) == Ok(-1)
  {
    Pow2Values();
    DivMod(-0x8000_0000, Pow2(31), -1, 0);
  }

  /**
   * SetBits: `(value & ~mask(start, end)) | ((bits & mask(0, end - start)) << start)`;
   * only the first mask's bounds are checked, and end - start then lies in 0 to 31.
   */
  function SetBits(value: int32, bits: int32, startInclusive: int32, endInclusive: int32): (r: Result<int32>)
    ensures r.Ok? <==> 0 <= startInclusive <= endInclusive <= 31
    ensures !r.Ok? ==> r.error == ArgumentOutOfRangeException
    ensures r.Ok? ==> forall i :: 0 <= i < 32 ==>
      Bit(Pattern(32, r.value), i) ==
        if startInclusive <= i <= endInclusive then Bit(Pattern(32, bits), i - startInclusive) else Bit(Pattern(32, value), i)
  {
    match GetBitRangeMask(startInclusive, endInclusive)
    case Throws(x) => Throws(x)
    case Ok(_) =>
      var placed := PlaceField(IntWidth, Pattern(IntWidth, value), Pattern(IntWidth, bits), startInclusive, endInclusive);
      PlacedInt(value, bits, startInclusive, endInclusive);
      Ok(ToSigned(IntWidth, placed))
  }

  lemma PlacedInt(value: int32, bits: int32, s: nat, e: nat)
    requires s <= e <= 31
    ensures -0x8000_0000 <= ToSigned(IntWidth, PlaceField(IntWidth, Pattern(IntWidth, value), Pattern(IntWidth, bits), s, e)) < 0x8000_0000
    ensures forall i :: 0 <= i < 32 ==>
      Bit(Pattern(32, ToSigned(IntWidth, PlaceField(IntWidth, Pattern(IntWidth, value), Pattern(IntWidth, bits), s, e))), i) ==
        if s <= i <= e then Bit(Pattern(32, bits), i - s) else Bit(Pattern(32, value), i)
  {
    Pow2Values();
    var placed := PlaceField(IntWidth, Pattern(IntWidth, value), Pattern(IntWidth, bits), s, e);
    ToSignedRange(IntWidth, placed);
    PatternOfSigned(IntWidth, placed);
    forall i | 0 <= i < 32
      ensures Bit(placed, i) == if s <= i <= e then Bit(Pattern(32, bits), i - s) else Bit(Pattern(32, value), i)
    {
      PlaceFieldBits(IntWidth, Pattern(IntWidth, value), Pattern(IntWidth, bits), s, e, i);
    }
  }

  /** Reading a field that ends below bit 31 after writing it gives the low bits of what was written. */
  lemma GetBitsAfterSetBits(value: int32, bits: int32, s: int32, e: int32)
    requires 0 <= s <= e < 31
    ensures SetBits(value, bits, s, e).Ok?
    ensures GetBits(SetBits(value, bits, s, e).value, s, e).Ok?
    ensures GetBits(SetBits(value, bits, s, e).value, s, e).value == bits % Pow2(e - s + 1)
  {
    var r := SetBits(value, bits, s, e).value;
    FieldReadBack(r, value, bits, s, e);
  }

  lemma FieldReadBack(r: int32, value: int32, bits: int32, s: nat, e: nat)
    requires s <= e < 31
    requires forall i :: 0 <= i < 32 ==>
      Bit(Pattern(32, r), i) == if s <= i <= e then Bit(Pattern(32, bits), i - s) else Bit(Pattern(32, value), i)
    ensures Asr(r, s) % Pow2(e - s + 1) == bits % Pow2(e - s + 1)
  {
    var w := e - s + 1;
    var a := Shr(Pattern(32, r), s) % Pow2(w);
    var b := Pattern(32, bits) % Pow2(w);
    Pow2Values();
    Pow2Le(w, 32);
    forall i | 0 <= i < 32
      ensures Bit(a, i) == Bit(b, i)
    {
      BitModPow2(Shr(Pattern(32, r), s), w, i);
      BitModPow2(Pattern(32, bits), w, i);
      BitDivPow2(Pattern(32, r), s, i);
    }
    Ext(32, a, b);
    ChunkOfPattern(r, 32, s, w);
    PatternOfPattern(bits, 32, w);
  }

  /** Writing a field leaves every bit outside it as it was. */
  lemma SetBitsKeepsOtherBits(value: int32, bits: int32, s: int32, e: int32, other: int32)
    requires 0 <= s <= e <= 31 && 0 <= other < 32 && !(s <= other <= e)
    ensures SetBits(value, bits, s, e).Ok?
    ensures GetBit(SetBits(value, bits, s, e).value, other) == GetBit(value, other)
  {
    DivMod(other, 32, 0, other);
    assert Bit(Pattern(32, SetBits(value, bits, s, e).value), other) == Bit(Pattern(32, value), other);
  }

  /** ToBinaryString: "0b" and the 32 digits of `(uint)value`; read back as an `int` they give value. */
  method ToBinaryString(value: int32) returns (s: string)
    ensures |s| == 34 && s[..2] == "0b"
    ensures s[2..] == BinaryStringHelper.BinaryDigits(Pattern(32, value), 32)
    ensures ToSigned(32, BinaryStringHelper.BinaryValue(s[2..]) % Pow2(32)) == value
  {
    var chars := new char[34];
    chars[0] := '0';
    chars[1] := 'b';
    ghost var c0 := chars[..];
    assert c0[..2] == "0b";
    Pow2Values();
    BinaryStringHelper.WriteUInt32Chars(chars, 2, Pattern(32, value));
    s := chars[..];
    BinaryStringHelper.BinaryStringOf(s, c0, Pattern(32, value), 32);
    PatternSmall(32, Pattern(32, value));
    SignedOfPattern(32, value);
  }
}
