/**
 * Byte order and the abstract meaning of a run of bytes as an integer.
 *
 * `Value(e, s)` is the number that the bytes `s` stand for in byte order `e`
 * (sum of s[k]·256^k for little endian, the same of the reversed bytes for big
 * endian); `Encode`/`Decode` add the two's-complement reading of the signed types.
 * Every container codec of the library is proved against these definitions.
 * `ReadUnaligned`/`WriteUnaligned` are what a raw memory access of the runtime
 * does on a little-endian host, stated bit by bit.
 */
module Endianness {
  import opened Bits

  /** Endian.cs: the two byte orders. */
  datatype Endian = Little | Big

  /** The integer types that the codecs read and write. */
  datatype IntegerType = Int16 | UInt16 | UInt24 | Int32 | UInt32 | Int64 | UInt64
  {
    /** Number of bytes. */
    function Size(): nat
    {
      match this
      case Int16 => 2
      case UInt16 => 2
      case UInt24 => 3
      case Int32 => 4
      case UInt32 => 4
      case Int64 => 8
      case UInt64 => 8
    }

    function Width(): nat
    {
      8 * Size()
    }

    predicate IsSigned()
    {
      this == Int16 || this == Int32 || this == Int64
    }

    /** Whether v is a value of this C# type. */
    predicate Holds(v: int)
    {
      if IsSigned() then -(Pow2(Width() - 1) as int) <= v < Pow2(Width() - 1)
      else 0 <= v < Pow2(Width())
    }

    /** The value of this type whose bit pattern is u. */
    function FromPattern(u: nat): int
      requires u < Pow2(Width())
    {
      if IsSigned() then ToSigned(Width(), u) else u
    }
  }

  /** Sum of s[k]·256^k: the bytes read least significant first. */
  function LittleValue(s: seq<byte>): nat
  {
    if |s| == 0 then 0 else s[0] + 256 * LittleValue(s[1..])
  }

  function Reverse(s: seq<byte>): (r: seq<byte>)
    ensures |r| == |s|
    ensures forall k :: 0 <= k < |s| ==> r[k] == s[|s| - 1 - k]
  {
    if |s| == 0 then [] else Reverse(s[1..]) + [s[0]]
  }

  /** The number that the bytes s stand for in byte order e. */
  function Value(e: Endian, s: seq<byte>): nat
  {
    match e
    case Little => LittleValue(s)
    case Big => LittleValue(Reverse(s))
  }

  /** The n bytes of u, least significant first (u is reduced mod 256^n). */
  function LittleBytes(u: nat, n: nat): (r: seq<byte>)
    ensures |r| == n
  {
    if n == 0 then [] else [u % 256] + LittleBytes(u / 256, n - 1)
  }

  function Bytes(e: Endian, u: nat, n: nat): (r: seq<byte>)
    ensures |r| == n
  {
    match e
    case Little => LittleBytes(u, n)
    case Big => Reverse(LittleBytes(u, n))
  }

  /** The bytes that represent value v of type t in byte order e. */
  function Encode(t: IntegerType, v: int, e: Endian): (r: seq<byte>)
    ensures |r| == t.Size()
  {
    Bytes(e, Pattern(t.Width(), v), t.Size())
  }

  /** The value of type t that the bytes s represent in byte order e. */
  function Decode(t: IntegerType, s: seq<byte>, e: Endian): (v: int)
    requires |s| == t.Size()
    ensures t.Holds(v)
  {
    var u := Value(e, s);
    ValueBound(e, s);
    if t.IsSigned() then
      ToSignedRange(t.Width(), u);
      t.FromPattern(u)
    else
      t.FromPattern(u)
  }

  lemma ReverseReverse(s: seq<byte>)
    ensures Reverse(Reverse(s)) == s
  {
    assert Reverse(Reverse(s)) == s;
  }

  lemma {:induction false} LittleValueBound(s: seq<byte>)
    ensures LittleValue(s) < Pow2(8 * |s|)
  {
    if |s| > 0 {
      LittleValueBound(s[1..]);
      Pow2Add(8, 8 * (|s| - 1));
      Pow2Values();
      assert 8 * |s| == 8 + 8 * (|s| - 1);
    }
  }

  lemma ValueBound(e: Endian, s: seq<byte>)
    ensures Value(e, s) < Pow2(8 * |s|)
  {
    match e
    case Little => LittleValueBound(s);
    case Big => LittleValueBound(Reverse(s));
  }

  lemma ModSplit256(x: nat, p: nat)
    requires p > 0
    ensures x % (256 * p) == x % 256 + 256 * ((x / 256) % p)
  {
    var q := (x / 256) / p;
    var r := (x / 256) % p;
    assert x / 256 == p * q + r;
    assert x == (256 * p) * q + (x % 256 + 256 * r);
    MulLe(256, r, p - 1);
    DivMod(x, 256 * p, q, x % 256 + 256 * r);
  }

  /** Reading back the n bytes of u gives u mod 256^n. */
  lemma {:induction false} LittleValueOfBytes(u: nat, n: nat)
    ensures LittleValue(LittleBytes(u, n)) == u % Pow2(8 * n)
  {
    if n == 0 {
    } else {
      var s := LittleBytes(u, n);
      assert s[1..] == LittleBytes(u / 256, n - 1);
      LittleValueOfBytes(u / 256, n - 1);
      Pow2Add(8, 8 * (n - 1));
      Pow2Values();
      assert 8 * n == 8 + 8 * (n - 1);
      ModSplit256(u, Pow2(8 * (n - 1)));
    }
  }

  /** Splitting the value of s into |s| bytes gives s back. */
  lemma {:induction false} LittleBytesOfValue(s: seq<byte>)
    ensures LittleBytes(LittleValue(s), |s|) == s
  {
    if |s| > 0 {
      DivMod(LittleValue(s), 256, LittleValue(s[1..]), s[0]);
      LittleBytesOfValue(s[1..]);
    }
  }

  /** Decoding what Encode produced gives the value back, in both byte orders. */
  lemma DecodeEncode(t: IntegerType, v: int, e: Endian)
    requires t.Holds(v)
    ensures Decode(t, Encode(t, v, e), e) == v
  {
    var u := Pattern(t.Width(), v);
    ValueOfBytes(e, u, t.Size());
    FromPatternOfPattern(t, v);
  }

  /** Reading the n bytes of u in the order they were laid out gives u back. */
  lemma ValueOfBytes(e: Endian, u: nat, n: nat)
    requires u < Pow2(8 * n)
    ensures Value(e, Bytes(e, u, n)) == u
  {
    var s := LittleBytes(u, n);
    LittleValueOfBytes(u, n);
    PatternSmall(8 * n, u);
    if e == Big {
      ReverseReverse(s);
    }
  }

  /** A value of type t is the value its own bit pattern stands for. */
  lemma FromPatternOfPattern(t: IntegerType, v: int)
    requires t.Holds(v)
    ensures t.FromPattern(Pattern(t.Width(), v)) == v
  {
    if t.IsSigned() {
      SignedOfPattern(t.Width(), v);
    } else {
      PatternSmall(t.Width(), v);
    }
  }

  /** Encoding the decoded value gives the same bytes back, in both byte orders. */
  lemma EncodeDecode(t: IntegerType, s: seq<byte>, e: Endian)
    requires |s| == t.Size()
    ensures Encode(t, Decode(t, s, e), e) == s
  {
    var w, n := t.Width(), t.Size();
    var u := Value(e, s);
    ValueBound(e, s);
    Pow2Values();
    if t.IsSigned() {
      PatternOfSigned(w, u);
    } else {
      PatternSmall(w, u);
    }
    assert Pattern(w, Decode(t, s, e)) == u;
    match e
    case Little =>
      LittleBytesOfValue(s);
    case Big =>
      LittleBytesOfValue(Reverse(s));
      ReverseReverse(s);
  }

  /** Big-endian bytes are the little-endian bytes reversed, and decode accordingly. */
  lemma BigIsReversedLittle(t: IntegerType, v: int, s: seq<byte>)
    requires |s| == t.Size()
    ensures Encode(t, v, Big) == Reverse(Encode(t, v, Little))
    ensures Decode(t, s, Big) == Decode(t, Reverse(s), Little)
  {
  }

  /**
   * `MemoryMarshal.Read<T>` / `Unsafe.ReadUnaligned<T>` on a little-endian host:
   * byte k of memory supplies bits 8k to 8k+7 of the pattern.
   */
  function ReadUnaligned(s: seq<byte>): (u: nat)
    ensures u == LittleValue(s)
  {
    if |s| == 0 then 0
    else
      var w := 8 * |s|;
      var high := ReadUnaligned(s[1..]);
      LittleValueBound(s);
      Pow2Values();
      ShiftOr(w, s[0], high, 8);
      Or(w, s[0], Shl(w, high, 8))
  }

  /**
   * `Unsafe.WriteUnaligned<T>` / `MemoryMarshal.Write<T>` on a little-endian host:
   * byte k of memory receives bits 8k to 8k+7 of the n-byte pattern u.
   */
  function WriteUnaligned(u: nat, n: nat): (s: seq<byte>)
    requires u < Pow2(8 * n)
    ensures s == LittleBytes(u, n)
  {
    if n == 0 then []
    else
      Pow2Values();
      Pow2Le(8, 8 * n);
      AndLowMask(8 * n, u, 8);
      DivMod(u, 256, u / 256, u % 256);
      Pow2Add(8, 8 * (n - 1));
      assert 8 * n == 8 + 8 * (n - 1);
      [And(8 * n, u, 0xFF)] + WriteUnaligned(Shr(u, 8), n - 1)
  }

  /** `low | high << k` is low + high·2^k when low fits below bit k and the sum fits. */
  lemma ShiftOr(n: nat, low: nat, high: nat, k: nat)
    requires low < Pow2(k) && low + high * Pow2(k) < Pow2(n)
    ensures Or(n, low, Shl(n, high, k)) == low + high * Pow2(k)
  {
    PatternSmall(n, high * Pow2(k));
    OrShifted(n, low, high, k);
  }

  /**
   * The C# expression `acc | s[0] << 8k | s[1] << 8(k+1) | …`, evaluated left to
   * right in n-bit arithmetic (n = 32 for `int`/`uint`, 64 for `long`/`ulong`).
   */
  function OrBytes(n: nat, acc: nat, s: seq<byte>, k: nat): nat
    decreases |s|
  {
    if |s| == 0 then acc else OrBytes(n, Or(n, acc, Shl(n, s[0], 8 * k)), s[1..], k + 1)
  }

  /** The C# expression `s[0] | s[1] << 8 | s[2] << 16 | …` in n-bit arithmetic. */
  function ShiftOrBytes(n: nat, s: seq<byte>): (u: nat)
    requires 8 * |s| <= n
    ensures u == LittleValue(s)
  {
    OrBytesValue(n, 0, s, 0);
    OrBytes(n, 0, s, 0)
  }

  /** One step of the shift-or: the byte lands above bits that are still clear. */
  lemma OrByteStep(n: nat, acc: nat, b: byte, k: nat)
    requires acc < Pow2(8 * k) && 8 * k + 8 <= n
    ensures Or(n, acc, Shl(n, b, 8 * k)) == acc + b * Pow2(8 * k)
    ensures acc + b * Pow2(8 * k) < Pow2(8 * k + 8)
  {
    var p := Pow2(8 * k);
    Pow2Add(8 * k, 8);
    Pow2Values();
    Pow2Le(8 * k + 8, n);
    MulLe(p, b, 255);
    ShiftOr(n, acc, b, 8 * k);
  }

  lemma {:induction false} OrBytesValue(n: nat, acc: nat, s: seq<byte>, k: nat)
    requires acc < Pow2(8 * k) && 8 * (k + |s|) <= n
    ensures OrBytes(n, acc, s, k) == acc + Pow2(8 * k) * LittleValue(s)
    decreases |s|
  {
    if |s| > 0 {
      var p := Pow2(8 * k);
      OrByteStep(n, acc, s[0], k);
      var acc' := acc + s[0] * p;
      assert 8 * (k + 1) == 8 * k + 8;
      OrBytesValue(n, acc', s[1..], k + 1);
      Pow2Add(8 * k, 8);
      Pow2Byte();
      Regroup(acc, s[0], p, LittleValue(s[1..]));
    }
  }

  /** Or-ing bytes into positions whose bits are already all set changes nothing. */
  lemma {:induction false} OrBytesOnes(n: nat, acc: nat, s: seq<byte>, k: nat)
    requires acc < Pow2(n) && 8 * (k + |s|) <= n
    requires forall i :: 8 * k <= i < n ==> Bit(acc, i)
    ensures OrBytes(n, acc, s, k) == acc
    decreases |s|
  {
    if |s| > 0 {
      var x := Or(n, acc, Shl(n, s[0], 8 * k));
      forall i | 0 <= i < n
        ensures Bit(x, i) == Bit(acc, i)
      {
        BitOr(n, acc, Shl(n, s[0], 8 * k), i);
        BitShl(n, s[0], 8 * k, i);
      }
      Ext(n, x, acc);
      OrBytesOnes(n, acc, s[1..], k + 1);
    }
  }

  /** The shift-or stays within the n-bit width. */
  lemma {:induction false} OrBytesBound(n: nat, acc: nat, s: seq<byte>, k: nat)
    requires acc < Pow2(n)
    ensures OrBytes(n, acc, s, k) < Pow2(n)
    decreases |s|
  {
    if |s| > 0 {
      OrBytesBound(n, Or(n, acc, Shl(n, s[0], 8 * k)), s[1..], k + 1);
    }
  }

  /** The first k bytes of s and the rest, weighted by 256^k. */
  lemma {:induction false} LittleValueSplit(s: seq<byte>, k: nat)
    requires k <= |s|
    ensures LittleValue(s) == LittleValue(s[..k]) + Pow2(8 * k) * LittleValue(s[k..])
  {
    if k == 0 {
      assert s[..0] == [] && s[0..] == s;
      assert Pow2(0) == 1;
    } else {
      var t := s[1..];
      LittleValueSplit(t, k - 1);
      assert t[..k - 1] == s[..k][1..];
      assert t[k - 1..] == s[k..];
      var p := Pow2(8 * (k - 1));
      Pow2Add(8, 8 * (k - 1));
      Pow2Byte();
      assert 8 * k == 8 + 8 * (k - 1);
      SplitStep(s[0], LittleValue(s[..k][1..]), LittleValue(s[k..]), p, Pow2(8 * k),
        LittleValue(t), LittleValue(s), LittleValue(s[..k]));
    }
  }

  lemma SplitStep(a: int, l: int, b: int, p: int, q: int, lt: int, x: int, y: int)
    requires lt == l + p * b && x == a + 256 * lt && y == a + 256 * l && q == 256 * p
    ensures x == y + q * b
  {
  }

  /** `(byte)(v >> 8k)` with an arithmetic shift: byte k of v, counting from the least significant. */
  function Lane(v: int, k: nat): byte
  {
    Asr(v, 8 * k) % 256
  }

  /** Byte k of the little-endian encoding is Lane(v, k). */
  lemma EncodeByteAt(t: IntegerType, v: int, k: nat)
    requires k < t.Size()
    ensures Encode(t, v, Little)[k] == Lane(v, k)
  {
    LittleBytesAt(Pattern(t.Width(), v), t.Size(), k);
    ByteOfPattern(v, t.Width(), 8 * k);
  }

  /** The little-endian encoding is the sequence of those bytes. */
  lemma EncodeIs(t: IntegerType, v: int, s: seq<byte>)
    requires |s| == t.Size()
    requires forall k :: 0 <= k < |s| ==> s[k] == Lane(v, k)
    ensures Encode(t, v, Little) == s
    ensures Encode(t, v, Big) == Reverse(s)
  {
    forall k | 0 <= k < |s|
      ensures Encode(t, v, Little)[k] == s[k]
    {
      EncodeByteAt(t, v, k);
    }
  }

  /** Byte k of LittleBytes(u, n) is bits 8k to 8k+7 of u. */
  lemma {:induction false} LittleBytesAt(u: nat, n: nat, k: nat)
    requires k < n
    ensures LittleBytes(u, n)[k] == Shr(u, 8 * k) % 256
  {
    if k > 0 {
      LittleBytesAt(u / 256, n - 1, k - 1);
      Pow2Add(8, 8 * (k - 1));
      Pow2Values();
      assert 8 * k == 8 + 8 * (k - 1);
      DivDiv(u, 256, Pow2(8 * (k - 1)));
    }
  }

  /** The byte `(byte)((u & (0xFF << k)) >> k)` of a w-bit pattern u. */
  function MaskedByte(w: nat, u: nat, k: nat): (b: byte)
    requires k + 8 <= w
    ensures b == Shr(u, k) % 256
  {
    MaskedByteValue(w, u, k);
    // the masked value shifted down is below 256, so the `(byte)` cast keeps it
    Shr(And(w, u, 255 * Pow2(k)), k)
  }

  lemma {:induction false} MaskedByteValue(w: nat, u: nat, k: nat)
    requires k + 8 <= w
    ensures Shr(And(w, u, 255 * Pow2(k)), k) == Shr(u, k) % 256
  {
    var m := And(w, u, 255 * Pow2(k));
    Pow2Byte();
    forall i | 0 <= i < w
      ensures Bit(Shr(m, k), i) == Bit(Shr(u, k) % Pow2(8), i)
    {
      MaskedBit(w, u, k, i);
    }
    Pow2Le(8, w);
    Ext(w, Shr(m, k), Shr(u, k) % Pow2(8));
  }

  lemma {:induction false} MaskedBit(w: nat, u: nat, k: nat, i: nat)
    requires k + 8 <= w
    ensures Bit(Shr(And(w, u, 255 * Pow2(k)), k), i) == Bit(Shr(u, k) % Pow2(8), i)
  {
    var c := 255 * Pow2(k);
    var m := And(w, u, c);
    BitDivPow2(m, k, i);
    BitAnd(w, u, c, i + k);
    BitMulPow2(255, k, i + k);
    Pow2Byte();
    BitLowMask(8, i);
    BitModPow2(Shr(u, k), 8, i);
    BitDivPow2(u, k, i);
  }

  lemma Regroup(a: int, b: int, p: int, l: int)
    ensures a + b * p + (p * 256) * l == a + p * (b + 256 * l)
    ensures a + 256 * (l + b * p) == (a + 256 * l) + b * (256 * p)
  {
  }

  /**
   * A block store of bytes s at position start of memory a, as the runtime's
   * unaligned writes and span copies do.
   */
  method Store(a: array<byte>, start: nat, s: seq<byte>)
    requires start + |s| <= a.Length
    modifies a
    ensures a[..] == old(a[..start]) + s + old(a[start + |s|..])
  {
    forall k | 0 <= k < |s| {
      a[start + k] := s[k];
    }
    assert a[..] == old(a[..start]) + s + old(a[start + |s|..]);
  }

  /** Memory a with the bytes s written over positions start to start + |s| - 1. */
  function Splice(a: seq<byte>, start: nat, s: seq<byte>): (r: seq<byte>)
    requires start + |s| <= |a|
    ensures |r| == |a|
    ensures r[start..start + |s|] == s
    ensures forall k :: 0 <= k < |a| && !(start <= k < start + |s|) ==> r[k] == a[k]
  {
    a[..start] + s + a[start + |s|..]
  }

  /** A memory that agrees with a at every position outside the window and with s inside it is the splice. */
  lemma SpliceOf(a: seq<byte>, b: seq<byte>, start: nat, s: seq<byte>)
    requires start + |s| <= |a| && |b| == |a|
    requires forall k :: 0 <= k < |s| ==> b[start + k] == s[k]
    requires forall k :: 0 <= k < |a| && !(start <= k < start + |s|) ==> b[k] == a[k]
    ensures b == Splice(a, start, s)
  {
    var r := Splice(a, start, s);
    forall k | 0 <= k < |a|
      ensures b[k] == r[k]
    {
      if start <= k < start + |s| {
        assert r[start..start + |s|][k - start] == r[k];
      }
    }
  }

  /** Reading back what a write spliced in gives the value written. */
  lemma ReadBack(t: IntegerType, v: int, e: Endian, a: seq<byte>, start: nat)
    requires t.Holds(v) && start + t.Size() <= |a|
    ensures Decode(t, Splice(a, start, Encode(t, v, e))[start..start + t.Size()], e) == v
  {
    DecodeEncode(t, v, e);
  }

  /** The most significant byte: the last one in little endian, the first in big endian. */
  function TopByte(e: Endian, s: seq<byte>): byte
    requires |s| > 0
  {
    match e
    case Little => s[|s| - 1]
    case Big => s[0]
  }

  /** A decode reads the pattern u of the bytes: as two's complement when the type is signed. */
  lemma SignedDecode(t: IntegerType, s: seq<byte>, e: Endian, u: nat)
    requires |s| == t.Size() && u == Value(e, s)
    ensures u < Pow2(t.Width()) && Decode(t, s, e) == t.FromPattern(u)
    ensures t.IsSigned() ==> Decode(t, s, e) == ToSigned(t.Width(), u)
  {
    ValueBound(e, s);
  }

  /** Signed values are two's complement: negative exactly when the top bit of the top byte is set. */
  lemma DecodeNegative(t: IntegerType, s: seq<byte>, e: Endian)
    requires t.IsSigned() && |s| == t.Size()
    ensures Decode(t, s, e) < 0 <==> TopByte(e, s) >= 0x80
  {
    var u := Value(e, s);
    SignedDecode(t, s, e, u);
    TopWeightOfValue(e, s, u);
    assert t.Width() == 8 * |s|;
    NegativeOfTopHalf(t.Width(), u, Decode(t, s, e));
  }

  lemma NegativeOfTopHalf(n: nat, u: nat, v: int)
    requires 1 <= n && u < Pow2(n) && v == ToSigned(n, u)
    ensures v < 0 <==> u >= Pow2(n - 1)
  {
  }

  /** The value of s reaches half its range exactly when its most significant byte reaches 0x80. */
  lemma TopWeightOfValue(e: Endian, s: seq<byte>, u: nat)
    requires |s| > 0 && u == Value(e, s)
    ensures u >= Pow2(8 * |s| - 1) <==> TopByte(e, s) >= 0x80
  {
    if e == Little {
      TopWeightOfLittle(s);
    } else {
      WeightOfReversed(s, Reverse(s), u);
    }
  }

  lemma WeightOfReversed(s: seq<byte>, l: seq<byte>, u: nat)
    requires |s| > 0 && |l| == |s| && l[|l| - 1] == s[0] && u == LittleValue(l)
    ensures u >= Pow2(8 * |s| - 1) <==> s[0] >= 0x80
  {
    TopWeightOfLittle(l);
  }

  lemma TopWeightOfLittle(l: seq<byte>)
    requires |l| > 0
    ensures LittleValue(l) >= Pow2(8 * |l| - 1) <==> l[|l| - 1] >= 0x80
  {
    var n := |l|;
    var p := Pow2(8 * (n - 1));
    LittleValueLast(l);
    LittleValueBound(l[..n - 1]);
    Pow2Add(7, 8 * (n - 1));
    assert Pow2(7) == 0x80 by { Pow2Byte(); }
    WeightSplit(LittleValue(l[..n - 1]), l[n - 1], p);
  }

  lemma WeightSplit(low: nat, b: nat, p: nat)
    requires low < p
    ensures low + b * p >= 0x80 * p <==> b >= 0x80
  {
    if b >= 0x80 {
      MulLe(p, 0x80, b);
    } else {
      MulLe(p, b, 0x7F);
    }
  }

  /** The top bit of the value of s is the top bit of its last byte. */
  lemma TopBitOfLittle(l: seq<byte>)
    requires |l| > 0
    ensures Bit(LittleValue(l), 8 * |l| - 1) == (l[|l| - 1] >= 0x80)
  {
    var n := |l|;
    LittleValueLast(l);
    LittleValueBound(l[..n - 1]);
    assert 8 * n - 1 == 8 * (n - 1) + 7;
    BitAddMul(LittleValue(l[..n - 1]), l[n - 1], 8 * (n - 1), 8 * n - 1);
    Pow2Byte();
    TopBit(8, l[n - 1]);
  }

  /** The last byte of s carries weight 256^(|s|-1). */
  lemma {:induction false} LittleValueLast(s: seq<byte>)
    requires |s| > 0
    ensures LittleValue(s) == LittleValue(s[..|s| - 1]) + s[|s| - 1] * Pow2(8 * (|s| - 1))
  {
    if |s| > 1 {
      var m := |s| - 1;
      var p := Pow2(8 * (m - 1));
      LittleValueLast(s[1..]);
      assert s[1..][..m - 1] == s[..m][1..];
      var low := LittleValue(s[..m][1..]);
      assert LittleValue(s) == s[0] + 256 * (low + s[m] * p);
      assert LittleValue(s[..m]) == s[0] + 256 * low;
      Pow2Add(8, 8 * (m - 1));
      Pow2Byte();
      assert 8 * m == 8 + 8 * (m - 1);
      assert Pow2(8 * m) == 256 * p;
      Regroup(s[0], s[m], p, low);
    }
  }

  lemma LittleValue2(b0: byte, b1: byte)
    ensures LittleValue([b0, b1]) == b0 as int + 0x100 * b1 as int
  {
    assert [b0, b1][1..] == [b1];
    assert [b1][1..] == [];
    assert LittleValue([b1]) == b1 as int + 0x100 * LittleValue([]);
  }

  lemma LittleValue3(b0: byte, b1: byte, b2: byte)
    ensures LittleValue([b0, b1, b2]) == b0 as int + 0x100 * b1 as int + 0x1_0000 * b2 as int
  {
    assert [b0, b1, b2][1..] == [b1, b2];
    LittleValue2(b1, b2);
  }
}
