/**
 * BinaryStringHelper.cs: writing the binary digits of a value into a span of
 * characters, most significant bit first. The source does this with vector
 * instructions, one lane per bit; here each lane is one step of a loop. Lane k
 * of a w-lane vector holds the value and the mask 2^(w-1-k), and turns into
 * `'0' + ((((value & mask) == mask) ? 0xFFFF : 0) >> 15)`.
 */
module BinaryStringHelper {
  import opened Bits

  function Digit(b: bool): char
  {
    if b then '1' else '0'
  }

  /** The n low bits of v as digits, most significant first. */
  function BinaryDigits(v: nat, n: nat): (s: seq<char>)
    ensures |s| == n
    ensures forall k :: 0 <= k < n ==> s[k] == Digit(Bit(v, n - 1 - k))
  {
    if n == 0 then [] else BinaryDigits(v / 2, n - 1) + [Digit(v % 2 == 1)]
  }

  /** The number that a string of binary digits stands for, most significant first. */
  function BinaryValue(s: seq<char>): nat
  {
    if |s| == 0 then 0 else 2 * BinaryValue(s[..|s| - 1]) + (if s[|s| - 1] == '1' then 1 else 0)
  }

  /** Reading the digits back gives the low n bits of v. */
  lemma {:induction false} BinaryValueOfDigits(v: nat, n: nat)
    ensures BinaryValue(BinaryDigits(v, n)) == v % Pow2(n)
  {
    if n > 0 {
      var s := BinaryDigits(v, n);
      assert s[..n - 1] == BinaryDigits(v / 2, n - 1);
      BinaryValueOfDigits(v / 2, n - 1);
      ModSplit(v, n);
    }
  }

  /** Every digit is '0' or '1'. */
  lemma DigitsAreBinary(v: nat, n: nat)
    ensures forall k :: 0 <= k < n ==> BinaryDigits(v, n)[k] in {'0', '1'}
  {
  }

  /** The digits depend only on the n low bits. */
  lemma DigitsOfSameBits(a: nat, b: nat, n: nat)
    requires forall i :: 0 <= i < n ==> Bit(a, i) == Bit(b, i)
    ensures BinaryDigits(a, n) == BinaryDigits(b, n)
  {
    var s, t := BinaryDigits(a, n), BinaryDigits(b, n);
    forall k | 0 <= k < n
      ensures s[k] == t[k]
    {
      assert Bit(a, n - 1 - k) == Bit(b, n - 1 - k);
    }
  }

  /** The digits of a + b bits: those of the high part, then those of the low b bits. */
  lemma DigitsSplit(v: nat, a: nat, b: nat)
    ensures BinaryDigits(v, a + b) == BinaryDigits(Shr(v, b), a) + BinaryDigits(v, b)
  {
    var s := BinaryDigits(v, a + b);
    var t := BinaryDigits(Shr(v, b), a) + BinaryDigits(v, b);
    forall k | 0 <= k < a + b
      ensures s[k] == t[k]
    {
      if k < a {
        BitDivPow2(v, b, a - 1 - k);
      }
    }
  }

  /** One lane: the character for the bit that `mask` selects. */
  function LaneChar(value: ushort, mask: ushort): char
  {
    var isolated := And(16, value, mask);
    var compared := if isolated == mask then 0xFFFF else 0;
    Pow2Values();
    var shifted := Shr(compared, 15);
    assert shifted <= 1;
    ('0' as int + shifted) as char
  }

  /** The lane with mask 2^j writes the digit of bit j. */
  lemma LaneDigit(value: ushort, j: nat)
    requires j < 16
    ensures Pow2(j) < 0x1_0000
    ensures LaneChar(value, Pow2(j)) == Digit(Bit(value, j))
  {
    Pow2Values();
    Pow2Le(j + 1, 16);
    AndPow2Value(16, value, j);
  }

  /**
   * The w lanes of one vector: lane k takes mask 2^(w-1-k) and writes position
   * start + k; every other character is left as it was.
   */
  method WriteLanes(chars: array<char>, start: nat, value: ushort, w: nat)
    requires w <= 16 && start + w <= chars.Length
    modifies chars
    ensures chars[..] == old(chars[..start]) + BinaryDigits(value, w) + old(chars[start + w..])
  {
    var k := 0;
    while k < w
      invariant 0 <= k <= w
      invariant chars[..] == old(chars[..start]) + BinaryDigits(value, w)[..k] + old(chars[start + k..])
    {
      LaneDigit(value, w - 1 - k);
      var c := LaneChar(value, Pow2(w - 1 - k));
      ghost var before := chars[..];
      chars[start + k] := c;
      assert BinaryDigits(value, w)[..k + 1] == BinaryDigits(value, w)[..k] + [c];
      Overwrite(old(chars[..start]), BinaryDigits(value, w)[..k], old(chars[start + k..]), c, before, chars[..]);
      assert old(chars[start + k..])[1..] == old(chars[start + k + 1..]);
      k := k + 1;
    }
  }

  /** Overwriting the first character after a prefix extends the prefix by that character. */
  lemma Overwrite(pre: seq<char>, mid: seq<char>, post: seq<char>, c: char, before: seq<char>, after: seq<char>)
    requires |post| >= 1 && before == pre + mid + post
    requires after == before[|pre| + |mid| := c]
    ensures after == pre + (mid + [c]) + post[1..]
  {
    assert |after| == |pre + (mid + [c]) + post[1..]|;
    forall i | 0 <= i < |after|
      ensures after[i] == (pre + (mid + [c]) + post[1..])[i]
    {
    }
  }

  /** WriteByteChars: eight lanes holding `(ushort)value`, masks 0x80 down to 0x01. */
  method WriteByteChars(chars: array<char>, start: nat, value: byte)
    requires start + 8 <= chars.Length
    modifies chars
    ensures chars[..] == old(chars[..start]) + BinaryDigits(value, 8) + old(chars[start + 8..])
  {
    WriteLanes(chars, start, value, 8);
  }

  /** WriteUInt16Chars: sixteen lanes, masks 0x8000 down to 0x0001. */
  method WriteUInt16Chars(chars: array<char>, start: nat, value: ushort)
    requires start + 16 <= chars.Length
    modifies chars
    ensures chars[..] == old(chars[..start]) + BinaryDigits(value, 16) + old(chars[start + 16..])
  {
    WriteLanes(chars, start, value, 16);
  }

  /**
   * WriteUInt32Chars: the first sixteen lanes hold `(ushort)(value >> 16)`, the
   * next sixteen `(ushort)value`.
   */
  method WriteUInt32Chars(chars: array<char>, start: nat, value: uint)
    requires start + 32 <= chars.Length
    modifies chars
    ensures chars[..] == old(chars[..start]) + BinaryDigits(value, 32) + old(chars[start + 32..])
  {
    var high := Shr(value, 16) % 0x1_0000;
    var low := value % 0x1_0000;
    ghost var c0 := chars[..];
    WriteLanes(chars, start, high, 16);
    ghost var c1 := chars[..];
    WriteLanes(chars, start + 16, low, 16);
    TwoWrites(c0, c1, chars[..], start, BinaryDigits(high, 16), BinaryDigits(low, 16));
    HalvesOfDigits(value);
  }

  /** Two adjacent writes are one write of both, one after the other. */
  lemma TwoWrites(c0: seq<char>, c1: seq<char>, c2: seq<char>, start: nat, d1: seq<char>, d2: seq<char>)
    requires start + |d1| + |d2| <= |c0|
    requires c1 == c0[..start] + d1 + c0[start + |d1|..]
    requires c2 == c1[..start + |d1|] + d2 + c1[start + |d1| + |d2|..]
    ensures c2 == c0[..start] + (d1 + d2) + c0[start + |d1| + |d2|..]
  {
    assert c1[..start + |d1|] == c0[..start] + d1;
    assert c1[start + |d1| + |d2|..] == c0[start + |d1| + |d2|..];
  }

  lemma HalvesOfDigits(value: uint)
    ensures Pow2(16) == 0x1_0000
    ensures BinaryDigits(value, 32) == BinaryDigits(Shr(value, 16) % 0x1_0000, 16) + BinaryDigits(value % 0x1_0000, 16)
  {
    Pow2Values();
    SplitDigits(value, 16);
  }

  /** The 2w digits of v are the w digits of its upper half followed by those of its lower half. */
  lemma SplitDigits(v: nat, w: nat)
    ensures BinaryDigits(v, w + w) == BinaryDigits(Shr(v, w) % Pow2(w), w) + BinaryDigits(v % Pow2(w), w)
  {
    DigitsSplit(v, w, w);
    forall i | 0 <= i < w
      ensures Bit(Shr(v, w) % Pow2(w), i) == Bit(Shr(v, w), i)
      ensures Bit(v % Pow2(w), i) == Bit(v, i)
    {
      BitModPow2(Shr(v, w), w, i);
      BitModPow2(v, w, i);
    }
    DigitsOfSameBits(Shr(v, w) % Pow2(w), Shr(v, w), w);
    DigitsOfSameBits(v % Pow2(w), v, w);
  }

  /** The two halves of a 64-bit pattern written as `(uint)(v >> 32)` and `(uint)v`. */
  lemma LongHalvesOfDigits(v: int)
    ensures Pow2(32) == 0x1_0000_0000
    ensures BinaryDigits(Pattern(64, v), 64) == BinaryDigits(Pattern(32, Asr(v, 32)), 32) + BinaryDigits(Pattern(32, v), 32)
  {
    Pow2Values();
    SplitDigits(Pattern(64, v), 32);
    ChunkOfPattern(v, 64, 32, 32);
    PatternOfPattern(v, 64, 32);
  }

  /**
   * The buffer of a ToBinaryString: "0b" in its first two characters and n
   * digits written after them make the string "0b" and the digits, which read
   * back as v modulo 2^n.
   */
  lemma BinaryStringOf(s: string, c0: seq<char>, v: nat, n: nat)
    requires |c0| == n + 2 && c0[..2] == "0b"
    requires s == c0[..2] + BinaryDigits(v, n) + c0[n + 2..]
    ensures |s| == n + 2 && s[..2] == "0b" && s[2..] == BinaryDigits(v, n)
    ensures BinaryValue(s[2..]) == v % Pow2(n)
  {
    assert c0[n + 2..] == [];
    assert s == c0[..2] + BinaryDigits(v, n);
    BinaryValueOfDigits(v, n);
  }
}
