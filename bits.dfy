/**
 * Fixed-width machine integers on top of Dafny's unbounded `int`.
 *
 * Every C# integer of the library is a Dafny `int` in the range of its C# type.
 * Bitwise operators work on n-bit patterns (naturals below 2^n): `And`, `Or`,
 * `Xor` and `Not` are defined one bit at a time, by recursion on the width, so
 * each of them is exactly the C# operator of that width. Signed values are
 * related to their patterns by two's complement (`Pattern`, `ToSigned`).
 */
module Bits {

  type byte = x: int | 0 <= x < 0x100
  type sbyte = x: int | -0x80 <= x < 0x80
  type ushort = x: int | 0 <= x < 0x1_0000
  type short = x: int | -0x8000 <= x < 0x8000
  type uint = x: int | 0 <= x < 0x1_0000_0000
  type int32 = x: int | -0x8000_0000 <= x < 0x8000_0000
  type ulong = x: int | 0 <= x < 0x1_0000_0000_0000_0000
  type long = x: int | -0x8000_0000_0000_0000 <= x < 0x8000_0000_0000_0000

  function Pow2(n: nat): (r: nat)
    ensures r >= 1
  {
    if n == 0 then 1 else 2 * Pow2(n - 1)
  }

  /** Whether bit i (counting from the least significant bit, 0) of x is set. */
  predicate Bit(x: nat, i: nat)
  {
    if i == 0 then x % 2 == 1 else Bit(x / 2, i - 1)
  }

  /** n-bit `&`. */
  function And(n: nat, a: nat, b: nat): (r: nat)
    ensures r < Pow2(n)
  {
    if n == 0 then 0
    else (if a % 2 == 1 && b % 2 == 1 then 1 else 0) + 2 * And(n - 1, a / 2, b / 2)
  }

  /** n-bit `|`. */
  function Or(n: nat, a: nat, b: nat): (r: nat)
    ensures r < Pow2(n)
  {
    if n == 0 then 0
    else (if a % 2 == 1 || b % 2 == 1 then 1 else 0) + 2 * Or(n - 1, a / 2, b / 2)
  }

  /** n-bit `^`. */
  function Xor(n: nat, a: nat, b: nat): (r: nat)
    ensures r < Pow2(n)
  {
    if n == 0 then 0
    else (if (a % 2 == 1) != (b % 2 == 1) then 1 else 0) + 2 * Xor(n - 1, a / 2, b / 2)
  }

  /** n-bit `~`. */
  function Not(n: nat, a: nat): (r: nat)
    ensures r < Pow2(n)
  {
    if n == 0 then 0
    else (if a % 2 == 1 then 0 else 1) + 2 * Not(n - 1, a / 2)
  }

  /** n-bit `<<` by k places: the bits shifted beyond the width are lost. */
  function Shl(n: nat, x: nat, k: nat): (r: nat)
    ensures r < Pow2(n)
  {
    (x * Pow2(k)) % Pow2(n)
  }

  /** Logical `>>` by k places. */
  function Shr(x: nat, k: nat): (r: nat)
    ensures r <= x
  {
    DivBound(x, Pow2(k));
    x / Pow2(k)
  }

  lemma {:induction false} DivBound(x: nat, d: nat)
    requires d > 0
    ensures 0 <= x / d <= x
  {
    var q := x / d;
    assert x == d * q + x % d && 0 <= x % d < d;
    if q > x {
      assert d * (x + 1) == (x + 1) * d;
      MulLe(x + 1, 1, d);
      MulLe(d, x + 1, q);
    }
  }

  /** Arithmetic `>>` of a signed value by k places: rounds towards minus infinity. */
  function Asr(x: int, k: nat): int
  {
    x / Pow2(k)
  }

  /** The n-bit two's-complement pattern of x (Dafny's `%` is Euclidean). */
  function Pattern(n: nat, x: int): (r: nat)
    ensures r < Pow2(n)
  {
    x % Pow2(n)
  }

  /** The signed value whose n-bit two's-complement pattern is u. */
  function ToSigned(n: nat, u: nat): int
    requires 1 <= n && u < Pow2(n)
  {
    if u < Pow2(n - 1) then u else u - Pow2(n)
  }

  /** The number of set bits among the low n bits of x. */
  function PopCount(n: nat, x: nat): (r: nat)
    ensures r <= n
  {
    if n == 0 then 0 else x % 2 + PopCount(n - 1, x / 2)
  }

  /** The powers of two that name the C# widths. */
  lemma Pow2Values()
    ensures Pow2(4) == 0x10 && Pow2(7) == 0x80 && Pow2(8) == 0x100
    ensures Pow2(12) == 0x1000 && Pow2(15) == 0x8000 && Pow2(16) == 0x1_0000
    ensures Pow2(23) == 0x80_0000 && Pow2(24) == 0x100_0000
    ensures Pow2(31) == 0x8000_0000 && Pow2(32) == 0x1_0000_0000
    ensures Pow2(40) == 0x100_0000_0000 && Pow2(48) == 0x1_0000_0000_0000
    ensures Pow2(56) == 0x100_0000_0000_0000
    ensures Pow2(63) == 0x8000_0000_0000_0000 && Pow2(64) == 0x1_0000_0000_0000_0000
  {
  }

  lemma {:induction false} Pow2Add(a: nat, b: nat)
    ensures Pow2(a + b) == Pow2(a) * Pow2(b)
    decreases a
  {
    if a > 0 {
      Pow2Add(a - 1, b);
      assert Pow2(a + b) == 2 * Pow2(a - 1 + b);
    }
  }

  lemma {:induction false} Pow2Le(a: nat, b: nat)
    requires a <= b
    ensures Pow2(a) <= Pow2(b)
    decreases b
  {
    if a < b {
      Pow2Le(a, b - 1);
    }
  }

  lemma MulLe(a: nat, x: nat, y: nat)
    requires x <= y
    ensures a * x <= a * y
  {
  }

  /** Quotient and remainder are determined by the division equation. */
  lemma DivMod(x: int, d: int, q: int, r: int)
    requires d > 0 && 0 <= r < d && x == d * q + r
    ensures x / d == q && x % d == r
  {
    var q', r' := x / d, x % d;
    assert d * q' + r' == x;
    if q > q' {
      assert d * (q - q') == d * q - d * q';
      MulLe(d, 1, q - q');
    } else if q < q' {
      assert d * (q' - q) == d * q' - d * q;
      MulLe(d, 1, q' - q);
    }
  }

  lemma DivDiv(x: nat, a: nat, b: nat)
    requires a > 0 && b > 0
    ensures x / a / b == x / (a * b)
  {
    var y := x / a;
    var q := y / b;
    var r1 := x % a;
    var r2 := y % b;
    assert x == a * y + r1;
    assert y == b * q + r2;
    calc {
      x;
      a * (b * q + r2) + r1;
      { assert a * (b * q + r2) == a * (b * q) + a * r2; }
      a * (b * q) + a * r2 + r1;
      { assert a * (b * q) == (a * b) * q; }
      (a * b) * q + (a * r2 + r1);
    }
    MulLe(a, r2, b - 1);
    assert a * (b - 1) == a * b - a;
    DivMod(x, a * b, q, a * r2 + r1);
  }

  lemma {:induction false} BitZero(i: nat)
    ensures !Bit(0, i)
  {
    if i > 0 {
      BitZero(i - 1);
    }
  }

  /** Bit i of b + 2r, for a low bit b. */
  lemma BitLowHigh(b: nat, r: nat, i: nat)
    requires b < 2
    ensures Bit(b + 2 * r, i) == if i == 0 then b == 1 else Bit(r, i - 1)
  {
    if i > 0 {
      DivMod(b + 2 * r, 2, r, b);
    }
  }

  lemma {:induction false} BitDiv(x: nat, i: nat)
    ensures Bit(x, i) == ((x / Pow2(i)) % 2 == 1)
  {
    if i > 0 {
      BitDiv(x / 2, i - 1);
      DivDiv(x, 2, Pow2(i - 1));
    }
  }

  /** A number below 2^n has no bit at n or above. */
  lemma {:induction false} BitBound(x: nat, n: nat, i: nat)
    requires x < Pow2(n) && n <= i
    ensures !Bit(x, i)
    decreases n
  {
    if n == 0 {
      BitZero(i);
    } else {
      BitBound(x / 2, n - 1, i - 1);
    }
  }

  /** Two numbers below 2^n with the same low n bits are equal. */
  lemma {:induction false} Ext(n: nat, a: nat, b: nat)
    requires a < Pow2(n) && b < Pow2(n)
    requires forall i :: 0 <= i < n ==> Bit(a, i) == Bit(b, i)
    ensures a == b
  {
    if n > 0 {
      assert Bit(a, 0) == Bit(b, 0);
      forall i | 0 <= i < n - 1
        ensures Bit(a / 2, i) == Bit(b / 2, i)
      {
        assert Bit(a, i + 1) == Bit(b, i + 1);
      }
      Ext(n - 1, a / 2, b / 2);
    }
  }

  lemma {:induction false} BitAnd(n: nat, a: nat, b: nat, i: nat)
    ensures Bit(And(n, a, b), i) == (i < n && Bit(a, i) && Bit(b, i))
    decreases n
  {
    if n == 0 {
      BitZero(i);
    } else {
      BitLowHigh(if a % 2 == 1 && b % 2 == 1 then 1 else 0, And(n - 1, a / 2, b / 2), i);
      if i > 0 {
        BitAnd(n - 1, a / 2, b / 2, i - 1);
      }
    }
  }

  lemma {:induction false} BitOr(n: nat, a: nat, b: nat, i: nat)
    ensures Bit(Or(n, a, b), i) == (i < n && (Bit(a, i) || Bit(b, i)))
    decreases n
  {
    if n == 0 {
      BitZero(i);
    } else {
      BitLowHigh(if a % 2 == 1 || b % 2 == 1 then 1 else 0, Or(n - 1, a / 2, b / 2), i);
      if i > 0 {
        BitOr(n - 1, a / 2, b / 2, i - 1);
      }
    }
  }

  lemma {:induction false} BitXor(n: nat, a: nat, b: nat, i: nat)
    ensures Bit(Xor(n, a, b), i) == (i < n && Bit(a, i) != Bit(b, i))
    decreases n
  {
    if n == 0 {
      BitZero(i);
    } else {
      BitLowHigh(if (a % 2 == 1) != (b % 2 == 1) then 1 else 0, Xor(n - 1, a / 2, b / 2), i);
      if i > 0 {
        BitXor(n - 1, a / 2, b / 2, i - 1);
      }
    }
  }

  lemma {:induction false} BitNot(n: nat, a: nat, i: nat)
    ensures Bit(Not(n, a), i) == (i < n && !Bit(a, i))
    decreases n
  {
    if n == 0 {
      BitZero(i);
    } else {
      BitLowHigh(if a % 2 == 1 then 0 else 1, Not(n - 1, a / 2), i);
      if i > 0 {
        BitNot(n - 1, a / 2, i - 1);
      }
    }
  }

  lemma {:induction false} BitPow2(k: nat, i: nat)
    ensures Bit(Pow2(k), i) == (i == k)
  {
    if k == 0 {
      BitLowHigh(1, 0, i);
      if i > 0 {
        BitZero(i - 1);
      }
    } else {
      BitLowHigh(0, Pow2(k - 1), i);
      if i > 0 {
        BitPow2(k - 1, i - 1);
      }
    }
  }

  /** 2^k - 1 has exactly the bits below k. */
  lemma {:induction false} BitLowMask(k: nat, i: nat)
    ensures Bit(Pow2(k) - 1, i) == (i < k)
  {
    if k == 0 {
      BitZero(i);
    } else {
      BitLowHigh(1, Pow2(k - 1) - 1, i);
      if i > 0 {
        BitLowMask(k - 1, i - 1);
      }
    }
  }

  lemma {:induction false} BitMulPow2(x: nat, k: nat, i: nat)
    ensures Bit(x * Pow2(k), i) == (k <= i && Bit(x, i - k))
  {
    if k > 0 {
      assert x * Pow2(k) == 2 * (x * Pow2(k - 1));
      BitLowHigh(0, x * Pow2(k - 1), i);
      if i > 0 {
        BitMulPow2(x, k - 1, i - 1);
      }
    }
  }

  lemma {:induction false} BitDivPow2(x: nat, k: nat, i: nat)
    ensures Bit(Shr(x, k), i) == Bit(x, i + k)
  {
    if k > 0 {
      var p := Pow2(k - 1);
      assert Pow2(k) == 2 * p;
      DivDiv(x, 2, p);
      assert Shr(x, k) == Shr(x / 2, k - 1);
      BitDivPow2(x / 2, k - 1, i);
      assert Bit(x, i + k) == Bit(x / 2, i + k - 1);
    }
  }

  lemma ModSplit(x: nat, k: nat)
    requires k > 0
    ensures x % Pow2(k) == x % 2 + 2 * ((x / 2) % Pow2(k - 1))
  {
    var q := (x / 2) / Pow2(k - 1);
    var r := (x / 2) % Pow2(k - 1);
    assert x / 2 == Pow2(k - 1) * q + r;
    assert x == Pow2(k) * q + (x % 2 + 2 * r);
    DivMod(x, Pow2(k), q, x % 2 + 2 * r);
  }

  lemma {:induction false} BitModPow2(x: nat, k: nat, i: nat)
    ensures Bit(x % Pow2(k), i) == (i < k && Bit(x, i))
  {
    if k == 0 {
      BitZero(i);
    } else {
      ModSplit(x, k);
      BitLowHigh(x % 2, (x / 2) % Pow2(k - 1), i);
      if i > 0 {
        BitModPow2(x / 2, k - 1, i - 1);
      }
    }
  }

  lemma BitShl(n: nat, x: nat, k: nat, i: nat)
    ensures Bit(Shl(n, x, k), i) == (k <= i < n && Bit(x, i - k))
  {
    BitModPow2(x * Pow2(k), n, i);
    BitMulPow2(x, k, i);
  }

  /** Bits of a + b * 2^k when a fits below bit k. */
  lemma {:induction false} BitAddMul(a: nat, b: nat, k: nat, i: nat)
    requires a < Pow2(k)
    ensures Bit(a + b * Pow2(k), i) == if i < k then Bit(a, i) else Bit(b, i - k)
  {
    if k > 0 {
      assert a + b * Pow2(k) == a % 2 + 2 * (a / 2 + b * Pow2(k - 1));
      BitLowHigh(a % 2, a / 2 + b * Pow2(k - 1), i);
      if i > 0 {
        BitAddMul(a / 2, b, k - 1, i - 1);
      }
    }
  }

  /** Or-ing a value shifted above the bits of a is addition. */
  lemma OrShifted(n: nat, a: nat, b: nat, k: nat)
    requires a < Pow2(k) && a + b * Pow2(k) < Pow2(n)
    ensures Or(n, a, b * Pow2(k)) == a + b * Pow2(k)
  {
    forall i | 0 <= i < n
      ensures Bit(Or(n, a, b * Pow2(k)), i) == Bit(a + b * Pow2(k), i)
    {
      BitOr(n, a, b * Pow2(k), i);
      BitMulPow2(b, k, i);
      BitAddMul(a, b, k, i);
      if i >= k {
        BitBound(a, k, i);
      }
    }
    Ext(n, Or(n, a, b * Pow2(k)), a + b * Pow2(k));
  }

  /** `|` is commutative. */
  lemma {:induction false} OrComm(n: nat, a: nat, b: nat)
    ensures Or(n, a, b) == Or(n, b, a)
  {
    if n > 0 {
      OrComm(n - 1, a / 2, b / 2);
    }
  }

  /** The n-bit complement of a value below 2^n is 2^n - 1 minus it. */
  lemma {:induction false} NotValue(n: nat, a: nat)
    requires a < Pow2(n)
    ensures Not(n, a) == Pow2(n) - 1 - a
  {
    if n > 0 {
      NotValue(n - 1, a / 2);
    }
  }

  /** `x & (2^k - 1)` keeps the low k bits. */
  lemma AndLowMask(n: nat, x: nat, k: nat)
    requires k <= n
    ensures And(n, x, Pow2(k) - 1) == x % Pow2(k)
  {
    Pow2Le(k, n);
    forall i | 0 <= i < n
      ensures Bit(And(n, x, Pow2(k) - 1), i) == Bit(x % Pow2(k), i)
    {
      BitAnd(n, x, Pow2(k) - 1, i);
      BitLowMask(k, i);
      BitModPow2(x, k, i);
    }
    Ext(n, And(n, x, Pow2(k) - 1), x % Pow2(k));
  }

  /** `x & 2^k` is non-zero exactly when bit k is set. */
  lemma AndPow2(n: nat, x: nat, k: nat)
    requires k < n
    ensures (And(n, x, Pow2(k)) != 0) == Bit(x, k)
  {
    BitAnd(n, x, Pow2(k), k);
    BitPow2(k, k);
    if Bit(x, k) {
      BitZero(k);
    } else {
      forall i | 0 <= i < n
        ensures Bit(And(n, x, Pow2(k)), i) == Bit(0, i)
      {
        BitAnd(n, x, Pow2(k), i);
        BitPow2(k, i);
        BitZero(i);
      }
      Ext(n, And(n, x, Pow2(k)), 0);
    }
  }

  /** Of a number below 2^n, the top bit says whether it reaches 2^(n-1). */
  lemma TopBit(n: nat, x: nat)
    requires 1 <= n && x < Pow2(n)
    ensures Bit(x, n - 1) == (x >= Pow2(n - 1))
  {
    BitDiv(x, n - 1);
    if x >= Pow2(n - 1) {
      DivMod(x, Pow2(n - 1), 1, x - Pow2(n - 1));
    } else {
      DivMod(x, Pow2(n - 1), 0, x);
    }
  }

  /** A value below 2^n is its own n-bit pattern. */
  lemma PatternSmall(n: nat, x: nat)
    requires x < Pow2(n)
    ensures Pattern(n, x) == x
  {
    DivMod(x, Pow2(n), 0, x);
  }

  lemma PatternOfSigned(n: nat, u: nat)
    requires 1 <= n && u < Pow2(n)
    ensures Pattern(n, ToSigned(n, u)) == u
  {
    if u >= Pow2(n - 1) {
      DivMod(u - Pow2(n), Pow2(n), -1, u);
    } else {
      DivMod(u, Pow2(n), 0, u);
    }
  }

  lemma SignedOfPattern(n: nat, x: int)
    requires 1 <= n && -(Pow2(n - 1) as int) <= x < Pow2(n - 1)
    ensures ToSigned(n, Pattern(n, x)) == x
  {
    if x < 0 {
      DivMod(x, Pow2(n), -1, x + Pow2(n));
    } else {
      DivMod(x, Pow2(n), 0, x);
    }
  }

  lemma ToSignedRange(n: nat, u: nat)
    requires 1 <= n && u < Pow2(n)
    ensures -(Pow2(n - 1) as int) <= ToSigned(n, u) < Pow2(n - 1)
    ensures ToSigned(n, u) < 0 <==> Bit(u, n - 1)
  {
    TopBit(n, u);
  }

  lemma Pow2Byte()
    ensures Pow2(7) == 0x80 && Pow2(8) == 0x100
  {
  }

  /**
   * Bits k to k+7 of x, taken by an arithmetic shift and a `(byte)` cast, are
   * those of its n-bit pattern when k + 8 <= n.
   */
  lemma {:induction false} ByteOfPattern(x: int, n: nat, k: nat)
    requires k + 8 <= n
    ensures Asr(x, k) % 256 == Shr(Pattern(n, x), k) % 256
  {
    Pow2Add(k, 8);
    Pow2Add(k + 8, n - k - 8);
    Pow2Byte();
    ByteOfRemainder(x, Pow2(k), Pow2(n - k - 8), Pow2(n));
  }

  lemma ByteOfRemainder(x: int, a: int, b: int, m: int)
    requires a > 0 && b > 0 && m == a * 256 * b
    ensures (x / a) % 256 == ((x % m) / a) % 256
  {
    var q := x / m;
    var p := x % m;
    var h := p / a;
    assert x == m * q + p;
    assert p == a * h + p % a;
    assert m * q == a * (256 * b * q);
    DivMod(x, a, 256 * b * q + h, p % a);
    assert 256 * b * q + h == 256 * (b * q + h / 256) + h % 256;
    DivMod(256 * b * q + h, 256, b * q + h / 256, h % 256);
  }

  /**
   * Bits k to k+w-1 of x, taken by an arithmetic shift and a w-bit cast, are those
   * of its n-bit pattern when k + w <= n.
   */
  lemma {:induction false} ChunkOfPattern(x: int, n: nat, k: nat, w: nat)
    requires k + w <= n
    ensures Asr(x, k) % Pow2(w) == Shr(Pattern(n, x), k) % Pow2(w)
  {
    Pow2Add(k, w);
    Pow2Add(k + w, n - k - w);
    ChunkOfRemainder(x, Pow2(k), Pow2(w), Pow2(n - k - w), Pow2(n));
  }

  lemma ChunkOfRemainder(x: int, a: int, c: int, b: int, m: int)
    requires a > 0 && c > 0 && b > 0 && m == a * c * b
    ensures (x / a) % c == ((x % m) / a) % c
  {
    var q := x / m;
    var p := x % m;
    var h := p / a;
    var cb := c * b;
    assert m == a * cb;
    assert x == m * q + p;
    assert p == a * h + p % a;
    assert m * q == a * (cb * q);
    DivMod(x, a, cb * q + h, p % a);
    assert cb * q == c * (b * q);
    assert h == c * (h / c) + h % c;
    assert cb * q + h == c * (b * q + h / c) + h % c;
    DivMod(cb * q + h, c, b * q + h / c, h % c);
  }

  /** `x & 2^k` is 2^k when bit k is set and 0 otherwise. */
  lemma AndPow2Value(n: nat, x: nat, k: nat)
    requires k < n
    ensures And(n, x, Pow2(k)) == if Bit(x, k) then Pow2(k) else 0
  {
    AndPow2(n, x, k);
    if Bit(x, k) {
      Pow2Le(k + 1, n);
      forall i | 0 <= i < n
        ensures Bit(And(n, x, Pow2(k)), i) == Bit(Pow2(k), i)
      {
        BitAnd(n, x, Pow2(k), i);
        BitPow2(k, i);
      }
      Ext(n, And(n, x, Pow2(k)), Pow2(k));
    }
  }

  /** Keeping the low m bits of the n-bit pattern keeps the low m bits of the value. */
  lemma {:induction false} PatternOfPattern(x: int, n: nat, m: nat)
    requires m <= n
    ensures Pattern(m, Pattern(n, x)) == Pattern(m, x)
  {
    Pow2Add(m, n - m);
    RemainderOfRemainder(x, Pow2(m), Pow2(n - m));
  }

  lemma RemainderOfRemainder(x: int, a: int, b: int)
    requires a > 0 && b > 0
    ensures (x % (a * b)) % a == x % a
  {
    var q := x / (a * b);
    var p := x % (a * b);
    assert x == (a * b) * q + p;
    assert p == a * (p / a) + p % a;
    assert (a * b) * q == a * (b * q);
    DivMod(x, a, b * q + p / a, p % a);
  }
  /** The mask 2^a - 2^b has exactly bits b to a-1 set. */
  lemma BitRange(a: nat, b: nat, i: nat)
    requires b <= a
    ensures Pow2(b) <= Pow2(a)
    ensures Bit(Pow2(a) - Pow2(b), i) == (b <= i < a)
  {
    Pow2Le(b, a);
    Pow2Add(b, a - b);
    var m := Pow2(a - b) - 1;
    assert Pow2(a) - Pow2(b) == m * Pow2(b);
    BitMulPow2(m, b, i);
    if b <= i {
      BitLowMask(a - b, i - b);
    }
  }

  /** PopCount over n bits is the count over the n-1 bits below plus the top bit. */
  lemma {:induction false} PopCountTop(n: nat, x: nat)
    requires n >= 1
    ensures PopCount(n, x) == PopCount(n - 1, x) + (if Bit(x, n - 1) then 1 else 0)
  {
    if n > 1 {
      PopCountTop(n - 1, x / 2);
    }
  }

  /** The positions of the set bits among the low n. */
  function Ones(n: nat, x: nat): set<nat>
  {
    set i: nat | i < n && Bit(x, i)
  }

  /** PopCount counts the set bits. */
  lemma {:induction false} PopCountOnes(n: nat, x: nat)
    ensures PopCount(n, x) == |Ones(n, x)|
  {
    if n > 0 {
      PopCountOnes(n - 1, x);
      PopCountTop(n, x);
      if Bit(x, n - 1) {
        assert Ones(n, x) == Ones(n - 1, x) + {n - 1};
      } else {
        assert Ones(n, x) == Ones(n - 1, x);
      }
    }
  }

  /** Counting more bits than x has changes nothing. */
  lemma {:induction false} PopCountSmall(n: nat, m: nat, x: nat)
    requires m <= n && x < Pow2(m)
    ensures PopCount(n, x) == PopCount(m, x)
    decreases n
  {
    if n > m {
      PopCountTop(n, x);
      BitBound(x, m, n - 1);
      PopCountSmall(n - 1, m, x);
    }
  }
}
