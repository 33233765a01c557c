/**
 * UInt24.cs: the 24-bit unsigned integer value type.
 *
 * A UInt24 is its `uint` field, which always holds a value up to MaxValue.
 * Every operator computes on that `uint` in C#'s unchecked 32-bit arithmetic
 * (wrap-around modulo 2^32, shift counts reduced `& 31`); the wrapping
 * operators then keep the low 24 bits with `& MaxValueUInt32`. The checked
 * operators and conversions throw OverflowException instead of wrapping.
 */
module UInt24Struct {
  import opened Bits
  import opened BitOps
  import opened Errors
  import Endianness

  /** UInt24.MaxValueUInt32. */
  const MaxValue: nat := 0xFF_FFFF

  /** A UInt24 is its `uint` field, which always holds a value up to MaxValue. */
  type UInt24 = x: int | 0 <= x <= 0xFF_FFFF

  // ---------------------------------------------------------------------------
  // The C# `uint` arithmetic the operators are written in
  // ---------------------------------------------------------------------------

  /** An unchecked `uint` result: the exact result wrapped modulo 2^32. */
  function Wrap(x: int): (u: uint)
  {
    x % 0x1_0000_0000
  }

  /** `value & MaxValueUInt32`: the low 24 bits of a `uint`. */
  function Masked(u: uint): (r: UInt24)
    ensures r == u % 0x100_0000
  {
    Pow2Values();
    AndLowMask(IntWidth, u, 24);
    And(IntWidth, u, MaxValue)
  }

  /** Wrapping modulo 2^32 keeps the low 24 bits. */
  lemma WrapLow(x: int)
    ensures Wrap(x) % 0x100_0000 == x % 0x100_0000
  {
    RemainderOfRemainder(x, 0x100_0000, 0x100);
  }

  /**
   * The checking constructor `UInt24(uint value, bool checked)`: OverflowException
   * when checking and the value is above MaxValue. Its callers only switch the
   * check off for values that fit.
   */
  function Create(value: uint, checked: bool): (r: Result<UInt24>)
    requires checked || value <= MaxValue
    ensures r.Ok? <==> value <= MaxValue
    ensures r.Ok? ==> r.value == value
    ensures r.Throws? ==> r.error == OverflowException
  {
    if checked && value > MaxValue then Throws(OverflowException) else Ok(value)
  }

  // ---------------------------------------------------------------------------
  // Wrapping operators
  // ---------------------------------------------------------------------------

  /** `left + right`: `(left.value + right.value) & MaxValueUInt32`. */
  function Add(left: UInt24, right: UInt24): (r: UInt24)
    ensures r == (left + right) % 0x100_0000
  {
    WrapLow(left + right);
    Masked(Wrap(left + right))
  }

  /** `left - right`: `(left.value - right.value) & MaxValueUInt32`, the `uint` difference wrapping below 0. */
  function Subtract(left: UInt24, right: UInt24): (r: UInt24)
    ensures r == (left - right) % 0x100_0000
  {
    WrapLow(left - right);
    Masked(Wrap(left - right))
  }

  /** `left * right`: `(left.value * right.value) & MaxValueUInt32`, the product first wrapped to 32 bits. */
  function Multiply(left: UInt24, right: UInt24): (r: UInt24)
    ensures r == (left * right) % 0x100_0000
  {
    WrapLow(left * right);
    Masked(Wrap(left * right))
  }

  /** `++value`: `(value.value + 1u) & MaxValueUInt32`. */
  function Increment(value: UInt24): (r: UInt24)
    ensures r == (value + 1) % 0x100_0000
  {
    WrapLow(value + 1);
    Masked(Wrap(value + 1))
  }

  /** `--value`: `(value.value - 1u) & MaxValueUInt32`. */
  function Decrement(value: UInt24): (r: UInt24)
    ensures r == (value - 1) % 0x100_0000
  {
    WrapLow(value - 1);
    Masked(Wrap(value - 1))
  }

  /** Unary `-value`: `(~value.value + 1u) & MaxValueUInt32`, two's-complement negation. */
  function Negate(value: UInt24): (r: UInt24)
    ensures r == (-(value as int)) % 0x100_0000
  {
    Pow2Values();
    NotValue(IntWidth, value);
    WrapLow(Not(IntWidth, value) + 1);
    Negation(value, Not(IntWidth, value) + 1);
    Masked(Wrap(Not(IntWidth, value) + 1))
  }

  lemma Negation(v: UInt24, t: int)
    requires t == 0x1_0000_0000 - v
    ensures t % 0x100_0000 == (-(v as int)) % 0x100_0000
  {
    var n: int := -(v as int);
    DivMod(t, 0x100_0000, 0x100 + n / 0x100_0000, n % 0x100_0000);
  }

  /** `~value`: `~value.value & MaxValueUInt32`, the 24-bit complement. */
  function Complement(value: UInt24): (r: UInt24)
    ensures r == MaxValue - value
  {
    Pow2Values();
    NotValue(IntWidth, value);
    DivMod(Not(IntWidth, value), 0x100_0000, 0xFF, MaxValue - value);
    Masked(Not(IntWidth, value))
  }

  /**
   * `value << shiftAmount`: `(value.value << shiftAmount) & MaxValueUInt32`; the
   * `uint` shift reduces the count `& 31` and drops the bits beyond 32.
   */
  function ShiftLeft(value: UInt24, shiftAmount: int32): (r: UInt24)
    ensures r == (value * Pow2(shiftAmount % 32)) % 0x100_0000
  {
    Pow2Values();
    RemainderOfRemainder(value * Pow2(shiftAmount % 32), 0x100_0000, 0x100);
    Masked(Shl(IntWidth, value, shiftAmount % 32))
  }

  /**
   * `value >> shiftAmount` and `value >>> shiftAmount`: both are the logical shift
   * of the `uint` field, by the count reduced `& 31`.
   */
  function ShiftRight(value: UInt24, shiftAmount: int32): (r: UInt24)
    ensures r <= value
    ensures r == value / Pow2(shiftAmount % 32)
    ensures forall i :: 0 <= i < 24 ==> Bit(r, i) == Bit(value, i + shiftAmount % 32)
  {
    assert forall i :: 0 <= i < 24 ==> Bit(Shr(value, shiftAmount % 32), i) == Bit(value, i + shiftAmount % 32) by {
      forall i | 0 <= i < 24 {
        BitDivPow2(value, shiftAmount % 32, i);
      }
    }
    Shr(value, shiftAmount % 32)
  }

  /** `left & right`. */
  function BitwiseAnd(left: UInt24, right: UInt24): (r: UInt24)
    ensures forall i :: 0 <= i < 24 ==> Bit(r, i) == (Bit(left, i) && Bit(right, i))
  {
    BitwiseBits(left, right);
    And(IntWidth, left, right)
  }

  /** `left | right`. */
  function BitwiseOr(left: UInt24, right: UInt24): (r: UInt24)
    ensures forall i :: 0 <= i < 24 ==> Bit(r, i) == (Bit(left, i) || Bit(right, i))
  {
    BitwiseBits(left, right);
    Or(IntWidth, left, right)
  }

  /** `left ^ right`. */
  function BitwiseXor(left: UInt24, right: UInt24): (r: UInt24)
    ensures forall i :: 0 <= i < 24 ==> Bit(r, i) == (Bit(left, i) != Bit(right, i))
  {
    BitwiseBits(left, right);
    Xor(IntWidth, left, right)
  }

  /** A 32-bit value with no bit set from 24 upwards fits in 24 bits. */
  lemma FitsIn24(x: nat)
    requires x < Pow2(IntWidth)
    requires forall i :: 24 <= i < IntWidth ==> !Bit(x, i)
    ensures x <= MaxValue
  {
    Pow2Values();
    forall i | 0 <= i < IntWidth
      ensures Bit(x, i) == Bit(x % Pow2(24), i)
    {
      BitModPow2(x, 24, i);
    }
    Ext(IntWidth, x, x % Pow2(24));
  }

  lemma BitwiseBits(left: UInt24, right: UInt24)
    ensures And(IntWidth, left, right) <= MaxValue
    ensures Or(IntWidth, left, right) <= MaxValue
    ensures Xor(IntWidth, left, right) <= MaxValue
    ensures forall i :: 0 <= i < 24 ==> Bit(And(IntWidth, left, right), i) == (Bit(left, i) && Bit(right, i))
    ensures forall i :: 0 <= i < 24 ==> Bit(Or(IntWidth, left, right), i) == (Bit(left, i) || Bit(right, i))
    ensures forall i :: 0 <= i < 24 ==> Bit(Xor(IntWidth, left, right), i) == (Bit(left, i) != Bit(right, i))
  {
    Pow2Values();
    forall i | 0 <= i < IntWidth
      ensures Bit(And(IntWidth, left, right), i) == (Bit(left, i) && Bit(right, i))
      ensures Bit(Or(IntWidth, left, right), i) == (Bit(left, i) || Bit(right, i))
      ensures Bit(Xor(IntWidth, left, right), i) == (Bit(left, i) != Bit(right, i))
      ensures 24 <= i ==> !Bit(left, i) && !Bit(right, i)
    {
      BitAnd(IntWidth, left, right, i);
      BitOr(IntWidth, left, right, i);
      BitXor(IntWidth, left, right, i);
      if 24 <= i {
        BitBound(left, 24, i);
        BitBound(right, 24, i);
      }
    }
    FitsIn24(And(IntWidth, left, right));
    FitsIn24(Or(IntWidth, left, right));
    FitsIn24(Xor(IntWidth, left, right));
  }

  /** `left / right` (also `checked /`): DivideByZeroException for a zero divisor. */
  function Divide(left: UInt24, right: UInt24): (r: Result<UInt24>)
    ensures r.Ok? <==> right != 0
    ensures r.Throws? ==> r.error == DivideByZeroException
    ensures r.Ok? ==> r.value * right <= left < (r.value + 1) * right
  {
    if right == 0 then Throws(DivideByZeroException) else Ok(left / right)
  }

  /** `left % right`: DivideByZeroException for a zero divisor. */
  function Remainder(left: UInt24, right: UInt24): (r: Result<UInt24>)
    ensures r.Ok? <==> right != 0
    ensures r.Throws? ==> r.error == DivideByZeroException
    ensures r.Ok? ==> r.value < right
  {
    if right == 0 then Throws(DivideByZeroException) else Ok(left % right)
  }

  // ---------------------------------------------------------------------------
  // Checked operators
  // ---------------------------------------------------------------------------

  /** `checked(left + right)`: the `uint` sum, OverflowException above MaxValue. */
  function CheckedAdd(left: UInt24, right: UInt24): (r: Result<UInt24>)
    ensures r.Ok? <==> left + right <= MaxValue
    ensures r.Ok? ==> r.value == left + right
    ensures r.Throws? ==> r.error == OverflowException
  {
    var result := left + right;
    if result > MaxValue then Throws(OverflowException) else Ok(result)
  }

  /** `checked(left - right)`: OverflowException when the difference would be negative. */
  function CheckedSubtract(left: UInt24, right: UInt24): (r: Result<UInt24>)
    ensures r.Ok? <==> right <= left
    ensures r.Ok? ==> r.value == left - right
    ensures r.Throws? ==> r.error == OverflowException
  {
    if left < right then Throws(OverflowException) else Ok(left - right)
  }

  /** `checked(left * right)`: the product in `ulong`, where it cannot wrap, OverflowException above MaxValue. */
  function CheckedMultiply(left: UInt24, right: UInt24): (r: Result<UInt24>)
    ensures r.Ok? <==> left * right <= MaxValue
    ensures r.Ok? ==> r.value == left * right
    ensures r.Throws? ==> r.error == OverflowException
  {
    var result: ulong := ProductFits(left, right);
    if result > MaxValue then Throws(OverflowException) else Ok(result)
  }

  /** The product of two UInt24 values is below 2^48, so the `ulong` product is exact. */
  function ProductFits(left: UInt24, right: UInt24): (p: ulong)
    ensures p == left * right
  {
    MulLe(left, right, MaxValue);
    MulLe(MaxValue, left, MaxValue);
    left * right
  }

  /** `checked(++value)`: OverflowException at MaxValue. */
  function CheckedIncrement(value: UInt24): (r: Result<UInt24>)
    ensures r.Ok? <==> value < MaxValue
    ensures r.Ok? ==> r.value == value + 1
    ensures r.Throws? ==> r.error == OverflowException
  {
    if value >= MaxValue then Throws(OverflowException) else Ok(value + 1)
  }

  /** `checked(--value)`: OverflowException at 0. */
  function CheckedDecrement(value: UInt24): (r: Result<UInt24>)
    ensures r.Ok? <==> value != 0
    ensures r.Ok? ==> r.value == value - 1
    ensures r.Throws? ==> r.error == OverflowException
  {
    if value == 0 then Throws(OverflowException) else Ok(value - 1)
  }

  /** `checked(-value)`: only zero can be negated without leaving the range. */
  function CheckedNegate(value: UInt24): (r: Result<UInt24>)
    ensures r.Ok? <==> value == 0
    ensures r.Ok? ==> r.value == 0
    ensures r.Throws? ==> r.error == OverflowException
  {
    if value != 0 then Throws(OverflowException) else Ok(0)
  }

  // ---------------------------------------------------------------------------
  // What the operators mean together
  // ---------------------------------------------------------------------------

  /** The wrapping operators are arithmetic modulo 2^24: 0xFFFFFF + 1 is 0 and 0 - 1 is 0xFFFFFF. */
  lemma WrapAround()
    ensures Add(MaxValue, 1) == 0 && Increment(MaxValue) == 0
    ensures Subtract(0, 1) == MaxValue && Decrement(0) == MaxValue
    ensures Negate(1) == MaxValue
  {
    DivMod(-1, 0x100_0000, -1, MaxValue);
  }

  /** Subtracting undoes adding, and adding undoes subtracting. */
  lemma AddSubtract(a: UInt24, b: UInt24)
    ensures Subtract(Add(a, b), b) == a
    ensures Add(Subtract(a, b), b) == a
  {
    var s, d := Add(a, b), Subtract(a, b);
    SubtractAfterAdd(a, b, s);
    AddAfterSubtract(a, b, d);
    SubtractIs(s, b);
    AddIs(d, b);
  }

  lemma SubtractIs(a: UInt24, b: UInt24)
    ensures Subtract(a, b) == (a - b) % 0x100_0000
  {
  }

  lemma SubtractAfterAdd(a: int, b: int, s: int)
    requires 0 <= a < 0x100_0000 && 0 <= b < 0x100_0000 && s == (a + b) % 0x100_0000
    ensures (s - b) % 0x100_0000 == a
  {
    var m := 0x100_0000;
    if a + b < m {
      DivMod(a + b, m, 0, a + b);
    } else {
      DivMod(a + b, m, 1, a + b - m);
      DivMod(a + b - m - b, m, -1, a);
    }
    DivMod(a, m, 0, a);
  }

  lemma AddAfterSubtract(a: int, b: int, d: int)
    requires 0 <= a < 0x100_0000 && 0 <= b < 0x100_0000 && d == (a - b) % 0x100_0000
    ensures (d + b) % 0x100_0000 == a
  {
    var m := 0x100_0000;
    if a >= b {
      DivMod(a - b, m, 0, a - b);
      DivMod(a, m, 0, a);
    } else {
      DivMod(a - b, m, -1, a - b + m);
      DivMod(a - b + m + b, m, 1, a);
    }
  }

  /** Negation is the additive inverse, and `~v` is `-v - 1`. */
  lemma NegateComplement(a: UInt24)
    ensures Negate(a) == Subtract(0, a)
    ensures Add(a, Negate(a)) == 0
    ensures Complement(a) == Decrement(Negate(a))
  {
    var n := Negate(a);
    InverseFacts(a, n, Complement(a));
    AddIs(a, n);
    DecrementIs(n);
  }

  lemma AddIs(a: UInt24, b: UInt24)
    ensures Add(a, b) == (a + b) % 0x100_0000
  {
  }

  lemma DecrementIs(a: UInt24)
    ensures Decrement(a) == (a - 1) % 0x100_0000
  {
  }

  lemma InverseFacts(a: int, n: int, c: int)
    requires 0 <= a < 0x100_0000 && n == (-a) % 0x100_0000 && c == 0xFF_FFFF - a
    ensures n == (0 - a) % 0x100_0000
    ensures (a + n) % 0x100_0000 == 0
    ensures c == (n - 1) % 0x100_0000
  {
    var m := 0x100_0000;
    if a == 0 {
      DivMod(0, m, 0, 0);
      DivMod(-1, m, -1, m - 1);
    } else {
      DivMod(-a, m, -1, m - a);
      DivMod(m, m, 1, 0);
      DivMod(m - a - 1, m, 0, m - a - 1);
    }
  }

  /** Increment and decrement undo each other. */
  lemma IncrementDecrement(a: UInt24)
    ensures Decrement(Increment(a)) == a
    ensures Increment(Decrement(a)) == a
  {
    var i, d := Increment(a), Decrement(a);
    StepsUndo(a, i, d);
    DecrementIs(i);
    IncrementIs(d);
  }

  lemma IncrementIs(a: UInt24)
    ensures Increment(a) == (a + 1) % 0x100_0000
  {
  }

  lemma StepsUndo(a: int, i: int, d: int)
    requires 0 <= a < 0x100_0000 && i == (a + 1) % 0x100_0000 && d == (a - 1) % 0x100_0000
    ensures (i - 1) % 0x100_0000 == a
    ensures (d + 1) % 0x100_0000 == a
  {
    var m := 0x100_0000;
    if a == m - 1 {
      DivMod(a + 1, m, 1, 0);
      DivMod(-1, m, -1, a);
    } else {
      DivMod(a + 1, m, 0, a + 1);
      DivMod(a, m, 0, a);
    }
    if a == 0 {
      DivMod(-1, m, -1, m - 1);
      DivMod(m, m, 1, 0);
    } else {
      DivMod(a - 1, m, 0, a - 1);
    }
  }

  /** `checked +` throws exactly when the wrapping `+` loses the true sum, and otherwise agrees with it. */
  lemma CheckedAddExact(a: UInt24, b: UInt24)
    ensures CheckedAdd(a, b) == if Add(a, b) == a + b then Ok(Add(a, b)) else Throws(OverflowException)
  {
    if a + b <= MaxValue {
      DivMod(a + b, 0x100_0000, 0, a + b);
    } else {
      DivMod(a + b, 0x100_0000, 1, a + b - 0x100_0000);
    }
  }

  /** `checked -` throws exactly when the wrapping `-` loses the true difference. */
  lemma CheckedSubtractExact(a: UInt24, b: UInt24)
    ensures CheckedSubtract(a, b) == if Subtract(a, b) == a - b then Ok(Subtract(a, b)) else Throws(OverflowException)
  {
    if a >= b {
      DivMod(a - b, 0x100_0000, 0, a - b);
    }
  }

  /** `checked *` throws exactly when the wrapping `*` loses the true product. */
  lemma CheckedMultiplyExact(a: UInt24, b: UInt24)
    ensures CheckedMultiply(a, b) == if Multiply(a, b) == a * b then Ok(Multiply(a, b)) else Throws(OverflowException)
  {
    if a * b <= MaxValue {
      DivMod(a * b, 0x100_0000, 0, a * b);
    }
  }

  /** `checked ++`, `checked --` and `checked -` throw exactly when their wrapping forms wrap. */
  lemma CheckedStepsExact(a: UInt24)
    ensures CheckedIncrement(a) == if Increment(a) == a + 1 then Ok(Increment(a)) else Throws(OverflowException)
    ensures CheckedDecrement(a) == if Decrement(a) == a - 1 then Ok(Decrement(a)) else Throws(OverflowException)
    ensures CheckedNegate(a) == if Negate(a) == -(a as int) then Ok(Negate(a)) else Throws(OverflowException)
  {
    if a < MaxValue {
      DivMod(a + 1, 0x100_0000, 0, a + 1);
    } else {
      DivMod(a + 1, 0x100_0000, 1, 0);
    }
    if a > 0 {
      DivMod(a - 1, 0x100_0000, 0, a - 1);
    }
  }

  /** Shifting left by k < 24 and back right drops exactly the top k bits. */
  lemma ShiftRightOfShiftLeft(value: UInt24, k: int32)
    requires 0 <= k < 24
    ensures ShiftRight(ShiftLeft(value, k), k) == value % Pow2(24 - k)
  {
    var p, q := Pow2(k), Pow2(24 - k);
    Pow2Add(24 - k, k);
    Pow2Values();
    assert k % 32 == k;
    assert q * p == 0x100_0000;
    var shifted := ShiftLeft(value, k);
    assert shifted == (value * p) % (q * p);
    ShiftBack(value, p, q);
    assert ShiftRight(shifted, k) == shifted / p;
  }

  lemma ShiftBack(v: nat, p: nat, q: nat)
    requires p > 0 && q > 0
    ensures ((v * p) % (q * p)) / p == v % q
  {
    var h, m := v / q, v % q;
    assert v * p == (q * p) * h + m * p;
    MulLe(p, m + 1, q);
    DivMod(v * p, q * p, h, m * p);
    DivMod(m * p, p, m, 0);
  }

  /** Quotient and remainder recompose the dividend. */
  lemma DivisionIdentity(left: UInt24, right: UInt24)
    requires right != 0
    ensures Divide(left, right).value * right + Remainder(left, right).value == left
  {
  }

  /** IsEvenInteger: `(value.value & 1u) == 0u`. */
  function IsEvenInteger(value: UInt24): (r: bool)
    ensures r <==> value % 2 == 0
  {
    AndPow2(IntWidth, value, 0);
    And(IntWidth, value, 1) == 0
  }

  /** IsOddInteger: `(value.value & 1u) != 0u`. */
  function IsOddInteger(value: UInt24): (r: bool)
    ensures r <==> value % 2 == 1
    ensures r <==> !IsEvenInteger(value)
  {
    AndPow2(IntWidth, value, 0);
    And(IntWidth, value, 1) != 0
  }

  // ---------------------------------------------------------------------------
  // Comparison and ordering
  // ---------------------------------------------------------------------------

  /** `CompareTo(UInt24)`: `uint.CompareTo` of the fields, which answers -1, 0 or 1. */
  function CompareTo(value: UInt24, other: UInt24): (r: int32)
    ensures -1 <= r <= 1
    ensures r < 0 <==> value < other
    ensures r == 0 <==> value == other
    ensures r > 0 <==> value > other
  {
    if value < other then -1 else if value > other then 1 else 0
  }

  /** The `object` that `CompareTo(object)` and `Equals(object)` receive. */
  datatype Boxed = Null | BoxedUInt24(u: UInt24) | OtherObject

  /**
   * `CompareTo(object)`: null sorts before every UInt24, a boxed UInt24 is
   * compared by value, and any other object is an ArgumentException.
   */
  function CompareToObject(value: UInt24, obj: Boxed): (r: Result<int32>)
    ensures obj.Null? ==> r == Ok(1)
    ensures obj.BoxedUInt24? ==> r.Ok? && (r.value < 0 <==> value < obj.u) && (r.value == 0 <==> value == obj.u)
    ensures obj.OtherObject? ==> r == Throws(ArgumentException)
  {
    match obj
    case Null => Ok(1)
    case BoxedUInt24(other) => Ok(CompareTo(value, other))
    case OtherObject => Throws(ArgumentException)
  }

  /** `Equals(object)`: the object is a UInt24 holding the same value. */
  function EqualsObject(value: UInt24, obj: Boxed): (r: bool)
    ensures r <==> obj == BoxedUInt24(value)
    ensures r <==> CompareToObject(value, obj) == Ok(0)
  {
    obj.BoxedUInt24? && obj.u == value
  }

  /** `Max`: `Math.Max` of the fields. */
  function Max(x: UInt24, y: UInt24): (r: UInt24)
    ensures r == x || r == y
    ensures x <= r && y <= r
  {
    if x >= y then x else y
  }

  /** `Min`: `Math.Min` of the fields. */
  function Min(x: UInt24, y: UInt24): (r: UInt24)
    ensures r == x || r == y
    ensures r <= x && r <= y
  {
    if x <= y then x else y
  }

  /** `Clamp`: `Math.Clamp` of the fields, which throws ArgumentException when min is above max. */
  function Clamp(value: UInt24, min: UInt24, max: UInt24): (r: Result<UInt24>)
    ensures r.Throws? <==> min > max
    ensures r.Throws? ==> r.error == ArgumentException
    ensures r.Ok? ==> min <= r.value <= max
    ensures r.Ok? && min <= value <= max ==> r.value == value
    ensures r.Ok? && value < min ==> r.value == min
    ensures r.Ok? && value > max ==> r.value == max
  {
    if min > max then Throws(ArgumentException)
    else if value < min then Ok(min)
    else if value > max then Ok(max)
    else Ok(value)
  }

  /** `Sign`: 0 for zero and 1 for every other value, which is the comparison with zero. */
  function Sign(value: UInt24): (r: int32)
    ensures r == 0 <==> value == 0
    ensures r == 1 <==> value > 0
    ensures r == CompareTo(value, 0)
  {
    if value == 0 then 0 else 1
  }

  // ---------------------------------------------------------------------------
  // Conversions
  // ---------------------------------------------------------------------------

  /** A value of one of the C# integer types that UInt24 converts from. */
  datatype Integer =
    | FromByte(b: byte)
    | FromSByte(sb: sbyte)
    | FromUShort(us: ushort)
    | FromShort(s: short)
    | FromUInt(u: uint)
    | FromInt(i: int32)
    | FromULong(ul: ulong)
    | FromLong(l: long)
  {
    function Value(): int
    {
      match this
      case FromByte(v) => v
      case FromSByte(v) => v
      case FromUShort(v) => v
      case FromShort(v) => v
      case FromUInt(v) => v
      case FromInt(v) => v
      case FromULong(v) => v
      case FromLong(v) => v
    }
  }

  /** `checked((uint)value)`: OverflowException outside 0 to 2^32 - 1. */
  function CheckedToUInt(value: int): (r: Result<uint>)
    ensures r.Ok? <==> 0 <= value < 0x1_0000_0000
    ensures r.Ok? ==> r.value == value
    ensures r.Throws? ==> r.error == OverflowException
  {
    if value < 0 || value > 0xFFFF_FFFF then Throws(OverflowException) else Ok(value)
  }

  /** `new(checked((uint)value), checked)`. */
  function CreateFromCast(value: int, checked: bool): (r: Result<UInt24>)
    requires checked || value <= MaxValue
    ensures r.Ok? <==> 0 <= value <= MaxValue
    ensures r.Ok? ==> r.value == value
    ensures r.Throws? ==> r.error == OverflowException
  {
    match CheckedToUInt(value)
    case Throws(e) => Throws(e)
    case Ok(u) => Create(u, checked)
  }

  /**
   * The conversions into UInt24: implicit from byte and ushort, explicit from the
   * other integer types. sbyte and short only need the cast's sign check; the
   * wider types are also checked against MaxValue.
   */
  function FromInteger(x: Integer): (r: Result<UInt24>)
    ensures r.Ok? <==> 0 <= x.Value() <= MaxValue
    ensures r.Ok? ==> r.value == x.Value()
    ensures r.Throws? ==> r.error == OverflowException
  {
    match x
    case FromByte(v) => Ok(v as UInt24)
    case FromUShort(v) => Ok(v as UInt24)
    case FromSByte(v) => CreateFromCast(v, false)
    case FromShort(v) => CreateFromCast(v, false)
    case FromUInt(v) => Create(v, true)
    case FromInt(v) => CreateFromCast(v, true)
    case FromULong(v) => CreateFromCast(v, true)
    case FromLong(v) => CreateFromCast(v, true)
  }

  /** `checked((byte)value)`. */
  function ToByte(value: UInt24): (r: Result<byte>)
    ensures r.Ok? <==> value <= 0xFF
    ensures r.Ok? ==> r.value == value
    ensures r.Throws? ==> r.error == OverflowException
  {
    if value > 0xFF then Throws(OverflowException) else Ok(value)
  }

  /** `checked((sbyte)value)`. */
  function ToSByte(value: UInt24): (r: Result<sbyte>)
    ensures r.Ok? <==> value <= 0x7F
    ensures r.Ok? ==> r.value == value
    ensures r.Throws? ==> r.error == OverflowException
  {
    if value > 0x7F then Throws(OverflowException) else Ok(value)
  }

  /** `checked((short)value)`. */
  function ToShort(value: UInt24): (r: Result<short>)
    ensures r.Ok? <==> value <= 0x7FFF
    ensures r.Ok? ==> r.value == value
    ensures r.Throws? ==> r.error == OverflowException
  {
    if value > 0x7FFF then Throws(OverflowException) else Ok(value)
  }

  /** `checked((ushort)value)`. */
  function ToUShort(value: UInt24): (r: Result<ushort>)
    ensures r.Ok? <==> value <= 0xFFFF
    ensures r.Ok? ==> r.value == value
    ensures r.Throws? ==> r.error == OverflowException
  {
    if value > 0xFFFF then Throws(OverflowException) else Ok(value)
  }

  /** A narrowing conversion that succeeds is undone by the widening one. */
  lemma NarrowingRoundTrip(value: UInt24)
    ensures ToByte(value).Ok? ==> FromInteger(FromByte(ToByte(value).value)) == Ok(value)
    ensures ToSByte(value).Ok? ==> FromInteger(FromSByte(ToSByte(value).value)) == Ok(value)
    ensures ToShort(value).Ok? ==> FromInteger(FromShort(ToShort(value).value)) == Ok(value)
    ensures ToUShort(value).Ok? ==> FromInteger(FromUShort(ToUShort(value).value)) == Ok(value)
  {
  }

  /** CreateChecked, integer branches: the same checks as the conversion operators. */
  function CreateChecked(x: Integer): (r: Result<UInt24>)
    ensures r == FromInteger(x)
  {
    match x
    case FromByte(v) => Ok(v as UInt24)
    case FromUShort(v) => Ok(v as UInt24)
    case FromUInt(v) => Create(v, true)
    case FromULong(v) => if v > MaxValue then Throws(OverflowException) else Ok(v)
    case FromSByte(v) => CreateFromCast(v, false)
    case FromShort(v) => CreateFromCast(v, false)
    case FromInt(v) => CreateFromCast(v, true)
    case FromLong(v) => CreateFromCast(v, true)
  }

  /** CreateSaturating, integer branches: the value clamped into 0 to MaxValue. */
  function CreateSaturating(x: Integer): (r: UInt24)
    ensures x.Value() < 0 ==> r == 0
    ensures x.Value() > MaxValue ==> r == MaxValue
    ensures 0 <= x.Value() <= MaxValue ==> r == x.Value()
  {
    match x
    case FromByte(v) => v
    case FromUShort(v) => v
    case FromUInt(v) => if v > MaxValue then MaxValue else v
    case FromULong(v) => if v > MaxValue then MaxValue else v
    case FromSByte(v) => if v < 0 then 0 else v
    case FromShort(v) => if v < 0 then 0 else v
    case FromInt(v) => if v < 0 then 0 else if v > MaxValue then MaxValue else v
    case FromLong(v) => if v < 0 then 0 else if v > MaxValue then MaxValue else v
  }

  /**
   * CreateTruncating, integer branches: `(uint)value & MaxValueUInt32`, or
   * `(uint)(value & MaxValueUInt32)` for ulong; a negative value keeps the low
   * 24 bits of its two's-complement pattern.
   */
  function CreateTruncating(x: Integer): (r: UInt24)
    ensures r == x.Value() % 0x100_0000
  {
    WrapLow(x.Value());
    match x
    case FromByte(v) => v
    case FromUShort(v) => v
    case FromUInt(v) => Masked(v)
    case FromULong(v) => MaskedLong(v)
    case FromSByte(v) => Masked(Wrap(v))
    case FromShort(v) => Masked(Wrap(v))
    case FromInt(v) => Masked(Wrap(v))
    case FromLong(v) => Masked(Wrap(v))
  }

  /** `(uint)(value & MaxValueUInt32)` on a `ulong`. */
  function MaskedLong(value: ulong): (r: UInt24)
    ensures r == value % 0x100_0000
  {
    Pow2Values();
    AndLowMask(LongWidth, value, 24);
    Wrap(And(LongWidth, value, MaxValue))
  }

  /** Within the range, saturating and truncating creation agree with the checked one. */
  lemma CreateAgrees(x: Integer)
    requires CreateChecked(x).Ok?
    ensures CreateSaturating(x) == CreateChecked(x).value
    ensures CreateTruncating(x) == CreateChecked(x).value
  {
    DivMod(x.Value(), 0x100_0000, 0, x.Value());
  }

  /** The wrapping operators are the truncating creation from the exact result. */
  lemma WrappingIsTruncating(a: UInt24, b: UInt24)
    ensures Add(a, b) == CreateTruncating(FromUInt(a + b))
    ensures Subtract(a, b) == CreateTruncating(FromInt(a - b))
    ensures Negate(a) == CreateTruncating(FromInt(-(a as int)))
  {
    AddIsTruncating(a, b);
    SubtractIsTruncating(a, b);
    NegateIsTruncating(a);
  }

  lemma AddIsTruncating(a: UInt24, b: UInt24)
    ensures Add(a, b) == CreateTruncating(FromUInt(a + b))
  {
    TruncatingIs(FromUInt(a + b));
    AddIs(a, b);
  }

  lemma SubtractIsTruncating(a: UInt24, b: UInt24)
    ensures Subtract(a, b) == CreateTruncating(FromInt(a - b))
  {
    TruncatingIs(FromInt(a - b));
    SubtractIs(a, b);
  }

  lemma NegateIsTruncating(a: UInt24)
    ensures Negate(a) == CreateTruncating(FromInt(-(a as int)))
  {
    TruncatingIs(FromInt(-(a as int)));
  }

  lemma TruncatingIs(x: Integer)
    ensures CreateTruncating(x) == x.Value() % 0x100_0000
  {
  }

  /**
   * The `TOther` of the generic creation and conversion members: one of the
   * integer types above, UInt24 itself, or a type that none of their branches
   * names (Int128, say). The floating-point and native-integer branches are
   * not modelled.
   */
  datatype Source = Integral(x: Integer) | Itself(u: UInt24) | Unlisted

  /**
   * CreateChecked over every modelled `TOther`: the integer branches, then a
   * UInt24 returned as it is, then NotSupportedException.
   */
  function CreateCheckedOf(s: Source): (r: Result<UInt24>)
    ensures s.Integral? ==> r == FromInteger(s.x)
    ensures s.Itself? ==> r == Ok(s.u)
    ensures s.Unlisted? ==> r == Throws(NotSupportedException)
  {
    match s
    case Integral(x) => CreateChecked(x)
    case Itself(u) => Ok(u)
    case Unlisted => Throws(NotSupportedException)
  }

  /** CreateSaturating over every modelled `TOther`, with the same last two branches. */
  function CreateSaturatingOf(s: Source): (r: Result<UInt24>)
    ensures r.Throws? <==> s.Unlisted?
    ensures r.Throws? ==> r.error == NotSupportedException
    ensures s.Integral? ==>
      r.Ok? && r.value == if s.x.Value() < 0 then 0 else if s.x.Value() > MaxValue then MaxValue else s.x.Value()
    ensures s.Itself? ==> r == Ok(s.u)
  {
    match s
    case Integral(x) => Ok(CreateSaturating(x))
    case Itself(u) => Ok(u)
    case Unlisted => Throws(NotSupportedException)
  }

  /** CreateTruncating over every modelled `TOther`, with the same last two branches. */
  function CreateTruncatingOf(s: Source): (r: Result<UInt24>)
    ensures r.Throws? <==> s.Unlisted?
    ensures r.Throws? ==> r.error == NotSupportedException
    ensures s.Integral? ==> r == Ok(s.x.Value() % 0x100_0000)
    ensures s.Itself? ==> r == Ok(s.u)
  {
    match s
    case Integral(x) => Ok(CreateTruncating(x))
    case Itself(u) => Ok(u)
    case Unlisted => Throws(NotSupportedException)
  }

  /** Wherever the checked creation succeeds, the saturating and truncating ones give the same UInt24. */
  lemma CreateOfAgrees(s: Source)
    requires CreateCheckedOf(s).Ok?
    ensures CreateSaturatingOf(s) == CreateCheckedOf(s)
    ensures CreateTruncatingOf(s) == CreateCheckedOf(s)
  {
    if s.Integral? {
      CreateAgrees(s.x);
    }
  }

  /** Whether `TOther` is `uint` or `ulong`, the types that the TryConvertFrom members have branches for. */
  predicate IsWideUnsigned(s: Source)
  {
    s.Integral? && (s.x.FromUInt? || s.x.FromULong?)
  }

  /**
   * TryConvertFromChecked: a `uint` or `ulong` above MaxValue throws
   * OverflowException and one that fits is converted, with `true`; any other
   * type gives `false` and the default UInt24.
   */
  function TryConvertFromChecked(s: Source): (r: Result<(bool, UInt24)>)
    ensures r.Throws? <==> IsWideUnsigned(s) && s.x.Value() > MaxValue
    ensures r.Throws? ==> r.error == OverflowException
    ensures r.Ok? ==> (r.value.0 <==> IsWideUnsigned(s))
    ensures r.Ok? && r.value.0 ==> IsWideUnsigned(s) && r.value.1 == s.x.Value()
    ensures r.Ok? && !r.value.0 ==> r.value.1 == 0
  {
    match s
    case Integral(FromUInt(v)) => if v > MaxValue then Throws(OverflowException) else Ok((true, v))
    case Integral(FromULong(v)) => if v > MaxValue then Throws(OverflowException) else Ok((true, v))
    case _ => Ok((false, 0))
  }

  /**
   * TryConvertFromSaturating: a `uint` or `ulong` clamped to MaxValue, with
   * `true`; any other type gives `false` and the default UInt24.
   */
  function TryConvertFromSaturating(s: Source): (r: (bool, UInt24))
    ensures r.0 <==> IsWideUnsigned(s)
    ensures r.0 ==> IsWideUnsigned(s) && r.1 == if s.x.Value() > MaxValue then MaxValue else s.x.Value()
    ensures !r.0 ==> r.1 == 0
  {
    match s
    case Integral(FromUInt(v)) => (true, if v > MaxValue then MaxValue else v)
    case Integral(FromULong(v)) => (true, if v > MaxValue then MaxValue else v)
    case _ => (false, 0)
  }

  /**
   * TryConvertFromTruncating: the low 24 bits of a `uint` or `ulong`, with
   * `true`; any other type gives `false` and the default UInt24.
   */
  function TryConvertFromTruncating(s: Source): (r: (bool, UInt24))
    ensures r.0 <==> IsWideUnsigned(s)
    ensures r.0 ==> IsWideUnsigned(s) && r.1 == s.x.Value() % 0x100_0000
    ensures !r.0 ==> r.1 == 0
  {
    match s
    case Integral(FromUInt(v)) => (true, Masked(v))
    case Integral(FromULong(v)) => (true, MaskedLong(v))
    case _ => (false, 0)
  }

  /** For `uint` and `ulong` each TryConvertFrom member agrees with the Create member of the same kind. */
  lemma TryConvertFromAgrees(s: Source)
    requires IsWideUnsigned(s)
    ensures TryConvertFromChecked(s).Throws? <==> CreateCheckedOf(s).Throws?
    ensures TryConvertFromChecked(s).Ok? ==> TryConvertFromChecked(s).value == (true, CreateCheckedOf(s).value)
    ensures TryConvertFromSaturating(s) == (true, CreateSaturatingOf(s).value)
    ensures TryConvertFromTruncating(s) == (true, CreateTruncatingOf(s).value)
  {
  }

  // ---------------------------------------------------------------------------
  // Bit counts
  // ---------------------------------------------------------------------------

  /** The clear bits above the highest set bit among the low n bits of x (`uint.LeadingZeroCount` for n = 32). */
  function LeadingZeros(n: nat, x: nat): (z: nat)
    ensures z <= n
  {
    if n == 0 then 0 else if Bit(x, n - 1) then 0 else 1 + LeadingZeros(n - 1, x)
  }

  /** The clear bits below the lowest set bit among the low n bits of x (`uint.TrailingZeroCount` for n = 32). */
  function TrailingZeros(n: nat, x: nat): (z: nat)
    ensures z <= n
  {
    if n == 0 then 0 else if x % 2 == 1 then 0 else 1 + TrailingZeros(n - 1, x / 2)
  }

  /** LeadingZeros(n, x) is n exactly for 0, and otherwise locates the highest set bit. */
  lemma {:induction false} LeadingZerosMeaning(n: nat, x: nat)
    requires x < Pow2(n)
    ensures LeadingZeros(n, x) == n <==> x == 0
    ensures x < Pow2(n - LeadingZeros(n, x))
    ensures LeadingZeros(n, x) < n ==> Bit(x, n - 1 - LeadingZeros(n, x))
  {
    if n > 0 {
      TopBit(n, x);
      if !Bit(x, n - 1) {
        LeadingZerosMeaning(n - 1, x);
      }
    }
  }

  /** Counting over more bits than x has adds the extra bits as leading zeros. */
  lemma {:induction false} LeadingZerosAbove(n: nat, m: nat, x: nat)
    requires m <= n && x < Pow2(m)
    ensures LeadingZeros(n, x) == n - m + LeadingZeros(m, x)
    decreases n
  {
    if n > m {
      BitBound(x, m, n - 1);
      LeadingZerosAbove(n - 1, m, x);
    }
  }

  /** TrailingZeros(n, x) is a set bit of x when below n, and x is a multiple of 2 to its power. */
  lemma {:induction false} TrailingZerosMeaning(n: nat, x: nat)
    ensures TrailingZeros(n, x) < n ==> Bit(x, TrailingZeros(n, x))
    ensures x % Pow2(TrailingZeros(n, x)) == 0
  {
    if n > 0 && x % 2 == 0 {
      var z := TrailingZeros(n - 1, x / 2);
      TrailingZerosMeaning(n - 1, x / 2);
      var q := (x / 2) / Pow2(z);
      assert x / 2 == Pow2(z) * q;
      assert x == Pow2(z + 1) * q;
      DivMod(x, Pow2(z + 1), q, 0);
    }
  }

  lemma {:induction false} TrailingZerosOfZero(n: nat)
    ensures TrailingZeros(n, 0) == n
  {
    if n > 0 {
      TrailingZerosOfZero(n - 1);
    }
  }

  /** LeadingZeroCount: `uint.LeadingZeroCount(value.value) - 8`. */
  function LeadingZeroCount(value: UInt24): (r: UInt24)
    ensures r == LeadingZeros(24, value)
    ensures r == 24 <==> value == 0
    ensures value < Pow2(24 - r)
    ensures r < 24 ==> Bit(value, 23 - r)
  {
    Pow2Values();
    LeadingZerosAbove(IntWidth, 24, value);
    LeadingZerosMeaning(24, value);
    LeadingZeros(IntWidth, value) - 8
  }

  /** TrailingZeroCount: `uint.TrailingZeroCount(value.value)`, capped at 24 (so that zero gives 24). */
  function TrailingZeroCount(value: UInt24): (r: UInt24)
    ensures r == 24 <==> value == 0
    ensures value % Pow2(r) == 0
    ensures r < 24 ==> Bit(value, r)
  {
    Pow2Values();
    var count := TrailingZeros(IntWidth, value);
    TrailingZerosMeaning(IntWidth, value);
    TrailingZerosOfZero(IntWidth);
    TrailingCap(value, count);
    if count > 24 then 24 else count
  }

  lemma TrailingCap(value: UInt24, count: nat)
    requires count <= IntWidth && value % Pow2(count) == 0
    requires count < IntWidth ==> Bit(value, count)
    requires value == 0 ==> count == IntWidth
    ensures value != 0 ==> count < 24
  {
    Pow2Values();
    if value != 0 {
      if count < IntWidth {
        NoHighBits(24, value, count);
      } else {
        DivMod(value, Pow2(IntWidth), 0, value);
      }
    }
  }

  /** PopCount: `uint.PopCount(value.value)`, the number of set bits among the 24. */
  function PopCount(value: UInt24): (r: UInt24)
    ensures r <= 24
    ensures r == |Ones(24, value)|
  {
    Pow2Values();
    PopCountSmall(IntWidth, 24, value);
    PopCountOnes(24, value);
    Bits.PopCount(IntWidth, value)
  }

  /** GetShortestBitLength: `32 - int.LeadingZeroCount((int)value)`, the bits needed to write the value. */
  function GetShortestBitLength(value: UInt24): (r: int)
    ensures r == 24 - LeadingZeroCount(value)
    ensures value < Pow2(r)
    ensures r > 0 ==> Bit(value, r - 1)
  {
    Pow2Values();
    LeadingZerosAbove(IntWidth, 24, value);
    IntWidth - LeadingZeros(IntWidth, value)
  }

  // ---------------------------------------------------------------------------
  // Rotation
  // ---------------------------------------------------------------------------

  /** C#'s `%` on `int`: truncated towards zero, so the remainder takes the sign of the dividend. */
  function TruncatedRemainder(a: int, b: int): (r: int)
    requires b > 0
    ensures -b < r < b
    ensures a >= 0 ==> r == a % b
  {
    if a >= 0 then a % b else -((-a) % b)
  }

  /** `(rotateAmount % 24 + 24) % 24`: the amount reduced into 0 to 23, negative amounts included. */
  function RotateAmount(rotateAmount: int32): (k: nat)
    ensures k < 24 && k == rotateAmount % 24
  {
    var t := TruncatedRemainder(rotateAmount, 24);
    ReduceAmount(rotateAmount, t);
    TruncatedRemainder(t + 24, 24)
  }

  lemma ReduceAmount(a: int, t: int)
    requires -24 < t < 24
    requires a >= 0 ==> t == a % 24
    requires a < 0 ==> t == -((-a) % 24)
    ensures (t + 24) % 24 == a % 24
  {
    if a >= 0 {
      DivMod(t + 24, 24, 1, t);
    } else {
      var q, m := (-a) / 24, (-a) % 24;
      if m == 0 {
        DivMod(a, 24, -q, 0);
        DivMod(t + 24, 24, 1, 0);
      } else {
        DivMod(a, 24, -q - 1, 24 - m);
        DivMod(t + 24, 24, 0, 24 - m);
      }
    }
  }

  /**
   * RotateLeft: `((value << k) | (value >> (24 - k))) & MaxValueUInt32` with k the
   * reduced amount; both shift counts are below 32, so C#'s masking leaves them alone.
   * Bit i moves to bit (i + k) mod 24.
   */
  function RotateLeft(value: UInt24, rotateAmount: int32): (r: UInt24)
    ensures forall i :: 0 <= i < 24 ==> Bit(r, (i + rotateAmount % 24) % 24) == Bit(value, i)
  {
    var k := RotateAmount(rotateAmount);
    var o := Or(IntWidth, Shl(IntWidth, value, k), Shr(value, 24 - k));
    RotateLeftBound(value, k, o);
    var r := Masked(o);
    RotateLeftBits(value, rotateAmount, k, o, r);
    r
  }

  /** RotateRight: `((value >> k) | (value << (24 - k))) & MaxValueUInt32`; bit i comes from bit (i + k) mod 24. */
  function RotateRight(value: UInt24, rotateAmount: int32): (r: UInt24)
    ensures forall i :: 0 <= i < 24 ==> Bit(r, i) == Bit(value, (i + rotateAmount % 24) % 24)
  {
    var k := RotateAmount(rotateAmount);
    var o := Or(IntWidth, Shr(value, k), Shl(IntWidth, value, 24 - k));
    RotateRightBound(value, k, o);
    var r := Masked(o);
    RotateRightBits(value, rotateAmount, k, o, r);
    r
  }

  /** i + k reduced modulo 24, for i and k below 24. */
  lemma Mod24(i: nat, k: nat)
    requires i < 24 && k < 24
    ensures (i + k) % 24 == if i + k < 24 then i + k else i + k - 24
  {
    if i + k < 24 {
      DivMod(i + k, 24, 0, i + k);
    } else {
      DivMod(i + k, 24, 1, i + k - 24);
    }
  }

  lemma RotateLeftBit(v: UInt24, k: nat, o: nat, i: nat, j: nat)
    requires k < 24 && i < 24 && j == if i + k < 24 then i + k else i + k - 24
    requires o == Or(IntWidth, Shl(IntWidth, v, k), Shr(v, 24 - k))
    ensures Bit(o % Pow2(24), j) == Bit(v, i)
  {
    assert Pow2(24) == 0x100_0000 by { Pow2Values(); }
    BitModPow2(o, 24, j);
    BitOr(IntWidth, Shl(IntWidth, v, k), Shr(v, 24 - k), j);
    BitShl(IntWidth, v, k, j);
    BitDivPow2(v, 24 - k, j);
    if i + k < 24 {
      BitBound(v, 24, j + 24 - k);
    }
  }

  lemma RotateRightBit(v: UInt24, k: nat, o: nat, i: nat, j: nat)
    requires k < 24 && i < 24 && j == if i + k < 24 then i + k else i + k - 24
    requires o == Or(IntWidth, Shr(v, k), Shl(IntWidth, v, 24 - k))
    ensures Bit(o % Pow2(24), i) == Bit(v, j)
  {
    assert Pow2(24) == 0x100_0000 by { Pow2Values(); }
    BitModPow2(o, 24, i);
    BitOr(IntWidth, Shr(v, k), Shl(IntWidth, v, 24 - k), i);
    BitDivPow2(v, k, i);
    BitShl(IntWidth, v, 24 - k, i);
    if i + k >= 24 {
      BitBound(v, 24, i + k);
    }
  }

  lemma RotateLeftBitAt(v: UInt24, k: nat, o: nat, r: nat, i: nat)
    requires k < 24 && i < 24 && o == Or(IntWidth, Shl(IntWidth, v, k), Shr(v, 24 - k))
    requires r == o % 0x100_0000
    ensures Bit(r, (i + k) % 24) == Bit(v, i)
  {
    assert Pow2(24) == 0x100_0000 by { Pow2Values(); }
    Mod24(i, k);
    RotateLeftBit(v, k, o, i, (i + k) % 24);
  }

  lemma RotateRightBitAt(v: UInt24, k: nat, o: nat, r: nat, i: nat)
    requires k < 24 && i < 24 && o == Or(IntWidth, Shr(v, k), Shl(IntWidth, v, 24 - k))
    requires r == o % 0x100_0000
    ensures Bit(r, i) == Bit(v, (i + k) % 24)
  {
    assert Pow2(24) == 0x100_0000 by { Pow2Values(); }
    Mod24(i, k);
    RotateRightBit(v, k, o, i, (i + k) % 24);
  }

  lemma RotateLeftBound(v: UInt24, k: nat, o: nat)
    requires k < 24 && o == Or(IntWidth, Shl(IntWidth, v, k), Shr(v, 24 - k))
    ensures o < 0x1_0000_0000
  {
    assert Pow2(IntWidth) == 0x1_0000_0000 by { Pow2Values(); }
  }

  lemma RotateRightBound(v: UInt24, k: nat, o: nat)
    requires k < 24 && o == Or(IntWidth, Shr(v, k), Shl(IntWidth, v, 24 - k))
    ensures o < 0x1_0000_0000
  {
    assert Pow2(IntWidth) == 0x1_0000_0000 by { Pow2Values(); }
  }

  lemma RotateLeftBits(v: UInt24, amount: int, k: nat, o: nat, r: nat)
    requires k < 24 && k == amount % 24 && o == Or(IntWidth, Shl(IntWidth, v, k), Shr(v, 24 - k))
    requires r == o % 0x100_0000
    ensures forall i :: 0 <= i < 24 ==> Bit(r, (i + amount % 24) % 24) == Bit(v, i)
  {
    forall i | 0 <= i < 24
      ensures Bit(r, (i + k) % 24) == Bit(v, i)
    {
      RotateLeftBitAt(v, k, o, r, i);
    }
  }

  lemma RotateRightBits(v: UInt24, amount: int, k: nat, o: nat, r: nat)
    requires k < 24 && k == amount % 24 && o == Or(IntWidth, Shr(v, k), Shl(IntWidth, v, 24 - k))
    requires r == o % 0x100_0000
    ensures forall i :: 0 <= i < 24 ==> Bit(r, i) == Bit(v, (i + amount % 24) % 24)
  {
    forall i | 0 <= i < 24
      ensures Bit(r, i) == Bit(v, (i + k) % 24)
    {
      RotateRightBitAt(v, k, o, r, i);
    }
  }

  /** Rotating right by the same amount undoes a rotation left, and the other way round. */
  lemma RotateRoundTrip(value: UInt24, rotateAmount: int32)
    ensures RotateRight(RotateLeft(value, rotateAmount), rotateAmount) == value
    ensures RotateLeft(RotateRight(value, rotateAmount), rotateAmount) == value
  {
    RightUndoesLeft(value, rotateAmount);
    LeftUndoesRight(value, rotateAmount);
  }

  lemma RightUndoesLeft(value: UInt24, rotateAmount: int32)
    ensures RotateRight(RotateLeft(value, rotateAmount), rotateAmount) == value
  {
    var lr := RotateRight(RotateLeft(value, rotateAmount), rotateAmount);
    forall i | 0 <= i < 24
      ensures Bit(lr, i) == Bit(value, i)
    {
      RightOfLeftBit(value, rotateAmount, i);
    }
    assert Pow2(24) == 0x100_0000 by { Pow2Values(); }
    Ext(24, lr, value);
  }

  lemma LeftUndoesRight(value: UInt24, rotateAmount: int32)
    ensures RotateLeft(RotateRight(value, rotateAmount), rotateAmount) == value
  {
    var k := rotateAmount % 24;
    var r := RotateRight(value, rotateAmount);
    var rl := RotateLeft(r, rotateAmount);
    forall j | 0 <= j < 24
      ensures Bit(rl, j) == Bit(value, j)
    {
      LeftOfRightBit(value, rotateAmount, j);
    }
    assert Pow2(24) == 0x100_0000 by { Pow2Values(); }
    Ext(24, rl, value);
  }

  lemma RightOfLeftBit(value: UInt24, rotateAmount: int32, i: nat)
    requires i < 24
    ensures Bit(RotateRight(RotateLeft(value, rotateAmount), rotateAmount), i) == Bit(value, i)
  {
    var l := RotateLeft(value, rotateAmount);
    assert Bit(RotateRight(l, rotateAmount), i) == Bit(l, (i + rotateAmount % 24) % 24);
  }

  lemma UnrotatedBit(value: UInt24, rotateAmount: int32, i: nat)
    requires i < 24 && rotateAmount % 24 == 0
    ensures Bit(RotateLeft(value, rotateAmount), i) == Bit(value, i)
    ensures Bit(RotateRight(value, rotateAmount), i) == Bit(value, i)
  {
    Mod24(i, 0);
    UnrotatedLeftBit(value, rotateAmount, i, RotateLeft(value, rotateAmount));
    UnrotatedRightBit(value, rotateAmount, i, RotateRight(value, rotateAmount));
  }

  lemma UnrotatedLeftBit(value: UInt24, rotateAmount: int32, i: nat, l: UInt24)
    requires i < 24 && rotateAmount % 24 == 0 && (i + 0) % 24 == i
    requires forall j :: 0 <= j < 24 ==> Bit(l, (j + rotateAmount % 24) % 24) == Bit(value, j)
    ensures Bit(l, i) == Bit(value, i)
  {
    assert Bit(l, (i + rotateAmount % 24) % 24) == Bit(value, i);
  }

  lemma UnrotatedRightBit(value: UInt24, rotateAmount: int32, i: nat, r: UInt24)
    requires i < 24 && rotateAmount % 24 == 0 && (i + 0) % 24 == i
    requires forall j :: 0 <= j < 24 ==> Bit(r, j) == Bit(value, (j + rotateAmount % 24) % 24)
    ensures Bit(r, i) == Bit(value, i)
  {
    assert Bit(r, i) == Bit(value, (i + rotateAmount % 24) % 24);
  }

  lemma LeftOfRightBit(value: UInt24, rotateAmount: int32, j: nat)
    requires j < 24
    ensures Bit(RotateLeft(RotateRight(value, rotateAmount), rotateAmount), j) == Bit(value, j)
  {
    var k := rotateAmount % 24;
    var i := if j >= k then j - k else j + 24 - k;
    Mod24(i, k);
    var r := RotateRight(value, rotateAmount);
    assert Bit(RotateLeft(r, rotateAmount), (i + k) % 24) == Bit(r, i);
    assert Bit(r, i) == Bit(value, (i + k) % 24);
  }

  /** An amount that is a multiple of 24, such as 0, 24 or -24, leaves the value alone. */
  lemma RotateByMultipleOf24(value: UInt24, rotateAmount: int32)
    requires rotateAmount % 24 == 0
    ensures RotateLeft(value, rotateAmount) == value
    ensures RotateRight(value, rotateAmount) == value
  {
    var l := RotateLeft(value, rotateAmount);
    var r := RotateRight(value, rotateAmount);
    assert Pow2(24) == 0x100_0000 by { Pow2Values(); }
    forall i | 0 <= i < 24
      ensures Bit(l, i) == Bit(value, i) && Bit(r, i) == Bit(value, i)
    {
      UnrotatedBit(value, rotateAmount, i);
    }
    Ext(24, l, value);
    Ext(24, r, value);
  }

  // ---------------------------------------------------------------------------
  // Writing and reading bytes
  // ---------------------------------------------------------------------------

  /** The bytes `(byte)value`, `(byte)(value >> 8)`, `(byte)(value >> 16)` are the little-endian encoding. */
  lemma EncodedBytes(value: UInt24)
    ensures Endianness.Encode(Endianness.UInt24, value, Endianness.Little) == [value % 256, Shr(value, 8) % 256, Shr(value, 16) % 256]
    ensures Endianness.Encode(Endianness.UInt24, value, Endianness.Big) == [Shr(value, 16) % 256, Shr(value, 8) % 256, value % 256]
  {
    var s := [value % 256, Shr(value, 8) % 256, Shr(value, 16) % 256];
    assert Pow2(0) == 1;
    assert Endianness.Lane(value, 0) == s[0];
    assert Endianness.Lane(value, 1) == s[1];
    assert Endianness.Lane(value, 2) == s[2];
    Endianness.EncodeIs(Endianness.UInt24, value, s);
    assert Endianness.Reverse(s) == [s[2], s[1], s[0]];
  }

  /**
   * TryWriteBigEndian: fewer than 3 bytes of room write nothing and report 0;
   * otherwise the high byte goes first and 3 bytes are reported.
   */
  method TryWriteBigEndian(value: UInt24, destination: array<byte>) returns (written: bool, bytesWritten: int)
    modifies destination
    ensures written <==> destination.Length >= 3
    ensures bytesWritten == if written then 3 else 0
    ensures written ==> destination[..] == Endianness.Splice(old(destination[..]), 0,
      Endianness.Encode(Endianness.UInt24, value, Endianness.Big))
    ensures !written ==> destination[..] == old(destination[..])
  {
    if destination.Length < 3 {
      return false, 0;
    }
    ghost var before := destination[..];
    destination[0] := Shr(value, 16) % 256;
    destination[1] := Shr(value, 8) % 256;
    destination[2] := value % 256;
    EncodedBytes(value);
    Endianness.SpliceOf(before, destination[..], 0, Endianness.Encode(Endianness.UInt24, value, Endianness.Big));
    return true, 3;
  }

  /**
   * TryWriteLittleEndian: fewer than 3 bytes of room write nothing and report 0;
   * otherwise the low byte goes first and 3 bytes are reported.
   */
  method TryWriteLittleEndian(value: UInt24, destination: array<byte>) returns (written: bool, bytesWritten: int)
    modifies destination
    ensures written <==> destination.Length >= 3
    ensures bytesWritten == if written then 3 else 0
    ensures written ==> destination[..] == Endianness.Splice(old(destination[..]), 0,
      Endianness.Encode(Endianness.UInt24, value, Endianness.Little))
    ensures !written ==> destination[..] == old(destination[..])
  {
    if destination.Length < 3 {
      return false, 0;
    }
    ghost var before := destination[..];
    destination[0] := value % 256;
    destination[1] := Shr(value, 8) % 256;
    destination[2] := Shr(value, 16) % 256;
    EncodedBytes(value);
    Endianness.SpliceOf(before, destination[..], 0, Endianness.Encode(Endianness.UInt24, value, Endianness.Little));
    return true, 3;
  }

  /** `(source & 0x80) != 0`: the top bit of a byte. */
  function TopBitSet(b: byte): (r: bool)
    ensures r <==> b >= 0x80
  {
    Pow2Values();
    AndPow2(IntWidth, b, 7);
    TopBit(8, b);
    And(IntWidth, b, 0x80) != 0
  }

  /**
   * When TryReadBigEndian succeeds: the span is not empty, a signed read does not
   * start with a set top bit, and every byte before the last three is zero.
   */
  predicate ReadableBigEndian(source: seq<byte>, isUnsigned: bool)
  {
    |source| > 0
    && (isUnsigned || source[0] < 0x80)
    && forall k :: 0 <= k < |source| - 3 ==> source[k] == 0
  }

  /**
   * When TryReadLittleEndian succeeds: the span is not empty, a signed read does
   * not end with a set top bit, and every byte after the first three is zero.
   */
  predicate ReadableLittleEndian(source: seq<byte>, isUnsigned: bool)
  {
    |source| > 0
    && (isUnsigned || source[|source| - 1] < 0x80)
    && forall k :: 3 <= k < |source| ==> source[k] == 0
  }

  /** The value of bytes with only zeros beyond the low three is the value of the low three. */
  lemma {:induction false} LowThree(l: seq<byte>)
    requires |l| >= 3 && forall k :: 3 <= k < |l| ==> l[k] == 0
    ensures Endianness.LittleValue(l) == Endianness.LittleValue(l[..3])
  {
    Endianness.LittleValueSplit(l, 3);
    ZeroValue(l[3..]);
  }

  lemma {:induction false} ZeroValue(z: seq<byte>)
    requires forall k :: 0 <= k < |z| ==> z[k] == 0
    ensures Endianness.LittleValue(z) == 0
  {
    if |z| > 0 {
      ZeroValue(z[1..]);
    }
  }

  /** The loop both readers run over the bytes that do not fit: are they all zero? */
  method AllZero(source: seq<byte>, from: nat, to: nat) returns (zeros: bool)
    requires from <= to <= |source|
    ensures zeros <==> forall k :: from <= k < to ==> source[k] == 0
  {
    var i := from;
    while i < to
      invariant from <= i <= to
      invariant forall k :: from <= k < i ==> source[k] == 0
    {
      if source[i] != 0 {
        return false;
      }
      i := i + 1;
    }
    return true;
  }

  /**
   * The bytes TryReadBigEndian combines, least significant first: the last three
   * of a longer span, or all of a shorter one.
   */
  function BigEndianLow(source: seq<byte>): (last: seq<byte>)
    requires |source| > 0
    ensures |last| == if |source| < 3 then |source| else 3
    ensures forall k :: 0 <= k < |last| ==> last[k] == source[|source| - 1 - k]
  {
    var n := |source|;
    if n >= 3 then [source[n - 1], source[n - 2], source[n - 3]]
    else if n == 2 then [source[1], source[0]]
    else [source[0]]
  }

  /**
   * The bytes TryReadLittleEndian combines, least significant first: the first
   * three of a longer span, or all of a shorter one.
   */
  function LittleEndianLow(source: seq<byte>): (first: seq<byte>)
    requires |source| > 0
    ensures first == if |source| < 3 then source else source[..3]
  {
    var n := |source|;
    if n >= 3 then [source[0], source[1], source[2]]
    else if n == 2 then [source[0], source[1]]
    else [source[0]]
  }

  /**
   * TryReadBigEndian: reads the last (up to) three bytes most significant first,
   * after checking the sign bit and that the leading extra bytes are zero.
   */
  method TryReadBigEndian(source: seq<byte>, isUnsigned: bool) returns (read: bool, value: UInt24)
    ensures read == ReadableBigEndian(source, isUnsigned)
    ensures read ==> value == Endianness.Value(Endianness.Big, source)
    ensures !read ==> value == 0
  {
    if |source| == 0 {
      return false, 0;
    }
    if !isUnsigned && TopBitSet(source[0]) {
      return false, 0;
    }
    var n := |source|;
    if n >= 4 {
      var zeros := AllZero(source, 0, n - 3);
      if !zeros {
        return false, 0;
      }
    }
    var last := BigEndianLow(source);
    BigValueOfLast(source, last);
    value := Endianness.ShiftOrBytes(IntWidth, last);
    read := true;
  }

  lemma BigValueOfLast(source: seq<byte>, last: seq<byte>)
    requires |source| > 0 && forall k :: 0 <= k < |source| - 3 ==> source[k] == 0
    requires |last| == if |source| < 3 then |source| else 3
    requires forall k :: 0 <= k < |last| ==> last[k] == source[|source| - 1 - k]
    ensures Endianness.LittleValue(last) == Endianness.Value(Endianness.Big, source)
    ensures Endianness.LittleValue(last) <= MaxValue
    ensures 8 * |last| <= IntWidth
  {
    var l := Endianness.Reverse(source);
    Pow2Values();
    Endianness.LittleValueBound(last);
    Pow2Le(8 * |last|, 24);
    if |source| >= 3 {
      assert l[..3] == last;
      LowThree(l);
    } else {
      assert l == last;
    }
  }

  /**
   * TryReadLittleEndian: reads the first (up to) three bytes least significant
   * first, after checking the sign bit and that the trailing extra bytes are zero.
   */
  method TryReadLittleEndian(source: seq<byte>, isUnsigned: bool) returns (read: bool, value: UInt24)
    ensures read == ReadableLittleEndian(source, isUnsigned)
    ensures read ==> value == Endianness.Value(Endianness.Little, source)
    ensures !read ==> value == 0
  {
    if |source| == 0 {
      return false, 0;
    }
    if !isUnsigned && TopBitSet(source[|source| - 1]) {
      return false, 0;
    }
    var n := |source|;
    if n >= 4 {
      var zeros := AllZero(source, 3, n);
      if !zeros {
        return false, 0;
      }
    }
    var first := LittleEndianLow(source);
    LittleValueOfFirst(source, first);
    value := Endianness.ShiftOrBytes(IntWidth, first);
    read := true;
  }

  lemma LittleValueOfFirst(source: seq<byte>, first: seq<byte>)
    requires |source| > 0 && forall k :: 3 <= k < |source| ==> source[k] == 0
    requires first == if |source| < 3 then source else source[..3]
    ensures Endianness.LittleValue(first) == Endianness.Value(Endianness.Little, source)
    ensures Endianness.LittleValue(first) <= MaxValue
    ensures 8 * |first| <= IntWidth
  {
    Pow2Values();
    Endianness.LittleValueBound(first);
    Pow2Le(8 * |first|, 24);
    if |source| >= 3 {
      LowThree(source);
    }
  }

  /**
   * Reading back what TryWrite* wrote: an unsigned read always returns the value;
   * a signed read refuses the values from 0x800000 up, whose top byte has its top bit set.
   */
  lemma ReadWhatWasWritten(value: UInt24)
    ensures var big := Endianness.Encode(Endianness.UInt24, value, Endianness.Big);
      ReadableBigEndian(big, true) && Endianness.Value(Endianness.Big, big) == value
      && (ReadableBigEndian(big, false) <==> value < 0x80_0000)
    ensures var little := Endianness.Encode(Endianness.UInt24, value, Endianness.Little);
      ReadableLittleEndian(little, true) && Endianness.Value(Endianness.Little, little) == value
      && (ReadableLittleEndian(little, false) <==> value < 0x80_0000)
  {
    Pow2Values();
    EncodedBytes(value);
    Endianness.DecodeEncode(Endianness.UInt24, value, Endianness.Big);
    Endianness.DecodeEncode(Endianness.UInt24, value, Endianness.Little);
    DivMod(value, 0x1_0000, value / 0x1_0000, value % 0x1_0000);
    assert value / 0x1_0000 < 0x100;
    DivMod(value / 0x1_0000, 0x100, 0, value / 0x1_0000);
  }
}
