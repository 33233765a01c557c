/**
 * The CPU flag formulas shared by ByteExtensions.cs, UShortExtensions.cs,
 * UInt16Extensions.cs and WordExtensions.cs, for an n-bit result of an addition
 * or a subtraction, and what each formula means arithmetically:
 *  - the half carry (or half borrow) at bit k is bit k of `left ^ right ^ result`;
 *  - signed overflow of a sum is the sign bit of `(sum ^ left) & (sum ^ right)`;
 *  - signed overflow of a difference is the sign bit of
 *    `(left ^ right) & (difference ^ left)`.
 */
module CarryFlags {
  import opened Bits

  /** `((left ^ right ^ result) & (1 << k)) != 0` in n-bit arithmetic. */
  predicate HalfCarry(n: nat, k: nat, result: nat, left: nat, right: nat)
  {
    And(n, Xor(n, Xor(n, left, right), result), Pow2(k)) != 0
  }

  /** `((sum ^ left) & (sum ^ right) & signBit) != 0` in n-bit arithmetic. */
  predicate AdditionOverflow(n: nat, sum: nat, left: nat, right: nat)
    requires n >= 1
  {
    And(n, And(n, Xor(n, sum, left), Xor(n, sum, right)), Pow2(n - 1)) != 0
  }

  /** `((left ^ right) & (difference ^ left) & signBit) != 0` in n-bit arithmetic. */
  predicate SubtractionOverflow(n: nat, difference: nat, left: nat, right: nat)
    requires n >= 1
  {
    And(n, And(n, Xor(n, left, right), Xor(n, difference, left)), Pow2(n - 1)) != 0
  }

  /** Whether x lies in the range of an n-bit signed integer. */
  predicate SignedFits(n: nat, x: int)
    requires n >= 1
  {
    -(Pow2(n - 1) as int) <= x < Pow2(n - 1)
  }

  /** Bit k of a sum: the two bits plus the carry out of the bits below k. */
  lemma CarryBit(l: nat, r: nat, k: nat)
    ensures Bit(l + r, k) == ((Bit(l, k) != Bit(r, k)) != (l % Pow2(k) + r % Pow2(k) >= Pow2(k)))
  {
    var p := Pow2(k);
    var c := if l % p + r % p >= p then 1 else 0;
    SumQuotient(l, r, p);
    BitDiv(l, k);
    BitDiv(r, k);
    BitDiv(l + r, k);
    Parity(l / p, r / p, c);
  }

  /** Bit k of a difference: the two bits and the borrow out of the bits below k. */
  lemma BorrowBit(l: nat, r: nat, k: nat)
    requires r <= l
    ensures Bit(l - r, k) == ((Bit(l, k) != Bit(r, k)) != (l % Pow2(k) < r % Pow2(k)))
  {
    var p := Pow2(k);
    var c := if l % p < r % p then 1 else 0;
    DifferenceQuotient(l, r, p);
    BitDiv(l, k);
    BitDiv(r, k);
    BitDiv(l - r, k);
    Parity(l / p, r / p, c);
  }

  lemma SumQuotient(l: nat, r: nat, p: nat)
    requires p > 0
    ensures (l + r) / p == l / p + r / p + (if l % p + r % p >= p then 1 else 0)
  {
    var ql, a, qr, b := l / p, l % p, r / p, r % p;
    var c := if a + b >= p then 1 else 0;
    assert l + r == p * (ql + qr + c) + (a + b - c * p);
    DivMod(l + r, p, ql + qr + c, a + b - c * p);
  }

  lemma DifferenceQuotient(l: nat, r: nat, p: nat)
    requires p > 0 && r <= l
    ensures (l - r) / p == l / p - r / p - (if l % p < r % p then 1 else 0)
  {
    var ql, a, qr, b := l / p, l % p, r / p, r % p;
    var c := if a < b then 1 else 0;
    assert l - r == p * (ql - qr - c) + (a - b + c * p);
    DivMod(l - r, p, ql - qr - c, a - b + c * p);
  }

  lemma Parity(x: int, y: int, c: int)
    requires 0 <= c <= 1
    ensures ((x + y + c) % 2 == 1) == (((x % 2 == 1) != (y % 2 == 1)) != (c == 1))
    ensures ((x - y - c) % 2 == 1) == (((x % 2 == 1) != (y % 2 == 1)) != (c == 1))
  {
    var a, b := x % 2, y % 2;
    var qx, qy := x / 2, y / 2;
    assert x == 2 * qx + a && y == 2 * qy + b;
    var s := a + b + c;
    DivMod(x + y + c, 2, qx + qy + s / 2, s % 2);
    var d := a - b - c + 2 * 2;
    DivMod(x - y - c, 2, qx - qy - 2 + d / 2, d % 2);
  }

  /** Bits below n, and the low k bits for k <= n, ignore a multiple of 2^n. */
  lemma AddModulus(n: nat, l: nat, k: nat)
    requires l < Pow2(n) && k <= n
    ensures forall i :: 0 <= i < n ==> Bit(l + Pow2(n), i) == Bit(l, i)
    ensures (l + Pow2(n)) % Pow2(k) == l % Pow2(k)
  {
    forall i | 0 <= i < n
      ensures Bit(l + Pow2(n), i) == Bit(l, i)
    {
      BitAddMul(l, 1, n, i);
    }
    LowBitsOfModulus(n, l, k);
  }

  lemma LowBitsOfModulus(n: nat, l: nat, k: nat)
    requires k <= n
    ensures (l + Pow2(n)) % Pow2(k) == l % Pow2(k)
  {
    Pow2Add(k, n - k);
    AddMultiple(l, Pow2(k), Pow2(n - k), Pow2(n));
  }

  lemma AddMultiple(x: nat, p: nat, m: nat, pm: nat)
    requires p > 0 && pm == p * m
    ensures (x + pm) % p == x % p
  {
    var q, r := x / p, x % p;
    assert p * (q + m) == p * q + p * m;
    DivMod(x + pm, p, q + m, r);
  }

  /** The n-bit wrapped difference has the bits of l + 2^n - r below n. */
  lemma DifferenceBits(n: nat, l: nat, r: nat, i: nat)
    requires l < Pow2(n) && r < Pow2(n) && i < n
    ensures Bit((l - r) % Pow2(n), i) == Bit(l + Pow2(n) - r, i)
  {
    var d := l + Pow2(n) - r;
    if l >= r {
      DivMod(l - r, Pow2(n), 0, l - r);
      DivMod(d, Pow2(n), 1, l - r);
    } else {
      DivMod(l - r, Pow2(n), -1, d);
      DivMod(d, Pow2(n), 0, d);
    }
    BitModPow2(d, n, i);
  }

  /** For the wrapped sum, the half-carry formula is the carry out of the low k bits. */
  lemma HalfCarryOfSum(n: nat, k: nat, l: nat, r: nat)
    requires k < n && l < Pow2(n) && r < Pow2(n)
    ensures HalfCarry(n, k, (l + r) % Pow2(n), l, r) <==> l % Pow2(k) + r % Pow2(k) >= Pow2(k)
  {
    var s := (l + r) % Pow2(n);
    var x := Xor(n, l, r);
    AndPow2(n, Xor(n, x, s), k);
    BitXor(n, x, s, k);
    BitXor(n, l, r, k);
    BitModPow2(l + r, n, k);
    CarryBit(l, r, k);
  }

  /** For the wrapped difference, the same formula is the borrow out of the low k bits. */
  lemma HalfBorrowOfDifference(n: nat, k: nat, l: nat, r: nat)
    requires k < n && l < Pow2(n) && r < Pow2(n)
    ensures HalfCarry(n, k, (l - r) % Pow2(n), l, r) <==> l % Pow2(k) < r % Pow2(k)
  {
    var d := (l - r) % Pow2(n);
    var x := Xor(n, l, r);
    AndPow2(n, Xor(n, x, d), k);
    BitXor(n, x, d, k);
    BitXor(n, l, r, k);
    DifferenceBits(n, l, r, k);
    AddModulus(n, l, k);
    BorrowBit(l + Pow2(n), r, k);
  }

  /** The top bit of an n-bit value, and the value below it. */
  lemma SplitTop(n: nat, x: nat)
    requires 1 <= n && x < Pow2(n)
    ensures Pow2(n) == 2 * Pow2(n - 1)
    ensures Bit(x, n - 1) == (x >= Pow2(n - 1))
    ensures x % Pow2(n - 1) == if x >= Pow2(n - 1) then x - Pow2(n - 1) else x
  {
    TopBit(n, x);
    if x >= Pow2(n - 1) {
      DivMod(x, Pow2(n - 1), 1, x - Pow2(n - 1));
    } else {
      DivMod(x, Pow2(n - 1), 0, x);
    }
  }

  /** The addition overflow formula holds exactly when the signed sum does not fit. */
  lemma OverflowOfSum(n: nat, l: nat, r: nat)
    requires 1 <= n && l < Pow2(n) && r < Pow2(n)
    ensures AdditionOverflow(n, (l + r) % Pow2(n), l, r) <==> !SignedFits(n, ToSigned(n, l) + ToSigned(n, r))
  {
    var t := n - 1;
    SumOverflowBits(n, l, r);
    CarryBit(l, r, t);
    SplitTop(n, l);
    SplitTop(n, r);
  }

  /** The formula compares the sign bit of the sum with the sign bits of the operands. */
  lemma SumOverflowBits(n: nat, l: nat, r: nat)
    requires 1 <= n
    ensures AdditionOverflow(n, (l + r) % Pow2(n), l, r) <==> Bit(l + r, n - 1) != Bit(l, n - 1) && Bit(l + r, n - 1) != Bit(r, n - 1)
  {
    var s := (l + r) % Pow2(n);
    var t := n - 1;
    var a := And(n, Xor(n, s, l), Xor(n, s, r));
    AndPow2(n, a, t);
    BitAnd(n, Xor(n, s, l), Xor(n, s, r), t);
    BitXor(n, s, l, t);
    BitXor(n, s, r, t);
    BitModPow2(l + r, n, t);
  }

  /** The subtraction overflow formula holds exactly when the signed difference does not fit. */
  lemma OverflowOfDifference(n: nat, l: nat, r: nat)
    requires 1 <= n && l < Pow2(n) && r < Pow2(n)
    ensures SubtractionOverflow(n, (l - r) % Pow2(n), l, r) <==> !SignedFits(n, ToSigned(n, l) - ToSigned(n, r))
  {
    var t := n - 1;
    DifferenceOverflowBits(n, l, r);
    AddModulus(n, l, t);
    BorrowBit(l + Pow2(n), r, t);
    SplitTop(n, l);
    SplitTop(n, r);
  }

  /** The formula compares the sign bits of the operands and of the difference. */
  lemma DifferenceOverflowBits(n: nat, l: nat, r: nat)
    requires 1 <= n && l < Pow2(n) && r < Pow2(n)
    ensures SubtractionOverflow(n, (l - r) % Pow2(n), l, r) <==> Bit(l, n - 1) != Bit(r, n - 1) && Bit(l + Pow2(n) - r, n - 1) != Bit(l, n - 1)
  {
    var d := (l - r) % Pow2(n);
    var t := n - 1;
    var a := And(n, Xor(n, l, r), Xor(n, d, l));
    AndPow2(n, a, t);
    BitAnd(n, Xor(n, l, r), Xor(n, d, l), t);
    BitXor(n, l, r, t);
    BitXor(n, d, l, t);
    DifferenceBits(n, l, r, t);
  }
}
