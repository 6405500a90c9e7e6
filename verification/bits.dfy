/**
 * Bit arithmetic on natural numbers: powers of two, and bitwise exclusive-or
 * defined one binary digit at a time, with the algebra the checksum needs.
 */
module Bits {

  function Pow2(e: nat): (p: nat)
    ensures p >= 1
  {
    if e == 0 then 1 else 2 * Pow2(e - 1)
  }

  lemma {:induction false} Pow2Monotone(i: nat, j: nat)
    requires i <= j
    ensures Pow2(i) <= Pow2(j)
    decreases j
  {
    if i < j {
      Pow2Monotone(i, j - 1);
    }
  }

  /**
   * Bitwise exclusive-or: the lowest binary digit of the result is the sum of
   * the operands' lowest digits modulo 2, and the higher digits are the
   * exclusive-or of the operands with their lowest digit dropped.
   */
  function Xor(a: nat, b: nat): nat
    decreases a + b
  {
    if a == 0 && b == 0 then 0 else 2 * Xor(a / 2, b / 2) + (a % 2 + b % 2) % 2
  }

  /** The lowest digit and the remaining digits of an exclusive-or. */
  lemma XorDigits(a: nat, b: nat)
    ensures Xor(a, b) % 2 == (a % 2 + b % 2) % 2
    ensures Xor(a, b) / 2 == Xor(a / 2, b / 2)
  {
  }

  /** Zero is the identity on both sides. */
  lemma {:induction false} XorZero(a: nat)
    ensures Xor(a, 0) == a && Xor(0, a) == a
    decreases a
  {
    if a > 0 {
      XorZero(a / 2);
    }
  }

  /** Every number is its own inverse. */
  lemma {:induction false} XorSelf(a: nat)
    ensures Xor(a, a) == 0
    decreases a
  {
    if a > 0 {
      XorSelf(a / 2);
    }
  }

  /** A number is fixed by its lowest binary digit and the digits above it. */
  lemma DigitsDetermine(x: nat, y: nat)
    requires x % 2 == y % 2 && x / 2 == y / 2
    ensures x == y
  {
  }

  /**
   * Associativity of the lowest digit: if `l` has the lowest digit of
   * (a xor b) xor c and `r` that of a xor (b xor c), the two agree.
   */
  lemma LowDigitAssoc(a: nat, b: nat, c: nat, ab: nat, bc: nat, l: nat, r: nat)
    requires ab % 2 == (a % 2 + b % 2) % 2 && bc % 2 == (b % 2 + c % 2) % 2
    requires l % 2 == (ab % 2 + c % 2) % 2 && r % 2 == (a % 2 + bc % 2) % 2
    ensures l % 2 == r % 2
  {
  }

  lemma {:induction false} XorAssoc(a: nat, b: nat, c: nat)
    ensures Xor(Xor(a, b), c) == Xor(a, Xor(b, c))
    decreases a + b + c
  {
    if a + b + c > 0 {
      var ab, bc := Xor(a, b), Xor(b, c);
      var l, r := Xor(ab, c), Xor(a, bc);
      XorAssoc(a / 2, b / 2, c / 2);
      XorDigits(a, b);
      XorDigits(b, c);
      XorDigits(ab, c);
      XorDigits(a, bc);
      LowDigitAssoc(a, b, c, ab, bc, l, r);
      DigitsDetermine(l, r);
    } else {
      assert a == 0 && b == 0 && c == 0;
    }
  }

  /** Exclusive-or with the same left operand is injective. */
  lemma XorCancelLeft(a: nat, b: nat, c: nat)
    requires Xor(a, b) == Xor(a, c)
    ensures b == c
  {
    XorAssoc(a, a, b);
    XorAssoc(a, a, c);
    XorSelf(a);
    XorZero(b);
    XorZero(c);
  }

  /** Exclusive-or with the same right operand is injective. */
  lemma XorCancelRight(a: nat, b: nat, c: nat)
    requires Xor(a, c) == Xor(b, c)
    ensures a == b
  {
    XorAssoc(a, c, c);
    XorAssoc(b, c, c);
    XorSelf(c);
    XorZero(a);
    XorZero(b);
  }

  /** Operands below 2^k have an exclusive-or below 2^k. */
  lemma {:induction false} XorBelow(a: nat, b: nat, k: nat)
    requires a < Pow2(k) && b < Pow2(k)
    ensures Xor(a, b) < Pow2(k)
    decreases k
  {
    if k > 0 {
      XorBelow(a / 2, b / 2, k - 1);
      XorDigits(a, b);
    }
  }
}
