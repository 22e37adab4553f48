/** Bytes as the integers 0..255, and the exclusive or of their binary digits. */
module Bits {
  type Byte = x: int | 0 <= x < 256

  /** C's `^` on non-negative integers, from the lowest bit up. */
  function XorNat(a: nat, b: nat): nat
    decreases a
  {
    if a == 0 then b else 2 * XorNat(a / 2, b / 2) + (a + b) % 2
  }

  predicate PowerOfTwo(m: nat) {
    m == 1 || (m > 1 && m % 2 == 0 && PowerOfTwo(m / 2))
  }

  lemma {:induction false} XorBound(a: nat, b: nat, m: nat)
    requires a < m && b < m && PowerOfTwo(m)
    ensures XorNat(a, b) < m
    decreases a
  {
    if a > 0 {
      XorBound(a / 2, b / 2, m / 2);
    }
  }

  function BitXor(a: Byte, b: Byte): Byte {
    XorBound(a, b, 256);
    XorNat(a, b)
  }

  lemma {:induction false} XorNatZero(a: nat)
    ensures XorNat(a, 0) == a
    decreases a
  {
    if a > 0 {
      XorNatZero(a / 2);
    }
  }

  /** The lowest bit and the other bits of an exclusive or, for any first operand. */
  lemma XorNatSplit(a: nat, b: nat)
    ensures XorNat(a, b) % 2 == (a + b) % 2 && XorNat(a, b) / 2 == XorNat(a / 2, b / 2)
  {
    if a > 0 {
      TwoDigits(XorNat(a / 2, b / 2), (a + b) % 2);
    }
  }

  lemma TwoDigits(t: nat, r: nat)
    requires r < 2
    ensures (2 * t + r) / 2 == t && (2 * t + r) % 2 == r
  {}

  lemma {:induction false} XorNatComm(a: nat, b: nat)
    ensures XorNat(a, b) == XorNat(b, a)
    decreases a + b
  {
    if a > 0 && b > 0 {
      XorNatComm(a / 2, b / 2);
    } else {
      XorNatZero(a);
      XorNatZero(b);
    }
  }

  lemma {:induction false} XorNatAssoc(a: nat, b: nat, c: nat)
    ensures XorNat(XorNat(a, b), c) == XorNat(a, XorNat(b, c))
    decreases a
  {
    if a > 0 {
      var x, y := XorNat(a, b), XorNat(b, c);
      XorNatAssoc(a / 2, b / 2, c / 2);
      XorNatSplit(a, b);
      XorNatSplit(b, c);
      XorNatSplit(x, c);
      XorNatSplit(a, y);
      SameNumber(XorNat(x, c), XorNat(a, y), a, b, c, x, y);
    }
  }

  lemma SameNumber(p: nat, q: nat, a: nat, b: nat, c: nat, x: nat, y: nat)
    requires p / 2 == q / 2 && p % 2 == (x + c) % 2 && q % 2 == (a + y) % 2
    requires x % 2 == (a + b) % 2 && y % 2 == (b + c) % 2
    ensures p == q
  {}

  lemma {:induction false} XorNatSelf(a: nat)
    ensures XorNat(a, a) == 0
    decreases a
  {
    if a > 0 {
      XorNatSelf(a / 2);
    }
  }

  /** The laws of exclusive or that the check bytes rest on. */
  lemma XorLaws(a: Byte, b: Byte, c: Byte)
    ensures BitXor(a, b) == BitXor(b, a)
    ensures BitXor(BitXor(a, b), c) == BitXor(a, BitXor(b, c))
    ensures BitXor(a, a) == 0 && BitXor(a, 0) == a && BitXor(0, a) == a
  {
    XorNatComm(a, b);
    XorNatAssoc(a, b, c);
    XorNatSelf(a);
    XorNatZero(a);
  }

  /** Exclusive or with a fixed byte undoes itself, and so is injective. */
  lemma XorUndo(a: Byte, b: Byte)
    ensures BitXor(a, BitXor(a, b)) == b && BitXor(BitXor(b, a), a) == b
  {
    XorLaws(a, a, b);
    XorLaws(b, a, a);
    XorLaws(b, b, b);
  }

  lemma XorEqual(a: Byte, b: Byte)
    ensures BitXor(a, b) == 0 <==> a == b
  {
    XorLaws(a, b, b);
    XorLaws(b, a, a);
    XorUndo(a, b);
  }
}
