/**
 The bit operations of Python's unbounded integers, as far as the CRC code uses
 them: `^`, `&`, `<<`, `>>` and masking with `(1 << n) - 1`.  Everything is
 defined one bit at a time, so that every law is a short induction over the
 bits and no multiplication of two variables is ever needed.

 A natural number doubles as a polynomial over GF(2): bit i is the coefficient
 of x^i, `Xor` is addition, and `Shl` is multiplication by a power of x.
 */
module Bits {

  /** `a ^ b` */
  function Xor(a: nat, b: nat): nat
    decreases a + b
  {
    if a == 0 && b == 0 then 0
    else 2 * Xor(a / 2, b / 2) + if a % 2 == b % 2 then 0 else 1
  }

  /** `a & b` */
  function And(a: nat, b: nat): nat
    decreases a + b
  {
    if a == 0 || b == 0 then 0
    else 2 * And(a / 2, b / 2) + if a % 2 == 1 && b % 2 == 1 then 1 else 0
  }

  /** `x << k` */
  function Shl(x: nat, k: nat): nat {
    if k == 0 then x else 2 * Shl(x, k - 1)
  }

  /** `x >> k` */
  function Shr(x: nat, k: nat): nat {
    if k == 0 then x else Shr(x, k - 1) / 2
  }

  /** `1 << k` */
  function Pow2(k: nat): (p: nat)
    ensures p > 0
  {
    if k == 0 then 1 else 2 * Pow2(k - 1)
  }

  /** `x & ((1 << k) - 1)`, for every integer x, negative ones included. */
  function Low(x: int, k: nat): nat
    decreases k
  {
    if k == 0 then 0 else 2 * Low(x / 2, k - 1) + x % 2
  }

  lemma {:induction false} Pow2Product(j: nat, k: nat)
    ensures Pow2(j + k) == Pow2(j) * Pow2(k)
  {
    if k > 0 { Pow2Product(j, k - 1); }
  }

  lemma Pow2Values()
    ensures Pow2(8) == 0x100 && Pow2(16) == 0x10000
    ensures Pow2(64) == 0x1_0000_0000_0000_0000
  {
    assert Pow2(2) == 4;
    assert Pow2(4) == 0x10;
    assert Pow2(6) == 0x40;
    assert Pow2(8) == 0x100;
    Pow2Product(8, 8);
    Pow2Product(16, 16);
    Pow2Product(32, 32);
  }

  // ---------------------------------------------------------------- addition

  lemma {:induction false} XorZero(a: nat)
    ensures Xor(a, 0) == a && Xor(0, a) == a
  {
    if a > 0 { XorZero(a / 2); }
  }

  lemma {:induction false} XorSelf(a: nat)
    ensures Xor(a, a) == 0
  {
    if a > 0 { XorSelf(a / 2); }
  }

  lemma {:induction false} XorComm(a: nat, b: nat)
    ensures Xor(a, b) == Xor(b, a)
    decreases a + b
  {
    if a > 0 || b > 0 { XorComm(a / 2, b / 2); }
  }

  lemma XorHalf(a: nat, b: nat)
    ensures Xor(a, b) / 2 == Xor(a / 2, b / 2)
    ensures Xor(a, b) % 2 == if a % 2 == b % 2 then 0 else 1
  {}

  lemma {:induction false} XorAssoc(a: nat, b: nat, c: nat)
    ensures Xor(Xor(a, b), c) == Xor(a, Xor(b, c))
    decreases a + b + c
  {
    if a > 0 || b > 0 || c > 0 {
      var x, y := Xor(a, b), Xor(b, c);
      XorAssoc(a / 2, b / 2, c / 2);
      XorHalf(a, b);
      XorHalf(b, c);
      XorHalf(x, c);
      XorHalf(a, y);
    }
  }

  /** The exchange law on which every linearity proof rests. */
  lemma XorExchange(a: nat, b: nat, c: nat, d: nat)
    ensures Xor(Xor(a, b), Xor(c, d)) == Xor(Xor(a, c), Xor(b, d))
  {
    XorAssoc(a, b, Xor(c, d));
    XorAssoc(b, c, d);
    XorComm(b, c);
    XorAssoc(c, b, d);
    XorAssoc(a, c, Xor(b, d));
  }

  lemma XorCancel(a: nat, b: nat)
    ensures Xor(a, Xor(a, b)) == b && Xor(Xor(b, a), a) == b
  {
    XorAssoc(a, a, b);
    XorAssoc(b, a, a);
    XorSelf(a);
    XorZero(b);
  }

  /** Equal values are exactly those whose sum vanishes. */
  lemma XorZeroIffEqual(a: nat, b: nat)
    ensures Xor(a, b) == 0 <==> a == b
  {
    XorSelf(a);
    XorCancel(a, b);
    XorZero(a);
  }

  /** A term common to both sides drops out of a sum. */
  lemma XorCommonTerm(a: nat, b: nat, c: nat)
    ensures Xor(Xor(a, c), Xor(b, c)) == Xor(a, b)
    ensures Xor(Xor(c, a), Xor(c, b)) == Xor(a, b)
  {
    XorExchange(a, c, b, c);
    XorExchange(c, a, c, b);
    XorSelf(c);
    XorZero(Xor(a, b));
  }

  // ------------------------------------------------------------------ shifts

  lemma XorStep(a: nat, b: nat, p: nat, q: nat)
    requires p < 2 && q < 2
    ensures Xor(2 * a + p, 2 * b + q) == 2 * Xor(a, b) + if p == q then 0 else 1
  {
    var x, y := 2 * a + p, 2 * b + q;
    assert x / 2 == a && y / 2 == b && x % 2 == p && y % 2 == q;
    XorHalf(x, y);
  }

  lemma XorDouble(a: nat, b: nat)
    ensures Xor(2 * a, 2 * b) == 2 * Xor(a, b)
  {
    XorStep(a, b, 0, 0);
  }

  lemma {:induction false} XorShl(a: nat, b: nat, k: nat)
    ensures Xor(Shl(a, k), Shl(b, k)) == Shl(Xor(a, b), k)
  {
    if k > 0 {
      XorShl(a, b, k - 1);
      XorDouble(Shl(a, k - 1), Shl(b, k - 1));
    }
  }

  lemma {:induction false} XorShr(a: nat, b: nat, k: nat)
    ensures Shr(Xor(a, b), k) == Xor(Shr(a, k), Shr(b, k))
  {
    if k > 0 {
      XorShr(a, b, k - 1);
      XorHalf(Shr(a, k - 1), Shr(b, k - 1));
    }
  }

  lemma {:induction false} ShlAdd(x: nat, j: nat, k: nat)
    ensures Shl(Shl(x, j), k) == Shl(x, j + k)
  {
    if k > 0 { ShlAdd(x, j, k - 1); }
  }

  lemma {:induction false} ShlOfZero(k: nat)
    ensures Shl(0, k) == 0
  {
    if k > 0 { ShlOfZero(k - 1); }
  }

  lemma {:induction false} ShrZero(k: nat)
    ensures Shr(0, k) == 0
  {
    if k > 0 { ShrZero(k - 1); }
  }

  lemma {:induction false} Pow2Mono(j: nat, k: nat)
    requires j <= k
    ensures Pow2(j) <= Pow2(k)
    decreases k
  {
    if j < k { Pow2Mono(j, k - 1); }
  }

  lemma {:induction false} ShlOne(k: nat)
    ensures Shl(1, k) == Pow2(k)
  {
    if k > 0 { ShlOne(k - 1); }
  }

  /** A shift of a double is the double of the shift. */
  lemma {:induction false} ShlDouble(x: nat, k: nat)
    ensures Shl(2 * x, k) == 2 * Shl(x, k) == Shl(x, k + 1)
  {
    if k > 0 { ShlDouble(x, k - 1); }
  }

  lemma {:induction false} ShrHalf(x: nat, k: nat)
    ensures Shr(x / 2, k) == Shr(x, k + 1)
  {
    if k > 0 { ShrHalf(x, k - 1); }
  }

  lemma {:induction false} ShrSmaller(x: nat, k: nat)
    requires x > 0 && k > 0
    ensures Shr(x, k) < x
  {
    if k > 1 { ShrSmaller(x, k - 1); }
  }

  lemma {:induction false} ShlBound(x: nat, j: nat, k: nat)
    ensures x < Pow2(j) <==> Shl(x, k) < Pow2(j + k)
  {
    if k > 0 { ShlBound(x, j, k - 1); }
  }

  /** Below a shift no bit is shared, so there `^` and `+` agree. */
  lemma {:induction false} XorDisjoint(hi: nat, lo: nat, k: nat)
    requires lo < Pow2(k)
    ensures Xor(Shl(hi, k), lo) == Shl(hi, k) + lo
  {
    if k == 0 {
      XorZero(hi);
    } else {
      XorDisjoint(hi, lo / 2, k - 1);
      XorStep(Shl(hi, k - 1), lo / 2, 0, lo % 2);
    }
  }

  /** The two parts of a number at bit k are unique. */
  lemma {:induction false} Join(hi: nat, lo: nat, k: nat)
    requires lo < Pow2(k)
    ensures Shr(Shl(hi, k) + lo, k) == hi
    ensures Low(Shl(hi, k) + lo, k) == lo
  {
    if k > 0 {
      Join(hi, lo / 2, k - 1);
      var x := Shl(hi, k) + lo;
      assert x / 2 == Shl(hi, k - 1) + lo / 2 && x % 2 == lo % 2;
      ShrHalf(x, k - 1);
    }
  }

  /** `x >> k` and the k low bits make up x. */
  lemma {:induction false} SplitSum(x: nat, k: nat)
    ensures Low(x, k) < Pow2(k)
    ensures x == Shl(Shr(x, k), k) + Low(x, k)
  {
    if k > 0 {
      SplitSum(x / 2, k - 1);
      ShrHalf(x, k - 1);
    }
  }

  lemma Split(x: nat, k: nat)
    ensures Low(x, k) < Pow2(k)
    ensures x == Shl(Shr(x, k), k) + Low(x, k) == Xor(Shl(Shr(x, k), k), Low(x, k))
  {
    SplitSum(x, k);
    XorDisjoint(Shr(x, k), Low(x, k), k);
  }

  lemma {:induction false} ShrBound(x: nat, j: nat, k: nat)
    requires x < Pow2(j + k)
    ensures Shr(x, k) < Pow2(j)
  {
    Split(x, k);
    ShlBound(Shr(x, k), j, k);
  }

  // ------------------------------------------------------------------- masks

  lemma {:induction false} LowBound(x: int, k: nat)
    ensures Low(x, k) < Pow2(k)
    decreases k
  {
    if k > 0 { LowBound(x / 2, k - 1); }
  }

  lemma {:induction false} LowSmall(x: nat, k: nat)
    ensures Low(x, k) == x <==> x < Pow2(k)
  {
    LowBound(x, k);
    if k > 0 { LowSmall(x / 2, k - 1); }
  }

  lemma {:induction false} LowXor(a: nat, b: nat, k: nat)
    ensures Low(Xor(a, b), k) == Xor(Low(a, k), Low(b, k))
  {
    if k > 0 {
      LowXor(a / 2, b / 2, k - 1);
      XorHalf(a, b);
      XorStep(Low(a / 2, k - 1), Low(b / 2, k - 1), a % 2, b % 2);
    }
  }

  /** `a ^ b` where b may be negative, in two's complement. */
  function XorInt(a: nat, b: int): int {
    if b >= 0 then Xor(a, b) else -1 - Xor(a, -1 - b)
  }

  lemma XorIntHalf(a: nat, b: int)
    ensures XorInt(a, b) / 2 == XorInt(a / 2, b / 2)
    ensures XorInt(a, b) % 2 == if a % 2 == b % 2 then 0 else 1
  {
    if b >= 0 {
      XorHalf(a, b);
    } else {
      var y := -1 - b;
      XorHalf(a, y);
      assert (-1 - y) / 2 == -1 - y / 2 && (-1 - y) % 2 == 1 - y % 2;
    }
  }

  /** The low bits of a sum are the sum of the low bits, whatever the sign. */
  lemma {:induction false} LowXorInt(a: nat, b: int, k: nat)
    ensures Low(XorInt(a, b), k) == Xor(Low(a, k), Low(b, k))
    decreases k
  {
    if k > 0 {
      LowXorInt(a / 2, b / 2, k - 1);
      XorIntHalf(a, b);
      XorStep(Low(a / 2, k - 1), Low(b / 2, k - 1), a % 2, b % 2);
    }
  }

  lemma {:induction false} XorBound(a: nat, b: nat, k: nat)
    requires a < Pow2(k) && b < Pow2(k)
    ensures Xor(a, b) < Pow2(k)
  {
    LowXor(a, b, k);
    LowSmall(a, k);
    LowSmall(b, k);
    LowSmall(Xor(a, b), k);
  }

  /** Adding a smaller polynomial keeps the leading term. */
  lemma XorTop(a: nat, b: nat, k: nat)
    requires Pow2(k) <= a < Pow2(k + 1) && b < Pow2(k)
    ensures Pow2(k) <= Xor(a, b) < Pow2(k + 1)
  {
    XorBound(a, b, k + 1);
    if Xor(a, b) < Pow2(k) {
      XorBound(Xor(a, b), b, k);
      XorCancel(b, a);
      assert false;
    }
  }

  /** Adding two polynomials of the same degree cancels the leading term. */
  lemma {:induction false} XorTopCancels(a: nat, b: nat, k: nat)
    requires Pow2(k) <= a < Pow2(k + 1) && Pow2(k) <= b < Pow2(k + 1)
    ensures Xor(a, b) < Pow2(k)
  {
    if k > 0 { XorTopCancels(a / 2, b / 2, k - 1); }
  }

  /** The mask `(1 << k) - 1` selects the k low bits. */
  lemma {:induction false} AndMask(x: nat, k: nat)
    ensures And(x, Pow2(k) - 1) == Low(x, k)
  {
    if k > 0 {
      AndMask(x / 2, k - 1);
      assert (Pow2(k) - 1) / 2 == Pow2(k - 1) - 1;
      LowBound(x, k);
      if x == 0 { LowSmall(0, k); }
    }
  }

  lemma {:induction false} AndShl(a: nat, b: nat, k: nat)
    ensures And(Shl(a, k), Shl(b, k)) == Shl(And(a, b), k)
  {
    if k > 0 {
      AndShl(a, b, k - 1);
    }
  }

  lemma {:induction false} AndComm(a: nat, b: nat)
    ensures And(a, b) == And(b, a)
    decreases a + b
  {
    if a > 0 && b > 0 { AndComm(a / 2, b / 2); }
  }

  /** `x & (1 << k)` is non-zero exactly when bit k of x is set. */
  lemma {:induction false} AndBit(x: nat, k: nat)
    ensures And(x, Pow2(k)) != 0 <==> Shr(x, k) % 2 == 1
  {
    if k == 0 {
      assert And(x / 2, 0) == 0;
    } else {
      AndBit(x / 2, k - 1);
      ShrHalf(x, k - 1);
    }
  }

  /** For a number of k + 1 bits, bit k is the comparison with `1 << k`. */
  lemma {:induction false} TopBit(x: nat, k: nat)
    requires x < Pow2(k + 1)
    ensures Shr(x, k) == if x >= Pow2(k) then 1 else 0
  {
    if k > 0 {
      TopBit(x / 2, k - 1);
      ShrHalf(x, k - 1);
    }
  }

  /** The test `(1 << k) & x` on a number of k + 1 bits. */
  lemma TopBitTest(x: nat, k: nat)
    requires x < Pow2(k + 1)
    ensures And(Pow2(k), x) != 0 <==> x >= Pow2(k)
    ensures And(x, Pow2(k)) != 0 <==> x >= Pow2(k)
  {
    AndComm(Pow2(k), x);
    AndBit(x, k);
    TopBit(x, k);
  }

  // ------------------------------------------------------- negative integers

  function Abs(x: int): nat {
    if x < 0 then -x else x
  }

  /** `a | b`, in two's complement: all bits far up agree with the sign. */
  function Or(a: int, b: int): int
    decreases Abs(a) + Abs(b)
  {
    if -1 <= a <= 0 && -1 <= b <= 0 then (if a == 0 && b == 0 then 0 else -1)
    else 2 * Or(a / 2, b / 2) + if a % 2 == 1 || b % 2 == 1 then 1 else 0
  }

  /** `x << k` for every integer x. */
  function ShlInt(x: int, k: nat): int {
    if x >= 0 then Shl(x, k) else 0 - Shl(-x, k)
  }

  /** `x >> k` for every integer x, rounding down. */
  function ShrInt(x: int, k: nat): int {
    if x >= 0 then Shr(x, k) else -1 - Shr(-1 - x, k)
  }

  lemma OrHalf(a: int, b: int)
    ensures Or(a, b) == 2 * Or(a / 2, b / 2) + if a % 2 == 1 || b % 2 == 1 then 1 else 0
  {}

  lemma {:induction false} OrZero(a: int)
    ensures Or(a, 0) == a
    decreases Abs(a)
  {
    if a < -1 || a > 0 { OrZero(a / 2); }
  }

  lemma {:induction false} OrAllOnes(a: int)
    ensures Or(a, -1) == -1
    decreases Abs(a)
  {
    if a < -1 || a > 0 { OrAllOnes(a / 2); }
  }

  lemma ShlIntNext(x: int, k: nat)
    ensures ShlInt(x, k + 1) == 2 * ShlInt(x, k)
  {}

  lemma ShrIntHalf(x: int, k: nat)
    ensures ShrInt(x / 2, k) == ShrInt(x, k + 1)
  {
    if x >= 0 {
      ShrHalf(x, k);
    } else {
      ShrHalf(-1 - x, k);
      assert -1 - x / 2 == (-1 - x) / 2;
    }
  }

  lemma OrDouble(a: int, b: int)
    ensures Or(2 * a, 2 * b) == 2 * Or(a, b)
  {
    var x, y := 2 * a, 2 * b;
    assert x / 2 == a && y / 2 == b && x % 2 == 0 && y % 2 == 0;
    OrHalf(x, y);
  }

  lemma {:induction false} OrShl(a: int, b: int, k: nat)
    ensures Or(ShlInt(a, k), ShlInt(b, k)) == ShlInt(Or(a, b), k)
  {
    if k > 0 {
      OrShl(a, b, k - 1);
      ShlIntNext(a, k - 1);
      ShlIntNext(b, k - 1);
      ShlIntNext(Or(a, b), k - 1);
      OrDouble(ShlInt(a, k - 1), ShlInt(b, k - 1));
    }
  }

  /** Below a shift no bit is shared, so there `|` and `+` agree. */
  lemma {:induction false} OrDisjoint(hi: int, lo: nat, k: nat)
    requires lo < Pow2(k)
    ensures Or(ShlInt(hi, k), lo) == ShlInt(hi, k) + lo
  {
    if k == 0 {
      OrZero(hi);
    } else {
      OrDisjoint(hi, lo / 2, k - 1);
      ShlIntNext(hi, k - 1);
      OrHalf(ShlInt(hi, k), lo);
    }
  }

  /** The two parts of an integer at bit k are unique. */
  lemma {:induction false} JoinInt(hi: int, lo: nat, k: nat)
    requires lo < Pow2(k)
    ensures ShrInt(ShlInt(hi, k) + lo, k) == hi
    ensures Low(ShlInt(hi, k) + lo, k) == lo
  {
    if k > 0 {
      JoinInt(hi, lo / 2, k - 1);
      ShlIntNext(hi, k - 1);
      var x := ShlInt(hi, k) + lo;
      assert x / 2 == ShlInt(hi, k - 1) + lo / 2 && x % 2 == lo % 2;
      ShrIntHalf(x, k - 1);
    }
  }

  lemma {:induction false} SplitInt(x: int, k: nat)
    ensures Low(x, k) < Pow2(k)
    ensures x == ShlInt(ShrInt(x, k), k) + Low(x, k)
    decreases k
  {
    if k > 0 {
      SplitInt(x / 2, k - 1);
      ShrIntHalf(x, k - 1);
      ShlIntNext(ShrInt(x, k), k - 1);
    }
  }

  lemma {:induction false} ShlIntMono(a: int, b: int, k: nat)
    requires a < b
    ensures ShlInt(a, k) + Pow2(k) <= ShlInt(b, k)
  {
    if k > 0 {
      ShlIntMono(a, b, k - 1);
      ShlIntNext(a, k - 1);
      ShlIntNext(b, k - 1);
    }
  }
}
