/**
 Polynomials over GF(2) as the reference implementation in crcmod/test.py
 computes with them: multiplication, degree and long division by the loops of
 the source, proved against the algebra they stand for.
 */
module Polynomial {
  import opened Basics
  import opened Bits

  /** The product, one coefficient of b at a time. */
  function Mul(a: nat, b: nat): nat {
    if b == 0 then 0 else Xor(if b % 2 == 1 then a else 0, 2 * Mul(a, b / 2))
  }

  /** The degree, with -1 for the zero polynomial. */
  function Deg(a: nat): (d: int)
    ensures d >= -1 && (d >= 0 <==> a > 0)
  {
    if a == 0 then -1 else 1 + Deg(a / 2)
  }

  /** u = q * v + r with a remainder of smaller degree than v. */
  predicate DivRem(u: nat, v: nat, q: nat, r: nat) {
    u == Xor(Mul(q, v), r) && Deg(r) < Deg(v)
  }

  // ---------------------------------------------------- multiplication laws

  lemma {:induction false} MulDouble(a: nat, b: nat)
    ensures Mul(2 * a, b) == 2 * Mul(a, b)
  {
    if b > 0 {
      MulDouble(a, b / 2);
      XorDouble(if b % 2 == 1 then a else 0, 2 * Mul(a, b / 2));
    }
  }

  lemma MulDoubleRight(a: nat, b: nat)
    ensures Mul(a, 2 * b) == 2 * Mul(a, b)
  {
    XorZero(2 * Mul(a, b));
  }

  lemma {:induction false} MulUnit(a: nat)
    ensures Mul(a, 1) == a == Mul(1, a) && Mul(0, a) == 0
  {
    XorZero(a);
    if a > 0 {
      MulUnit(a / 2);
      XorStep(0, a / 2, a % 2, 0);
      XorZero(a / 2);
      XorZero(0);
    }
  }

  /** Multiplication distributes over addition on the left. */
  lemma {:induction false} MulXorLeft(a: nat, c: nat, b: nat)
    ensures Mul(Xor(a, c), b) == Xor(Mul(a, b), Mul(c, b))
  {
    if b == 0 {
      XorZero(0);
    } else {
      MulXorLeft(a, c, b / 2);
      XorDouble(Mul(a, b / 2), Mul(c, b / 2));
      XorZero(0);
      var p, q := if b % 2 == 1 then a else 0, if b % 2 == 1 then c else 0;
      XorExchange(p, 2 * Mul(a, b / 2), q, 2 * Mul(c, b / 2));
    }
  }

  lemma {:induction false} MulComm(a: nat, b: nat)
    ensures Mul(a, b) == Mul(b, a)
  {
    MulUnit(b);
    if a > 0 {
      var h, p := a / 2, a % 2;
      MulComm(h, b);
      MulDouble(h, b);
      XorStep(0, h, p, 0);
      XorZero(h);
      assert a == Xor(p, 2 * h);
      MulXorLeft(p, 2 * h, b);
    }
  }

  lemma {:induction false} MulShl(a: nat, b: nat, k: nat)
    ensures Mul(a, Shl(b, k)) == Shl(Mul(a, b), k)
  {
    if k > 0 {
      MulShl(a, b, k - 1);
      MulDoubleRight(a, Shl(b, k - 1));
    }
  }

  lemma MulPow2(a: nat, k: nat)
    ensures Mul(a, Pow2(k)) == Shl(a, k)
  {
    ShlOne(k);
    MulShl(a, 1, k);
    MulUnit(a);
  }

  // ------------------------------------------------------------------ degree

  /** The degree is the position of the leading one. */
  lemma {:induction false} DegIffLeading(a: nat, n: nat)
    ensures Deg(a) == n <==> Pow2(n) <= a < Pow2(n + 1)
    ensures Deg(a) < n <==> a < Pow2(n)
  {
    if a > 0 && n > 0 { DegIffLeading(a / 2, n - 1); }
  }

  lemma {:induction false} DegShr(a: nat, k: nat)
    requires a >= Pow2(k)
    ensures Deg(a) == k + Deg(Shr(a, k))
  {
    if k > 0 {
      DegShr(a / 2, k - 1);
      ShrHalf(a, k - 1);
    }
  }

  /** The stride of 16 that the first loop of `deg` takes. */
  lemma DegDrop16(a: nat)
    requires a >= 0x10000
    ensures Deg(a) == 16 + Deg(Shr(a, 16)) && 0 < Shr(a, 16) < a
  {
    Pow2Values();
    var k := 16;
    DegShr(a, k);
    DegIffLeading(a, k);
    ShrSmaller(a, k);
  }

  /** There are no zero divisors: degrees add up under multiplication. */
  lemma {:induction false} DegMul(a: nat, b: nat, m: nat, n: nat)
    requires Deg(a) == m && Deg(b) == n
    ensures Deg(Mul(a, b)) == m + n
  {
    DegIffLeading(a, m);
    DegIffLeading(b, n);
    if n == 0 {
      assert b == 1;
      MulUnit(a);
    } else {
      DegMul(a, b / 2, m, n - 1);
      DegIffLeading(Mul(a, b / 2), m + n - 1);
      DegIffLeading(a, m + n);
      var s, t := if b % 2 == 1 then a else 0, 2 * Mul(a, b / 2);
      XorTop(t, s, m + n);
      XorComm(t, s);
      DegIffLeading(Xor(s, t), m + n);
    }
  }

  // ---------------------------------------------------------------- division

  /** Quotient and remainder are determined by dividend and divisor. */
  lemma DivRemUnique(u: nat, v: nat, q: nat, r: nat, q': nat, r': nat)
    requires DivRem(u, v, q, r) && DivRem(u, v, q', r')
    ensures q == q' && r == r'
  {
    var d := Xor(q, q');
    assert Mul(d, v) == Xor(r, r') by {
      MulXorLeft(q, q', v);
      XorCancel(Mul(q, v), r);
      XorCancel(Mul(q', v), r');
      XorExchange(Mul(q, v), r, Mul(q', v), r');
      XorSelf(u);
      XorZeroIffEqual(Xor(Mul(q, v), Mul(q', v)), Xor(r, r'));
    }
    var n := Deg(v) as nat;
    DegIffLeading(r, n);
    DegIffLeading(r', n);
    XorBound(r, r', n);
    DegIffLeading(Mul(d, v), n);
    if d > 0 {
      DegMul(d, v, Deg(d), n);
      assert false;
    }
    MulUnit(v);
    XorZeroIffEqual(q, q');
    XorZeroIffEqual(r, r');
  }

  // --------------------------------------------------- the loops of the source

  /** poly.__mul__ */
  method Multiply(p: nat, q: nat) returns (x: nat)
    ensures x == Mul(p, q)
  {
    MulUnit(q);
    if p == 0 || q == 0 { return 0; }
    var a, b := p, q;
    x := 0;
    XorZero(Mul(p, q));
    while b != 0
      invariant Xor(x, Mul(a, b)) == Mul(p, q)
      decreases b
    {
      XorAssoc(x, if b % 2 == 1 then a else 0, 2 * Mul(a, b / 2));
      XorZero(x);
      MulDouble(a, b / 2);
      if b % 2 == 1 { x := Xor(x, a); }
      a := 2 * a;
      b := b / 2;
    }
    XorZero(x);
  }

  /** poly.deg */
  method Degree(p: nat) returns (n: int)
    ensures n == Deg(p)
  {
    var a := p;
    if a == 0 { return -1; }
    n := 0;
    while a >= 0x10000
      invariant a > 0 && n + Deg(a) == Deg(p)
      decreases a
    {
      DegDrop16(a);
      n := n + 16;
      a := Shr(a, 16);
    }
    while a > 1
      invariant a > 0 && n + Deg(a) == Deg(p)
      decreases a
    {
      n := n + 1;
      a := a / 2;
    }
  }

  /** Moving v * x^k from the remainder into the quotient keeps the dividend. */
  lemma MoveToQuotient(v: nat, k: nat, q: nat, u: nat)
    requires q % 2 == 0
    ensures Xor(Mul(Shl(q, k), v), u) == Xor(Mul(Shl(q + 1, k), v), Xor(u, Shl(v, k)))
  {
    var m := Shl(v, k);
    assert Shl(q + 1, k) == Xor(Shl(q, k), Shl(1, k)) by {
      XorStep(q / 2, 0, 0, 1);
      XorZero(q / 2);
      XorShl(q, 1, k);
    }
    assert Mul(Shl(1, k), v) == m by {
      ShlOne(k);
      MulComm(Pow2(k), v);
      MulPow2(v, k);
    }
    MulXorLeft(Shl(q, k), Shl(1, k), v);
    XorCommonTerm(Mul(Shl(q, k), v), u, m);
  }

  /**
   The state of long division: a is the bit under test, w the divisor aligned with
   it, u what is left to divide and q the quotient so far.
   */
  ghost predicate Dividing(u0: nat, v: nat, n: nat, k: nat, a: nat, w: nat, q: nat, u: nat) {
    && Deg(v) == n && a == Pow2(n + k) && w == Shl(v, k)
    && u < Pow2(n + k + 1) && q % 2 == 0
    && u0 == Xor(Mul(Shl(q, k), v), u)
  }

  lemma DivisionStart(u: nat, v: nat, n: nat, k: nat)
    requires Deg(v) == n && Deg(u) == n + k
    ensures Dividing(u, v, n, k, Pow2(n + k), Shl(v, k), 0, u)
  {
    ShlOfZero(k);
    MulUnit(v);
    XorZero(u);
    DegIffLeading(u, n + k);
  }

  /** Adding the aligned divisor clears the leading bit. */
  lemma ClearLeading(v: nat, n: nat, k: nat, u: nat)
    requires Deg(v) == n && Pow2(n + k) <= u < Pow2(n + k + 1)
    ensures Xor(u, Shl(v, k)) < Pow2(n + k)
  {
    DegIffLeading(v, n);
    ShlBound(v, n, k);
    ShlBound(v, n + 1, k);
    XorTopCancels(u, Shl(v, k), n + k);
  }

  /** Testing and clearing bit n + k of u, as both places of the source do it. */
  lemma DivisionRound(u0: nat, v: nat, n: nat, k: nat, a: nat, w: nat, q: nat, u: nat)
    requires Dividing(u0, v, n, k, a, w, q, u)
    ensures And(a, u) == 0 ==> u < Pow2(n + k)
    ensures And(a, u) != 0 ==>
              Xor(u, w) < Pow2(n + k) && u0 == Xor(Mul(Shl(q + 1, k), v), Xor(u, w))
  {
    TopBitTest(u, n + k);
    if u >= Pow2(n + k) {
      ClearLeading(v, n, k, u);
      MoveToQuotient(v, k, q, u);
    }
  }

  lemma Shift(u0: nat, v: nat, n: nat, k: nat, q: nat, u: nat)
    requires k > 0 && Deg(v) == n && u < Pow2(n + k) && u0 == Xor(Mul(Shl(q, k), v), u)
    ensures Dividing(u0, v, n, k - 1, Pow2(n + k) / 2, Shl(v, k) / 2, 2 * q, u)
  {
    assert Shl(q, k) == Shl(2 * q, k - 1) by { ShlDouble(q, k - 1); }
  }

  lemma DivisionIteration(u0: nat, v: nat, n: nat, k: nat, a: nat, w: nat, q: nat, u: nat)
    requires k > 0 && Dividing(u0, v, n, k, a, w, q, u)
    ensures And(a, u) != 0 ==> Dividing(u0, v, n, k - 1, a / 2, w / 2, 2 * (q + 1), Xor(u, w))
    ensures And(a, u) == 0 ==> Dividing(u0, v, n, k - 1, a / 2, w / 2, 2 * q, u)
  {
    DivisionRound(u0, v, n, k, a, w, q, u);
    if And(a, u) != 0 {
      Shift(u0, v, n, k, q + 1, Xor(u, w));
    } else {
      Shift(u0, v, n, k, q, u);
    }
  }

  lemma DivisionEnd(u0: nat, v: nat, n: nat, a: nat, w: nat, q: nat, u: nat)
    requires Dividing(u0, v, n, 0, a, w, q, u)
    ensures And(a, u) != 0 ==> DivRem(u0, v, q + 1, Xor(u, w))
    ensures And(a, u) == 0 ==> DivRem(u0, v, q, u)
  {
    DivisionRound(u0, v, n, 0, a, w, q, u);
    DegIffLeading(u, n);
    DegIffLeading(Xor(u, w), n);
  }

  /** The two cases the source answers without dividing. */
  lemma TrivialDivision(u: nat, v: nat)
    requires v != 0
    ensures Deg(v) == 0 ==> DivRem(u, v, u, 0)
    ensures Deg(u) < Deg(v) ==> DivRem(u, v, 0, u)
  {
    DegIffLeading(v, 0);
    MulUnit(u);
    MulUnit(v);
    XorZero(u);
  }

  /** poly.__divmod__, with None for its ZeroDivisionError */
  method DivMod(self: nat, other: nat) returns (r: Option<(nat, nat)>)
    ensures other == 0 <==> r.None?
    ensures other != 0 ==> r.Some? && DivRem(self, other, r.value.0, r.value.1)
  {
    var u: nat, v: nat := self, other;
    var m := Degree(u);
    var n := Degree(v);
    if v == 0 { return None; }
    TrivialDivision(self, other);
    if n == 0 { return Some((self, 0)); }
    if m < n { return Some((0, self)); }
    var k: nat := m - n;
    var a := Pow2(m);
    v := Shl(v, k);
    var q: nat := 0;
    DivisionStart(self, other, n, k);
    while k > 0
      invariant Dividing(self, other, n, k, a, v, q, u)
    {
      DivisionIteration(self, other, n, k, a, v, q, u);
      if And(a, u) != 0 {
        u := Xor(u, v);
        q := q + 1;
      }
      q := 2 * q;
      a := a / 2;
      v := v / 2;
      k := k - 1;
    }
    DivisionEnd(self, other, n, a, v, q, u);
    if And(a, u) != 0 {
      u := Xor(u, v);
      q := q + 1;
    }
    return Some((q, u));
  }
}
