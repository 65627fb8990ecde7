/**
 The operations of module Bits in terms of plain arithmetic: shifts multiply and divide,
 masks leave remainders, and the bits of a result are what its operands' bits say.
 */
module Arithmetic {
  import opened Bits

  /** Bit k of an integer, in two's complement. */
  predicate Bit(x: int, k: nat) {
    x / Pow2(k) % 2 == 1
  }

  lemma Multiple(d: int, p: nat)
    ensures d > 0 ==> d * p >= p
    ensures d < 0 ==> d * p <= 0 - p
  {}

  lemma DivModUnique(p: nat, q: int, r: nat)
    requires r < p
    ensures (q * p + r) / p == q && (q * p + r) % p == r
  {
    var x := q * p + r;
    var d := q - x / p;
    assert d * p == x % p - r by { assert d * p == q * p - x / p * p; }
    Multiple(d, p);
  }

  lemma {:induction false} ShlIsTimes(x: nat, k: nat)
    ensures Shl(x, k) == x * Pow2(k)
  {
    if k > 0 { ShlIsTimes(x, k - 1); }
  }

  /** Shifting up multiplies, whatever the sign. */
  lemma ShlIntIsTimes(x: int, k: nat)
    ensures ShlInt(x, k) == x * Pow2(k)
  {
    if x >= 0 {
      ShlIsTimes(x, k);
    } else {
      ShlIsTimes(-x, k);
      assert (-x) * Pow2(k) == -(x * Pow2(k));
    }
  }

  /** Shifting down divides, rounding down, and masking leaves the remainder. */
  lemma ShrIntIsDivide(x: int, k: nat)
    ensures ShrInt(x, k) == x / Pow2(k) && Low(x, k) == x % Pow2(k)
  {
    SplitInt(x, k);
    ShlIntIsTimes(ShrInt(x, k), k);
    LowBound(x, k);
    DivModUnique(Pow2(k), ShrInt(x, k), Low(x, k));
  }

  lemma BitIsShifted(x: int, k: nat)
    ensures Bit(x, k) <==> ShrInt(x, k) % 2 == 1
    ensures k > 0 ==> (Bit(x, k) <==> Bit(x / 2, k - 1))
  {
    ShrIntIsDivide(x, k);
    if k > 0 {
      ShrIntIsDivide(x / 2, k - 1);
      ShrIntHalf(x, k - 1);
    }
  }

  /** `^` sets the bits in which its operands differ. */
  lemma {:induction false} XorBits(a: nat, b: int, k: nat)
    ensures Bit(XorInt(a, b), k) <==> Bit(a, k) != Bit(b, k)
    decreases k
  {
    BitIsShifted(a, k);
    BitIsShifted(b, k);
    BitIsShifted(XorInt(a, b), k);
    XorIntHalf(a, b);
    if k > 0 { XorBits(a / 2, b / 2, k - 1); }
  }

  /** `&` sets the bits that both operands have. */
  lemma {:induction false} AndBits(a: nat, b: nat, k: nat)
    ensures Bit(And(a, b), k) <==> Bit(a, k) && Bit(b, k)
    decreases k
  {
    BitIsShifted(a, k);
    BitIsShifted(b, k);
    BitIsShifted(And(a, b), k);
    assert And(a, b) / 2 == And(a / 2, b / 2);
    if k > 0 { AndBits(a / 2, b / 2, k - 1); }
  }

  /** `|` sets the bits that one of them has. */
  lemma {:induction false} OrBits(a: int, b: int, k: nat)
    ensures Bit(Or(a, b), k) <==> Bit(a, k) || Bit(b, k)
    decreases k
  {
    OrHalf(a, b);
    if k > 0 { OrBits(a / 2, b / 2, k - 1); }
    BitHalf(a, k);
    BitHalf(b, k);
    BitHalf(Or(a, b), k);
  }

  lemma BitHalf(x: int, k: nat)
    ensures Bit(x, k) <==> if k == 0 then x % 2 == 1 else Bit(x / 2, k - 1)
  {
    BitIsShifted(x, k);
  }

  /** `<<` moves the bits up, with zeros behind them. */
  lemma {:induction false} ShlBits(x: int, j: nat, k: nat)
    ensures Bit(ShlInt(x, j), k) <==> k >= j && Bit(x, k - j)
    decreases j
  {
    if j > 0 {
      BitIsShifted(ShlInt(x, j), k);
      ShlIntNext(x, j - 1);
      if k > 0 { ShlBits(x, j - 1, k - 1); }
    }
  }
}
