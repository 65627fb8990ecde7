/**
 The CRC shift register one bit at a time: the bit-serial specification that the
 tables, the byte loops and the combine operation are all proved against.

 A register of n bits is a number below 2^n.  An engine fixes its width, the
 polynomial without its leading term (already bit reversed when `rev` is set)
 and the direction in which the register shifts.
 */
module Register {
  import opened Basics
  import opened Bits

  const BYTE_BITS: nat := 8

  datatype Engine = Engine(n: nat, poly: nat, rev: bool) {
    predicate Valid() {
      n >= 8 && poly < Pow2(n)
    }

    /** The register moved by one place, without the bit that leaves it. */
    function Shift(s: nat): nat
      requires Valid()
    {
      if rev then s / 2 else 2 * Low(s, n - 1)
    }

    /** The bit that leaves the register. */
    predicate Carry(s: nat)
      requires Valid()
    {
      if rev then s % 2 == 1 else Shr(s, n - 1) % 2 == 1
    }

    /** Feed a zero bit. */
    function ZeroBit(s: nat): nat
      requires Valid()
    {
      Xor(Shift(s), if Carry(s) then poly else 0)
    }

    /** Feed k zero bits. */
    function ZeroBits(k: nat, s: nat): nat
      requires Valid()
    {
      if k == 0 then s else ZeroBits(k - 1, ZeroBit(s))
    }

    /** Add a data byte at the end of the register that leaves first. */
    function Absorb(s: nat, x: Byte): nat
      requires Valid()
    {
      if rev then Xor(s, x) else Xor(s, Shl(x, n - 8))
    }

    /** Feed a byte: eight single-bit steps. */
    function Step(s: nat, x: Byte): nat
      requires Valid()
    {
      ZeroBits(BYTE_BITS, Absorb(s, x))
    }

    function Feed(s: nat, data: seq<Byte>): nat
      requires Valid()
      decreases |data|
    {
      if data == [] then s else Feed(Step(s, data[0]), data[1..])
    }
  }

  // ---------------------------------------------------------------- linearity

  lemma ShiftLinear(e: Engine, a: nat, b: nat)
    requires e.Valid()
    ensures e.Shift(Xor(a, b)) == Xor(e.Shift(a), e.Shift(b))
    ensures e.Carry(Xor(a, b)) <==> e.Carry(a) != e.Carry(b)
  {
    var k := e.n - 1;
    if e.rev {
      XorHalf(a, b);
    } else {
      XorShr(a, b, k);
      XorHalf(Shr(a, k), Shr(b, k));
      LowXor(a, b, k);
      XorDouble(Low(a, k), Low(b, k));
    }
  }

  lemma ZeroBitLinear(e: Engine, a: nat, b: nat)
    requires e.Valid()
    ensures e.ZeroBit(Xor(a, b)) == Xor(e.ZeroBit(a), e.ZeroBit(b))
    ensures e.ZeroBit(0) == 0
  {
    ShiftLinear(e, a, b);
    var p, q := if e.Carry(a) then e.poly else 0, if e.Carry(b) then e.poly else 0;
    assert Xor(p, q) == if e.Carry(a) != e.Carry(b) then e.poly else 0 by {
      XorSelf(e.poly);
      XorZero(e.poly);
      XorZero(0);
    }
    XorExchange(e.Shift(a), p, e.Shift(b), q);
    assert e.ZeroBit(0) == 0 by {
      LowSmall(0, e.n - 1);
      XorZero(0);
      ShrZero(e.n - 1);
    }
  }

  lemma {:induction false} ZeroBitsLinear(e: Engine, k: nat, a: nat, b: nat)
    requires e.Valid()
    ensures e.ZeroBits(k, Xor(a, b)) == Xor(e.ZeroBits(k, a), e.ZeroBits(k, b))
    ensures e.ZeroBits(k, 0) == 0
    decreases k
  {
    if k > 0 {
      ZeroBitLinear(e, a, b);
      ZeroBitsLinear(e, k - 1, e.ZeroBit(a), e.ZeroBit(b));
    }
  }

  lemma {:induction false} ZeroBitsAdd(e: Engine, j: nat, k: nat, s: nat)
    requires e.Valid()
    ensures e.ZeroBits(j, e.ZeroBits(k, s)) == e.ZeroBits(j + k, s)
    decreases k
  {
    if k > 0 { ZeroBitsAdd(e, j, k - 1, e.ZeroBit(s)); }
  }

  lemma ZeroBitBound(e: Engine, s: nat)
    requires e.Valid() && s < Pow2(e.n)
    ensures e.ZeroBit(s) < Pow2(e.n)
  {
    LowBound(s, e.n - 1);
    XorBound(e.Shift(s), if e.Carry(s) then e.poly else 0, e.n);
  }

  lemma {:induction false} ZeroBitsBound(e: Engine, k: nat, s: nat)
    requires e.Valid() && s < Pow2(e.n)
    ensures e.ZeroBits(k, s) < Pow2(e.n)
    decreases k
  {
    if k > 0 {
      ZeroBitBound(e, s);
      ZeroBitsBound(e, k - 1, e.ZeroBit(s));
    }
  }

  // -------------------------------------------------------------------- bytes

  lemma AbsorbBound(e: Engine, s: nat, x: Byte)
    requires e.Valid() && s < Pow2(e.n)
    ensures e.Absorb(s, x) < Pow2(e.n)
  {
    Pow2Values();
    ShlBound(x, 8, e.n - 8);
    Pow2Mono(8, e.n);
    XorBound(s, if e.rev then x else Shl(x, e.n - 8), e.n);
  }

  lemma {:induction false} FeedBound(e: Engine, s: nat, data: seq<Byte>)
    requires e.Valid() && s < Pow2(e.n)
    ensures e.Feed(s, data) < Pow2(e.n)
    decreases |data|
  {
    if data != [] {
      AbsorbBound(e, s, data[0]);
      ZeroBitsBound(e, BYTE_BITS, e.Absorb(s, data[0]));
      FeedBound(e, e.Step(s, data[0]), data[1..]);
    }
  }

  lemma {:induction false} FeedAppend(e: Engine, s: nat, a: seq<Byte>, b: seq<Byte>)
    requires e.Valid()
    ensures e.Feed(s, a + b) == e.Feed(e.Feed(s, a), b)
    decreases |a|
  {
    if a == [] {
      assert a + b == b;
    } else {
      assert (a + b)[1..] == a[1..] + b;
      FeedAppend(e, e.Step(s, a[0]), a[1..], b);
    }
  }

  /** A step is affine: two registers fed the same byte stay a linear image apart. */
  lemma StepAffine(e: Engine, s: nat, t: nat, x: Byte)
    requires e.Valid()
    ensures Xor(e.Step(s, x), e.Step(t, x)) == e.ZeroBits(BYTE_BITS, Xor(s, t))
  {
    ZeroBitsLinear(e, BYTE_BITS, e.Absorb(s, x), e.Absorb(t, x));
    XorCommonTerm(s, t, if e.rev then x else Shl(x, e.n - 8));
  }

  /** What the data contributes does not depend on the register it is fed to. */
  lemma {:induction false} FeedAffine(e: Engine, s: nat, t: nat, data: seq<Byte>)
    requires e.Valid()
    ensures Xor(e.Feed(s, data), e.Feed(t, data)) == e.ZeroBits(BYTE_BITS * |data|, Xor(s, t))
    decreases |data|
  {
    if data != [] {
      var s', t' := e.Step(s, data[0]), e.Step(t, data[0]);
      FeedAffine(e, s', t', data[1..]);
      StepAffine(e, s, t, data[0]);
      ZeroBitsAdd(e, BYTE_BITS * (|data| - 1), BYTE_BITS, Xor(s, t));
    }
  }
}
