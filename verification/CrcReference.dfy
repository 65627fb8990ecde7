/**
 The polynomial reference of crcmod/test.py: a CRC is the remainder of
 message * x^n modulo the generator.  The bit-serial register computes exactly
 that remainder, from whatever register it starts.
 */
module CrcReference {
  import opened Basics
  import opened Bits
  import opened Polynomial
  import opened Register
  import opened CrcTable

  /** The message as a polynomial, first byte leading. */
  function Message(data: seq<Byte>): nat {
    if data == [] then 0
    else Shl(Message(data[..|data| - 1]), BYTE_BITS) + data[|data| - 1]
  }

  /** The generator with its leading term. */
  function Generator(e: Engine): nat {
    Pow2(e.n) + e.poly
  }

  lemma GeneratorDegree(e: Engine)
    requires e.Valid()
    ensures Deg(Generator(e)) == e.n
    ensures Generator(e) == Xor(Pow2(e.n), e.poly)
  {
    DegIffLeading(Generator(e), e.n);
    ShlOne(e.n);
    XorDisjoint(1, e.poly, e.n);
  }

  /** A zero bit multiplies by x and reduces by the generator when a bit leaves. */
  lemma ZeroBitReduces(e: Engine, t: nat)
    requires e.Valid() && !e.rev && t < Pow2(e.n)
    ensures 2 * t == Xor(if e.Carry(t) then Generator(e) else 0, e.ZeroBit(t))
  {
    var n := e.n;
    var low, lead := 2 * Low(t, n - 1), if e.Carry(t) then Pow2(n) else 0;
    assert 2 * t == lead + low by {
      SplitSum(t, n - 1);
      TopBit(t, n - 1);
      ShlOne(n - 1);
      ShlOfZero(n - 1);
    }
    LowBound(t, n - 1);
    ShlOne(n);
    ShlOfZero(n);
    XorDisjoint(if e.Carry(t) then 1 else 0, low, n);
    GeneratorDegree(e);
    XorComm(low, if e.Carry(t) then e.poly else 0);
    if e.Carry(t) {
      XorAssoc(Pow2(n), e.poly, Xor(e.poly, low));
      XorCancel(e.poly, low);
    } else {
      XorZero(low);
    }
  }

  /** u and t differ by a multiple of the generator, namely q times it. */
  ghost predicate Congruent(e: Engine, u: nat, q: nat, t: nat) {
    u == Xor(Mul(q, Generator(e)), t)
  }

  lemma CongruentZeroBit(e: Engine, u: nat, q: nat, t: nat) returns (q': nat)
    requires e.Valid() && !e.rev && t < Pow2(e.n) && Congruent(e, u, q, t)
    ensures Congruent(e, 2 * u, q', e.ZeroBit(t))
  {
    var g, c := Generator(e), if e.Carry(t) then 1 else 0;
    q' := Xor(2 * q, c);
    var reduced := Mul(c, g);
    assert reduced == if e.Carry(t) then g else 0 by { MulUnit(g); }
    ZeroBitReduces(e, t);
    XorDouble(Mul(q, g), t);
    MulDouble(q, g);
    MulXorLeft(2 * q, c, g);
    XorAssoc(Mul(2 * q, g), reduced, e.ZeroBit(t));
  }

  lemma {:induction false} CongruentZeroBits(e: Engine, k: nat, u: nat, q: nat, t: nat)
    returns (q': nat)
    requires e.Valid() && !e.rev && t < Pow2(e.n) && Congruent(e, u, q, t)
    ensures Congruent(e, Shl(u, k), q', e.ZeroBits(k, t))
    decreases k
  {
    if k == 0 {
      q' := q;
    } else {
      var q1 := CongruentZeroBit(e, u, q, t);
      ZeroBitBound(e, t);
      q' := CongruentZeroBits(e, k - 1, 2 * u, q1, e.ZeroBit(t));
      ShlDouble(u, k - 1);
    }
  }

  /** The polynomial that data stands for after a register s0. */
  function Dividend(e: Engine, s0: nat, data: seq<Byte>): nat {
    Xor(Shl(s0, BYTE_BITS * |data|), Shl(Message(data), e.n))
  }

  lemma MessageNext(data: seq<Byte>, x: Byte)
    ensures Message(data + [x]) == Xor(Shl(Message(data), BYTE_BITS), x)
  {
    assert (data + [x])[..|data|] == data;
    Pow2Values();
    XorDisjoint(Message(data), x, BYTE_BITS);
  }

  lemma DividendNext(e: Engine, s0: nat, data: seq<Byte>, x: Byte)
    requires e.Valid()
    ensures Dividend(e, s0, data + [x])
            == Shl(Xor(Dividend(e, s0, data), Shl(x, e.n - BYTE_BITS)), BYTE_BITS)
  {
    var k, n, j, m := BYTE_BITS, e.n, BYTE_BITS * |data|, Message(data);
    MessageNext(data, x);
    assert Shl(Xor(Shl(m, k), x), n) == Xor(Shl(m, n + k), Shl(x, n)) by {
      XorShl(Shl(m, k), x, n);
      ShlAdd(m, k, n);
    }
    assert Shl(Dividend(e, s0, data), k) == Xor(Shl(s0, j + k), Shl(m, n + k)) by {
      XorShl(Shl(s0, j), Shl(m, n), k);
      ShlAdd(s0, j, k);
      ShlAdd(m, n, k);
    }
    assert Shl(Shl(x, n - k), k) == Shl(x, n) by { ShlAdd(x, n - k, k); }
    XorShl(Dividend(e, s0, data), Shl(x, n - k), k);
    XorAssoc(Shl(s0, j + k), Shl(m, n + k), Shl(x, n));
  }

  /** The register after any data is congruent to register * x^(8 |data|) + data * x^n. */
  lemma {:induction false} FeedCongruent(e: Engine, s0: nat, data: seq<Byte>) returns (q: nat)
    requires e.Valid() && !e.rev && s0 < Pow2(e.n)
    ensures Congruent(e, Dividend(e, s0, data), q, e.Feed(s0, data))
    decreases |data|
  {
    if data == [] {
      q := 0;
      ShlOfZero(e.n);
      MulUnit(Generator(e));
      XorZero(s0);
    } else {
      var k, x, front := BYTE_BITS, data[|data| - 1], data[..|data| - 1];
      assert data == front + [x];
      var t := e.Feed(s0, front);
      var q1 := FeedCongruent(e, s0, front);
      DividendNext(e, s0, front, x);
      XorAssoc(Mul(q1, Generator(e)), t, Shl(x, e.n - k));
      FeedBound(e, s0, front);
      AbsorbBound(e, t, x);
      q := CongruentZeroBits(e, k, Xor(Dividend(e, s0, front), Shl(x, e.n - k)), q1, e.Absorb(t, x));
      FeedAppend(e, s0, front, [x]);
      assert e.Feed(t, [x]) == e.Feed(e.Step(t, x), []);
    }
  }

  /** Long division of that polynomial leaves exactly the register. */
  lemma FeedIsRemainder(e: Engine, s0: nat, data: seq<Byte>, q: nat, r: nat)
    requires e.Valid() && !e.rev && s0 < Pow2(e.n)
    requires DivRem(Dividend(e, s0, data), Generator(e), q, r)
    ensures r == e.Feed(s0, data)
  {
    var q' := FeedCongruent(e, s0, data);
    FeedBound(e, s0, data);
    GeneratorDegree(e);
    DegIffLeading(e.Feed(s0, data), e.n);
    DivRemUnique(Dividend(e, s0, data), Generator(e), q, r, q', e.Feed(s0, data));
  }

  lemma GeneratorOf(g: nat, n: nat)
    requires n >= 8 && Pow2(n) <= g < Pow2(n + 1)
    ensures Generator(EngineOf(g, n, false)) == g
  {
    SplitSum(g, n);
    TopBit(g, n);
    ShlOne(n);
  }

  lemma ShlByte(p: nat)
    ensures Shl(p, BYTE_BITS) == p * 256
  {
    var p1, p2, p3, p4 := 2 * p, 4 * p, 8 * p, 16 * p;
    assert p1 == Shl(p, 1);
    assert p2 == Shl(p, 2);
    assert p3 == Shl(p, 3);
    assert p4 == Shl(p, 4);
    assert 32 * p == Shl(p, 5);
    assert 64 * p == Shl(p, 6);
  }

  /**
   crc8p, crc16p, crc24p, crc32p, crc64ap and crc64bp: the CRC by polynomial
   division is the value the table-driven loop leaves in an empty register.
   */
  method CrcByDivision(d: seq<Byte>, g: nat, n: nat) returns (crc: nat)
    requires n >= 8 && Pow2(n) <= g < Pow2(n + 1)
    ensures crc == EngineOf(g, n, false).Feed(0, d)
  {
    ghost var e := EngineOf(g, n, false);
    var p: nat := 0;
    for i := 0 to |d|
      invariant p == Message(d[..i])
    {
      assert d[..i + 1][..i] == d[..i];
      ShlByte(p);
      p := p * 256 + d[i];
    }
    assert d[..|d|] == d;
    var product := Multiply(p, Pow2(n));
    MulPow2(p, n);
    ShlOfZero(BYTE_BITS * |d|);
    XorZero(product);
    GeneratorOf(g, n);
    var quotient := DivMod(product, g);
    FeedIsRemainder(e, 0, d, quotient.value.0, quotient.value.1);
    crc := quotient.value.1;
  }
}
