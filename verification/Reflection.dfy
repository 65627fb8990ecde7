/**
 Bit reversal and the duality of the two shift directions: a reflected engine
 is the mirror image of the forward engine with the same generator.
 */
module Reflection {
  import opened Basics
  import opened Bits
  import opened Arithmetic
  import opened Register

  /** The n low bits of x in reverse order. */
  function Reverse(x: nat, n: nat): nat {
    if n == 0 then 0 else 2 * Reverse(x, n - 1) + Shr(x, n - 1) % 2
  }

  /** _bitrev */
  method BitRev(x: nat, n: nat) returns (y: nat)
    ensures y == Reverse(x, n)
  {
    var rest := x;
    y := 0;
    for i := 0 to n
      invariant rest == Shr(x, i) && y == Reverse(x, i)
    {
      y := 2 * y + rest % 2;
      rest := rest / 2;
    }
  }

  lemma {:induction false} ReverseBound(x: nat, n: nat)
    ensures Reverse(x, n) < Pow2(n)
  {
    if n > 0 { ReverseBound(x, n - 1); }
  }

  lemma {:induction false} ReverseXor(a: nat, b: nat, n: nat)
    ensures Reverse(Xor(a, b), n) == Xor(Reverse(a, n), Reverse(b, n))
  {
    if n > 0 {
      ReverseXor(a, b, n - 1);
      XorShr(a, b, n - 1);
      var p, q := Shr(a, n - 1), Shr(b, n - 1);
      XorHalf(p, q);
      var r, s := Reverse(a, n - 1), Reverse(b, n - 1);
      XorStep(r, s, p % 2, q % 2);
      assert Reverse(a, n) == 2 * r + p % 2 && Reverse(b, n) == 2 * s + q % 2;
    } else {
      XorZero(0);
    }
  }

  /** The first bit becomes the last one. */
  lemma {:induction false} ReverseFirst(x: nat, n: nat)
    requires n > 0
    ensures Reverse(x, n) == Shl(x % 2, n - 1) + Reverse(x / 2, n - 1)
  {
    if n > 1 {
      ReverseFirst(x, n - 1);
      ShrHalf(x, n - 2);
    }
  }

  lemma {:induction false} LowLast(x: nat, n: nat)
    requires n > 0
    ensures Low(x, n) == Low(x, n - 1) + Shl(Shr(x, n - 1) % 2, n - 1)
    decreases n
  {
    if n > 1 {
      LowLast(x / 2, n - 1);
      ShrHalf(x, n - 2);
    }
  }

  /** Reversing twice gives the number back, up to its n low bits. */
  lemma {:induction false} ReverseTwice(x: nat, n: nat)
    ensures Reverse(Reverse(x, n), n) == Low(x, n)
    ensures x < Pow2(n) ==> Reverse(Reverse(x, n), n) == x
  {
    LowSmall(x, n);
    if n > 0 {
      ReverseTwice(x, n - 1);
      var y := Reverse(x, n);
      assert y / 2 == Reverse(x, n - 1) && y % 2 == Shr(x, n - 1) % 2;
      ReverseFirst(y, n);
      LowLast(x, n);
    }
  }

  lemma {:induction false} ReverseLow(x: nat, n: nat)
    ensures Reverse(Low(x, n), n) == Reverse(x, n)
  {
    if n > 0 {
      var y := Low(x, n);
      assert y / 2 == Low(x / 2, n - 1) && y % 2 == x % 2;
      ReverseLow(x / 2, n - 1);
      ReverseFirst(x, n);
      ReverseFirst(y, n);
    }
  }

  lemma {:induction false} ReverseShl(x: nat, m: nat, k: nat)
    ensures Reverse(Shl(x, k), m + k) == Reverse(x, m)
  {
    if k > 0 {
      ReverseShl(x, m, k - 1);
      ReverseFirst(Shl(x, k), m + k);
      ShlOfZero(m + k - 1);
    }
  }

  // ----------------------------------------------------------------- duality

  function ReverseBytes(data: seq<Byte>): (r: seq<Byte>)
    ensures |r| == |data|
  {
    if data == [] then [] else
      ReverseBound(data[0], BYTE_BITS); Pow2Values();
      [Reverse(data[0], BYTE_BITS)] + ReverseBytes(data[1..])
  }

  /** The engine that runs backwards. */
  function Mirror(e: Engine): (m: Engine)
    requires e.Valid()
    ensures m.Valid() && m.n == e.n && m.rev != e.rev
  {
    ReverseBound(e.poly, e.n);
    Engine(e.n, Reverse(e.poly, e.n), !e.rev)
  }

  lemma MirrorZeroBit(e: Engine, s: nat)
    requires e.Valid() && !e.rev
    ensures Reverse(e.ZeroBit(s), e.n) == Mirror(e).ZeroBit(Reverse(s, e.n))
  {
    var n, y := e.n, Reverse(s, e.n);
    assert y / 2 == Reverse(s, n - 1) && y % 2 == Shr(s, n - 1) % 2;
    assert Reverse(e.Shift(s), n) == Mirror(e).Shift(y) by {
      ReverseFirst(2 * Low(s, n - 1), n);
      ShlOfZero(n - 1);
      ReverseLow(s, n - 1);
    }
    assert Reverse(0, n) == 0 by { ReverseXor(0, 0, n); XorSelf(0); XorSelf(Reverse(0, n)); }
    ReverseXor(e.Shift(s), if e.Carry(s) then e.poly else 0, n);
  }

  lemma {:induction false} MirrorZeroBits(e: Engine, k: nat, s: nat)
    requires e.Valid() && !e.rev
    ensures Reverse(e.ZeroBits(k, s), e.n) == Mirror(e).ZeroBits(k, Reverse(s, e.n))
    decreases k
  {
    if k > 0 {
      MirrorZeroBit(e, s);
      MirrorZeroBits(e, k - 1, e.ZeroBit(s));
    }
  }

  lemma MirrorStep(e: Engine, s: nat, x: Byte)
    requires e.Valid() && !e.rev
    ensures Reverse(e.Step(s, x), e.n)
            == Mirror(e).Step(Reverse(s, e.n), ReverseBytes([x])[0])
  {
    ReverseXor(s, Shl(x, e.n - BYTE_BITS), e.n);
    ReverseShl(x, BYTE_BITS, e.n - BYTE_BITS);
    MirrorZeroBits(e, BYTE_BITS, e.Absorb(s, x));
  }

  lemma {:induction false} MirrorFeed(e: Engine, s: nat, data: seq<Byte>)
    requires e.Valid() && !e.rev
    ensures Reverse(e.Feed(s, data), e.n)
            == Mirror(e).Feed(Reverse(s, e.n), ReverseBytes(data))
    decreases |data|
  {
    if data != [] {
      MirrorStep(e, s, data[0]);
      MirrorFeed(e, e.Step(s, data[0]), data[1..]);
      assert ReverseBytes(data)[0] == ReverseBytes([data[0]])[0];
      assert ReverseBytes(data)[1..] == ReverseBytes(data[1..]);
    }
  }

  lemma {:induction false} ReverseBytesTwice(data: seq<Byte>)
    ensures ReverseBytes(ReverseBytes(data)) == data
  {
    if data != [] {
      Pow2Values();
      ReverseTwice(data[0], BYTE_BITS);
      ReverseBytesTwice(data[1..]);
      assert ReverseBytes(data)[1..] == ReverseBytes(data[1..]);
    }
  }

  /**
   The reflected computation is the bit reversal of the forward computation on
   bit-reversed bytes from the bit-reversed register.
   */
  lemma ReflectedIsMirrored(e: Engine, s: nat, data: seq<Byte>)
    requires e.Valid() && e.rev && s < Pow2(e.n)
    ensures e.Feed(s, data)
            == Reverse(Mirror(e).Feed(Reverse(s, e.n), ReverseBytes(data)), e.n)
  {
    var m := Mirror(e);
    ReverseTwice(e.poly, e.n);
    assert Mirror(m) == e;
    MirrorFeed(m, Reverse(s, e.n), ReverseBytes(data));
    ReverseTwice(s, e.n);
    ReverseBytesTwice(data);
  }

  /** Bit i of the reversal is bit n - 1 - i of the number. */
  lemma {:induction false} ReverseBits(x: nat, n: nat, i: nat)
    requires i < n
    ensures Bit(Reverse(x, n), i) <==> Bit(x, n - 1 - i)
  {
    BitIsShifted(Reverse(x, n), i);
    BitIsShifted(x, n - 1 - i);
    assert Reverse(x, n) / 2 == Reverse(x, n - 1) && Reverse(x, n) % 2 == Shr(x, n - 1) % 2;
    if i > 0 {
      ReverseBits(x, n - 1, i - 1);
    }
  }
}
