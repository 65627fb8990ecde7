/**
 The CRC as a bijection: with a generator that has a constant term no register is lost,
 so from every register every other is reached by exactly one message of its size.
 */
module CrcInverse {
  import opened Basics
  import opened Bits
  import opened Register
  import opened Reflection
  import opened CrcTable
  import opened CrcReference
  import opened CrcMod

  /** No register but the empty one vanishes: the generator has a constant term. */
  predicate Invertible(e: Engine)
    requires e.Valid()
  {
    if e.rev then e.poly >= Pow2(e.n - 1) else e.poly % 2 == 1
  }

  lemma OddGeneratorInvertible(poly: int, n: nat, rev: bool)
    requires n >= 8 && poly % 2 == 1
    ensures Invertible(EngineOf(poly, n, rev))
  {
    ReverseFirst(Low(poly, n), n);
    ShlOne(n - 1);
  }

  lemma ZeroBitInjective(e: Engine, s: nat)
    requires e.Valid() && Invertible(e) && s < Pow2(e.n)
    ensures e.ZeroBit(s) == 0 <==> s == 0
  {
    ZeroBitLinear(e, 0, 0);
    if s != 0 {
      XorZeroIffEqual(e.Shift(s), e.poly);
      XorZero(e.Shift(s));
      if !e.rev {
        SplitSum(s, e.n - 1);
        TopBit(s, e.n - 1);
        ShlOfZero(e.n - 1);
      }
    }
  }

  lemma {:induction false} ZeroBitsInjective(e: Engine, k: nat, s: nat)
    requires e.Valid() && Invertible(e) && s < Pow2(e.n)
    ensures e.ZeroBits(k, s) == 0 <==> s == 0
    decreases k
  {
    if k > 0 {
      ZeroBitInjective(e, s);
      ZeroBitBound(e, s);
      ZeroBitsInjective(e, k - 1, e.ZeroBit(s));
    }
  }

  /** Feeding zero bits tells registers apart. */
  lemma ZeroBitsSeparate(e: Engine, k: nat, s: nat, t: nat)
    requires e.Valid() && Invertible(e) && s < Pow2(e.n) && t < Pow2(e.n)
    ensures e.ZeroBits(k, s) == e.ZeroBits(k, t) <==> s == t
  {
    ZeroBitsLinear(e, k, s, t);
    XorBound(s, t, e.n);
    ZeroBitsInjective(e, k, Xor(s, t));
    XorZeroIffEqual(s, t);
    XorZeroIffEqual(e.ZeroBits(k, s), e.ZeroBits(k, t));
  }

  /** The register before a zero bit: its last bit tells whether a bit has left. */
  lemma BeforeZeroBit(e: Engine, t: nat) returns (s: nat)
    requires e.Valid() && !e.rev && Invertible(e) && t < Pow2(e.n)
    ensures s < Pow2(e.n) && e.ZeroBit(s) == t
  {
    var k, c := e.n - 1, t % 2;
    var p := if c == 1 then e.poly else 0;
    var u := Xor(t, p);
    XorHalf(t, p);
    XorBound(t, p, e.n);
    var h := u / 2;
    assert u == 2 * h && h < Pow2(k);
    s := Shl(c, k) + h;
    Join(c, h, k);
    ShlOne(k);
    ShlOfZero(k);
    XorCancel(p, t);
    assert Xor(u, p) == t;
  }

  lemma {:induction false} BeforeZeroBits(e: Engine, k: nat, t: nat) returns (s: nat)
    requires e.Valid() && !e.rev && Invertible(e) && t < Pow2(e.n)
    ensures s < Pow2(e.n) && e.ZeroBits(k, s) == t
  {
    s := t;
    if k > 0 {
      var s1 := BeforeZeroBits(e, k - 1, t);
      s := BeforeZeroBit(e, s1);
    }
  }

  // ------------------------------------------------------------------ messages

  lemma {:induction false} MessageBound(b: seq<Byte>)
    ensures Message(b) < Pow2(BYTE_BITS * |b|)
  {
    if b != [] {
      var k, front, last := BYTE_BITS, b[..|b| - 1], b[|b| - 1];
      MessageBound(front);
      Pow2Values();
      ShlBelow(Message(front), BYTE_BITS * |front|, k);
    }
  }

  /** A number below 2^j, moved up by k, leaves room for k more bits below 2^(j + k). */
  lemma {:induction false} ShlBelow(x: nat, j: nat, k: nat)
    requires x < Pow2(j)
    ensures Shl(x, k) + Pow2(k) <= Pow2(j + k)
  {
    if k > 0 { ShlBelow(x, j, k - 1); }
  }

  /** The bytes of a number with one byte more at the end. */
  lemma BigEndianNext(v: nat, hi: nat, last: Byte, size: nat)
    requires v == Shl(hi, BYTE_BITS) + last
    ensures BigEndian(v, size + 1) == BigEndian(hi, size) + [last]
  {
    assert last < Pow2(BYTE_BITS) by { Pow2Values(); }
    Join(hi, last, BYTE_BITS);
    assert Shr(v, BYTE_BITS) == hi && Low(v, BYTE_BITS) == last;
  }

  /** A message is the digest of its own value. */
  lemma {:induction false} MessageRoundTrip(b: seq<Byte>)
    ensures BigEndian(Message(b), |b|) == b
  {
    if b != [] {
      var front, last := b[..|b| - 1], b[|b| - 1];
      MessageRoundTrip(front);
      BigEndianNext(Message(b), Message(front), last, |front|);
      assert b == front + [last];
    }
  }

  lemma ReachedForward(e: Engine, s: nat, r: nat, size: nat) returns (b: seq<Byte>)
    requires e.Valid() && !e.rev && Invertible(e) && e.n == BYTE_BITS * size
    requires s < Pow2(e.n) && r < Pow2(e.n)
    ensures |b| == size && e.Feed(s, b) == r
  {
    var t := BeforeZeroBits(e, e.n, r);
    var v := Xor(s, t);
    XorBound(s, t, e.n);
    XorCancel(s, t);
    b := BigEndian(v, size);
    FeedDigest(e, s, v, size);
  }

  lemma SeparateForward(e: Engine, s: nat, a: seq<Byte>, b: seq<Byte>)
    requires e.Valid() && !e.rev && Invertible(e) && e.n == BYTE_BITS * |a| && |b| == |a|
    requires s < Pow2(e.n) && e.Feed(s, a) == e.Feed(s, b)
    ensures a == b
  {
    var u, v := Message(a), Message(b);
    MessageBound(a);
    MessageBound(b);
    MessageRoundTrip(a);
    MessageRoundTrip(b);
    FeedDigest(e, s, u, |a|);
    FeedDigest(e, s, v, |a|);
    XorBound(s, u, e.n);
    XorBound(s, v, e.n);
    ZeroBitsSeparate(e, e.n, Xor(s, u), Xor(s, v));
    XorCancel(s, u);
    XorCancel(s, v);
  }

  // ----------------------------------------------------------- both directions

  lemma MirrorInvertible(e: Engine)
    requires e.Valid() && e.rev && Invertible(e)
    ensures Invertible(Mirror(e))
  {
    TopBit(e.poly, e.n - 1);
  }

  lemma Reached(e: Engine, s: nat, r: nat, size: nat) returns (b: seq<Byte>)
    requires e.Valid() && Invertible(e) && e.n == BYTE_BITS * size
    requires s < Pow2(e.n) && r < Pow2(e.n)
    ensures |b| == size && e.Feed(s, b) == r
  {
    if e.rev {
      MirrorInvertible(e);
      ReverseBound(s, e.n);
      ReverseBound(r, e.n);
      var d := ReachedForward(Mirror(e), Reverse(s, e.n), Reverse(r, e.n), size);
      b := ReverseBytes(d);
      ReverseBytesTwice(d);
      ReflectedIsMirrored(e, s, b);
      ReverseTwice(r, e.n);
    } else {
      b := ReachedForward(e, s, r, size);
    }
  }

  lemma Separate(e: Engine, s: nat, a: seq<Byte>, b: seq<Byte>)
    requires e.Valid() && Invertible(e) && e.n == BYTE_BITS * |a| && |b| == |a|
    requires s < Pow2(e.n) && e.Feed(s, a) == e.Feed(s, b)
    ensures a == b
  {
    if e.rev {
      var m, t := Mirror(e), Reverse(s, e.n);
      MirrorInvertible(e);
      ReverseBound(s, e.n);
      ReflectedIsMirrored(e, s, a);
      ReflectedIsMirrored(e, s, b);
      FeedBound(m, t, ReverseBytes(a));
      FeedBound(m, t, ReverseBytes(b));
      ReverseTwice(m.Feed(t, ReverseBytes(a)), e.n);
      ReverseTwice(m.Feed(t, ReverseBytes(b)), e.n);
      SeparateForward(m, t, ReverseBytes(a), ReverseBytes(b));
      ReverseBytesTwice(a);
      ReverseBytesTwice(b);
    } else {
      SeparateForward(e, s, a, b);
    }
  }

  /**
   From every start, every value of the CRC is taken by exactly one message as long as the
   register, in both directions and for every xorOut.
   */
  lemma OneMessage(c: Config, crc: nat, target: nat, size: nat) returns (b: seq<Byte>)
    requires c.Valid() && Invertible(c.e) && c.e.n == BYTE_BITS * size
    requires crc < Pow2(c.e.n) && target < Pow2(c.e.n)
    ensures |b| == size && c.Value(b, crc) == target
    ensures forall b' :: |b'| == size && c.Value(b', crc) == target ==> b' == b
  {
    var s, r := Xor(c.xorOut, crc), Xor(c.xorOut, target);
    RegisterOf(c, crc);
    XorBound(c.xorOut, target, c.e.n);
    XorCancel(c.xorOut, target);
    b := Reached(c.e, s, r, size);
    forall b' | |b'| == size && c.Value(b', crc) == target ensures b' == b {
      XorCancel(c.xorOut, c.e.Feed(s, b'));
      Separate(c.e, s, b', b);
    }
  }
}
