/**
 crcmod/crcmod.py: parameter checks, the CRC function made from a generator, and
 the streaming object `Crc`.
 */
module CrcMod {
  import opened Basics
  import opened Bits
  import opened Polynomial
  import opened Register
  import opened Reflection
  import opened CrcTable
  import opened CrcReference

  /** Verified parameters: the engine, and both values reduced to its width. */
  datatype Config = Config(e: Engine, initCrc: nat, xorOut: nat) {
    predicate Valid() {
      e.Valid() && initCrc < Pow2(e.n) && xorOut < Pow2(e.n)
    }

    /** crcfun(data, crc) */
    function Value(data: seq<Byte>, crc: int): nat
      requires Valid()
    {
      Xor(xorOut, e.Feed(Low(XorInt(xorOut, crc), e.n), data))
    }

    /** crcfun(data) */
    function Crc(data: seq<Byte>): nat
      requires Valid()
    {
      Value(data, initCrc)
    }
  }

  /** The configuration that the parameters of a CRC stand for. */
  function ConfigOf(poly: int, n: nat, initCrc: int, rev: bool, xorOut: int): (c: Config)
    requires n >= 8
    ensures c.Valid() && c.e.n == n && c.e.rev == rev
  {
    LowBound(initCrc, n);
    LowBound(xorOut, n);
    Config(EngineOf(poly, n, rev), Low(initCrc, n), Low(xorOut, n))
  }

  /** The widths that a CRC may have. */
  predicate IsSize(n: nat) {
    n == 8 || n == 16 || n == 24 || n == 32 || n == 64
  }

  /** The leading term of the generator is x^n. */
  predicate LeadsAt(poly: int, n: nat) {
    Pow2(n) <= poly < Pow2(n + 1)
  }

  /** The generator has degree n, one of the supported widths. */
  ghost predicate HasDegree(poly: int, n: nat) {
    IsSize(n) && LeadsAt(poly, n)
  }

  const SIZES: seq<nat> := [8, 16, 24, 32, 64]

  /** In numbers. */
  lemma DegreeMeans(poly: int, n: nat)
    ensures HasDegree(poly, n) <==> n in {8, 16, 24, 32, 64} && Pow2(n) <= poly < Pow2(n + 1)
  {}

  /** _verifyPoly, with None for its ValueError */
  method VerifyPoly(poly: int) returns (r: Option<nat>)
    ensures r.Some? ==> r.value >= 8 && HasDegree(poly, r.value)
    ensures r.None? ==> forall n: nat :: !HasDegree(poly, n)
  {
    for i := 0 to |SIZES|
      invariant forall j: nat :: j < i ==> !LeadsAt(poly, SIZES[j])
    {
      var n := SIZES[i];
      var low := Pow2(n);
      var high := low * 2;
      if low <= poly < high {
        SizesAreSizes(i);
        return Some(n);
      }
    }
    NoDegree(poly);
    return None;
  }

  lemma NoDegree(poly: int)
    requires forall j: nat :: j < |SIZES| ==> !LeadsAt(poly, SIZES[j])
    ensures forall n: nat :: !HasDegree(poly, n)
  {
    forall n: nat ensures !HasDegree(poly, n) {
      if IsSize(n) { SizeIsListed(n); }
    }
  }

  lemma SizesAreSizes(i: nat)
    requires i < |SIZES|
    ensures IsSize(SIZES[i])
  {}

  lemma SizeIsListed(n: nat)
    requires IsSize(n)
    ensures exists j: nat :: j < |SIZES| && SIZES[j] == n
  {
    assert SIZES[0] == 8 && SIZES[1] == 16 && SIZES[2] == 24 && SIZES[3] == 32 && SIZES[4] == 64;
  }

  /** _verifyParams */
  method VerifyParams(poly: int, initCrc: int, xorOut: int) returns (r: Option<(nat, nat, nat)>)
    ensures r.Some? ==>
              && r.value.0 >= 8 && HasDegree(poly, r.value.0)
              && r.value.1 == Low(initCrc, r.value.0) && r.value.2 == Low(xorOut, r.value.0)
    ensures r.None? ==> forall n: nat :: !HasDegree(poly, n)
  {
    var sizeBits := VerifyPoly(poly);
    if sizeBits.None? { return None; }
    var n := sizeBits.value;
    return Some((n, Low(initCrc, n), Low(xorOut, n)));
  }

  /** The table half of _mkCrcFun. */
  method MkCrcTable(poly: int, n: nat, rev: bool) returns (table: seq<nat>)
    requires n >= 8
    ensures IsTable(table, EngineOf(poly, n, rev))
  {
    if rev {
      table := MkTableR(poly, n);
    } else {
      table := MkTable(poly, n);
    }
  }

  /** The closures of _mkCrcFun; `c` is what the table and the numbers stand for. */
  method CrcFun(data: seq<Byte>, crc: int, table: seq<nat>, n: nat, rev: bool, xorOut: nat, ghost c: Config)
    returns (r: nat)
    requires c.Valid() && c.e.n == n && c.e.rev == rev && c.xorOut == xorOut && IsTable(table, c.e)
    ensures r == c.Value(data, crc)
    ensures IsCrc(Generator(if rev then Mirror(c.e) else c.e), n, Low(crc, n), rev, xorOut, data, r)
  {
    ValueIsCrc(c, data, crc);
    var start := if xorOut == 0 then crc else XorInt(xorOut, crc);
    var register;
    if rev {
      register := CrcReflected(data, start, table, n, c.e);
    } else {
      register := CrcForward(data, start, table, n, c.e);
    }
    r := if xorOut == 0 then register else Xor(xorOut, register);
    assert XorInt(0, crc) == crc by { if crc >= 0 { XorZero(crc); } else { XorZero(-1 - crc); } }
    XorZero(register);
  }

  // --------------------------------------------------- what it is, by division

  /**
   What a CRC is, by division of polynomials and in terms of the parameters alone.  The
   register starts at out ^ crc; the message, with the register's content in front of it and
   n zero bits behind, is divided by the generator; the remainder is taken with out.  When
   reflected, start, bytes and remainder are bit reversed.
   */
  ghost predicate IsCrc(poly: nat, n: nat, crc: nat, rev: bool, out: nat, data: seq<Byte>, value: nat) {
    var start := if rev then Reverse(Xor(out, crc), n) else Xor(out, crc);
    var message := Message(if rev then ReverseBytes(data) else data);
    exists q, r ::
      LeavesCrc(poly, n, start, message, |data|, q, r) && value == Xor(out, if rev then Reverse(r, n) else r)
  }

  /** The message of len bytes behind the register's start, times x^n, leaves r. */
  ghost predicate LeavesCrc(poly: nat, n: nat, start: nat, message: nat, len: nat, q: nat, r: nat) {
    DivRem(Xor(Shl(start, BYTE_BITS * len), Shl(message, n)), poly, q, r)
  }

  /** There is only one such value. */
  lemma OneCrc(poly: nat, n: nat, crc: nat, rev: bool, out: nat, data: seq<Byte>, v: nat, w: nat)
    requires IsCrc(poly, n, crc, rev, out, data, v) && IsCrc(poly, n, crc, rev, out, data, w)
    ensures v == w
  {
    var start := if rev then Reverse(Xor(out, crc), n) else Xor(out, crc);
    var message := Message(if rev then ReverseBytes(data) else data);
    var q, r :| LeavesCrc(poly, n, start, message, |data|, q, r)
                && v == Xor(out, if rev then Reverse(r, n) else r);
    var q', r' :| LeavesCrc(poly, n, start, message, |data|, q', r')
                  && w == Xor(out, if rev then Reverse(r', n) else r');
    LeavesOne(poly, n, start, message, |data|, q, r, q', r');
  }

  lemma LeavesOne(poly: nat, n: nat, start: nat, message: nat, len: nat, q: nat, r: nat, q': nat, r': nat)
    requires LeavesCrc(poly, n, start, message, len, q, r) && LeavesCrc(poly, n, start, message, len, q', r')
    ensures r == r'
  {
    DivRemUnique(Xor(Shl(start, BYTE_BITS * len), Shl(message, n)), poly, q, r, q', r');
  }

  /** The register is a remainder: a quotient exists. */
  lemma FeedDivides(e: Engine, s0: nat, data: seq<Byte>) returns (q: nat)
    requires e.Valid() && !e.rev && s0 < Pow2(e.n)
    ensures DivRem(Dividend(e, s0, data), Generator(e), q, e.Feed(s0, data))
  {
    q := FeedCongruent(e, s0, data);
    FeedBound(e, s0, data);
    GeneratorDegree(e);
    DegIffLeading(e.Feed(s0, data), e.n);
  }

  lemma ForwardValue(c: Config, data: seq<Byte>, crc: nat)
    requires c.Valid() && !c.e.rev && crc < Pow2(c.e.n)
    ensures IsCrc(Generator(c.e), c.e.n, crc, false, c.xorOut, data, c.Value(data, crc))
  {
    RegisterOf(c, crc);
    var start := Xor(c.xorOut, crc);
    var q := FeedDivides(c.e, start, data);
    assert LeavesCrc(Generator(c.e), c.e.n, start, Message(data), |data|, q, c.e.Feed(start, data));
  }

  lemma ReflectedValue(c: Config, data: seq<Byte>, crc: nat)
    requires c.Valid() && c.e.rev && crc < Pow2(c.e.n)
    ensures IsCrc(Generator(Mirror(c.e)), c.e.n, crc, true, c.xorOut, data, c.Value(data, crc))
  {
    var start, n := Xor(c.xorOut, crc), c.e.n;
    RegisterOf(c, crc);
    ReverseBound(start, n);
    ReflectedIsMirrored(c.e, start, data);
    var q := FeedDivides(Mirror(c.e), Reverse(start, n), ReverseBytes(data));
    var r := Mirror(c.e).Feed(Reverse(start, n), ReverseBytes(data));
    assert LeavesCrc(Generator(Mirror(c.e)), n, Reverse(start, n), Message(ReverseBytes(data)), |data|, q, r);
    assert c.Value(data, crc) == Xor(c.xorOut, Reverse(r, n));
  }

  lemma ValueIsCrc(c: Config, data: seq<Byte>, crc: int)
    requires c.Valid()
    ensures IsCrc(Generator(if c.e.rev then Mirror(c.e) else c.e), c.e.n, Low(crc, c.e.n), c.e.rev, c.xorOut,
                  data, c.Value(data, crc))
  {
    ValueOfLow(c, data, crc);
    LowBound(crc, c.e.n);
    if c.e.rev { ReflectedValue(c, data, Low(crc, c.e.n)); } else { ForwardValue(c, data, Low(crc, c.e.n)); }
  }

  /** For every generator, direction, start and xorOut, the value is the CRC by division. */
  lemma ValueByDivision(poly: nat, n: nat, initCrc: int, rev: bool, xorOut: int, data: seq<Byte>, crc: int)
    requires n >= 8 && Pow2(n) <= poly < Pow2(n + 1)
    ensures IsCrc(poly, n, Low(crc, n), rev, Low(xorOut, n), data,
                  ConfigOf(poly, n, initCrc, rev, xorOut).Value(data, crc))
  {
    var c := ConfigOf(poly, n, initCrc, rev, xorOut);
    GeneratorOf(poly, n);
    if rev { EnginesMirrored(poly, n); }
    ValueIsCrc(c, data, crc);
  }

  /** The CRC of a generator of degree n, for any initCrc and xorOut: bit by bit, and by division. */
  ghost predicate IsCrcOf(poly: int, n: nat, initCrc: int, rev: bool, xorOut: int, data: seq<Byte>, value: nat) {
    && n >= 8 && HasDegree(poly, n)
    && value == ConfigOf(poly, n, initCrc, rev, xorOut).Crc(data)
    && IsCrc(poly, n, Low(initCrc, n), rev, Low(xorOut, n), data, value)
  }

  lemma ConfigCrc(poly: int, n: nat, initCrc: int, rev: bool, xorOut: int, data: seq<Byte>)
    requires n >= 8 && HasDegree(poly, n)
    ensures IsCrcOf(poly, n, initCrc, rev, xorOut, data, ConfigOf(poly, n, initCrc, rev, xorOut).Crc(data))
  {
    var init := Low(initCrc, n);
    LowBound(initCrc, n);
    LowSmall(init, n);
    ValueByDivision(poly, n, initCrc, rev, xorOut, data, init);
  }

  /** Calling the function that mkCrcFun returns, with None for its ValueError. */
  method MkCrcFunAndCall(poly: int, initCrc: int, rev: bool, xorOut: int, data: seq<Byte>)
    returns (r: Option<nat>)
    ensures r.None? <==> forall n: nat :: !HasDegree(poly, n)
    ensures r.Some? ==> exists n: nat :: IsCrcOf(poly, n, initCrc, rev, xorOut, data, r.value)
  {
    var p := VerifyParams(poly, initCrc, xorOut);
    if p.None? { return None; }
    var (n, init, out) := p.value;
    var table := MkCrcTable(poly, n, rev);
    var crc := CrcFun(data, init, table, n, rev, out, ConfigOf(poly, n, initCrc, rev, xorOut));
    ConfigCrc(poly, n, initCrc, rev, xorOut, data);
    return Some(crc);
  }

  // ----------------------------------------------------------- laws of crcfun

  lemma ValueBound(c: Config, data: seq<Byte>, crc: int)
    requires c.Valid()
    ensures c.Value(data, crc) < Pow2(c.e.n)
  {
    var s := Low(XorInt(c.xorOut, crc), c.e.n);
    LowBound(XorInt(c.xorOut, crc), c.e.n);
    FeedBound(c.e, s, data);
    XorBound(c.xorOut, c.e.Feed(s, data), c.e.n);
  }

  /** Only the bits of the register's width count, and they may come as a negative number. */
  lemma ValueOfLow(c: Config, data: seq<Byte>, crc: int)
    requires c.Valid()
    ensures c.Value(data, crc) == c.Value(data, Low(crc, c.e.n))
  {
    LowXorInt(c.xorOut, crc, c.e.n);
    LowXorInt(c.xorOut, Low(crc, c.e.n), c.e.n);
    LowBound(crc, c.e.n);
    LowSmall(Low(crc, c.e.n), c.e.n);
  }

  /** A CRC in range is the register it stands for, seen through xorOut. */
  lemma RegisterOf(c: Config, crc: nat)
    requires c.Valid() && crc < Pow2(c.e.n)
    ensures Low(Xor(c.xorOut, crc), c.e.n) == Xor(c.xorOut, crc) < Pow2(c.e.n)
  {
    XorBound(c.xorOut, crc, c.e.n);
    LowSmall(Xor(c.xorOut, crc), c.e.n);
  }

  /** initCrc is the CRC of the empty string. */
  lemma CrcOfNothing(c: Config, crc: nat)
    requires c.Valid() && crc < Pow2(c.e.n)
    ensures c.Value([], crc) == crc
  {
    RegisterOf(c, crc);
    XorCancel(c.xorOut, crc);
  }

  /** Continuing from a CRC is the CRC of the concatenation, for every xorOut. */
  lemma CrcContinues(c: Config, a: seq<Byte>, b: seq<Byte>, crc: int)
    requires c.Valid()
    ensures c.Value(a + b, crc) == c.Value(b, c.Value(a, crc))
  {
    var s := Low(XorInt(c.xorOut, crc), c.e.n);
    var t := c.e.Feed(s, a);
    LowBound(XorInt(c.xorOut, crc), c.e.n);
    FeedBound(c.e, s, a);
    FeedAppend(c.e, s, a, b);
    XorCancel(c.xorOut, t);
    LowSmall(t, c.e.n);
  }

  // ------------------------------------------------------------------ digests

  /** The bytes of v, most significant first. */
  function BigEndian(v: nat, size: nat): (b: seq<Byte>)
    ensures |b| == size
    decreases size
  {
    if size == 0 then [] else
      LowBound(v, BYTE_BITS); Pow2Values();
      BigEndian(Shr(v, BYTE_BITS), size - 1) + [Low(v, BYTE_BITS)]
  }

  lemma BigEndianLast(v: nat, size: nat, rest: seq<Byte>)
    requires size > 0
    ensures Low(v, BYTE_BITS) < 256
    ensures BigEndian(v, size) + rest
            == BigEndian(Shr(v, BYTE_BITS), size - 1) + ([Low(v, BYTE_BITS)] + rest)
  {
    LowBound(v, BYTE_BITS);
    Pow2Values();
  }

  /** A digest of enough bytes is the value itself. */
  lemma {:induction false} DigestRoundTrip(v: nat, size: nat)
    requires v < Pow2(BYTE_BITS * size)
    ensures Message(BigEndian(v, size)) == v
    decreases size
  {
    if size > 0 {
      var hi := Shr(v, BYTE_BITS);
      SplitSum(v, BYTE_BITS);
      ShrBound(v, BYTE_BITS * (size - 1), BYTE_BITS);
      DigestRoundTrip(hi, size - 1);
      assert BigEndian(v, size)[..size - 1] == BigEndian(hi, size - 1);
    }
  }

  /** Feeding a register-sized message is adding it and feeding that many zero bits. */
  lemma FeedDigest(e: Engine, s: nat, v: nat, size: nat)
    requires e.Valid() && !e.rev && e.n == BYTE_BITS * size
    requires s < Pow2(e.n) && v < Pow2(e.n)
    ensures e.Feed(s, BigEndian(v, size)) == e.ZeroBits(e.n, Xor(s, v))
  {
    var n, data, t := e.n, BigEndian(v, size), Xor(s, v);
    assert Dividend(e, s, data) == Shl(t, n) by {
      DigestRoundTrip(v, size);
      XorShl(s, v, n);
    }
    var q := FeedCongruent(e, s, data);
    FeedBound(e, s, data);
    MulUnit(Generator(e));
    XorZero(t);
    XorBound(s, v, n);
    var q' := CongruentZeroBits(e, n, t, 0, t);
    ZeroBitsBound(e, n, t);
    GeneratorDegree(e);
    DegIffLeading(e.Feed(s, data), n);
    DegIffLeading(e.ZeroBits(n, t), n);
    DivRemUnique(Shl(t, n), Generator(e), q, e.Feed(s, data), q', e.ZeroBits(n, t));
  }

  /**
   The residue: a forward CRC continued over its own digest always ends at the
   same value, fixed by the parameters alone; without xorOut that value is 0.
   */
  lemma Residue(c: Config, crc: nat, size: nat)
    requires c.Valid() && !c.e.rev && c.e.n == BYTE_BITS * size && crc < Pow2(c.e.n)
    ensures c.Value(BigEndian(crc, size), crc) == Xor(c.xorOut, c.e.ZeroBits(c.e.n, c.xorOut))
    ensures c.xorOut == 0 ==> c.Value(BigEndian(crc, size), crc) == 0
  {
    RegisterOf(c, crc);
    FeedDigest(c.e, Xor(c.xorOut, crc), crc, size);
    XorCancel(crc, c.xorOut);
    if c.xorOut == 0 {
      ZeroBitsLinear(c.e, c.e.n, 0, 0);
      XorZero(0);
    }
  }

  // ------------------------------------------------------- the streaming object

  class Crc {
    var digestSize: nat
    var initCrc: nat
    var xorOut: nat
    var poly: int
    var reverse: bool
    var table: seq<nat>
    var crcValue: nat
    /** What the parameter fields stand for. */
    ghost var config: Config
    /** Everything fed since the object was created or renewed. */
    ghost var fed: seq<Byte>

    ghost predicate Valid()
      reads this
    {
      && digestSize > 0 && config.Valid()
      && config.e == EngineOf(poly, 8 * digestSize, reverse)
      && config.initCrc == initCrc && config.xorOut == xorOut
      && IsTable(table, config.e)
      && crcValue == config.Crc(fed)
    }

    /** Two objects with the same parameters. */
    twostate predicate SameParameters(new other: Crc)
      reads this, other
    {
      && digestSize == other.digestSize == old(digestSize)
      && initCrc == other.initCrc == old(initCrc) && xorOut == other.xorOut == old(xorOut)
      && poly == other.poly == old(poly) && reverse == other.reverse == old(reverse)
      && table == other.table == old(table) && config == other.config == old(config)
    }

    /** An object with every field given, as __init__ and new assign them. */
    constructor Assign(digestSize: nat, initCrc: nat, xorOut: nat, poly: int, reverse: bool,
                       table: seq<nat>, ghost config: Config)
      requires digestSize > 0 && config.Valid()
      requires config.e == EngineOf(poly, 8 * digestSize, reverse)
      requires config.initCrc == initCrc && config.xorOut == xorOut && IsTable(table, config.e)
      ensures Valid() && fed == [] && crcValue == initCrc
      ensures this.digestSize == digestSize && this.initCrc == initCrc && this.xorOut == xorOut
      ensures this.poly == poly && this.reverse == reverse && this.table == table
      ensures this.config == config
    {
      this.digestSize, this.initCrc, this.xorOut := digestSize, initCrc, xorOut;
      this.poly, this.reverse, this.table := poly, reverse, table;
      this.crcValue := initCrc;
      this.config, this.fed := config, [];
      CrcOfNothing(config, initCrc);
    }

    /** Crc(poly, initCrc, rev, xorOut), with null for the ValueError of the checks. */
    static method Create(poly: int, initCrc: int, rev: bool, xorOut: int) returns (c: Crc?)
      ensures c == null <==> forall n: nat :: !HasDegree(poly, n)
      ensures c != null ==>
                && fresh(c) && c.Valid() && c.fed == [] && c.poly == poly && c.reverse == rev
                && HasDegree(poly, 8 * c.digestSize)
                && c.config == ConfigOf(poly, 8 * c.digestSize, initCrc, rev, xorOut)
    {
      var p := VerifyParams(poly, initCrc, xorOut);
      if p.None? { return null; }
      var (n, init, out) := p.value;
      var table := MkCrcTable(poly, n, rev);
      SizeInBytes(n);
      c := new Crc.Assign(n / 8, init, out, poly, rev, table, ConfigOf(poly, n, initCrc, rev, xorOut));
    }

    /** new(arg) */
    method New(arg: Option<seq<Byte>>) returns (n: Crc)
      requires Valid()
      ensures fresh(n) && n.Valid() && SameParameters(n)
      ensures n.fed == if arg.Some? then arg.value else []
    {
      n := new Crc.Assign(digestSize, initCrc, xorOut, poly, reverse, table, config);
      if arg.Some? {
        n.Update(arg.value);
        assert [] + arg.value == arg.value;
      }
    }

    /** copy() */
    method Copy() returns (c: Crc)
      requires Valid()
      ensures fresh(c) && c.Valid() && SameParameters(c)
      ensures c.fed == fed && c.crcValue == crcValue
    {
      c := New(None);
      c.crcValue := crcValue;
      c.fed := fed;
    }

    /** update(data) */
    method Update(data: seq<Byte>)
      requires Valid()
      modifies this`crcValue, this`fed
      ensures Valid() && fed == old(fed) + data
    {
      CrcContinues(config, fed, data, initCrc);
      crcValue := CrcFun(data, crcValue, table, 8 * digestSize, reverse, xorOut, config);
      fed := fed + data;
    }

    /** digest() */
    method Digest() returns (bytes: seq<Byte>)
      requires Valid()
      ensures bytes == BigEndian(crcValue, digestSize)
      ensures Message(bytes) == crcValue
    {
      var n: nat, crc: nat := digestSize, crcValue;
      bytes := [];
      while n > 0
        invariant n <= digestSize
        invariant BigEndian(crcValue, digestSize) == BigEndian(crc, n) + bytes
      {
        BigEndianLast(crc, n, bytes);
        // The list of the source is appended to and reversed at the end.
        bytes := [Low(crc, BYTE_BITS)] + bytes;
        crc := Shr(crc, BYTE_BITS);
        n := n - 1;
      }
      ValueBound(config, fed, initCrc);
      DigestRoundTrip(crcValue, digestSize);
    }
  }

  /** A forward object updated with its own digest holds the residue, whatever it was fed before. */
  method UpdateWithDigest(crc: Crc)
    requires crc.Valid() && !crc.reverse
    modifies crc`crcValue, crc`fed
    ensures crc.Valid()
    ensures var n := 8 * crc.digestSize;
            crc.crcValue == Xor(crc.xorOut, EngineOf(crc.poly, n, false).ZeroBits(n, crc.xorOut))
    ensures crc.xorOut == 0 ==> crc.crcValue == 0
  {
    ghost var c, before, fed := crc.config, crc.crcValue, crc.fed;
    ValueBound(c, fed, c.initCrc);
    var bytes := crc.Digest();
    CrcContinues(c, fed, bytes, c.initCrc);
    Residue(c, before, crc.digestSize);
    crc.Update(bytes);
  }

  lemma SizeInBytes(n: nat)
    requires IsSize(n)
    ensures n / 8 > 0 && 8 * (n / 8) == n
  {}
}
