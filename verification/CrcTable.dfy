/**
 The table-driven implementation: the tables of crcmod/crcmod.py and the byte
 loops of crcmod/_crcfunpy.py, proved to run the bit-serial register.
 */
module CrcTable {
  import opened Basics
  import opened Bits
  import opened Register
  import opened Reflection

  /** The engine a generator polynomial stands for. */
  function EngineOf(poly: int, n: nat, rev: bool): (e: Engine)
    requires n >= 8
    ensures e.Valid() && e.n == n && e.rev == rev
  {
    LowBound(poly, n);
    ReverseBound(Low(poly, n), n);
    Engine(n, if rev then Reverse(Low(poly, n), n) else Low(poly, n), rev)
  }

  /** One generator gives mirrored engines in the two directions. */
  lemma EnginesMirrored(poly: int, n: nat)
    requires n >= 8
    ensures Mirror(EngineOf(poly, n, true)) == EngineOf(poly, n, false)
  {
    LowBound(poly, n);
    ReverseTwice(Low(poly, n), n);
  }

  /**
   Duality over one generator: what the reflected loop leaves in the register is the bit
   reversal of what the forward loop leaves, on bit-reversed bytes from the bit-reversed
   register.
   */
  lemma DirectionsDual(poly: int, n: nat, s: nat, data: seq<Byte>)
    requires n >= 8 && s < Pow2(n)
    ensures EngineOf(poly, n, true).Feed(s, data)
            == Reverse(EngineOf(poly, n, false).Feed(Reverse(s, n), ReverseBytes(data)), n)
  {
    EnginesMirrored(poly, n);
    ReflectedIsMirrored(EngineOf(poly, n, true), s, data);
  }

  /** Entry i is what byte i leaves behind in an empty register. */
  ghost predicate IsTable(table: seq<nat>, e: Engine)
    requires e.Valid()
  {
    |table| == 256 && forall i: nat :: i < 256 ==> table[i] == e.Step(0, i)
  }

  // ------------------------------------------------------- bit loops, masked late

  lemma {:induction false} LowLow(x: nat, j: nat, k: nat)
    requires j <= k
    ensures Low(Low(x, k), j) == Low(x, j)
  {
    if j > 0 { LowLow(x / 2, j - 1, k - 1); }
  }

  lemma {:induction false} ShrLow(x: nat, j: nat, k: nat)
    requires j < k
    ensures Shr(Low(x, k), j) % 2 == Shr(x, j) % 2
  {
    if j > 0 {
      ShrLow(x / 2, j - 1, k - 1);
      ShrHalf(x, j - 1);
      ShrHalf(Low(x, k), j - 1);
    }
  }

  lemma ZeroBitOfLow(e: Engine, c: nat)
    requires e.Valid() && !e.rev
    ensures e.ZeroBit(Low(c, e.n))
            == Xor(2 * Low(c, e.n - 1), if Shr(c, e.n - 1) % 2 == 1 then e.poly else 0)
  {
    ShrLow(c, e.n - 1, e.n);
    LowLow(c, e.n - 1, e.n);
  }

  /**
   A shift that lets bits run past the register is the register step on the bits
   that count, so masking can wait until the end.
   */
  lemma UnmaskedStep(e: Engine, c: nat, next: nat)
    requires e.Valid() && !e.rev
    requires next == Xor(2 * c, if Shr(c, e.n - 1) % 2 == 1 then e.poly else 0)
    ensures Low(next, e.n) == e.ZeroBit(Low(c, e.n))
  {
    ZeroBitOfLow(e, c);
    LowDoubleXor(c, if Shr(c, e.n - 1) % 2 == 1 then e.poly else 0, e.n);
  }

  lemma LowDoubleXor(c: nat, p: nat, n: nat)
    requires n > 0 && p < Pow2(n)
    ensures Low(Xor(2 * c, p), n) == Xor(2 * Low(c, n - 1), p)
  {
    var d := 2 * c;
    LowDouble(c, n);
    LowXor(d, p, n);
    LowSmall(p, n);
  }

  lemma LowDouble(x: nat, k: nat)
    requires k > 0
    ensures Low(2 * x, k) == 2 * Low(x, k - 1)
  {
    var d := 2 * x;
    assert d / 2 == x && d % 2 == 0;
  }

  lemma ZeroBitsNext(e: Engine, i: nat, s: nat)
    requires e.Valid()
    ensures e.ZeroBits(i + 1, s) == e.ZeroBit(e.ZeroBits(i, s))
  {
    ZeroBitsAdd(e, 1, i, s);
    assert e.ZeroBits(1, e.ZeroBits(i, s)) == e.ZeroBits(0, e.ZeroBit(e.ZeroBits(i, s)));
  }

  /** _bytecrc */
  method ByteCrc(crc0: nat, poly: nat, n: nat) returns (crc: nat)
    requires n >= 8 && poly < Pow2(n)
    ensures crc == Engine(n, poly, false).ZeroBits(BYTE_BITS, Low(crc0, n))
  {
    ghost var e := Engine(n, poly, false);
    crc := crc0;
    var mask := Pow2(n - 1);
    for i := 0 to BYTE_BITS
      invariant Low(crc, n) == e.ZeroBits(i, Low(crc0, n))
    {
      ghost var before := crc;
      AndBit(crc, n - 1);
      XorZero(2 * crc);
      if And(crc, mask) != 0 {
        crc := Xor(2 * crc, poly);
      } else {
        crc := 2 * crc;
      }
      UnmaskedStep(e, before, crc);
      ZeroBitsNext(e, i, Low(crc0, n));
    }
    mask := Pow2(n) - 1;
    AndMask(crc, n);
    crc := And(crc, mask);
  }

  /** _bytecrc_r */
  method ByteCrcR(crc0: nat, poly: nat, n: nat) returns (crc: nat)
    requires n >= 8 && poly < Pow2(n) && crc0 < Pow2(n)
    ensures crc == Engine(n, poly, true).ZeroBits(BYTE_BITS, crc0)
  {
    ghost var e := Engine(n, poly, true);
    crc := crc0;
    for i := 0 to BYTE_BITS
      invariant crc == e.ZeroBits(i, crc0)
    {
      ZeroBitsNext(e, i, crc0);
      XorZero(crc / 2);
      if crc % 2 == 1 {
        crc := Xor(crc / 2, poly);
      } else {
        crc := crc / 2;
      }
    }
    ZeroBitsBound(e, BYTE_BITS, crc0);
    LowSmall(crc, n);
    AndMask(crc, n);
    var mask := Pow2(n) - 1;
    crc := And(crc, mask);
  }

  /** _mkTable */
  method MkTable(poly: int, n: nat) returns (table: seq<nat>)
    requires n >= 8
    ensures IsTable(table, EngineOf(poly, n, false))
  {
    ghost var e := EngineOf(poly, n, false);
    var p := Low(poly, n);
    table := [];
    for i := 0 to 256
      invariant |table| == i
      invariant forall j: nat :: j < i ==> table[j] == e.Step(0, j)
    {
      var c := Shl(i, n - 8);
      EmptyAbsorb(e, i);
      LowSmall(c, n);
      var entry := ByteCrc(c, p, n);
      table := table + [entry];
    }
  }

  /** _mkTable_r */
  method MkTableR(poly: int, n: nat) returns (table: seq<nat>)
    requires n >= 8
    ensures IsTable(table, EngineOf(poly, n, true))
  {
    ghost var e := EngineOf(poly, n, true);
    var p := BitRev(Low(poly, n), n);
    table := [];
    for i := 0 to 256
      invariant |table| == i
      invariant forall j: nat :: j < i ==> table[j] == e.Step(0, j)
    {
      EmptyAbsorb(e, i);
      var entry := ByteCrcR(i, p, n);
      table := table + [entry];
    }
  }

  lemma EmptyAbsorb(e: Engine, x: Byte)
    requires e.Valid()
    ensures e.Absorb(0, x) == (if e.rev then x else Shl(x, e.n - 8)) < Pow2(e.n)
  {
    AbsorbBound(e, 0, x);
    XorZero(if e.rev then x else Shl(x, e.n - 8));
  }

  // ------------------------------------------------- a table step is eight bits

  /** As long as no carry occurs, zero bits only shift. */
  lemma {:induction false} NoCarry(e: Engine, k: nat, j: nat, s: nat)
    requires e.Valid() && !e.rev && j + k == e.n && s < Pow2(j)
    ensures e.ZeroBits(k, s) == Shl(s, k)
    decreases k
  {
    if k > 0 {
      Pow2Mono(j, e.n - 1);
      ShrZeroBelow(s, e.n - 1);
      LowSmall(s, e.n - 1);
      XorZero(2 * s);
      NoCarry(e, k - 1, j + 1, 2 * s);
      ShlDouble(s, k - 1);
    }
  }

  lemma ShrZeroBelow(x: nat, k: nat)
    requires x < Pow2(k)
    ensures Shr(x, k) == 0
  {
    LowSmall(x, k);
    SplitSum(x, k);
    ShlPositive(Shr(x, k), k);
  }

  lemma {:induction false} ShlPositive(x: nat, k: nat)
    ensures Shl(x, k) == 0 <==> x == 0
  {
    if k > 0 { ShlPositive(x, k - 1); }
  }

  lemma {:induction false} NoCarryReflected(e: Engine, k: nat, s: nat)
    requires e.Valid() && e.rev
    ensures e.ZeroBits(k, Shl(s, k)) == s
    decreases k
  {
    if k > 0 {
      XorZero(Shl(s, k - 1));
      NoCarryReflected(e, k - 1, s);
    }
  }

  /** The mask that keeps a shifted register inside its n bits. */
  lemma {:induction false} ShiftMask(s: nat, m: nat, k: nat)
    ensures Pow2(k) <= Pow2(m + k)
    ensures And(Shl(s, k), Pow2(m + k) - Pow2(k)) == Shl(Low(s, m), k)
  {
    Pow2Mono(k, m + k);
    ShlMinus(m, k);
    AndShl(s, Pow2(m) - 1, k);
    AndMask(s, m);
  }

  lemma {:induction false} ShlMinus(m: nat, k: nat)
    ensures Shl(Pow2(m) - 1, k) == Pow2(m + k) - Pow2(k)
  {
    if k > 0 { ShlMinus(m, k - 1); }
  }

  /** Only the byte at the top of the register meets the data byte. */
  lemma AbsorbAtTop(e: Engine, k: nat, s: nat, x: Byte)
    requires e.Valid() && !e.rev && k == BYTE_BITS
    ensures e.Absorb(s, x)
            == Xor(Shl(Xor(x, Shr(s, e.n - k)), e.n - k), Low(s, e.n - k))
  {
    var m := e.n - k;
    var hi, lo := Shr(s, m), Low(s, m);
    Split(s, m);
    XorShl(x, hi, m);
    XorComm(Xor(Shl(hi, m), lo), Shl(x, m));
    XorAssoc(Shl(x, m), Shl(hi, m), lo);
  }

  lemma TableIndex(e: Engine, k: nat, s: nat, x: Byte)
    requires e.Valid() && s < Pow2(e.n) && k == BYTE_BITS
    ensures Low(Shr(s, e.n - k), k) == Shr(s, e.n - k)
    ensures Xor(x, Shr(s, e.n - k)) < 256 && Xor(x, Low(s, k)) < 256
  {
    Pow2Values();
    ShrBound(s, k, e.n - k);
    LowSmall(Shr(s, e.n - k), k);
    LowBound(s, k);
    XorBound(x, Shr(s, e.n - k), k);
    XorBound(x, Low(s, k), k);
  }

  lemma EntryOf(e: Engine, k: nat, i: nat, table: seq<nat>)
    requires e.Valid() && !e.rev && IsTable(table, e) && k == BYTE_BITS && i < 256
    ensures table[i] == e.ZeroBits(k, Shl(i, e.n - k))
  {
    EmptyAbsorb(e, i);
  }

  lemma TableStepForward(e: Engine, k: nat, s: nat, x: Byte, table: seq<nat>)
    requires e.Valid() && !e.rev && s < Pow2(e.n) && IsTable(table, e) && k == BYTE_BITS
    ensures Xor(x, Shr(s, e.n - k)) < 256
    ensures Xor(table[Xor(x, Shr(s, e.n - k))], Shl(Low(s, e.n - k), k)) == e.Step(s, x)
  {
    var m := e.n - k;
    TableIndex(e, k, s, x);
    var i, lo := Xor(x, Shr(s, m)), Low(s, m);
    AbsorbAtTop(e, k, s, x);
    EntryOf(e, k, i, table);
    ZeroBitsLinear(e, k, Shl(i, m), lo);
    LowBound(s, m);
    NoCarry(e, k, m, lo);
  }

  /** The same step as the byte loops write it, with both masks. */
  lemma MaskedTableStep(e: Engine, k: nat, s: nat, x: Byte, table: seq<nat>, mask: nat)
    requires e.Valid() && !e.rev && s < Pow2(e.n) && IsTable(table, e) && k == BYTE_BITS
    requires mask == Pow2(e.n) - Pow2(k)
    ensures Xor(x, Low(Shr(s, e.n - k), k)) < 256
    ensures Xor(table[Xor(x, Low(Shr(s, e.n - k), k))], And(Shl(s, k), mask)) == e.Step(s, x)
  {
    var m := e.n - k;
    var i, rest := Low(Shr(s, m), k), And(Shl(s, k), mask);
    assert i == Shr(s, m) by { TableIndex(e, k, s, x); }
    assert rest == Shl(Low(s, m), k) by { ShiftMask(s, m, k); }
    TableStepForward(e, k, s, x, table);
  }

  /** The data byte meets the low byte of a reflected register. */
  lemma AbsorbAtBottom(e: Engine, k: nat, s: nat, x: Byte)
    requires e.Valid() && e.rev && k == BYTE_BITS
    ensures e.Absorb(s, x) == Xor(Xor(x, Low(s, k)), Shl(Shr(s, k), k))
  {
    var high, lo := Shl(Shr(s, k), k), Low(s, k);
    Split(s, k);
    XorComm(high, lo);
    XorComm(Xor(lo, high), x);
    XorAssoc(x, lo, high);
  }

  lemma TableStepReflected(e: Engine, k: nat, s: nat, x: Byte, table: seq<nat>)
    requires e.Valid() && e.rev && IsTable(table, e) && k == BYTE_BITS
    ensures Xor(x, Low(s, k)) < 256
    ensures Xor(table[Xor(x, Low(s, k))], Shr(s, k)) == e.Step(s, x)
  {
    var hi, lo := Shr(s, k), Low(s, k);
    var i := Xor(x, lo);
    assert i < 256 by { Pow2Values(); LowBound(s, k); XorBound(x, lo, k); }
    EmptyAbsorb(e, i);
    AbsorbAtBottom(e, k, s, x);
    ZeroBitsLinear(e, k, i, Shl(hi, k));
    NoCarryReflected(e, k, hi);
  }

  /** In a register of one byte nothing is left over beside the table entry. */
  lemma TableStepOneByte(e: Engine, s: nat, x: Byte, table: seq<nat>)
    requires e.Valid() && e.n == 8 && s < Pow2(8) && IsTable(table, e)
    ensures Xor(x, s) < 256 && table[Xor(x, s)] == e.Step(s, x)
  {
    Pow2Values();
    XorBound(x, s, BYTE_BITS);
    EmptyAbsorb(e, Xor(x, s));
    XorComm(x, s);
  }

  // --------------------------------------------------------------- byte loops

  /** The register a byte loop holds after i bytes. */
  ghost predicate Fed(e: Engine, s0: nat, data: seq<Byte>, i: nat, crc: nat)
    requires e.Valid()
  {
    i <= |data| && crc == e.Feed(s0, data[..i]) && crc < Pow2(e.n)
  }

  lemma FedNext(e: Engine, s0: nat, data: seq<Byte>, i: nat, crc: nat)
    requires e.Valid() && i < |data| && Fed(e, s0, data, i, crc)
    ensures Fed(e, s0, data, i + 1, e.Step(crc, data[i]))
  {
    assert data[..i + 1] == data[..i] + [data[i]];
    FeedAppend(e, s0, data[..i], [data[i]]);
    assert e.Feed(crc, [data[i]]) == e.Feed(e.Step(crc, data[i]), []);
    FeedBound(e, crc, [data[i]]);
  }

  lemma FedAll(e: Engine, s0: nat, data: seq<Byte>, crc: nat)
    requires e.Valid() && Fed(e, s0, data, |data|, crc)
    ensures crc == e.Feed(s0, data)
  {
    assert data[..|data|] == data;
  }

  /**
   _crc8, _crc16, _crc24, _crc32 and _crc64.  The shift counts 8, 16, 24 and 56 of
   the source are n - 8, its masks 0xFF00 ... are 2^n - 2^8.
   */
  method CrcForward(data: seq<Byte>, crc0: int, table: seq<nat>, n: nat, ghost e: Engine)
    returns (crc: nat)
    requires e.Valid() && e.n == n && !e.rev && IsTable(table, e)
    ensures crc == e.Feed(Low(crc0, n), data)
  {
    crc := Low(crc0, n);
    LowBound(crc0, n);
    Pow2Mono(BYTE_BITS, n);
    ghost var s0 := crc;
    var mask := Pow2(n) - Pow2(BYTE_BITS);
    for i := 0 to |data|
      invariant Fed(e, s0, data, i, crc)
    {
      var x := data[i];
      FedNext(e, s0, data, i, crc);
      if n == 8 {
        TableStepOneByte(e, crc, x, table);
        crc := table[Xor(x, crc)];
      } else {
        MaskedTableStep(e, BYTE_BITS, crc, x, table, mask);
        crc := Xor(table[Xor(x, Low(Shr(crc, n - BYTE_BITS), BYTE_BITS))],
                   And(Shl(crc, BYTE_BITS), mask));
      }
    }
    FedAll(e, s0, data, crc);
  }

  /** _crc8r, _crc16r, _crc24r, _crc32r and _crc64r */
  method CrcReflected(data: seq<Byte>, crc0: int, table: seq<nat>, n: nat, ghost e: Engine)
    returns (crc: nat)
    requires e.Valid() && e.n == n && e.rev && IsTable(table, e)
    ensures crc == e.Feed(Low(crc0, n), data)
  {
    crc := Low(crc0, n);
    LowBound(crc0, n);
    ghost var s0 := crc;
    for i := 0 to |data|
      invariant Fed(e, s0, data, i, crc)
    {
      var x := data[i];
      FedNext(e, s0, data, i, crc);
      if n == 8 {
        TableStepOneByte(e, crc, x, table);
        crc := table[Xor(x, crc)];
      } else {
        TableStepReflected(e, BYTE_BITS, crc, x, table);
        crc := Xor(table[Xor(x, Low(crc, BYTE_BITS))], Shr(crc, BYTE_BITS));
      }
    }
    FedAll(e, s0, data, crc);
  }

  /** The two tables and the two loops of one generator, on data and register and on their reversals. */
  method BothDirections(poly: int, n: nat, s: nat, data: seq<Byte>) returns (reflected: nat, forward: nat)
    requires n >= 8 && s < Pow2(n)
    ensures reflected == Reverse(forward, n)
    ensures reflected == EngineOf(poly, n, true).Feed(s, data)
  {
    var tableR := MkTableR(poly, n);
    var table := MkTable(poly, n);
    reflected := CrcReflected(data, s, tableR, n, EngineOf(poly, n, true));
    forward := CrcForward(ReverseBytes(data), Reverse(s, n), table, n, EngineOf(poly, n, false));
    ReverseBound(s, n);
    LowSmall(s, n);
    LowSmall(Reverse(s, n), n);
    DirectionsDual(poly, n, s, data);
  }
}
