/**
 obs/crc64mod.py: the CRC of a concatenation from the CRCs of its parts, by
 repeated squaring of the 64 x 64 matrix over GF(2) that feeds one zero bit.
 */
module Crc64Combine {
  import opened Basics
  import opened Bits
  import opened Register
  import opened CrcTable
  import opened CrcMod

  const GF2_DIM: nat := 64

  // ------------------------------------------------------ matrices over GF(2)

  /** Row i of m is the image of bit i; the image of v is the sum over its bits. */
  function Times(m: seq<nat>, v: nat): nat
    requires v < Pow2(|m|)
    decreases |m|
  {
    if v == 0 then 0 else Xor(if v % 2 == 1 then m[0] else 0, Times(m[1..], v / 2))
  }

  lemma {:induction false} TimesLinear(m: seq<nat>, a: nat, b: nat)
    requires a < Pow2(|m|) && b < Pow2(|m|)
    ensures Xor(a, b) < Pow2(|m|)
    ensures Times(m, Xor(a, b)) == Xor(Times(m, a), Times(m, b))
    decreases |m|
  {
    XorBound(a, b, |m|);
    if a == 0 || b == 0 {
      XorZero(a); XorZero(b);
      XorZero(Times(m, a)); XorZero(Times(m, b));
    } else {
      TimesLinear(m[1..], a / 2, b / 2);
      XorHalf(a, b);
      var p, q := if a % 2 == 1 then m[0] else 0, if b % 2 == 1 then m[0] else 0;
      var r := if Xor(a, b) % 2 == 1 then m[0] else 0;
      assert r == Xor(p, q) by { XorSelf(m[0]); XorZero(m[0]); XorZero(0); }
      XorExchange(p, Times(m[1..], a / 2), q, Times(m[1..], b / 2));
      if Xor(a, b) == 0 { XorZero(0); }
    }
  }

  lemma {:induction false} TimesBound(m: seq<nat>, v: nat, n: nat)
    requires v < Pow2(|m|) && forall i :: 0 <= i < |m| ==> m[i] < Pow2(n)
    ensures Times(m, v) < Pow2(n)
    decreases |m|
  {
    if v > 0 {
      TimesBound(m[1..], v / 2, n);
      XorBound(if v % 2 == 1 then m[0] else 0, Times(m[1..], v / 2), n);
    }
  }

  /** Applying m to every row of r composes the two maps. */
  lemma {:induction false} TimesCompose(m: seq<nat>, r: seq<nat>, mr: seq<nat>, v: nat)
    requires |mr| == |r| && v < Pow2(|r|)
    requires forall i :: 0 <= i < |r| ==> r[i] < Pow2(|m|) && mr[i] == Times(m, r[i])
    ensures Times(r, v) < Pow2(|m|)
    ensures Times(mr, v) == Times(m, Times(r, v))
    decreases |r|
  {
    TimesBound(r, v, |m|);
    if v > 0 {
      TimesCompose(m, r[1..], mr[1..], v / 2);
      TimesLinear(m, if v % 2 == 1 then r[0] else 0, Times(r[1..], v / 2));
    }
  }

  /** times(square(M), v) == times(M, times(M, v)), for every square matrix. */
  lemma TimesSquare(m: seq<nat>, square: seq<nat>, v: nat)
    requires |square| == |m| && v < Pow2(|m|)
    requires forall i :: 0 <= i < |m| ==> m[i] < Pow2(|m|) && square[i] == Times(m, m[i])
    ensures Times(m, v) < Pow2(|m|)
    ensures Times(square, v) == Times(m, Times(m, v))
  {
    TimesCompose(m, m, square, v);
  }

  /** m feeds k zero bits to a register of |m| bits. */
  ghost predicate Feeds(m: seq<nat>, e: Engine, k: nat) {
    e.Valid() && e.n == |m| && forall i: nat {:trigger m[i]} :: i < |m| ==> m[i] == e.ZeroBits(k, Pow2(i))
  }

  /** The lowest bit of v, and the rest, both moved up by j. */
  lemma ShlSplitOne(v: nat, j: nat)
    ensures Shl(v, j) == Xor(if v % 2 == 1 then Pow2(j) else 0, Shl(v / 2, j + 1))
  {
    var h, p := v / 2, v % 2;
    XorStep(h, 0, 0, p);
    XorZero(h);
    XorComm(2 * h, p);
    XorShl(p, 2 * h, j);
    ShlDouble(h, j);
    ShlOne(j);
    ShlOfZero(j);
  }

  lemma {:induction false} TimesFeedsFrom(m: seq<nat>, e: Engine, k: nat, j: nat, v: nat)
    requires Feeds(m, e, k) && j <= |m| && v < Pow2(|m| - j)
    ensures Times(m[j..], v) == e.ZeroBits(k, Shl(v, j))
    decreases |m| - j
  {
    var first := if v % 2 == 1 then Pow2(j) else 0;
    ZeroBitsLinear(e, k, first, Shl(v / 2, j + 1));
    if v == 0 {
      ShlOfZero(j);
    } else {
      assert m[j..][1..] == m[j + 1..];
      TimesFeedsFrom(m, e, k, j + 1, v / 2);
      ShlSplitOne(v, j);
    }
  }

  lemma TimesFeeds(m: seq<nat>, e: Engine, k: nat, v: nat)
    requires Feeds(m, e, k) && v < Pow2(|m|)
    ensures Times(m, v) == e.ZeroBits(k, v)
  {
    assert m[0..] == m;
    TimesFeedsFrom(m, e, k, 0, v);
  }

  /** Row by row the image of the row. */
  ghost predicate Squared(square: seq<nat>, m: seq<nat>) {
    && |square| == |m|
    && forall i: nat :: i < |m| ==> m[i] < Pow2(|m|) && square[i] == Times(m, m[i])
  }

  /** Squaring doubles the number of zero bits. */
  lemma SquareFeeds(m: seq<nat>, square: seq<nat>, e: Engine, k: nat)
    requires Feeds(m, e, k) && Squared(square, m)
    ensures Feeds(square, e, 2 * k)
  {
    forall i: nat | i < |m| ensures square[i] == e.ZeroBits(2 * k, Pow2(i)) {
      TimesFeeds(m, e, k, m[i]);
      ZeroBitsAdd(e, k, k, Pow2(i));
    }
  }

  lemma FeedsBound(m: seq<nat>, e: Engine, k: nat)
    requires Feeds(m, e, k)
    ensures forall i: nat :: i < |m| ==> m[i] < Pow2(|m|)
  {
    forall i: nat | i < |m| ensures m[i] < Pow2(|m|) {
      Pow2Mono(i + 1, e.n);
      ZeroBitsBound(e, k, Pow2(i));
    }
  }

  /**
   gf2_matrix_times.  None is its IndexError, for a vector with more bits than the matrix
   has rows; a negative vector never runs out of bits.
   */
  method Gf2MatrixTimes(mat: array<nat>, vec: int) returns (r: Option<nat>)
    ensures r.Some? <==> 0 <= vec < Pow2(mat.Length)
    ensures r.Some? ==> r.value == Times(mat[..], vec)
  {
    var summary: nat, rest: int, matIndex: nat := 0, vec, 0;
    ghost var m, fits := mat[..], 0 <= vec < Pow2(mat.Length);
    if fits { XorZero(Times(m, vec)); }
    assert m[0..] == m;
    while rest != 0
      invariant fits ==> RowsLeft(m, vec, summary, matIndex, rest)
      invariant !fits ==> rest < 0 || (matIndex <= |m| && rest >= Pow2(|m| - matIndex)) || (matIndex > |m| && rest > 0)
      decreases Abs(rest), if matIndex < mat.Length then mat.Length - matIndex else 0
    {
      if fits { SumRow(m, vec, summary, matIndex, rest); }
      if rest % 2 == 1 {
        if matIndex >= mat.Length { return None; }
        summary := Xor(summary, mat[matIndex]);
      }
      rest := rest / 2;
      matIndex := matIndex + 1;
    }
    XorZero(summary);
    return Some(summary);
  }

  /** The rows from k on, selected by what is left of the vector, complete the sum. */
  ghost predicate RowsLeft(m: seq<nat>, vec: int, summary: nat, k: nat, rest: int) {
    && 0 <= vec < Pow2(|m|) && k <= |m| && 0 <= rest < Pow2(|m| - k)
    && Xor(summary, Times(m[k..], rest)) == Times(m, vec)
  }

  /** Adding one row, when its bit is set, to the sum so far. */
  lemma SumRow(m: seq<nat>, vec: int, summary: nat, k: nat, rest: int)
    requires RowsLeft(m, vec, summary, k, rest) && rest > 0
    ensures k < |m|
    ensures RowsLeft(m, vec, if rest % 2 == 1 then Xor(summary, m[k]) else summary, k + 1, rest / 2)
  {
    assert m[k..][1..] == m[k + 1..];
    XorAssoc(summary, if rest % 2 == 1 then m[k] else 0, Times(m[k + 1..], rest / 2));
    XorZero(summary);
  }

  /** gf2_matrix_square */
  method Gf2MatrixSquare(square: array<nat>, mat: array<nat>)
    requires square != mat && square.Length == mat.Length
    requires forall i: nat :: i < mat.Length ==> mat[i] < Pow2(mat.Length)
    modifies square
    ensures Squared(square[..], mat[..])
  {
    ghost var m := mat[..];
    for n := 0 to mat.Length
      invariant mat[..] == m
      invariant forall i: nat :: i < n ==> square[i] == Times(m, m[i])
    {
      assert mat[n] == m[n];
      var row := Gf2MatrixTimes(mat, mat[n]);
      square[n] := row.value;
    }
  }

  // --------------------------------------------------------------- combination

  /**
   What combining means: the first CRC, taken relative to the empty string, moved
   past len2 bytes, plus the second CRC.  A length of 0 leaves the first alone.
   */
  function Combine(c: Config, crc1: int, crc2: int, len2: nat): (r: int)
    requires c.Valid() && (len2 > 0 ==> crc1 >= 0)
    ensures crc1 >= 0 && crc2 >= 0 ==> r >= 0
  {
    if len2 == 0 then crc1
    else XorInt(c.e.ZeroBits(BYTE_BITS * len2, Xor(crc1, c.initCrc)), crc2)
  }

  lemma FirstRowReflected(e: Engine, i: nat)
    requires e.Valid() && i < e.n && e.rev
    ensures e.ZeroBit(Pow2(i)) == if i == 0 then e.poly else Pow2(i - 1)
  {
    XorZero(e.poly);
    if i > 0 { XorZero(Pow2(i - 1)); }
  }

  lemma FirstRowForward(e: Engine, i: nat)
    requires e.Valid() && i < e.n && !e.rev
    ensures e.ZeroBit(Pow2(i)) == if i == e.n - 1 then e.poly else Pow2(i + 1)
  {
    var k, s := e.n - 1, Pow2(i);
    if i < k {
      assert Shr(s, k) == 0 && Low(s, k) == s by {
        Pow2Mono(i + 1, k);
        TopBit(s, k);
        LowSmall(s, k);
      }
      XorZero(2 * s);
    } else {
      assert Shr(s, k) == 1 && Low(s, k) == 0 by { ShlOne(k); Join(1, 0, k); }
      XorZero(e.poly);
    }
  }

  /** The matrix that feeds one zero bit, as _combine64 writes it into `odd`. */
  method OneZeroBit(odd: array<nat>, poly: nat, rev: bool, ghost e: Engine)
    requires odd.Length == GF2_DIM && e.Valid() && e == Engine(GF2_DIM, poly, rev)
    modifies odd
    ensures Feeds(odd[..], e, Pow2(0))
  {
    if rev {
      odd[0] := poly;
      var row := 1;
      for n := 1 to GF2_DIM
        invariant row == Pow2(n - 1) && odd[0] == poly
        invariant forall i: nat :: 1 <= i < n ==> odd[i] == Pow2(i - 1)
      {
        odd[n] := row;
        row := 2 * row;
      }
    } else {
      var row := 2;
      for n := 0 to GF2_DIM - 1
        invariant row == Pow2(n + 1)
        invariant forall i: nat :: i < n ==> odd[i] == Pow2(i + 1)
      {
        odd[n] := row;
        row := 2 * row;
      }
      odd[GF2_DIM - 1] := poly;
    }
    FirstRows(odd[..], e);
  }

  lemma FirstRows(m: seq<nat>, e: Engine)
    requires e.Valid() && e.n == |m|
    requires e.rev ==> m[0] == e.poly && forall i: nat :: 1 <= i < |m| ==> m[i] == Pow2(i - 1)
    requires !e.rev ==> m[|m| - 1] == e.poly && forall i: nat :: i < |m| - 1 ==> m[i] == Pow2(i + 1)
    ensures Feeds(m, e, Pow2(0))
  {
    forall i: nat | i < |m| ensures m[i] == e.ZeroBits(1, Pow2(i)) {
      if e.rev { FirstRowReflected(e, i); } else { FirstRowForward(e, i); }
      ZeroBitsNext(e, 0, Pow2(i));
    }
  }

  predicate InRegister(e: Engine, crc: int) {
    0 <= crc < Pow2(e.n)
  }

  /** crc has seen `fed` zero bits; 2^t more for each one that len counts make the total. */
  ghost predicate Progress(e: Engine, start: int, total: nat, t: nat, len: nat, fed: nat, crc: int)
    requires e.Valid()
  {
    start >= 0 && InRegister(e, crc) && crc == e.ZeroBits(fed, start) && fed + Shl(len, t) == total
  }

  /** One bit of the length: feed 2^t zero bits when it is set, then halve. */
  lemma HalfRound(e: Engine, start: int, total: nat, t: nat, len: nat, fed: nat, crc: int)
    requires e.Valid() && Progress(e, start, total, t, len, fed, crc)
    ensures len % 2 == 1 ==>
              Progress(e, start, total, t + 1, len / 2, fed + Pow2(t), e.ZeroBits(Pow2(t), crc))
    ensures len % 2 == 0 ==> Progress(e, start, total, t + 1, len / 2, fed, crc)
  {
    ShlDouble(len / 2, t);
    ShlOne(t);
    if len % 2 == 1 {
      ShlNext(2 * (len / 2), t);
      ZeroBitsAdd(e, Pow2(t), fed, start);
      ZeroBitsBound(e, Pow2(t), crc);
    }
  }

  lemma {:induction false} ShlNext(x: nat, k: nat)
    ensures Shl(x + 1, k) == Shl(x, k) + Pow2(k)
  {
    if k > 0 { ShlNext(x, k - 1); }
  }

  /** 8 zero bits for every byte of the second part. */
  lemma ProgressStart(e: Engine, start: nat, len: nat)
    requires e.Valid() && start < Pow2(e.n)
    ensures Progress(e, start, BYTE_BITS * len, 3, len, 0, start)
  {
    assert Shl(len, 1) == 2 * len;
    assert Shl(len, 2) == 4 * len;
    assert Shl(len, 3) == 8 * len;
  }

  lemma ProgressEnd(e: Engine, start: int, total: nat, t: nat, fed: nat, crc: int)
    requires e.Valid() && Progress(e, start, total, t, 0, fed, crc)
    ensures crc == e.ZeroBits(total, start)
  {
    ShlOfZero(t);
  }

  /**
   The loop of _combine64: at its head `odd` feeds 2^t zero bits; `even` is overwritten
   by its square, and the roles change.  A crc1 that is wider than the register or negative
   meets its IndexError at the first bit of the length that is set.
   */
  method FeedLength(even: array<nat>, odd: array<nat>, crc1: int, len2: nat, ghost e: Engine)
    returns (r: Option<int>)
    requires even != odd && even.Length == odd.Length && Feeds(odd[..], e, Pow2(2)) && len2 > 0
    modifies even, odd
    ensures r.Some? <==> InRegister(e, crc1)
    ensures r.Some? ==> r.value == e.ZeroBits(BYTE_BITS * len2, crc1)
  {
    r := Some(crc1);
    var len: nat := len2;
    ghost var total, t: nat, fed: nat := BYTE_BITS * len2, 2, 0;
    if InRegister(e, crc1) { ProgressStart(e, crc1, len2); }
    while true
      invariant len > 0 && Feeds(odd[..], e, Pow2(t)) && r.Some?
      invariant if InRegister(e, crc1) then Progress(e, crc1, total, t + 1, len, fed, r.value) else r.value == crc1
      decreases len
    {
      r, fed := SquareAndApply(even, odd, r.value, len, e, crc1, total, t, fed);
      if r.None? { return; }
      len, t := len / 2, t + 1;
      if len == 0 { break; }

      r, fed := SquareAndApply(odd, even, r.value, len, e, crc1, total, t, fed);
      if r.None? { return; }
      len, t := len / 2, t + 1;
      if len == 0 { break; }
    }
    ProgressEnd(e, crc1, total, t + 1, fed, r.value);
  }

  /** _combine64, which mkCombineFun hands initCrc ^ xorOut; None is an IndexError. */
  method Combine64(poly: nat, initCrc: nat, rev: bool, xorOut: nat, crc1: int, crc2: int, len2: nat,
                   ghost c: Config)
    returns (r: Option<int>)
    requires c.Valid() && c.e == Engine(GF2_DIM, poly, rev) && c.xorOut == xorOut
    requires initCrc == Xor(c.initCrc, xorOut)
    ensures r.Some? <==> len2 == 0 || InRegister(c.e, crc1)
    ensures r.Some? ==> r.value == Combine(c, crc1, crc2, len2)
  {
    if len2 == 0 { return Some(crc1); }
    var even := new nat[GF2_DIM](_ => 0);
    var odd := new nat[GF2_DIM](_ => 0);
    var crc := XorInt(Xor(initCrc, xorOut), crc1);
    StartInRange(c, crc1);

    OneZeroBit(odd, poly, rev, c.e);
    SquareOnce(even, odd, c.e, 0);
    SquareOnce(odd, even, c.e, 1);
    r := FeedLength(even, odd, crc, len2, c.e);
    if r.None? { return; }

    r := Some(XorInt(r.value, crc2));
  }

  /** The xorOut that mkCombineFun adds to initCrc cancels, and crc1 keeps its sign and width. */
  lemma StartInRange(c: Config, crc1: int)
    requires c.Valid()
    ensures var start := XorInt(Xor(Xor(c.initCrc, c.xorOut), c.xorOut), crc1);
            && (InRegister(c.e, start) <==> InRegister(c.e, crc1))
            && (crc1 >= 0 ==> start == Xor(crc1, c.initCrc))
  {
    XorCancel(c.xorOut, c.initCrc);
    if crc1 >= 0 {
      XorComm(crc1, c.initCrc);
      XorCancel(c.initCrc, crc1);
      if crc1 < Pow2(c.e.n) { XorBound(crc1, c.initCrc, c.e.n); }
      if Xor(crc1, c.initCrc) < Pow2(c.e.n) { XorBound(Xor(crc1, c.initCrc), c.initCrc, c.e.n); }
    }
  }

  /** gf2_matrix_square on the two buffers, with what it means for the zero bits fed. */
  method SquareOnce(square: array<nat>, mat: array<nat>, ghost e: Engine, ghost t: nat)
    requires square != mat && square.Length == mat.Length && Feeds(mat[..], e, Pow2(t))
    modifies square
    ensures Feeds(square[..], e, Pow2(t + 1))
  {
    FeedsBound(mat[..], e, Pow2(t));
    Gf2MatrixSquare(square, mat);
    SquareFeeds(mat[..], square[..], e, Pow2(t));
  }

  /**
   One half of the loop body, which the source writes out once for each buffer: square
   `mat` into `square`, and apply the square to crc1 when the bit of the length is set.
   */
  method SquareAndApply(square: array<nat>, mat: array<nat>, crc1: int, len: nat,
                        ghost e: Engine, ghost start: int, ghost total: nat, ghost t: nat, ghost fed: nat)
    returns (r: Option<int>, ghost fed': nat)
    requires square != mat && square.Length == mat.Length && Feeds(mat[..], e, Pow2(t))
    requires InRegister(e, crc1) ==> Progress(e, start, total, t + 1, len, fed, crc1)
    modifies square
    ensures Feeds(square[..], e, Pow2(t + 1))
    ensures r.None? <==> len % 2 == 1 && !InRegister(e, crc1)
    ensures InRegister(e, crc1) ==> Progress(e, start, total, t + 2, len / 2, fed', r.value)
    ensures r.Some? ==> r.value == if len % 2 == 1 then e.ZeroBits(Pow2(t + 1), crc1) else crc1
  {
    SquareOnce(square, mat, e, t);
    if InRegister(e, crc1) { HalfRound(e, start, total, t + 1, len, fed, crc1); }
    r, fed' := Some(crc1), fed;
    if len % 2 == 1 {
      if InRegister(e, crc1) { TimesFeeds(square[..], e, Pow2(t + 1), crc1); }
      r := Gf2MatrixTimes(square, crc1);
      fed' := fed + Pow2(t + 1);
    }
  }
}
