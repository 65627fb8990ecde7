/**
 What combining CRCs is for: the CRC of a whole from the CRCs of its parts, for
 the function crcmod makes from the same parameters, and for the multipart
 upload of obs/util.py that relies on it.
 */
module CombineLaws {
  import opened Basics
  import opened Bits
  import opened Arithmetic
  import opened Register
  import opened Reflection
  import opened CrcMod
  import opened Crc64Combine
  import opened CrcInverse

  /** combine(crc(A), crc(B), len(B)) == crc(A + B), for every configuration. */
  lemma CombineCorrect(c: Config, a: seq<Byte>, b: seq<Byte>)
    requires c.Valid()
    ensures Combine(c, c.Crc(a), c.Crc(b), |b|) == c.Crc(a + b)
  {
    if b == [] {
      assert a + b == a;
    } else {
      ValueBound(c, a, c.initCrc);
      CombineMovesStart(c, c.Crc(a), b);
      CrcContinues(c, a, b, c.initCrc);
    }
  }

  /** Combining moves the starting value of b's CRC from initCrc to crc1. */
  lemma CombineMovesStart(c: Config, crc1: nat, b: seq<Byte>)
    requires c.Valid() && crc1 < Pow2(c.e.n)
    ensures Combine(c, crc1, c.Crc(b), |b|) == c.Value(b, crc1)
  {
    if b == [] {
      CrcOfNothing(c, crc1);
    } else {
      var s, t := Xor(c.xorOut, crc1), Xor(c.xorOut, c.initCrc);
      RegisterOf(c, crc1);
      RegisterOf(c, c.initCrc);
      FeedAffine(c.e, s, t, b);
      XorCommonTerm(crc1, c.initCrc, c.xorOut);
      XorCommonTerm(c.e.Feed(s, b), c.e.Feed(t, b), c.xorOut);
      XorCancel(c.Crc(b), c.Value(b, crc1));
    }
  }

  // --------------------------------------------------------- the public method

  datatype Outcome = ValueError | NotImplemented | IndexError | Combined(crc: int)

  /** mkCombineFun(poly, initCrc, rev, xorOut)(crc1, crc2, len2) */
  method MkCombineFunAndCall(poly: int, initCrc: int, rev: bool, xorOut: int,
                             crc1: int, crc2: int, len2: nat)
    returns (r: Outcome)
    ensures r == ValueError <==> forall n: nat :: !HasDegree(poly, n)
    ensures r == IndexError <==> HasDegree(poly, GF2_DIM) && len2 > 0 && !(0 <= crc1 < Pow2(GF2_DIM))
    ensures r.Combined? <==> HasDegree(poly, GF2_DIM) && (len2 == 0 || 0 <= crc1 < Pow2(GF2_DIM))
    ensures r.Combined? ==>
              r.crc == Combine(ConfigOf(poly, GF2_DIM, initCrc, rev, xorOut), crc1, crc2, len2)
  {
    var p := VerifyParams(poly, initCrc, xorOut);
    if p.None? { return ValueError; }
    var (n, init, out) := p.value;
    var reduced := Low(poly, n);
    if rev {
      reduced := BitRev(reduced, n);
    }
    if n != GF2_DIM {
      if HasDegree(poly, GF2_DIM) { DegreeUnique(poly, n, GF2_DIM); }
      return NotImplemented;
    }
    ghost var c := ConfigOf(poly, GF2_DIM, initCrc, rev, xorOut);
    var crc := Combine64(reduced, Xor(init, out), rev, out, crc1, crc2, len2, c);
    return if crc.None? then IndexError else Combined(crc.value);
  }

  /**
   The two public functions together: the CRC function made from some parameters, and the
   combine function made from the same parameters, agree on every concatenation.
   */
  method CrcOfWhole(poly: int, initCrc: int, rev: bool, xorOut: int, a: seq<Byte>, b: seq<Byte>)
    returns (crcA: Option<nat>, crcB: Option<nat>, whole: Option<nat>, combined: Outcome)
    ensures HasDegree(poly, GF2_DIM) ==>
              var c := ConfigOf(poly, GF2_DIM, initCrc, rev, xorOut);
              && crcA == Some(c.Crc(a)) && crcB == Some(c.Crc(b)) && whole == Some(c.Crc(a + b))
              && combined == Combined(whole.value)
    ensures combined == ValueError <==> forall n: nat :: !HasDegree(poly, n)
    ensures combined == ValueError <==> crcA.None? && crcB.None? && whole.None?
  {
    crcA := Crc64Of(poly, initCrc, rev, xorOut, a);
    crcB := Crc64Of(poly, initCrc, rev, xorOut, b);
    whole := Crc64Of(poly, initCrc, rev, xorOut, a + b);
    if crcA.None? { return crcA, crcB, whole, ValueError; }
    combined := MkCombineFunAndCall(poly, initCrc, rev, xorOut, crcA.value, crcB.value, |b|);
    if HasDegree(poly, GF2_DIM) {
      ghost var c := ConfigOf(poly, GF2_DIM, initCrc, rev, xorOut);
      ValueBound(c, a, c.initCrc);
      CombineCorrect(c, a, b);
    }
  }

  /** mkCrcFun(poly, initCrc, rev, xorOut)(data), for a generator whose width is known to be 64. */
  method Crc64Of(poly: int, initCrc: int, rev: bool, xorOut: int, data: seq<Byte>) returns (r: Option<nat>)
    ensures r.None? <==> forall n: nat :: !HasDegree(poly, n)
    ensures HasDegree(poly, GF2_DIM) ==> r == Some(ConfigOf(poly, GF2_DIM, initCrc, rev, xorOut).Crc(data))
  {
    r := MkCrcFunAndCall(poly, initCrc, rev, xorOut, data);
    if HasDegree(poly, GF2_DIM) { OneDegree(poly, GF2_DIM); }
  }

  lemma OneDegree(poly: int, n: nat)
    requires HasDegree(poly, n)
    ensures forall m: nat :: HasDegree(poly, m) ==> m == n
  {
    forall m: nat | HasDegree(poly, m) ensures m == n { DegreeUnique(poly, m, n); }
  }

  lemma DegreeUnique(poly: int, m: nat, n: nat)
    requires HasDegree(poly, m) && HasDegree(poly, n)
    ensures m == n
  {
    LeadsOnce(poly, m, n);
  }

  lemma LeadsOnce(poly: int, m: nat, n: nat)
    requires LeadsAt(poly, m) && LeadsAt(poly, n)
    ensures m == n
  {
    if m < n { Pow2Mono(m + 1, n); } else if n < m { Pow2Mono(n + 1, m); }
  }

  // ------------------------------------------------------------- associativity

  /** The sum of two combinations with the same second part. */
  lemma CombineDifference(c: Config, a: nat, b: nat, crc2: nat, len2: nat)
    requires c.Valid()
    ensures Xor(Combine(c, a, crc2, len2), Combine(c, b, crc2, len2))
            == c.e.ZeroBits(BYTE_BITS * len2, Xor(a, b))
  {
    if len2 > 0 {
      var k := BYTE_BITS * len2;
      var x, y := Xor(a, c.initCrc), Xor(b, c.initCrc);
      XorCommonTerm(c.e.ZeroBits(k, x), c.e.ZeroBits(k, y), crc2);
      ZeroBitsLinear(c.e, k, x, y);
      XorCommonTerm(a, b, c.initCrc);
    }
  }

  /**
   Exactly when three parts may be combined in either order: the middle part is not
   empty, or the last is, or what the middle CRC claims over an empty string vanishes
   within the last part.
   */
  lemma CombineAssociates(c: Config, crc1: nat, crc2: nat, len2: nat, crc3: nat, len3: nat)
    requires c.Valid()
    ensures Combine(c, Combine(c, crc1, crc2, len2), crc3, len3)
            == Combine(c, crc1, Combine(c, crc2, crc3, len3), len2 + len3)
            <==> (len2 > 0 || len3 == 0
                  || c.e.ZeroBits(BYTE_BITS * len3, Xor(crc2, c.initCrc)) == 0)
  {
    if len3 > 0 {
      AssociateSomething(c, crc1, crc2, len2, crc3, len3);
    } else {
      AssociateNothing(c, crc1, crc2, len2, crc3, len3);
    }
  }

  lemma AssociateNothing(c: Config, crc1: nat, crc2: nat, len2: nat, crc3: nat, len3: nat)
    requires c.Valid() && len3 == 0
    ensures Combine(c, Combine(c, crc1, crc2, len2), crc3, len3)
            == Combine(c, crc1, Combine(c, crc2, crc3, len3), len2 + len3)
  {
    var first, second := Combine(c, crc1, crc2, len2), Combine(c, crc2, crc3, len3);
    assert Combine(c, first, crc3, len3) == first && second == crc2 && len2 + len3 == len2;
  }

  lemma AssociateSomething(c: Config, crc1: nat, crc2: nat, len2: nat, crc3: nat, len3: nat)
    requires c.Valid() && len3 > 0
    ensures Combine(c, Combine(c, crc1, crc2, len2), crc3, len3)
            == Combine(c, crc1, Combine(c, crc2, crc3, len3), len2 + len3)
            <==> (len2 > 0 || c.e.ZeroBits(BYTE_BITS * len3, Xor(crc2, c.initCrc)) == 0)
  {
    AssociateSides(c, crc1, crc2, len2, crc3, len3);
    SidesAgree(c.e.ZeroBits(BYTE_BITS * len2 + BYTE_BITS * len3, Xor(crc1, c.initCrc)),
               c.e.ZeroBits(BYTE_BITS * len3, Xor(crc2, c.initCrc)), crc3, len2 > 0);
  }

  lemma SidesAgree(zx: nat, zy: nat, crc3: nat, both: bool)
    ensures Xor(if both then Xor(zx, zy) else zx, crc3) == Xor(Xor(zx, zy), crc3) <==> both || zy == 0
  {
    XorExtraTerm(zx, zy, crc3);
  }

  lemma XorExtraTerm(x: nat, y: nat, z: nat)
    ensures Xor(x, z) == Xor(Xor(x, y), z) <==> y == 0
  {
    XorCommonTerm(x, Xor(x, y), z);
    XorCancel(x, y);
    XorZeroIffEqual(Xor(x, z), Xor(Xor(x, y), z));
  }

  /** Both orders written out, for a last part that is not empty. */
  lemma AssociateSides(c: Config, crc1: nat, crc2: nat, len2: nat, crc3: nat, len3: nat)
    requires c.Valid() && len3 > 0
    ensures var k2, k3 := BYTE_BITS * len2, BYTE_BITS * len3;
            var zx := c.e.ZeroBits(k2 + k3, Xor(crc1, c.initCrc));
            var zy := c.e.ZeroBits(k3, Xor(crc2, c.initCrc));
            && Combine(c, crc1, Combine(c, crc2, crc3, len3), len2 + len3) == Xor(Xor(zx, zy), crc3)
            && Combine(c, Combine(c, crc1, crc2, len2), crc3, len3)
               == Xor(if len2 > 0 then Xor(zx, zy) else zx, crc3)
  {
    var k2, k3 := BYTE_BITS * len2, BYTE_BITS * len3;
    var x, y := Xor(crc1, c.initCrc), Xor(crc2, c.initCrc);
    XorAssoc(c.e.ZeroBits(k2 + k3, x), c.e.ZeroBits(k3, y), crc3);
    var z2 := c.e.ZeroBits(k2, x);
    XorAssoc(z2, crc2, c.initCrc);
    ZeroBitsLinear(c.e, k3, z2, y);
    ZeroBitsAdd(c.e, k3, k2, x);
  }

  /** For a generator with a constant term: unless an empty part lies about its CRC. */
  lemma CombineAssociatesInvertible(c: Config, crc1: nat, crc2: nat, len2: nat, crc3: nat, len3: nat)
    requires c.Valid() && Invertible(c.e) && crc2 < Pow2(c.e.n)
    ensures Combine(c, Combine(c, crc1, crc2, len2), crc3, len3)
            == Combine(c, crc1, Combine(c, crc2, crc3, len3), len2 + len3)
            <==> (len2 > 0 || len3 == 0 || crc2 == c.initCrc)
  {
    CombineAssociates(c, crc1, crc2, len2, crc3, len3);
    XorBound(crc2, c.initCrc, c.e.n);
    ZeroBitsInjective(c.e, BYTE_BITS * len3, Xor(crc2, c.initCrc));
    XorZeroIffEqual(crc2, c.initCrc);
  }

  // ------------------------------------------------------------------- folding

  /** Combine a list of (crc, length) pairs into acc, left to right. */
  function Fold(c: Config, acc: nat, parts: seq<(nat, nat)>): nat
    requires c.Valid()
    decreases |parts|
  {
    if parts == [] then acc
    else Fold(c, Combine(c, acc, parts[0].0, parts[0].1), parts[1..])
  }

  /** The parts describe the chunks. */
  ghost predicate Describes(c: Config, parts: seq<(nat, nat)>, chunks: seq<seq<Byte>>)
    requires c.Valid()
  {
    |parts| == |chunks| && forall i :: 0 <= i < |parts| ==> parts[i] == (c.Crc(chunks[i]), |chunks[i]|)
  }

  /** Folding continues whatever CRC it starts from over all the chunks. */
  lemma {:induction false} FoldContinues(c: Config, acc: nat, parts: seq<(nat, nat)>, chunks: seq<seq<Byte>>)
    requires c.Valid() && acc < Pow2(c.e.n) && Describes(c, parts, chunks)
    ensures Fold(c, acc, parts) == c.Value(Concat(chunks), acc)
    decreases |parts|
  {
    if parts == [] {
      CrcOfNothing(c, acc);
    } else {
      var next := c.Value(chunks[0], acc);
      CombineMovesStart(c, acc, chunks[0]);
      ValueBound(c, chunks[0], acc);
      FoldContinues(c, next, parts[1..], chunks[1..]);
      CrcContinues(c, chunks[0], Concat(chunks[1..]), acc);
    }
  }

  /** From initCrc, the fold is the CRC of the whole. */
  lemma FoldCorrect(c: Config, parts: seq<(nat, nat)>, chunks: seq<seq<Byte>>)
    requires c.Valid() && Describes(c, parts, chunks)
    ensures Fold(c, c.initCrc, parts) == c.Crc(Concat(chunks))
  {
    FoldContinues(c, c.initCrc, parts, chunks);
  }

  /** From any other value it is not: exactly initCrc is the right start. */
  lemma FoldStart(c: Config, acc: nat, parts: seq<(nat, nat)>, chunks: seq<seq<Byte>>)
    requires c.Valid() && Invertible(c.e) && acc < Pow2(c.e.n) && Describes(c, parts, chunks)
    ensures Fold(c, acc, parts) == c.Crc(Concat(chunks)) <==> acc == c.initCrc
  {
    FoldContinues(c, acc, parts, chunks);
    var data, k := Concat(chunks), BYTE_BITS * |Concat(chunks)|;
    CombineMovesStart(c, acc, data);
    CombineMovesStart(c, c.initCrc, data);
    CombineDifference(c, acc, c.initCrc, c.Crc(data), |data|);
    XorBound(acc, c.initCrc, c.e.n);
    ZeroBitsInjective(c.e, k, Xor(acc, c.initCrc));
    XorZeroIffEqual(acc, c.initCrc);
    XorZeroIffEqual(c.Value(data, acc), c.Crc(data));
  }

  // -------------------------------------------------- the parts of an upload

  const POLY := 0x142F0E1EBA9EA3693
  const XOROUT := 0xFFFFFFFFFFFFFFFF

  /** The crc64 field of a part: absent, or a value given as a number or as decimal text. */
  datatype PartCrc = Absent | Present(v: nat, asText: bool) {
    /** Python's truth of the field: the number 0 counts as missing, the text "0" does not. */
    predicate Truthy() {
      Present? && (asText || v != 0)
    }
  }

  /** A part of a multipart upload; a missing size is 0. */
  datatype Part = Part(crc64: PartCrc, size: nat) {
    predicate Accepted() {
      crc64.Truthy() && size != 0
    }

    /** The value of the field, and the length it covers. */
    function Pair(): (nat, nat) {
      (if crc64.Present? then crc64.v else 0, size)
    }
  }

  /** The result of calc_obj_crc_from_parts, its Exception, or the IndexError of combine. */
  datatype ObjectCrc = ObjectCrc(crc: nat) | PartRejected | CombineFailed

  /** The configuration of util.Crc64(init_crc). */
  function UploadConfig(initCrc: int): (c: Config)
    ensures c.Valid() && c.e.n == GF2_DIM
  {
    ConfigOf(POLY, GF2_DIM, initCrc, true, XOROUT)
  }

  lemma UploadGenerator()
    ensures HasDegree(POLY, GF2_DIM) && POLY % 2 == 1
  {
    Pow2Values();
  }

  ghost predicate PartsDescribe(c: Config, parts: seq<Part>, chunks: seq<seq<Byte>>)
    requires c.Valid()
  {
    && |parts| == |chunks|
    && forall i :: 0 <= i < |parts| ==>
                     && parts[i].size == |chunks[i]|
                     && (parts[i].crc64.Present? ==> parts[i].crc64.v == c.Crc(chunks[i]))
  }

  predicate AllAccepted(parts: seq<Part>) {
    forall i :: 0 <= i < |parts| ==> parts[i].Accepted()
  }

  function Pairs(parts: seq<Part>): (r: seq<(nat, nat)>)
    ensures |r| == |parts|
    ensures forall i :: 0 <= i < |r| ==> r[i] == parts[i].Pair()
  {
    if parts == [] then [] else [parts[0].Pair()] + Pairs(parts[1..])
  }

  lemma {:induction false} FoldSnoc(c: Config, acc: nat, parts: seq<(nat, nat)>, p: (nat, nat))
    requires c.Valid()
    ensures Fold(c, acc, parts + [p]) == Combine(c, Fold(c, acc, parts), p.0, p.1)
    decreases |parts|
  {
    if parts != [] {
      assert (parts + [p])[1..] == parts[1..] + [p];
      FoldSnoc(c, Combine(c, acc, parts[0].0, parts[0].1), parts[1..], p);
    }
  }

  lemma CombineBound(c: Config, crc1: nat, crc2: nat, len2: nat)
    requires c.Valid() && crc1 < Pow2(c.e.n) && crc2 < Pow2(c.e.n)
    ensures Combine(c, crc1, crc2, len2) < Pow2(c.e.n)
  {
    XorBound(crc1, c.initCrc, c.e.n);
    ZeroBitsBound(c.e, BYTE_BITS * len2, Xor(crc1, c.initCrc));
    if len2 > 0 {
      XorBound(c.e.ZeroBits(BYTE_BITS * len2, Xor(crc1, c.initCrc)), crc2, c.e.n);
    }
  }

  /** util.Crc64(init_crc).combine(crc1, crc2, len2) */
  method UploadCombine(initCrc: int, crc1: int, crc2: int, len2: nat) returns (r: Option<int>)
    ensures r.Some? <==> len2 == 0 || 0 <= crc1 < Pow2(GF2_DIM)
    ensures r.Some? ==> r.value == Combine(UploadConfig(initCrc), crc1, crc2, len2)
  {
    UploadGenerator();
    var outcome := MkCombineFunAndCall(POLY, initCrc, true, XOROUT, crc1, crc2, len2);
    return if outcome == IndexError then None else Some(outcome.crc);
  }

  /** The fold over one part more. */
  lemma FoldNextPart(c: Config, acc: nat, parts: seq<Part>, i: nat)
    requires c.Valid() && i < |parts| && AllAccepted(parts[..i]) && parts[i].Accepted()
    ensures AllAccepted(parts[..i + 1])
    ensures Fold(c, acc, Pairs(parts[..i + 1]))
            == Combine(c, Fold(c, acc, Pairs(parts[..i])), parts[i].crc64.v, parts[i].size)
  {
    assert Pairs(parts[..i + 1]) == Pairs(parts[..i]) + [parts[i].Pair()];
    FoldSnoc(c, acc, Pairs(parts[..i]), parts[i].Pair());
  }

  /** Every CRC of a part is a 64-bit number, as the service reports it. */
  predicate CrcsInRange(parts: seq<Part>) {
    forall i :: 0 <= i < |parts| ==> parts[i].Pair().0 < Pow2(GF2_DIM)
  }

  /** The fold from 0, or the rejection of a part. */
  function FoldOrReject(c: Config, parts: seq<Part>): ObjectCrc
    requires c.Valid()
  {
    if AllAccepted(parts) then ObjectCrc(Fold(c, 0, Pairs(parts))) else PartRejected
  }

  /** What calc_obj_crc_from_parts returns or raises, as long as no CRC is too wide to combine. */
  function ObjectCrcOf(parts: seq<Part>, initCrc: int): ObjectCrc {
    FoldOrReject(UploadConfig(initCrc), parts)
  }

  /** The fold so far, and its width as long as the parts' CRCs keep theirs. */
  ghost predicate FoldedTo(c: Config, parts: seq<Part>, i: nat, crc: int)
    requires c.Valid()
  {
    && i <= |parts| && AllAccepted(parts[..i]) && crc == Fold(c, 0, Pairs(parts[..i]))
    && (CrcsInRange(parts) && c.e.n == GF2_DIM ==> crc < Pow2(GF2_DIM))
  }

  lemma FoldedNext(c: Config, parts: seq<Part>, i: nat, crc: nat)
    requires c.Valid() && c.e.n == GF2_DIM && i < |parts| && FoldedTo(c, parts, i, crc) && parts[i].Accepted()
    ensures FoldedTo(c, parts, i + 1, Combine(c, crc, parts[i].crc64.v, parts[i].size))
  {
    FoldNextPart(c, 0, parts, i);
    if CrcsInRange(parts) { CombineBound(c, crc, parts[i].crc64.v, parts[i].size); }
  }

  /** What is turned away, field by field. */
  lemma AcceptedMeans(parts: seq<Part>)
    ensures AllAccepted(parts) <==>
              forall part :: part in parts ==> part.size > 0 && part.crc64 != Absent && part.crc64 != Present(0, false)
  {
    assert forall i :: 0 <= i < |parts| ==> parts[i] in parts;
  }

  /**
   calc_obj_crc_from_parts.  A part that lacks something always makes it raise; if none
   does and all CRCs are numbers of 64 bits, texts included, it returns their fold.
   */
  method CalcObjCrcFromParts(parts: seq<Part>, initCrc: int) returns (r: ObjectCrc)
    ensures r == ObjectCrcOf(parts, initCrc) || (r == CombineFailed && !CrcsInRange(parts))
    ensures r.ObjectCrc? ==>
              forall part :: part in parts ==> part.size > 0 && part.crc64 != Absent && part.crc64 != Present(0, false)
    ensures && (forall part :: part in parts ==>
                  part.size > 0 && part.crc64 != Absent && part.crc64 != Present(0, false))
            && CrcsInRange(parts)
            ==> r == ObjectCrc(Fold(UploadConfig(initCrc), 0, Pairs(parts)))
  {
    r := FoldParts(parts, initCrc);
    AcceptedMeans(parts);
  }

  /** Its loop. */
  method FoldParts(parts: seq<Part>, initCrc: int) returns (r: ObjectCrc)
    ensures r == ObjectCrcOf(parts, initCrc) || (r == CombineFailed && !CrcsInRange(parts))
    ensures r.ObjectCrc? ==> r == ObjectCrcOf(parts, initCrc)
  {
    var objectCrc: nat := 0;
    ghost var c := UploadConfig(initCrc);
    for i := 0 to |parts|
      invariant FoldedTo(c, parts, i, objectCrc)
    {
      var part := parts[i];
      if !part.crc64.Truthy() || part.size == 0 {
        return PartRejected;
      }
      FoldedNext(c, parts, i, objectCrc);
      var combined := UploadCombine(initCrc, objectCrc, part.crc64.v, part.size);
      if combined.None? { return CombineFailed; }
      objectCrc := combined.value;
    }
    assert parts[..|parts|] == parts;
    return ObjectCrc(objectCrc);
  }

  /** The parameters of the upload, in numbers. */
  lemma UploadParameters(poly: int, xorOut: int, n: nat, initCrc: int)
    requires poly == 0x142F0E1EBA9EA3693 && xorOut == 0xFFFFFFFFFFFFFFFF && n == 64
    ensures UploadConfig(initCrc) == ConfigOf(poly, n, initCrc, true, xorOut) && HasDegree(poly, n)
  {
    UploadGenerator();
  }

  lemma UploadInvertible(initCrc: int)
    ensures Invertible(UploadConfig(initCrc).e)
    ensures UploadConfig(initCrc).initCrc == Low(initCrc, GF2_DIM)
  {
    UploadGenerator();
    OddGeneratorInvertible(POLY, GF2_DIM, true);
  }

  lemma PartsFold(c: Config, parts: seq<Part>, chunks: seq<seq<Byte>>)
    requires c.Valid() && Invertible(c.e)
    requires AllAccepted(parts) && PartsDescribe(c, parts, chunks)
    ensures Fold(c, 0, Pairs(parts)) == c.Crc(Concat(chunks)) <==> c.initCrc == 0
  {
    FoldStart(c, 0, Pairs(parts), chunks);
  }

  /** Parts that describe their chunks carry CRCs of the register's width. */
  lemma DescribedInRange(c: Config, parts: seq<Part>, chunks: seq<seq<Byte>>)
    requires c.Valid() && PartsDescribe(c, parts, chunks)
    ensures forall i :: 0 <= i < |parts| ==> parts[i].Pair().0 < Pow2(c.e.n)
  {
    forall i | 0 <= i < |parts| ensures parts[i].Pair().0 < Pow2(c.e.n) {
      ValueBound(c, chunks[i], c.initCrc);
    }
  }

  lemma FoldOrRejectCorrect(c: Config, parts: seq<Part>, chunks: seq<seq<Byte>>)
    requires c.Valid() && Invertible(c.e) && PartsDescribe(c, parts, chunks)
    ensures FoldOrReject(c, parts) == ObjectCrc(c.Crc(Concat(chunks))) <==> AllAccepted(parts) && c.initCrc == 0
  {
    if AllAccepted(parts) { PartsFold(c, parts, chunks); }
  }

  /**
   For parts that describe their chunks, the result is the CRC of the object exactly when
   every part has a size and a crc64 that is not the number 0, and init_crc is 0 modulo
   2^64: the fold starts at 0 and not at the CRC of the empty string.
   */
  lemma ObjectCrcCorrect(parts: seq<Part>, chunks: seq<seq<Byte>>, initCrc: int)
    requires PartsDescribe(UploadConfig(initCrc), parts, chunks)
    ensures CrcsInRange(parts)
    ensures ObjectCrcOf(parts, initCrc) == ObjectCrc(UploadConfig(initCrc).Crc(Concat(chunks)))
            <==> (forall part :: part in parts ==>
                    part.size > 0 && part.crc64 != Absent && part.crc64 != Present(0, false))
                 && initCrc % Pow2(GF2_DIM) == 0
  {
    UploadInvertible(initCrc);
    DescribedInRange(UploadConfig(initCrc), parts, chunks);
    FoldOrRejectCorrect(UploadConfig(initCrc), parts, chunks);
    AcceptedMeans(parts);
    ShrIntIsDivide(initCrc, GF2_DIM);
  }

  /** A part that says of a chunk what is so, with its CRC as a number. */
  function PartOf(c: Config, chunk: seq<Byte>): Part
    requires c.Valid()
  {
    Part(Present(c.Crc(chunk), false), |chunk|)
  }

  /** Among the chunks as long as the register exactly one has a right part that is turned away. */
  lemma OneRejected(c: Config, size: nat) returns (chunk: seq<Byte>)
    requires c.Valid() && Invertible(c.e) && c.e.n == BYTE_BITS * size
    ensures |chunk| == size && c.Crc(chunk) == 0
    ensures forall other :: |other| == size ==>
              (FoldOrReject(c, [PartOf(c, other)]) == PartRejected <==> other == chunk)
  {
    chunk := OneMessage(c, c.initCrc, 0, size);
    forall other | |other| == size
      ensures FoldOrReject(c, [PartOf(c, other)]) == PartRejected <==> other == chunk
    {
      var parts := [PartOf(c, other)];
      assert parts[0].Accepted() <==> c.Value(other, c.initCrc) != 0;
      assert AllAccepted(parts) <==> parts[0].Accepted();
    }
  }

  /**
   Whatever init_crc is, among all chunks of 8 bytes there is exactly one that, described
   rightly, is turned away, and with it any object that it is a part of: its CRC is 0.
   */
  lemma CorrectPartRejected(initCrc: int) returns (chunk: seq<Byte>)
    ensures var c := UploadConfig(initCrc);
            && |chunk| == 8 && c.Crc(chunk) == 0 && PartsDescribe(c, [PartOf(c, chunk)], [chunk])
            && forall other :: |other| == 8 ==>
                 (ObjectCrcOf([PartOf(c, other)], initCrc) == PartRejected <==> other == chunk)
  {
    UploadInvertible(initCrc);
    chunk := OneRejected(UploadConfig(initCrc), 8);
  }
}
