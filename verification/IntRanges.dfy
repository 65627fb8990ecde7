/**
 The packed-range index of idna/intranges.py: integers as half-open ranges, each range
 packed into one integer, and membership by one bisection.
 */
module IntRanges {
  import opened Bits
  import opened Arithmetic

  const RANGE_BITS := 32

  /** The greatest integer whose range can be packed: its end must fit in 32 bits. */
  const MAX_PACKED := 0xFFFF_FFFE

  /** _encode_range */
  function EncodeRange(start: int, end: int): int {
    Or(ShlInt(start, RANGE_BITS), end)
  }

  /** _decode_range */
  function DecodeRange(r: int): (int, nat) {
    (ShrInt(r, RANGE_BITS), Low(r, RANGE_BITS))
  }

  function Start(r: int): int {
    DecodeRange(r).0
  }

  function End(r: int): nat {
    DecodeRange(r).1
  }

  /** sorted, as an insertion sort */
  function Insert(x: int, s: seq<int>): seq<int> {
    if s == [] || x <= s[0] then [x] + s else [s[0]] + Insert(x, s[1..])
  }

  function Sorted(s: seq<int>): seq<int> {
    if s == [] then [] else Insert(s[0], Sorted(s[1..]))
  }

  /** bisect.bisect_left, between lo and hi */
  function BisectLeft(a: seq<int>, x: int, lo: nat, hi: nat): (pos: nat)
    requires lo <= hi <= |a|
    ensures lo <= pos <= hi
    decreases hi - lo
  {
    if lo == hi then lo
    else
      var mid := (lo + hi) / 2;
      if a[mid] < x then BisectLeft(a, x, mid + 1, hi) else BisectLeft(a, x, lo, mid)
  }

  /** intranges_contain */
  predicate Contain(x: int, ranges: seq<int>) {
    var pos := BisectLeft(ranges, EncodeRange(x, 0), 0, |ranges|);
    || (pos > 0 && Start(ranges[pos - 1]) <= x < End(ranges[pos - 1]))
    || (pos < |ranges| && Start(ranges[pos]) == x)
  }

  // ------------------------------------------------------------ packing a range

  lemma LimitValue()
    ensures Pow2(RANGE_BITS) == MAX_PACKED + 2
  {
    Pow2Values();
    Pow2Product(16, 16);
    var sixteen := 16;
    Pow2Product(sixteen, sixteen);
  }

  /** What is packed comes out again, as long as the end fits. */
  lemma DecodeEncode(start: int, end: nat)
    requires end <= MAX_PACKED + 1
    ensures EncodeRange(start, end) == ShlInt(start, RANGE_BITS) + end
    ensures DecodeRange(EncodeRange(start, end)) == (start, end)
  {
    LimitValue();
    OrDisjoint(start, end, RANGE_BITS);
    JoinInt(start, end, RANGE_BITS);
  }

  /** Whatever the two are: the bits of the end, with those of the start on top from number 32 on. */
  lemma EncodeBits(start: int, end: int, k: nat)
    ensures Bit(EncodeRange(start, end), k) <==> Bit(end, k) || (k >= 32 && Bit(start, k - 32))
  {
    OrBits(ShlInt(start, RANGE_BITS), end, k);
    ShlBits(start, RANGE_BITS, k);
  }

  /** And every integer is the packing of what it decodes to. */
  lemma EncodeDecode(r: int)
    ensures End(r) <= MAX_PACKED + 1
    ensures r == EncodeRange(Start(r), End(r)) == ShlInt(Start(r), RANGE_BITS) + End(r)
  {
    LimitValue();
    SplitInt(r, RANGE_BITS);
    OrDisjoint(Start(r), End(r), RANGE_BITS);
  }

  /** A packed range lies before the query exactly if it starts before it. */
  lemma BeforeQuery(r: int, x: int)
    ensures r < EncodeRange(x, 0) <==> Start(r) < x
  {
    EncodeDecode(r);
    DecodeEncode(x, 0);
    LimitValue();
    if Start(r) < x { ShlIntMono(Start(r), x, RANGE_BITS); }
    if x < Start(r) { ShlIntMono(x, Start(r), RANGE_BITS); }
  }

  /** Packed ranges sort by start, then by end. */
  lemma PackedOrder(a: int, b: int)
    requires Start(a) <= Start(b) && End(a) <= End(b)
    ensures a <= b
  {
    EncodeDecode(a);
    EncodeDecode(b);
    LimitValue();
    if Start(a) < Start(b) { ShlIntMono(Start(a), Start(b), RANGE_BITS); }
  }

  // ------------------------------------------------------------------ the index

  ghost predicate Covers(ranges: seq<int>, x: int) {
    exists k :: 0 <= k < |ranges| && Start(ranges[k]) <= x < End(ranges[k])
  }

  /** No range is empty, and both starts and ends never go down. */
  ghost predicate Indexed(ranges: seq<int>) {
    && (forall k :: 0 <= k < |ranges| ==> Start(ranges[k]) < End(ranges[k]))
    && (forall j, k :: 0 <= j <= k < |ranges| ==>
          Start(ranges[j]) <= Start(ranges[k]) && End(ranges[j]) <= End(ranges[k]))
  }

  /** The tuple as such is sorted, which is what the bisection relies on. */
  lemma IndexedIsSorted(ranges: seq<int>)
    requires Indexed(ranges)
    ensures forall j, k :: 0 <= j <= k < |ranges| ==> ranges[j] <= ranges[k]
  {
    forall j, k | 0 <= j <= k < |ranges| ensures ranges[j] <= ranges[k] {
      PackedOrder(ranges[j], ranges[k]);
    }
  }

  lemma {:induction false} BisectSplits(a: seq<int>, x: int, lo: nat, hi: nat)
    requires lo <= hi <= |a|
    requires forall j, k :: 0 <= j <= k < |a| ==> a[j] <= a[k]
    requires forall k :: 0 <= k < lo ==> a[k] < x
    requires forall k :: hi <= k < |a| ==> a[k] >= x
    ensures var pos := BisectLeft(a, x, lo, hi);
            (forall k :: 0 <= k < pos ==> a[k] < x) && (forall k :: pos <= k < |a| ==> a[k] >= x)
    decreases hi - lo
  {
    if lo < hi {
      var mid := (lo + hi) / 2;
      if a[mid] < x {
        assert forall k :: 0 <= k < mid + 1 ==> a[k] <= a[mid];
        BisectSplits(a, x, mid + 1, hi);
      } else {
        assert forall k :: mid <= k < |a| ==> a[mid] <= a[k];
        BisectSplits(a, x, lo, mid);
      }
    }
  }

  /** Where starts cross x, the two ranges on either side are the only ones to look at. */
  lemma CoveredBeside(ranges: seq<int>, x: int, pos: nat)
    requires Indexed(ranges) && pos <= |ranges|
    requires forall k :: 0 <= k < |ranges| ==> (k < pos <==> Start(ranges[k]) < x)
    ensures Covers(ranges, x) <==>
            || (pos > 0 && Start(ranges[pos - 1]) <= x < End(ranges[pos - 1]))
            || (pos < |ranges| && Start(ranges[pos]) == x)
  {
    if Covers(ranges, x) {
      var k :| 0 <= k < |ranges| && Start(ranges[k]) <= x < End(ranges[k]);
      if k < pos {
        assert End(ranges[k]) <= End(ranges[pos - 1]);
      } else {
        assert Start(ranges[pos]) <= Start(ranges[k]);
      }
    }
  }

  /** Two looks next to the bisection point decide membership in all the ranges. */
  lemma ContainIsCovers(ranges: seq<int>, x: int)
    requires Indexed(ranges)
    ensures Contain(x, ranges) <==> Covers(ranges, x)
  {
    var query := EncodeRange(x, 0);
    var pos := BisectLeft(ranges, query, 0, |ranges|);
    IndexedIsSorted(ranges);
    BisectSplits(ranges, query, 0, |ranges|);
    forall k | 0 <= k < |ranges| ensures k < pos <==> Start(ranges[k]) < x {
      BeforeQuery(ranges[k], x);
    }
    CoveredBeside(ranges, x, pos);
  }

  // --------------------------------------------------------- building the index

  /** The ranges still to be written at index i, the current one starting at index start. */
  function Runs(s: seq<int>, start: nat, i: nat): seq<int>
    requires start <= i <= |s|
    decreases |s| - i
  {
    if i == |s| then []
    else if i + 1 < |s| && s[i] + 1 == s[i + 1] then Runs(s, start, i + 1)
    else [EncodeRange(s[start], s[i] + 1)] + Runs(s, i + 1, i + 1)
  }

  /** Every range of the list can be packed. */
  predicate Packable(list: seq<int>) {
    forall v :: v in list ==> -1 <= v <= MAX_PACKED
  }

  /** The index answers "was x in the original list?". */
  ghost predicate Answers(ranges: seq<int>, list: seq<int>) {
    forall x: int :: Contain(x, ranges) <==> x in list
  }

  /** What is written so far and what is still to be written make up all ranges of the list. */
  predicate Written(s: seq<int>, ranges: seq<int>, start: nat, i: nat)
    requires start <= i <= |s|
  {
    ranges + Runs(s, start, i) == Runs(s, 0, 0)
  }

  lemma WriteStep(s: seq<int>, ranges: seq<int>, start: nat, i: nat)
    requires start <= i < |s| && Written(s, ranges, start, i)
    ensures if i + 1 < |s| && s[i] + 1 == s[i + 1] then Written(s, ranges, start, i + 1)
            else Written(s, ranges + [EncodeRange(s[start], s[i] + 1)], i + 1, i + 1)
  {
    var r, rest := [EncodeRange(s[start], s[i] + 1)], Runs(s, i + 1, i + 1);
    assert ranges + (r + rest) == (ranges + r) + rest;
  }

  /** intranges_from_list */
  method IntrangesFromList(list: seq<int>) returns (ranges: seq<int>)
    ensures ranges == Runs(Sorted(list), 0, 0)
    ensures Packable(list) ==> Indexed(ranges) && Answers(ranges, list)
  {
    ranges := WriteRanges(Sorted(list));
    if Packable(list) { IndexIsMembership(list); }
  }

  /** Its loop, on the sorted list. */
  method WriteRanges(sortedList: seq<int>) returns (ranges: seq<int>)
    ensures ranges == Runs(sortedList, 0, 0)
  {
    ranges := [];
    var lastWrite := -1;
    assert [] + Runs(sortedList, 0, 0) == Runs(sortedList, 0, 0);
    for i := 0 to |sortedList|
      invariant -1 <= lastWrite < i
      invariant Written(sortedList, ranges, lastWrite + 1, i)
    {
      WriteStep(sortedList, ranges, lastWrite + 1, i);
      if i + 1 < |sortedList| && sortedList[i] + 1 == sortedList[i + 1] { continue; }
      var currentRange := sortedList[lastWrite + 1..i + 1];
      ranges := ranges + [EncodeRange(currentRange[0], currentRange[|currentRange| - 1] + 1)];
      lastWrite := i;
    }
    assert ranges + [] == ranges;
  }

  // ------------------------------------------------------------------ what it means

  predicate Ascending(s: seq<int>) {
    forall j, k :: 0 <= j <= k < |s| ==> s[j] <= s[k]
  }

  lemma {:induction false} InsertPermutes(x: int, s: seq<int>)
    ensures multiset(Insert(x, s)) == multiset{x} + multiset(s)
  {
    if s != [] && x > s[0] {
      InsertPermutes(x, s[1..]);
      assert s == [s[0]] + s[1..];
    }
  }

  lemma {:induction false} InsertElements(x: int, s: seq<int>, v: int)
    ensures v in Insert(x, s) <==> v == x || v in s
  {
    if s != [] && x > s[0] {
      InsertElements(x, s[1..], v);
      assert v in s <==> v == s[0] || v in s[1..];
    }
  }

  lemma {:induction false} InsertAscends(x: int, s: seq<int>)
    requires Ascending(s)
    ensures Ascending(Insert(x, s))
  {
    if s != [] && x > s[0] {
      InsertAscends(x, s[1..]);
      var rest := Insert(x, s[1..]);
      forall k | 0 <= k < |rest| ensures s[0] <= rest[k] {
        InsertElements(x, s[1..], rest[k]);
      }
    }
  }

  lemma {:induction false} SortedSorts(s: seq<int>)
    ensures Ascending(Sorted(s)) && multiset(Sorted(s)) == multiset(s)
  {
    if s != [] {
      SortedSorts(s[1..]);
      InsertAscends(s[0], Sorted(s[1..]));
      InsertPermutes(s[0], Sorted(s[1..]));
      assert s == [s[0]] + s[1..];
    }
  }

  lemma SortedElements(s: seq<int>, v: int)
    ensures v in Sorted(s) <==> v in s
  {
    SortedSorts(s);
    assert v in Sorted(s) <==> v in multiset(Sorted(s));
    assert v in s <==> v in multiset(s);
  }

  /** From start to i the sorted list goes up in steps of one. */
  predicate InRun(s: seq<int>, start: nat, i: nat)
    requires start <= i <= |s|
  {
    if i == |s| then start == i else forall j :: start <= j <= i ==> s[j] == s[start] + (j - start)
  }

  /** A range before it is packed. */
  datatype Range = Range(start: int, end: int)

  ghost predicate Covered(ranges: seq<Range>, x: int) {
    exists k :: 0 <= k < |ranges| && ranges[k].start <= x < ranges[k].end
  }

  /** No range is empty, starts and ends never go down, and all start at lo and end at hi or later. */
  ghost predicate Ordered(ranges: seq<Range>, lo: int, hi: int) {
    && (forall k :: 0 <= k < |ranges| ==>
          lo <= ranges[k].start < ranges[k].end && hi <= ranges[k].end <= MAX_PACKED + 1)
    && (forall j, k :: 0 <= j <= k < |ranges| ==>
          ranges[j].start <= ranges[k].start && ranges[j].end <= ranges[k].end)
  }

  /** The ranges still to be written, as Runs has them packed. */
  function Unpacked(s: seq<int>, start: nat, i: nat): seq<Range>
    requires start <= i <= |s|
    decreases |s| - i
  {
    if i == |s| then []
    else if i + 1 < |s| && s[i] + 1 == s[i + 1] then Unpacked(s, start, i + 1)
    else [Range(s[start], s[i] + 1)] + Unpacked(s, i + 1, i + 1)
  }

  lemma {:induction false} UnpackedOrdered(s: seq<int>, start: nat, i: nat, lo: int, hi: int)
    requires start <= i <= |s| && Ascending(s) && InRun(s, start, i) && Packable(s)
    requires i < |s| ==> lo <= s[start] && hi <= s[i] + 1
    ensures Ordered(Unpacked(s, start, i), lo, hi)
    decreases |s| - i
  {
    if i == |s| {
    } else if i + 1 < |s| && s[i] + 1 == s[i + 1] {
      UnpackedOrdered(s, start, i + 1, lo, hi);
    } else {
      var rest := Unpacked(s, i + 1, i + 1);
      assert s[i] in s;
      UnpackedOrdered(s, i + 1, i + 1, s[start], s[i] + 1);
      OrderedCons(Range(s[start], s[i] + 1), rest, lo, hi);
    }
  }

  lemma OrderedCons(r: Range, rest: seq<Range>, lo: int, hi: int)
    requires lo <= r.start < r.end && hi <= r.end <= MAX_PACKED + 1 && Ordered(rest, r.start, r.end)
    ensures Ordered([r] + rest, lo, hi)
  {
    var all := [r] + rest;
    assert all[0] == r && forall k :: 0 < k < |all| ==> all[k] == rest[k - 1];
  }

  lemma {:induction false} UnpackedCovers(s: seq<int>, start: nat, i: nat, x: int)
    requires start <= i <= |s| && InRun(s, start, i)
    ensures Covered(Unpacked(s, start, i), x) <==> x in s[start..]
    decreases |s| - i
  {
    if i == |s| {
    } else if i + 1 < |s| && s[i] + 1 == s[i + 1] {
      UnpackedCovers(s, start, i + 1, x);
    } else {
      var r, rest := Range(s[start], s[i] + 1), Unpacked(s, i + 1, i + 1);
      UnpackedCovers(s, i + 1, i + 1, x);
      CoveredCons(r, rest, x);
      RunElements(s, start, i, x);
    }
  }

  lemma CoveredCons(r: Range, rest: seq<Range>, x: int)
    ensures Covered([r] + rest, x) <==> r.start <= x < r.end || Covered(rest, x)
  {
    var all := [r] + rest;
    assert all[0] == r && forall k :: 0 < k < |all| ==> all[k] == rest[k - 1];
    if Covered(rest, x) {
      var k :| 0 <= k < |rest| && rest[k].start <= x < rest[k].end;
      assert all[k + 1] == rest[k];
    }
  }

  lemma RunElements(s: seq<int>, start: nat, i: nat, x: int)
    requires start <= i < |s| && InRun(s, start, i)
    ensures x in s[start..] <==> s[start] <= x < s[i] + 1 || x in s[i + 1..]
  {
    var run := s[start..i + 1];
    assert s[start..] == run + s[i + 1..];
    if s[start] <= x < s[i] + 1 {
      var j := x - s[start];
      assert run[j] == s[start + j];
    }
  }

  // ---------------------------------------------------------------- and packed

  /** Packed ranges that decode to the given ones. */
  ghost predicate DecodesTo(packed: seq<int>, ranges: seq<Range>) {
    && |packed| == |ranges|
    && forall k :: 0 <= k < |packed| ==> Start(packed[k]) == ranges[k].start && End(packed[k]) == ranges[k].end
  }

  function Pack(ranges: seq<Range>): (packed: seq<int>)
    ensures |packed| == |ranges|
    ensures forall k :: 0 <= k < |ranges| ==> packed[k] == EncodeRange(ranges[k].start, ranges[k].end)
  {
    if ranges == [] then [] else [EncodeRange(ranges[0].start, ranges[0].end)] + Pack(ranges[1..])
  }

  lemma {:induction false} RunsArePacked(s: seq<int>, start: nat, i: nat)
    requires start <= i <= |s|
    ensures Runs(s, start, i) == Pack(Unpacked(s, start, i))
    decreases |s| - i
  {
    if i == |s| {
    } else if i + 1 < |s| && s[i] + 1 == s[i + 1] {
      RunsArePacked(s, start, i + 1);
    } else {
      RunsArePacked(s, i + 1, i + 1);
      assert ([Range(s[start], s[i] + 1)] + Unpacked(s, i + 1, i + 1))[1..] == Unpacked(s, i + 1, i + 1);
    }
  }

  lemma PackedDecode(ranges: seq<Range>, lo: int, hi: nat)
    requires Ordered(ranges, lo, hi)
    ensures DecodesTo(Pack(ranges), ranges)
  {
    forall k | 0 <= k < |ranges|
      ensures Start(Pack(ranges)[k]) == ranges[k].start && End(Pack(ranges)[k]) == ranges[k].end
    {
      DecodeEncode(ranges[k].start, ranges[k].end);
    }
  }

  lemma DecodedMeaning(packed: seq<int>, ranges: seq<Range>, lo: int, hi: int)
    requires DecodesTo(packed, ranges) && Ordered(ranges, lo, hi)
    ensures Indexed(packed) && forall x: int :: Covers(packed, x) <==> Covered(ranges, x)
  {
    forall x: int ensures Covers(packed, x) <==> Covered(ranges, x) {
      CoversDecoded(packed, ranges, x);
    }
  }

  lemma CoversDecoded(packed: seq<int>, ranges: seq<Range>, x: int)
    requires DecodesTo(packed, ranges)
    ensures Covers(packed, x) <==> Covered(ranges, x)
  {
    if Covers(packed, x) {
      var k :| 0 <= k < |packed| && Start(packed[k]) <= x < End(packed[k]);
      assert ranges[k].start <= x < ranges[k].end;
    }
  }

  /** From any point of the loop, the ranges still written stand for exactly the rest of the list. */
  lemma RunsMeaning(s: seq<int>, start: nat, i: nat)
    requires start <= i <= |s| && Ascending(s) && InRun(s, start, i) && Packable(s)
    ensures Indexed(Runs(s, start, i))
    ensures forall x: int :: Covers(Runs(s, start, i), x) <==> x in s[start..]
  {
    var lo := if i < |s| then s[start] else 0;
    var hi: nat := if i < |s| then (assert s[i] in s; s[i] + 1) else 0;
    UnpackedOrdered(s, start, i, lo, hi);
    RunsArePacked(s, start, i);
    PackedDecode(Unpacked(s, start, i), lo, hi);
    DecodedMeaning(Runs(s, start, i), Unpacked(s, start, i), lo, hi);
    forall x: int ensures Covers(Runs(s, start, i), x) <==> x in s[start..] {
      UnpackedCovers(s, start, i, x);
    }
  }

  /** The index is right, for lists with duplicates too. */
  lemma IndexIsMembership(list: seq<int>)
    requires Packable(list)
    ensures Indexed(Runs(Sorted(list), 0, 0)) && Answers(Runs(Sorted(list), 0, 0), list)
  {
    var s := Sorted(list);
    SortedSorts(list);
    forall v | v in s ensures -1 <= v <= MAX_PACKED { SortedElements(list, v); }
    RunsMeaning(s, 0, 0);
    assert s[0..] == s;
    forall x: int ensures Contain(x, Runs(s, 0, 0)) <==> x in list {
      ContainIsCovers(Runs(s, 0, 0), x);
      SortedElements(list, x);
    }
  }

  // ----------------------------------------------------------- the limits are exact

  /** With an end of 33 bits, the top bit of the end lands on the start. */
  lemma EndTooGreat(a: nat, k: nat)
    requires a % 2 == 0 && a + 2 == Pow2(k)
    ensures Or(ShlInt(a, k), a + 2) == ShlInt(a + 1, k) && ShrInt(ShlInt(a + 1, k), k) == a + 1
  {
    ShlOne(k);
    OrShl(a, 1, k);
    OrHalf(a, 1);
    OrZero(a / 2);
    JoinInt(a + 1, 0, k);
  }

  lemma OneRun(a: int)
    ensures Runs(Sorted([a, a + 1]), 0, 0) == [EncodeRange(a, a + 2)]
  {
    var s := [a, a + 1];
    assert s[1..] == [a + 1] && s[1..][1..] == [];
    assert Sorted(s[1..]) == [a + 1];
    assert Sorted(s) == s;
    assert Runs(s, 2, 2) == [];
    assert Runs(s, 0, 1) == [EncodeRange(a, a + 2)] + Runs(s, 2, 2);
  }

  /** Two integers, one just above the limit: the first is in the list and not in its index. */
  lemma PackedOverItself(a: int)
    requires a == MAX_PACKED
    ensures !Contain(a, Runs(Sorted([a, a + 1]), 0, 0))
  {
    var r := EncodeRange(a, a + 2);
    LimitValue();
    EndTooGreat(a, RANGE_BITS);
    OneRun(a);
    NotContained(r, a);
  }

  /** A range that starts behind x does not contain it. */
  lemma NotContained(r: int, x: int)
    requires Start(r) > x
    ensures !Contain(x, [r])
  {
    BeforeQuery(r, x);
    var one := [r];
    assert BisectLeft(one, EncodeRange(x, 0), 0, 1) == 0;
  }

  /** A negative end is all ones above its 32 bits, and wipes out the start. */
  lemma NegativeEnd(a: int)
    requires a == -2
    ensures !Contain(a, Runs(Sorted([a]), 0, 0))
  {
    var s := [a];
    assert s[1..] == [] && Sorted(s) == s;
    assert Runs(s, 1, 1) == [];
    assert Runs(s, 0, 0) == [EncodeRange(a, a + 1)] + Runs(s, 1, 1) == [EncodeRange(a, a + 1)];
    OrAllOnes(ShlInt(a, RANGE_BITS));
    ShrMinusOne(RANGE_BITS);
    NotContained(-1, a);
  }

  lemma {:induction false} ShrMinusOne(k: nat)
    ensures ShrInt(-1, k) == -1
  {
    ShrZero(k);
  }

  /**
   The index is right for all lists of integers from m to n, a range around 0, exactly if
   both are within the limits.
   */
  lemma LimitIsExact(m: int, n: int)
    requires m <= 0 <= n
    ensures (forall list: seq<int> {:trigger Sorted(list)} ::
               (forall v :: v in list ==> m <= v <= n) ==> Answers(Runs(Sorted(list), 0, 0), list))
            <==> -1 <= m && n <= MAX_PACKED
  {
    if -1 <= m && n <= MAX_PACKED {
      forall list: seq<int> | forall v :: v in list ==> m <= v <= n
        ensures Answers(Runs(Sorted(list), 0, 0), list)
      {
        IndexIsMembership(list);
      }
    } else if m < -1 {
      var a := -2;
      var list := [a];
      NegativeEnd(a);
      assert list[0] in list && !Answers(Runs(Sorted(list), 0, 0), list);
      assert forall v :: v in list ==> m <= v <= n;
    } else {
      var a := MAX_PACKED;
      var list := [a, a + 1];
      PackedOverItself(a);
      assert list[0] in list && !Answers(Runs(Sorted(list), 0, 0), list);
      assert forall v :: v in list ==> m <= v <= n;
    }
  }
}
