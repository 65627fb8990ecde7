/**
 The incremental codecs of idna/codec.py.  Encoder and decoder differ in the label
 function they apply (`alabel`, `ulabel`, kept abstract) and in the decoder's ASCII
 check; the buffering is that of the standard library's buffered incremental codecs.
 */
module IdnaCodec {
  import opened Basics

  /** A result, or an exception: IDNAError, or UnicodeDecodeError for bytes that are not ASCII. */
  datatype Result<T> = Ok(value: T) | Raised

  /** A label function, as alabel or ulabel: defined on the labels for which it does not raise. */
  type LabelFun = imap<string, string>

  /** The four separators of _unicode_dots_re. */
  predicate IsDot(c: char) {
    c == '.' || c == '\U{3002}' || c == '\U{FF0E}' || c == '\U{FF61}'
  }

  /** _unicode_dots_re.split: the pieces between separators, empty ones included. */
  function Split(s: string): (labels: seq<string>)
    ensures labels != []
  {
    if s == [] then [""] else Front(s[0], Split(s[1..]))
  }

  /** The pieces after one character more at the front. */
  function Front(c: char, labels: seq<string>): (more: seq<string>)
    requires labels != []
    ensures more != []
  {
    if IsDot(c) then [""] + labels else [[c] + labels[0]] + labels[1..]
  }

  /** The first piece ends before the first separator; the rest is split in the same way. */
  lemma {:induction false} SplitMeans(first: string, rest: string, c: char)
    requires forall i :: 0 <= i < |first| ==> first[i] as int !in {0x2E, 0x3002, 0xFF0E, 0xFF61}
    ensures Split(first) == [first]
    ensures c as int in {0x2E, 0x3002, 0xFF0E, 0xFF61} ==> Split(first + [c] + rest) == [first] + Split(rest)
  {
    var s := first + [c] + rest;
    if first == [] {
      assert s == [c] + rest && s[1..] == rest;
    } else {
      var tail := first[1..];
      SplitMeans(tail, rest, c);
      assert s[1..] == tail + [c] + rest;
      assert [first[0]] + tail == first;
    }
  }

  /** ".".join */
  function Join(labels: seq<string>): string {
    if labels == [] then ""
    else if |labels| == 1 then labels[0]
    else labels[0] + "." + Join(labels[1..])
  }

  /** The characters of the labels and of the separators between them. */
  function TotalLength(labels: seq<string>): nat {
    if labels == [] then 0
    else if |labels| == 1 then |labels[0]|
    else |labels[0]| + 1 + TotalLength(labels[1..])
  }

  lemma {:induction false} SplitLength(s: string)
    ensures |s| == TotalLength(Split(s))
  {
    if s != [] {
      SplitLength(s[1..]);
      var rest := Split(s[1..]);
      assert Front(s[0], rest)[1..] == if IsDot(s[0]) then rest else rest[1..];
    }
  }

  function Last(labels: seq<string>): string
    requires labels != []
  {
    labels[|labels| - 1]
  }

  /** Position k is the start or right behind a separator, and no separator follows. */
  predicate BehindLastDot(s: string, k: nat)
    requires k <= |s|
  {
    && (k == 0 || IsDot(s[k - 1]))
    && (forall i :: k <= i < |s| ==> !IsDot(s[i]))
  }

  /** The last of the pieces of s is what follows its last separator. */
  predicate EndsWithLast(s: string, labels: seq<string>)
    requires labels != []
  {
    var last := Last(labels);
    && |last| <= |s| && s[|s| - |last|..] == last
    && BehindLastDot(s, |s| - |last|)
    && (|last| == |s| <==> |labels| == 1)
  }

  lemma {:induction false} SplitLast(s: string)
    ensures EndsWithLast(s, Split(s))
  {
    if s != [] {
      SplitLast(s[1..]);
      if IsDot(s[0]) { DotInFront(s, Split(s[1..])); } else { LetterInFront(s, Split(s[1..])); }
    }
  }

  lemma NoDotBehind(s: string, k: nat)
    requires 0 < k <= |s| && BehindLastDot(s[1..], k - 1)
    ensures k > 1 ==> IsDot(s[k - 1])
    ensures forall i :: k <= i < |s| ==> !IsDot(s[i])
  {
    var tail := s[1..];
    assert k > 1 ==> s[k - 1] == tail[k - 2];
    forall i | k <= i < |s| ensures !IsDot(s[i]) {
      var j := i - 1;
      assert s[i] == tail[j];
    }
  }

  lemma DotInFront(s: string, rest: seq<string>)
    requires s != [] && IsDot(s[0]) && rest != [] && EndsWithLast(s[1..], rest)
    ensures EndsWithLast(s, [""] + rest)
  {
    assert Last([""] + rest) == Last(rest);
    NoDotBehind(s, |s| - |Last(rest)|);
  }

  lemma LetterInFront(s: string, rest: seq<string>)
    requires s != [] && !IsDot(s[0]) && rest != [] && EndsWithLast(s[1..], rest)
    ensures EndsWithLast(s, Front(s[0], rest))
  {
    NoDotBehind(s, |s| - |Last(rest)|);
    GrownLast(s, rest);
  }

  lemma GrownLast(s: string, rest: seq<string>)
    requires s != [] && !IsDot(s[0]) && rest != []
    requires |Last(rest)| < |s| && s[1..][|s| - 1 - |Last(rest)|..] == Last(rest)
    requires |Last(rest)| + 1 == |s| <==> |rest| == 1
    ensures var last := Last(Front(s[0], rest));
            && |last| == (if |rest| == 1 then |s| else |Last(rest)|)
            && s[|s| - |last|..] == last
  {
    var last, k := Last(rest), |s| - |Last(rest)|;
    if |rest| == 1 {
      assert s[1..][0..] == s[1..];
      assert [s[0]] + last == s;
      assert Front(s[0], rest) == [[s[0]] + last];
    } else {
      assert s[k..] == s[1..][k - 1..];
      assert Last(Front(s[0], rest)) == last;
    }
  }

  function Init(labels: seq<string>): seq<string>
    requires labels != []
  {
    labels[..|labels| - 1]
  }

  lemma FrontAppend(c: char, rest: seq<string>, more: seq<string>)
    requires rest != [] && more != [] && (IsDot(c) || |rest| > 1)
    ensures Front(c, Init(rest) + more) == Init(Front(c, rest)) + more
    ensures Last(Front(c, rest)) == Last(rest)
  {
    var init := Init(rest);
    if IsDot(c) {
      assert [""] + (init + more) == ([""] + init) + more;
      assert Init([""] + rest) == [""] + init;
    } else {
      var first := [[c] + rest[0]];
      assert (init + more)[0] == rest[0] && (init + more)[1..] == init[1..] + more;
      assert first + (init[1..] + more) == (first + init[1..]) + more;
      assert Init(first + rest[1..]) == first + init[1..];
    }
  }

  /** More input only changes the last piece. */
  lemma {:induction false} SplitAppend(s: string, t: string)
    ensures Split(s + t) == Init(Split(s)) + Split(Last(Split(s)) + t)
  {
    if s == [] {
      assert s + t == t;
    } else {
      var rest := Split(s[1..]);
      SplitLast(s);
      if |Split(s)| > 1 {
        var st := s + t;
        assert st[1..] == s[1..] + t;
        SplitAppend(s[1..], t);
        FrontAppend(s[0], rest, Split(Last(rest) + t));
      }
    }
  }

  // ------------------------------------------------------- what coding means

  /** Output in front of what follows, if that succeeds. */
  function Prepend(out: string, rest: Result<string>): Result<string> {
    match rest
    case Raised => Raised
    case Ok(r) => Ok(out + r)
  }

  lemma PrependTwice(a: string, b: string, rest: Result<string>)
    ensures Prepend(a, Prepend(b, rest)) == Prepend(a + b, rest)
    ensures Prepend("", rest) == rest
  {
    if rest.Ok? {
      assert a + (b + rest.value) == (a + b) + rest.value;
      assert "" + rest.value == rest.value;
    }
  }

  /** Every label with the dot that ends it; none ends the last, which is no label if empty. */
  function CodeAll(f: LabelFun, labels: seq<string>): Result<string> {
    if labels == [] || labels == [""] then Ok("")
    else if labels[0] !in f then Raised
    else if |labels| == 1 then Ok(f[labels[0]])
    else Prepend(f[labels[0]] + ".", CodeAll(f, labels[1..]))
  }

  /** What one call gives: its output, and how much of its input that accounts for. */
  datatype Coded = Coded(out: string, used: nat)

  /** A label of length n and its separator in front of what follows. */
  function Advance(l: string, n: nat, rest: Result<Coded>): Result<Coded> {
    match rest
    case Raised => Raised
    case Ok(c) => Ok(Coded(l + "." + c.out, n + 1 + c.used))
  }

  /** The finished labels only, all but the last: what an input that may go on can already give. */
  function Finished(f: LabelFun, labels: seq<string>): Result<Coded> {
    if |labels| <= 1 then Ok(Coded("", 0))
    else if labels[0] !in f then Raised
    else Advance(f[labels[0]], |labels[0]|, Finished(f, labels[1..]))
  }

  /** The reference meaning of a complete input: one label after the other. */
  function Code(f: LabelFun, s: string): Result<string> {
    CodeAll(f, Split(s))
  }

  function CodeFinished(f: LabelFun, s: string): Result<Coded> {
    Finished(f, Split(s))
  }

  /** The meaning of an input, one label at a time, and of the finished part of it. */
  lemma CodeMeans(f: LabelFun, first: string, c: char, rest: string)
    requires forall i :: 0 <= i < |first| ==> first[i] as int !in {0x2E, 0x3002, 0xFF0E, 0xFF61}
    requires c as int in {0x2E, 0x3002, 0xFF0E, 0xFF61}
    ensures Code(f, first) == if first == "" then Ok("") else if first in f then Ok(f[first]) else Raised
    ensures CodeFinished(f, first) == Ok(Coded("", 0))
    ensures Code(f, first + [c] + rest) ==
              if first !in f || Code(f, rest) == Raised then Raised
              else Ok(f[first] + "." + Code(f, rest).value)
    ensures CodeFinished(f, first + [c] + rest) ==
              if first !in f || CodeFinished(f, rest) == Raised then Raised
              else Ok(Coded(f[first] + "." + CodeFinished(f, rest).value.out,
                            |first| + 1 + CodeFinished(f, rest).value.used))
  {
    SplitMeans(first, rest, c);
    var labels := [first] + Split(rest);
    assert labels[1..] == Split(rest) && labels != [""];
  }

  lemma {:induction false} FinishedUsed(f: LabelFun, labels: seq<string>)
    requires labels != [] && Finished(f, labels).Ok?
    ensures Finished(f, labels).value.used == TotalLength(labels) - |Last(labels)|
  {
    if |labels| > 1 { FinishedUsed(f, labels[1..]); }
  }

  /** What finished labels use up is all but the last piece. */
  lemma UsedIsAllButLast(f: LabelFun, s: string)
    requires CodeFinished(f, s).Ok?
    ensures CodeFinished(f, s).value.used == |s| - |Last(Split(s))|
  {
    FinishedUsed(f, Split(s));
    SplitLength(s);
  }

  /** Input consumed ends on a label boundary, and all that can be consumed is. */
  lemma ConsumedAtBoundary(f: LabelFun, s: string)
    requires CodeFinished(f, s).Ok?
    ensures CodeFinished(f, s).value.used <= |s| && BehindLastDot(s, CodeFinished(f, s).value.used)
  {
    UsedIsAllButLast(f, s);
    SplitLast(s);
  }

  // ---------------------------------------------------------- the code itself

  /** What _buffer_encode and _buffer_decode return on a string, in terms of the meaning. */
  function Buffered(f: LabelFun, data: string, final: bool): Result<Coded> {
    if final then Whole(Code(f, data), |data|) else CodeFinished(f, data)
  }

  /** An output that accounts for all n characters. */
  function Whole(r: Result<string>, n: nat): Result<Coded> {
    match r
    case Raised => Raised
    case Ok(out) => Ok(Coded(out, n))
  }

  lemma WholeAdvances(l: string, n: nat, rest: Result<string>, m: nat)
    ensures Whole(Prepend(l + ".", rest), n + 1 + m) == Advance(l, n, Whole(rest, m))
  {
    if rest.Ok? { assert (l + ".") + rest.value == l + "." + rest.value; }
  }

  /** The meaning of the pieces of an input. */
  function Meant(f: LabelFun, labels: seq<string>, final: bool): Result<Coded> {
    if final then Whole(CodeAll(f, labels), TotalLength(labels)) else Finished(f, labels)
  }

  lemma MeantStep(f: LabelFun, first: string, rest: seq<string>, final: bool)
    requires rest != []
    ensures Meant(f, [first] + rest, final)
            == if first !in f then Raised else Advance(f[first], |first|, Meant(f, rest, final))
  {
    assert ([first] + rest)[1..] == rest;
    if final && first in f { WholeAdvances(f[first], |first|, CodeAll(f, rest), TotalLength(rest)); }
  }

  /** Applying the label function to a list, stopping at the first failure. */
  function MapLabels(f: LabelFun, labels: seq<string>): Result<seq<string>> {
    if labels == [] then Ok([])
    else if labels[0] !in f then Raised
    else match MapLabels(f, labels[1..])
      case Raised => Raised
      case Ok(rest) => Ok([f[labels[0]]] + rest)
  }

  /** The labels that a call codes, and whether it ends its output with a dot. */
  function Chosen(labels: seq<string>, final: bool): (seq<string>, bool)
    requires labels != []
  {
    if Last(labels) == "" then (Init(labels), true)
    else if !final then (Init(labels), |labels| > 1)
    else (labels, false)
  }

  /** Characters accounted for: labels, separators between them, and the trailing dot. */
  function Size(labels: seq<string>, dot: bool): nat {
    TotalLength(labels) + if dot then 1 else 0
  }

  function Output(f: LabelFun, labels: seq<string>, dot: bool): Result<Coded> {
    match MapLabels(f, labels)
    case Raised => Raised
    case Ok(out) => Ok(Coded(Join(out) + (if dot then "." else ""), Size(labels, dot)))
  }

  lemma ChosenStep(first: string, rest: seq<string>, final: bool)
    requires rest != []
    ensures Chosen([first] + rest, final)
            == if rest == [""] then ([first], true)
               else ([first] + Chosen(rest, final).0, Chosen(rest, final).1 || Chosen(rest, final).0 == [])
  {
    var labels := [first] + rest;
    assert Last(labels) == Last(rest);
    assert Init(labels) == [first] + Init(rest);
  }

  /** The split-and-join of the source computes the meaning. */
  lemma {:induction false} OutputIsMeant(f: LabelFun, labels: seq<string>, final: bool)
    requires labels != [] && labels != [""]
    ensures Output(f, Chosen(labels, final).0, Chosen(labels, final).1) == Meant(f, labels, final)
  {
    var first, rest := labels[0], labels[1..];
    assert labels == [first] + rest;
    if rest == [] {
      assert labels == [first];
      LastLabel(f, first, final);
    } else {
      ChosenStep(first, rest, final);
      MeantStep(f, first, rest, final);
      if rest == [""] {
        SingleLabel(f, first, true);
        NothingMeant(f, final);
        if first in f { assert f[first] + "." + "" == f[first] + "."; }
      } else {
        OutputIsMeant(f, rest, final);
        OutputStep(f, first, Chosen(rest, final).0, Chosen(rest, final).1);
      }
    }
  }

  /** An input without a separator. */
  lemma LastLabel(f: LabelFun, first: string, final: bool)
    requires first != ""
    ensures Output(f, Chosen([first], final).0, Chosen([first], final).1) == Meant(f, [first], final)
  {
    if final {
      SingleLabel(f, first, false);
      assert TotalLength([first]) == |first|;
    } else {
      assert Chosen([first], final) == ([], false);
      OutputOfNothing(f);
    }
  }

  lemma OutputOfNothing(f: LabelFun)
    ensures Output(f, [], false) == Ok(Coded("", 0))
  {
    var none: seq<string> := [];
    assert MapLabels(f, none) == Ok(none);
    assert Join(none) == "";
    assert "" + "" == "";
    assert Output(f, none, false) == Ok(Coded("", 0));
  }

  lemma NothingMeant(f: LabelFun, final: bool)
    ensures Meant(f, [""], final) == Ok(Coded("", 0))
  {
    assert TotalLength([""]) == 0;
  }

  lemma SingleLabel(f: LabelFun, first: string, dot: bool)
    ensures Output(f, [first], dot)
            == if first !in f then Raised
               else if dot then Ok(Coded(f[first] + ".", |first| + 1))
               else Ok(Coded(f[first], |first|))
  {
    var one := [first];
    assert one[1..] == [] && MapLabels(f, one[1..]) == Ok([]);
    assert TotalLength(one) == |first|;
    if first in f {
      var l := f[first];
      assert [l] + [] == [l];
      assert MapLabels(f, one) == Ok([l]);
      assert Join([l]) == l == l + "";
    }
  }

  /** One label in front of the others. */
  lemma OutputStep(f: LabelFun, first: string, labels: seq<string>, dot: bool)
    requires labels != [] || !dot
    ensures Output(f, [first] + labels, dot || labels == [])
            == if first !in f then Raised
               else Advance(f[first], |first|, Output(f, labels, dot))
  {
    assert ([first] + labels)[1..] == labels;
    if first in f && MapLabels(f, labels).Ok? {
      var l, out := f[first], MapLabels(f, labels).value;
      assert ([l] + out)[1..] == out;
      MapLength(f, labels);
      var tail := if dot then "." else "";
      if labels == [] {
        assert Join([l] + out) == l && l + "." == l + "." + "";
      } else {
        assert (l + "." + Join(out)) + tail == l + "." + (Join(out) + tail);
      }
    }
  }

  lemma {:induction false} MapLength(f: LabelFun, labels: seq<string>)
    requires MapLabels(f, labels).Ok?
    ensures |MapLabels(f, labels).value| == |labels|
  {
    if labels != [] { MapLength(f, labels[1..]); }
  }

  lemma OutputIsBuffered(f: LabelFun, data: string, final: bool)
    requires data != []
    ensures var (labels, dot) := Chosen(Split(data), final);
            Output(f, labels, dot) == Buffered(f, data, final)
  {
    SplitLength(data);
    OutputIsMeant(f, Split(data), final);
  }

  /**
   The common part of _buffer_encode and _buffer_decode: split, drop the last piece when
   it is empty or may go on, apply the label function to the rest, and count what is used.
   The label function must fail on the empty label, as alabel and ulabel do.
   */
  method CodeLabels(f: LabelFun, data: string, final: bool) returns (r: Result<Coded>)
    requires "" !in f
    ensures r == Buffered(f, data, final)
  {
    if data == "" {
      return Ok(Coded("", 0));
    }
    OutputIsBuffered(f, data, final);
    var labels := Split(data);
    var trailingDot := "";
    if labels[|labels| - 1] == "" {
      trailingDot := ".";
      labels := labels[..|labels| - 1];
    } else if !final {
      labels := labels[..|labels| - 1];
      if labels != [] { trailingDot := "."; }
    }
    ghost var dot := trailingDot == ".";
    assert (labels, dot) == Chosen(Split(data), final);
    var result := [];
    var size: nat := 0;
    for i := 0 to |labels|
      invariant MapLabels(f, labels[..i]) == Ok(result)
      invariant size == Size(labels[..i], false) && (i > 0 ==> size > 0)
    {
      var piece := labels[i];
      MapNext(f, labels, i);
      if piece !in f {
        MapFails(f, labels, i);
        return Raised;
      }
      result := result + [f[piece]];
      if size != 0 { size := size + 1; }
      size := size + |piece|;
    }
    assert labels[..|labels|] == labels;
    var resultBytes := Join(result) + trailingDot;
    size := size + |trailingDot|;
    return Ok(Coded(resultBytes, size));
  }

  lemma {:induction false} MapSnoc(f: LabelFun, labels: seq<string>, last: string)
    ensures TotalLength(labels + [last]) == if labels == [] then |last| else TotalLength(labels) + 1 + |last|
    ensures MapLabels(f, labels + [last]) ==
            if MapLabels(f, labels).Ok? && last in f
            then Ok(MapLabels(f, labels).value + [f[last]]) else Raised
  {
    if labels == [] {
      assert [] + [last] == [last] && [last][1..] == [] && MapLabels(f, []) == Ok([]);
      if last in f {
        var x := f[last];
        assert [x] + [] == [x] == [] + [x];
      }
    } else {
      assert (labels + [last])[1..] == labels[1..] + [last];
      MapSnoc(f, labels[1..], last);
      if MapLabels(f, labels).Ok? && last in f {
        var l, rest, x := f[labels[0]], MapLabels(f, labels[1..]).value, f[last];
        assert [l] + (rest + [x]) == ([l] + rest) + [x];
      }
    }
  }

  lemma MapNext(f: LabelFun, labels: seq<string>, i: nat)
    requires i < |labels|
    ensures TotalLength(labels[..i + 1]) == (if i == 0 then |labels[0]| else TotalLength(labels[..i]) + 1 + |labels[i]|)
    ensures MapLabels(f, labels[..i + 1]) ==
            if MapLabels(f, labels[..i]).Ok? && labels[i] in f
            then Ok(MapLabels(f, labels[..i]).value + [f[labels[i]]]) else Raised
  {
    assert labels[..i + 1] == labels[..i] + [labels[i]];
    MapSnoc(f, labels[..i], labels[i]);
  }

  /** One failing label makes the whole list fail. */
  lemma {:induction false} MapFails(f: LabelFun, labels: seq<string>, i: nat)
    requires i < |labels| && labels[i] !in f
    ensures MapLabels(f, labels) == Raised
  {
    if i > 0 { MapFails(f, labels[1..], i - 1); }
  }

  // -------------------------------------------------------------- the streams

  /** One call of encode or decode: the buffer comes first, and what is not used stays. */
  function Feed(f: LabelFun, buffer: string, input: string, final: bool): Result<(string, string)> {
    match Buffered(f, buffer + input, final)
    case Raised => Raised
    case Ok(Coded(out, used)) => if used <= |buffer + input| then Ok((out, (buffer + input)[used..])) else Raised
  }

  /** All chunks in turn, the last one final; the outputs run together. */
  function Stream(f: LabelFun, buffer: string, chunks: seq<string>): Result<string>
    requires chunks != []
    decreases |chunks|
  {
    match Feed(f, buffer, chunks[0], |chunks| == 1)
    case Raised => Raised
    case Ok((out, kept)) =>
      if |chunks| == 1 then Ok(out)
      else match Stream(f, kept, chunks[1..])
        case Raised => Raised
        case Ok(rest) => Ok(out + rest)
  }

  /** Coding finished labels, and then the others. */
  lemma {:induction false} CodeAllAppend(f: LabelFun, labels: seq<string>, more: seq<string>)
    requires labels != [] && more != []
    ensures CodeAll(f, Init(labels) + more)
            == if Finished(f, labels).Raised? then Raised
               else Prepend(Finished(f, labels).value.out, CodeAll(f, more))
  {
    var all := Init(labels) + more;
    if |labels| == 1 {
      assert all == more;
      PrependTwice("", "", CodeAll(f, more));
    } else {
      assert all[0] == labels[0] && all[1..] == Init(labels[1..]) + more;
      CodeAllAppend(f, labels[1..], more);
      if labels[0] in f && Finished(f, labels[1..]).Ok? {
        PrependTwice(f[labels[0]] + ".", Finished(f, labels[1..]).value.out, CodeAll(f, more));
      }
    }
  }

  /** Coding the finished labels of s first changes nothing, whatever t follows. */
  lemma CodeInParts(f: LabelFun, s: string, t: string)
    ensures CodeFinished(f, s).Raised? ==> Code(f, s + t).Raised?
    ensures CodeFinished(f, s).Ok? ==>
              var Coded(out, used) := CodeFinished(f, s).value;
              used <= |s| && Code(f, s + t) == Prepend(out, Code(f, s[used..] + t))
  {
    SplitAppend(s, t);
    CodeAllAppend(f, Split(s), Split(Last(Split(s)) + t));
    if CodeFinished(f, s).Ok? {
      UsedIsAllButLast(f, s);
      SplitLast(s);
    }
  }

  /** However the input is cut, the stream gives what one call on the whole gives. */
  lemma {:induction false} StreamIsOneShot(f: LabelFun, buffer: string, chunks: seq<string>)
    requires chunks != []
    ensures Stream(f, buffer, chunks) == Code(f, buffer + Concat(chunks))
    decreases |chunks|
  {
    var data := buffer + chunks[0];
    if |chunks| == 1 {
      assert chunks[1..] == [];
      assert Concat(chunks) == chunks[0] + "" == chunks[0];
    } else {
      var later := Concat(chunks[1..]);
      assert buffer + Concat(chunks) == data + later;
      CodeInParts(f, data, later);
      if CodeFinished(f, data).Ok? {
        StreamIsOneShot(f, data[CodeFinished(f, data).value.used..], chunks[1..]);
      }
    }
  }

  /** In particular any two ways of cutting the same input agree, failures included. */
  lemma CutsAgree(f: LabelFun, a: seq<string>, b: seq<string>)
    requires a != [] && b != [] && Concat(a) == Concat(b)
    ensures Stream(f, "", a) == Stream(f, "", b)
  {
    StreamIsOneShot(f, "", a);
    StreamIsOneShot(f, "", b);
  }

  /** IncrementalEncoder, with its label function as a field. */
  class IncrementalEncoder {
    const alabel: LabelFun
    const errors: string
    var buffer: string

    constructor (alabel: LabelFun, errors: string)
      ensures this.alabel == alabel && this.errors == errors && buffer == ""
    {
      this.alabel, this.errors, this.buffer := alabel, errors, "";
    }

    /** _buffer_encode */
    method BufferEncode(data: string, final: bool) returns (r: Result<Coded>)
      requires "" !in alabel
      ensures r == if errors != "strict" then Raised else Buffered(alabel, data, final)
    {
      if errors != "strict" { return Raised; }
      r := CodeLabels(alabel, data, final);
    }

    /** encode of the base class; on an exception the buffer stays as it was */
    method Encode(input: string, final: bool) returns (r: Result<string>)
      requires "" !in alabel
      modifies this
      ensures errors != "strict" ==> r == Raised && buffer == old(buffer)
      ensures errors == "strict" ==>
                match Feed(alabel, old(buffer), input, final)
                case Raised => r == Raised && buffer == old(buffer)
                case Ok((out, kept)) => r == Ok(out) && buffer == kept
    {
      var data := buffer + input;
      var coded := BufferEncode(data, final);
      if coded.Raised? { return Raised; }
      UsedWithin(alabel, data, final);
      buffer := data[coded.value.used..];
      return Ok(coded.value.out);
    }
  }

  lemma UsedWithin(f: LabelFun, data: string, final: bool)
    ensures Buffered(f, data, final).Ok? ==> Buffered(f, data, final).value.used <= |data|
  {
    if CodeFinished(f, data).Ok? { ConsumedAtBoundary(f, data); }
  }

  // -------------------------------------------------------------- the decoder

  /** str(data, "ascii") */
  function Ascii(data: seq<Byte>): Result<string> {
    if data == [] then Ok("")
    else if data[0] >= 128 then Raised
    else match Ascii(data[1..])
      case Raised => Raised
      case Ok(rest) => Ok([data[0] as char] + rest)
  }

  /** What decodes: bytes below 128, each to the character of the same number. */
  lemma {:induction false} AsciiMeans(data: seq<Byte>)
    ensures Ascii(data).Ok? <==> forall i :: 0 <= i < |data| ==> data[i] < 128
    ensures Ascii(data).Ok? ==>
              && |Ascii(data).value| == |data|
              && forall i :: 0 <= i < |data| ==> Ascii(data).value[i] as int == data[i]
  {
    if data != [] {
      AsciiMeans(data[1..]);
      assert forall i :: 0 < i < |data| ==> data[i] == data[1..][i - 1];
    }
  }

  lemma {:induction false} AsciiAppend(a: seq<Byte>, b: seq<Byte>)
    ensures Ascii(a + b) == match Ascii(a)
                            case Raised => Raised
                            case Ok(x) =>
                              match Ascii(b)
                              case Raised => Raised
                              case Ok(y) => Ok(x + y)
    ensures Ascii(a).Ok? ==> |Ascii(a).value| == |a|
  {
    if a == [] {
      assert a + b == b;
      if Ascii(b).Ok? { assert "" + Ascii(b).value == Ascii(b).value; }
    } else {
      assert (a + b)[1..] == a[1..] + b;
      AsciiAppend(a[1..], b);
      if Ascii(a).Ok? && Ascii(b).Ok? {
        var c, x, y := a[0] as char, Ascii(a[1..]).value, Ascii(b).value;
        assert [c] + (x + y) == ([c] + x) + y;
      }
    }
  }

  lemma AsciiTail(a: seq<Byte>, k: nat)
    requires k <= |a| && Ascii(a).Ok?
    ensures k <= |Ascii(a).value| && Ascii(a[k..]) == Ok(Ascii(a).value[k..])
  {
    assert a == a[..k] + a[k..];
    AsciiAppend(a[..k], a[k..]);
  }

  /** _buffer_decode on bytes; the input is ASCII, so characters used are bytes used. */
  function BufferedBytes(f: LabelFun, data: seq<Byte>, final: bool): Result<Coded> {
    match Ascii(data)
    case Raised => Raised
    case Ok(s) => Buffered(f, s, final)
  }

  function FeedBytes(f: LabelFun, buffer: seq<Byte>, input: seq<Byte>, final: bool): Result<(string, seq<Byte>)> {
    match BufferedBytes(f, buffer + input, final)
    case Raised => Raised
    case Ok(Coded(out, used)) => if used <= |buffer + input| then Ok((out, (buffer + input)[used..])) else Raised
  }

  function StreamBytes(f: LabelFun, buffer: seq<Byte>, chunks: seq<seq<Byte>>): Result<string>
    requires chunks != []
    decreases |chunks|
  {
    match FeedBytes(f, buffer, chunks[0], |chunks| == 1)
    case Raised => Raised
    case Ok((out, kept)) =>
      if |chunks| == 1 then Ok(out)
      else match StreamBytes(f, kept, chunks[1..])
        case Raised => Raised
        case Ok(rest) => Ok(out + rest)
  }

  /** The meaning of a complete byte input: it must be ASCII, and is then coded label by label. */
  function CodeBytes(f: LabelFun, data: seq<Byte>): Result<string> {
    match Ascii(data)
    case Raised => Raised
    case Ok(s) => Code(f, s)
  }

  /** As CodeInParts, for bytes: those of finished labels can be coded and dropped first. */
  lemma BytesInParts(f: LabelFun, data: seq<Byte>, later: seq<Byte>)
    ensures BufferedBytes(f, data, false).Raised? ==> CodeBytes(f, data + later).Raised?
    ensures BufferedBytes(f, data, false).Ok? ==>
              var Coded(out, used) := BufferedBytes(f, data, false).value;
              used <= |data| && CodeBytes(f, data + later) == Prepend(out, CodeBytes(f, data[used..] + later))
  {
    AsciiAppend(data, later);
    if Ascii(data).Ok? {
      var s := Ascii(data).value;
      if Ascii(later).Ok? { CodeInParts(f, s, Ascii(later).value); }
      if CodeFinished(f, s).Ok? {
        var used := CodeFinished(f, s).value.used;
        ConsumedAtBoundary(f, s);
        AsciiTail(data, used);
        AsciiAppend(data[used..], later);
      }
    }
  }

  /** The decoder, too, gives the same for every way of cutting its input. */
  lemma {:induction false} StreamBytesIsOneShot(f: LabelFun, buffer: seq<Byte>, chunks: seq<seq<Byte>>)
    requires chunks != []
    ensures StreamBytes(f, buffer, chunks) == CodeBytes(f, buffer + Concat(chunks))
    decreases |chunks|
  {
    var data := buffer + chunks[0];
    if |chunks| == 1 {
      AsciiAppend(data, []);
      assert chunks[1..] == [];
      assert Concat(chunks) == chunks[0] + [] == chunks[0];
    } else {
      var later := Concat(chunks[1..]);
      assert buffer + Concat(chunks) == data + later;
      BytesInParts(f, data, later);
      var now := BufferedBytes(f, data, false);
      if now.Ok? {
        StreamBytesIsOneShot(f, data[now.value.used..], chunks[1..]);
      }
    }
  }

  /** IncrementalDecoder, with its label function as a field. */
  class IncrementalDecoder {
    const ulabel: LabelFun
    const errors: string
    var buffer: seq<Byte>

    constructor (ulabel: LabelFun, errors: string)
      ensures this.ulabel == ulabel && this.errors == errors && buffer == []
    {
      this.ulabel, this.errors, this.buffer := ulabel, errors, [];
    }

    /** _buffer_decode */
    method BufferDecode(data: seq<Byte>, final: bool) returns (r: Result<Coded>)
      requires "" !in ulabel
      ensures r == if errors != "strict" then Raised else BufferedBytes(ulabel, data, final)
      ensures (exists i :: 0 <= i < |data| && data[i] >= 128) ==> r == Raised
    {
      if errors != "strict" { return Raised; }
      AsciiMeans(data);
      if data == [] {
        return Ok(Coded("", 0));
      }
      var text := Ascii(data);
      if text.Raised? { return Raised; }
      r := CodeLabels(ulabel, text.value, final);
    }

    /** decode of the base class; on an exception the buffer stays as it was */
    method Decode(input: seq<Byte>, final: bool) returns (r: Result<string>)
      requires "" !in ulabel
      modifies this
      ensures errors != "strict" ==> r == Raised && buffer == old(buffer)
      ensures errors == "strict" ==>
                match FeedBytes(ulabel, old(buffer), input, final)
                case Raised => r == Raised && buffer == old(buffer)
                case Ok((out, kept)) => r == Ok(out) && buffer == kept
    {
      var data := buffer + input;
      var coded := BufferDecode(data, final);
      if coded.Raised? { return Raised; }
      AsciiAppend(data, []);
      UsedWithin(ulabel, Ascii(data).value, final);
      buffer := data[coded.value.used..];
      return Ok(coded.value.out);
    }
  }
}
