/**
 check_bidi of idna/core.py against the six conditions of section 2 of
 RFC 5893.  A label is given by the bidirectional categories of its characters.
 */
module Bidi {

  /** Bidirectional categories; Other is any category the rule never names. */
  datatype Direction = L | R | AL | AN | EN | ES | CS | ET | ON | BN | NSM | Other | Unknown

  type Label = seq<Direction>

  // ------------------------------------------------- the conditions, as written

  /** Every character of the label is in the set. */
  predicate Only(text: Label, allowed: set<Direction>) {
    forall i :: 0 <= i < |text| ==> text[i] in allowed
  }

  /** The label ends in one of the set, followed by any number of NSM. */
  ghost predicate EndsIn(text: Label, endings: set<Direction>) {
    exists k :: && 0 <= k < |text| && text[k] in endings
                && (forall i :: k < i < |text| ==> text[i] == NSM)
  }

  /** European and Arabic numerals do not occur together. */
  predicate OneNumeralKind(text: Label) {
    !(EN in text && AN in text)
  }

  ghost predicate Condition1(text: Label) {
    text != [] && (text[0] == L || text[0] == R || text[0] == AL)
  }

  ghost predicate Condition2(text: Label) {
    Only(text, {R, AL, AN, EN, ES, CS, ET, ON, BN, NSM})
  }

  ghost predicate Condition3(text: Label) {
    EndsIn(text, {R, AL, EN, AN})
  }

  ghost predicate Condition4(text: Label) {
    OneNumeralKind(text)
  }

  ghost predicate Condition5(text: Label) {
    Only(text, {L, EN, ES, CS, ET, ON, BN, NSM})
  }

  ghost predicate Condition6(text: Label) {
    EndsIn(text, {L, EN})
  }

  /** The first character decides whether the label is right-to-left or left-to-right. */
  ghost predicate BidiRule(text: Label) {
    && Condition1(text)
    && (text[0] != L ==> Condition2(text) && Condition3(text) && Condition4(text))
    && (text[0] == L ==> Condition5(text) && Condition6(text))
  }

  /** The rule concerns labels with a right-to-left character. */
  predicate HasRtl(text: Label) {
    exists i :: 0 <= i < |text| && (text[i] == R || text[i] == AL || text[i] == AN)
  }

  const MAX_INPUT_LENGTH := 1024

  /** What check_bidi is for: the labels it should let pass. */
  ghost predicate Acceptable(text: Label, checkLtr: bool) {
    && |text| <= 1024
    && Unknown !in text
    && (HasRtl(text) || checkLtr ==> BidiRule(text))
  }

  // ----------------------------------------------------------- what is reported

  const RTL_FIRST := {R, AL}
  const RTL_CATEGORIES := {R, AL, AN}
  const RTL_ALLOWED := {R, AL, AN, EN, ES, CS, ET, ON, BN, NSM}
  const RTL_VALID_ENDING := {R, AL, EN, AN}
  const RTL_NUMERIC := {AN, EN}
  const LTR_ALLOWED := {L, EN, ES, CS, ET, ON, BN, NSM}
  const LTR_VALID_ENDING := {L, EN}

  /** True, or the exception; positions count from 1 as in the messages. */
  datatype Outcome =
    | Accepted
    | TooLong
    | UnknownDirection(position: nat)
    | NoFirstCharacter              // IndexError: the empty label with check_ltr
    | BadFirst
    | BadDirection(position: nat)
    | MixedNumerals
    | BadEnding

  /** The rule reaches the characters behind the first one. */
  predicate Checked(text: Label, checkLtr: bool) {
    && |text| <= MAX_INPUT_LENGTH && Unknown !in text
    && (HasRtl(text) || checkLtr)
    && text != [] && (text[0] in RTL_FIRST || text[0] == L)
  }

  predicate StartsRtl(text: Label) {
    text != [] && text[0] in RTL_FIRST
  }

  function Allowed(rtl: bool): set<Direction> {
    if rtl then RTL_ALLOWED else LTR_ALLOWED
  }

  function Endings(rtl: bool): set<Direction> {
    if rtl then RTL_VALID_ENDING else LTR_VALID_ENDING
  }

  /** The first k characters give no reason to refuse the label. */
  predicate CleanUpTo(text: Label, k: nat, rtl: bool)
    requires k <= |text|
  {
    Only(text[..k], Allowed(rtl)) && (rtl ==> OneNumeralKind(text[..k]))
  }

  /** The exact circumstances of each exception raised inside the second loop, and behind it. */
  ghost predicate Explains(text: Label, checkLtr: bool, o: Outcome) {
    var rtl := StartsRtl(text);
    match o
    case Accepted => Acceptable(text, checkLtr)
    case TooLong => |text| > MAX_INPUT_LENGTH
    case UnknownDirection(p) =>
      && |text| <= MAX_INPUT_LENGTH
      && 1 <= p <= |text| && text[p - 1] == Unknown && Unknown !in text[..p - 1]
    case NoFirstCharacter => text == [] && checkLtr
    case BadFirst =>
      && 0 < |text| <= MAX_INPUT_LENGTH && Unknown !in text && (HasRtl(text) || checkLtr)
      && text[0] !in RTL_FIRST && text[0] != L
    case BadDirection(p) =>
      && Checked(text, checkLtr)
      && 1 <= p <= |text| && CleanUpTo(text, p - 1, rtl) && text[p - 1] !in Allowed(rtl)
    case MixedNumerals =>
      && Checked(text, checkLtr) && rtl
      && exists p :: 1 <= p <= |text| && CleanUpTo(text, p - 1, rtl)
                     && text[p - 1] in RTL_ALLOWED && !OneNumeralKind(text[..p])
    case BadEnding =>
      && Checked(text, checkLtr)
      && CleanUpTo(text, |text|, rtl) && !EndsIn(text, Endings(rtl))
  }

  // ------------------------------------------------------------ one more character

  lemma EndsInNext(text: Label, i: nat, endings: set<Direction>)
    requires i < |text| && NSM !in endings
    ensures EndsIn(text[..i + 1], endings) <==>
              text[i] in endings || (text[i] == NSM && EndsIn(text[..i], endings))
  {
    var shorter, longer := text[..i], text[..i + 1];
    if text[i] in endings {
      assert longer[i] in endings;
    }
    if text[i] == NSM && EndsIn(shorter, endings) {
      var k :| 0 <= k < |shorter| && shorter[k] in endings
               && (forall j :: k < j < |shorter| ==> shorter[j] == NSM);
      assert longer[k] in endings && forall j :: k < j < |longer| ==> longer[j] == NSM;
    }
    if EndsIn(longer, endings) {
      var k :| 0 <= k < |longer| && longer[k] in endings
               && (forall j :: k < j < |longer| ==> longer[j] == NSM);
      if k < i {
        assert longer[i] == NSM;
        assert shorter[k] in endings && forall j :: k < j < |shorter| ==> shorter[j] == longer[j] == NSM;
      }
    }
  }

  lemma CleanNext(text: Label, i: nat, rtl: bool)
    requires i < |text| && CleanUpTo(text, i, rtl)
    requires text[i] in Allowed(rtl) && (rtl ==> OneNumeralKind(text[..i + 1]))
    ensures CleanUpTo(text, i + 1, rtl)
  {
    assert text[..i + 1] == text[..i] + [text[i]];
  }

  /** A label clean to its end and properly ended is what the conditions ask for. */
  lemma CleanIsRule(text: Label)
    requires text != [] && (text[0] in RTL_FIRST || text[0] == L)
    ensures BidiRule(text) <==>
              CleanUpTo(text, |text|, StartsRtl(text)) && EndsIn(text, Endings(StartsRtl(text)))
  {
    assert text[..|text|] == text;
  }

  lemma RtlStays(text: Label, i: nat)
    requires i < |text| && HasRtl(text[..i])
    ensures HasRtl(text[..i + 1])
  {
    var k :| 0 <= k < i && text[..i][k] in RTL_CATEGORIES;
    assert text[..i + 1][k] in RTL_CATEGORIES;
  }

  lemma CleanShorter(text: Label, j: nat, k: nat, rtl: bool)
    requires j <= k <= |text| && CleanUpTo(text, k, rtl)
    ensures CleanUpTo(text, j, rtl)
  {
    assert text[..j] == text[..k][..j];
  }

  // --------------------------------------------------------------- check_bidi

  /** A number already seen in the label, if any. */
  datatype NumberType = NoNumber | Number(direction: Direction)

  ghost predicate Seen(text: Label, number: NumberType) {
    match number
    case NoNumber => EN !in text && AN !in text
    case Number(d) => d in RTL_NUMERIC && d in text && forall e :: e in RTL_NUMERIC && e in text ==> e == d
  }

  /**
   check_bidi.  It accepts exactly the acceptable labels, and otherwise raises for the
   first character at fault.
   */
  method CheckBidi(text: Label, checkLtr: bool) returns (o: Outcome)
    ensures Explains(text, checkLtr, o)
    ensures o == Accepted <==> Acceptable(text, checkLtr)
  {
    if |text| > MAX_INPUT_LENGTH { return TooLong; }
    var bidiLabel := false;
    for i := 0 to |text|
      invariant Unknown !in text[..i]
      invariant bidiLabel == HasRtl(text[..i])
    {
      var direction := text[i];
      NextDirection(text, i);
      if direction == Unknown { return UnknownDirection(i + 1); }
      if direction in RTL_CATEGORIES { bidiLabel := true; }
    }
    assert text[..|text|] == text;
    if !bidiLabel && !checkLtr { return Accepted; }
    if text == [] { return NoFirstCharacter; }
    var rtl;
    if text[0] in RTL_FIRST { rtl := true; }
    else if text[0] == L { rtl := false; }
    else { return BadFirst; }
    var validEnding := false;
    var numberType := NoNumber;
    for i := 0 to |text|
      invariant CleanUpTo(text, i, rtl)
      invariant validEnding == EndsIn(text[..i], Endings(rtl))
      invariant rtl ==> Seen(text[..i], numberType)
    {
      var direction := text[i];
      EndsInNext(text, i, Endings(rtl));
      if rtl {
        if direction !in RTL_ALLOWED { DirectionRefused(text, checkLtr, i); return BadDirection(i + 1); }
        if direction in RTL_VALID_ENDING { validEnding := true; }
        else if direction != NSM { validEnding := false; }
        SeenNext(text, i, numberType);
        if direction in RTL_NUMERIC {
          if numberType == NoNumber { numberType := Number(direction); }
          else if numberType.direction != direction { NumeralRefused(text, checkLtr, i); return MixedNumerals; }
        }
      } else {
        if direction !in LTR_ALLOWED { DirectionRefused(text, checkLtr, i); return BadDirection(i + 1); }
        if direction in LTR_VALID_ENDING { validEnding := true; }
        else if direction != NSM { validEnding := false; }
      }
      CleanNext(text, i, rtl);
    }
    assert text[..|text|] == text;
    CleanIsRule(text);
    if !validEnding { return BadEnding; }
    return Accepted;
  }

  /** Another character, and the numbers seen. */
  lemma SeenNext(text: Label, i: nat, number: NumberType)
    requires i < |text| && Seen(text[..i], number)
    ensures text[i] !in RTL_NUMERIC ==> Seen(text[..i + 1], number)
    ensures text[i] in RTL_NUMERIC && number in {NoNumber, Number(text[i])} ==>
              Seen(text[..i + 1], Number(text[i]))
    ensures OneNumeralKind(text[..i + 1])
            <==> text[i] !in RTL_NUMERIC || number in {NoNumber, Number(text[i])}
  {
    assert text[..i + 1] == text[..i] + [text[i]];
  }

  lemma DirectionRefused(text: Label, checkLtr: bool, i: nat)
    requires Checked(text, checkLtr) && i < |text| && CleanUpTo(text, i, StartsRtl(text))
    requires text[i] !in Allowed(StartsRtl(text))
    ensures Explains(text, checkLtr, BadDirection(i + 1)) && !Acceptable(text, checkLtr)
  {
    assert text[..i + 1][i] == text[i];
    FaultRefused(text, i + 1, StartsRtl(text));
    CleanIsRule(text);
  }

  lemma NumeralRefused(text: Label, checkLtr: bool, i: nat)
    requires Checked(text, checkLtr) && StartsRtl(text) && i < |text| && CleanUpTo(text, i, true)
    requires text[i] in RTL_ALLOWED && !OneNumeralKind(text[..i + 1])
    ensures Explains(text, checkLtr, MixedNumerals) && !Acceptable(text, checkLtr)
  {
    FaultRefused(text, i + 1, true);
    CleanIsRule(text);
    var p := i + 1;
    assert CleanUpTo(text, p - 1, true) && text[p - 1] in RTL_ALLOWED && !OneNumeralKind(text[..p]);
  }

  lemma NextDirection(text: Label, i: nat)
    requires i < |text|
    ensures text[..i + 1] == text[..i] + [text[i]]
    ensures HasRtl(text[..i + 1]) <==> HasRtl(text[..i]) || text[i] in RTL_CATEGORIES
  {
    var longer := text[..i + 1];
    assert longer == text[..i] + [text[i]];
    if HasRtl(text[..i]) { RtlStays(text, i); }
    if text[i] in RTL_CATEGORIES { assert longer[i] in RTL_CATEGORIES; }
    if HasRtl(longer) {
      var k :| 0 <= k < |longer| && longer[k] in RTL_CATEGORIES;
      if k < i { assert text[..i][k] in RTL_CATEGORIES; }
    }
  }

  /** A fault anywhere is a fault of the whole label. */
  lemma FaultRefused(text: Label, k: nat, rtl: bool)
    requires k <= |text| && !CleanUpTo(text, k, rtl)
    ensures !CleanUpTo(text, |text|, rtl)
  {
    if CleanUpTo(text, |text|, rtl) { CleanShorter(text, k, |text|, rtl); }
  }

  /** An exception from inside the second loop comes from the first character at fault. */
  lemma FaultOf(text: Label, checkLtr: bool, o: Outcome) returns (p: nat)
    requires Explains(text, checkLtr, o) && (o.BadDirection? || o == MixedNumerals)
    ensures Checked(text, checkLtr) && 1 <= p <= |text|
    ensures CleanUpTo(text, p - 1, StartsRtl(text)) && !CleanUpTo(text, p, StartsRtl(text))
    ensures o == if text[p - 1] in Allowed(StartsRtl(text)) then MixedNumerals else BadDirection(p)
  {
    if o.BadDirection? {
      p := o.position;
    } else {
      p :| 1 <= p <= |text| && CleanUpTo(text, p - 1, StartsRtl(text))
           && text[p - 1] in RTL_ALLOWED && !OneNumeralKind(text[..p]);
    }
    assert text[..p][p - 1] == text[p - 1];
  }

  lemma OneFirstFault(text: Label, p: nat, q: nat, rtl: bool)
    requires 1 <= p <= |text| && CleanUpTo(text, p - 1, rtl) && !CleanUpTo(text, p, rtl)
    requires 1 <= q <= |text| && CleanUpTo(text, q - 1, rtl) && !CleanUpTo(text, q, rtl)
    ensures p == q
  {
    if p < q { CleanShorter(text, p, q - 1, rtl); }
    if q < p { CleanShorter(text, q, p - 1, rtl); }
  }

  lemma OneFault(text: Label, checkLtr: bool, a: Outcome, b: Outcome)
    requires a.BadDirection? || a == MixedNumerals
    requires Explains(text, checkLtr, a) && Explains(text, checkLtr, b)
    ensures a == b
  {
    var rtl := StartsRtl(text);
    var p := FaultOf(text, checkLtr, a);
    FaultRefused(text, p, rtl);
    if b.BadDirection? || b == MixedNumerals {
      var q := FaultOf(text, checkLtr, b);
      OneFirstFault(text, p, q, rtl);
    } else if b == Accepted {
      CleanIsRule(text);
    }
  }

  /** The outcome is fixed by the label: no two have their circumstances met at once. */
  lemma OneOutcome(text: Label, checkLtr: bool, a: Outcome, b: Outcome)
    requires Explains(text, checkLtr, a) && Explains(text, checkLtr, b)
    ensures a == b
  {
    if a.BadDirection? || a == MixedNumerals { OneFault(text, checkLtr, a, b); }
    else if b.BadDirection? || b == MixedNumerals { OneFault(text, checkLtr, b, a); }
    else if Checked(text, checkLtr) { CleanIsRule(text); }
  }
}
