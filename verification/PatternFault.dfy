/**
 What is wrong with a source that no tree is the writing of: well-written pieces up to a fault,
 and the error that the fault is reported with (rustmatch/src/parser.rs:86-378).  Like the
 trees, this does not mention the parser.
 */
module PatternFault {
  import opened Base
  import opened Assertions
  import opened HirSyntax
  import opened PatternSyntax

  datatype ParseError = EmptyPattern | InvalidPattern(start: nat, end: nat) | NestingTooDeep

  datatype Result<T> = Parsed(value: T) | Rejected(error: ParseError)

  // ---- Faults --------------------------------------------------------------------------

  /** What can go wrong inside the braces of a counted quantifier. */
  datatype CountSlip =
    | NoLeast
    | LeastTooGreat(digits: Text)
    | NoBrace(digits: Text)
    | NoMost(digits: Text)
    | MostTooGreat(digits: Text, most: Text)
    | NoBraceAfter(digits: Text, most: Text)
    | OutOfOrder(digits: Text, limit: Limit)

  datatype RepeatSlip = Doubled(quantifier: Quantifier) | BadCount(slip: CountSlip)

  datatype ClassSlip =
    | ClassEnds
    | OpenRange
    | BadClassEscape
    | Reversed(high: ClassUnit)
    | RangeToNamed(escape: U16)
    | LoneDash

  /**
   `Inside` is an open group whose body is broken, `Unclosed` one whose body is well written up
   to the end of the source.  `TooDeep` opens one group more than may nest.
   */
  datatype Fault =
    | StrayClose
    | NoAtom
    | BadEscape
    | BadMark
    | TooDeep(capturing: bool)
    | Unclosed(capturing: bool, branches: seq<Branch>, trailing: bool)
    | Inside(capturing: bool, body: Broken)
    | BadClass(inverted: bool, members: seq<ClassItem>, low: Option<ClassUnit>, classSlip: ClassSlip)
    | BadRepeat(atom: Syntax, repeatSlip: RepeatSlip)

  /** Branches, each with its bar, and in the last branch some items and then the fault. */
  datatype Broken = Here(items: seq<Syntax>, fault: Fault) | Later(first: Branch, rest: Broken)

  // ---- What is written -----------------------------------------------------------------

  function Drop(text: Text, n: nat): Text {
    if n <= |text| then text[n..] else []
  }

  predicate Begins(text: Text, u: U16) {
    text != [] && text[0] == u
  }

  /** What a backslash makes of the unit behind it. */
  function EscapeTree(escaped: U16): Option<Syntax> {
    if IsEscapedLiteral(escaped) then Some(LiteralUnit(escaped, true))
    else if IsControl(escaped) then Some(Control(escaped))
    else if IsShorthand(escaped) then Some(ShorthandEscape(escaped))
    else if escaped == 'b' as int then Some(ZeroWidth(WordBoundary))
    else if escaped == 'B' as int then Some(ZeroWidth(NonWordBoundary))
    else None
  }

  /** What a unit is that needs no backslash and opens nothing. */
  function PlainTree(u: U16): Syntax {
    if u == DOT then AnyUnit
    else if u == CARET then ZeroWidth(LineStart)
    else if u == DOLLAR then ZeroWidth(LineEnd)
    else LiteralUnit(u, false)
  }

  /** A group opens here. */
  predicate Opens(text: Text, capturing: bool) {
    if capturing then Begins(text, OPEN) && !Begins(text[1..], QUESTION)
    else WriteOpen(false) <= text
  }

  function Body(text: Text, capturing: bool): Text {
    Drop(text, |WriteOpen(capturing)|)
  }

  /** The maximal run of digits here is `digits`. */
  predicate LeadingDigits(text: Text, digits: Text) {
    digits <= text && AllDigits(digits) && (|digits| < |text| ==> !IsDigit(text[|digits|]))
  }

  predicate TooGreat(digits: Text) {
    digits != [] && AllDigits(digits) && Decimal(digits) > MAX_COUNTED_REPETITION
  }

  /** The text begins at the opening brace. */
  predicate CountSlips(text: Text, slip: CountSlip) {
    Begins(text, OPEN_BRACE) &&
    match slip
    case NoLeast => LeadingDigits(text[1..], [])
    case LeastTooGreat(digits) => LeadingDigits(text[1..], digits) && TooGreat(digits)
    case NoBrace(digits) =>
      && LeadingDigits(text[1..], digits) && WritableCount(digits)
      && !Begins(Drop(text, 1 + |digits|), CLOSE_BRACE) && !Begins(Drop(text, 1 + |digits|), COMMA)
    case NoMost(digits) =>
      && ToComma(text, digits)
      && LeadingDigits(AfterComma(text, digits), []) && !Begins(AfterComma(text, digits), CLOSE_BRACE)
    case MostTooGreat(digits, most) =>
      ToComma(text, digits) && LeadingDigits(AfterComma(text, digits), most) && TooGreat(most)
    case NoBraceAfter(digits, most) =>
      && ToComma(text, digits) && LeadingDigits(AfterComma(text, digits), most) && WritableCount(most)
      && !Begins(Drop(AfterComma(text, digits), |most|), CLOSE_BRACE)
    case OutOfOrder(digits, limit) =>
      && WriteQuantifier(Counted(digits, limit)) <= text
      && WritableCount(digits) && (limit.UpTo? ==> WritableCount(limit.digits))
      && !WritableQuantifier(Counted(digits, limit))
  }

  predicate ToComma(text: Text, digits: Text) {
    WritableCount(digits) && [OPEN_BRACE] + (digits + [COMMA]) <= text
  }

  function AfterComma(text: Text, digits: Text): Text {
    Drop(text, 2 + |digits|)
  }

  /** The text begins where the quantifier does. */
  predicate RepeatSlips(text: Text, slip: RepeatSlip) {
    match slip
    case Doubled(q) =>
      && WritableQuantifier(q) && WriteQuantifier(q) <= text
      && var behind := Drop(text, |WriteQuantifier(q)|); behind != [] && IsRepetitionOperator(behind[0])
    case BadCount(count) => CountSlips(text, count)
  }

  function RangeText(low: Option<ClassUnit>): Text {
    if low.Some? then WriteClassUnit(low.value) + [DASH] else []
  }

  /** A literal last member would begin a range with the dash behind it. */
  predicate HoldsBack(members: seq<ClassItem>) {
    members != [] && members[|members| - 1].One?
  }

  /** The text begins behind the members and the range that has begun, if one has. */
  predicate ClassSlips(mode: Mode, text: Text, members: seq<ClassItem>, low: Option<ClassUnit>, slip: ClassSlip) {
    match slip
    case ClassEnds => text == []
    case OpenRange => low.Some? && Begins(text, CLOSE_BRACKET)
    case BadClassEscape =>
      Begins(text, BACKSLASH)
      && (|text| == 1 || !(IsClassEscape(text[1]) || IsControl(text[1]) || IsClassShorthand(text[1])))
    case Reversed(high) =>
      && low.Some? && WritableClassUnit(high) && WriteClassUnit(high) <= text
      && !RangeInOrder(mode, Value(low.value), Value(high))
    case RangeToNamed(escape) => low.Some? && IsClassShorthand(escape) && [BACKSLASH, escape] <= text
    case LoneDash => Begins(text, DASH) && (low.Some? || !HoldsBack(members))
  }

  function OpenClass(inverted: bool): Text {
    if inverted then [OPEN_BRACKET, CARET] else [OPEN_BRACKET]
  }

  function ClassText(inverted: bool, members: seq<ClassItem>, low: Option<ClassUnit>): Text {
    OpenClass(inverted) + (WriteMembers(members) + RangeText(low))
  }

  predicate WrittenBranches(mode: Mode, room: nat, branches: seq<Branch>, trailing: bool) {
    && branches != [] && (|branches| == 1 || LastShows(branches, trailing))
    && forall b :: b in branches ==> WritableBranch(mode, b) && FitsBranch(b, room)
  }

  /** The fault begins here, where `room` more groups may open. */
  predicate Faulty(mode: Mode, room: nat, text: Text, f: Fault)
    decreases f
  {
    match f
    case StrayClose => Begins(text, CLOSE)
    case NoAtom => text != [] && IsRepetitionOperator(text[0])
    case BadEscape => Begins(text, BACKSLASH) && (|text| == 1 || EscapeTree(text[1]).None?)
    case BadMark => [OPEN, QUESTION] <= text && !Begins(text[2..], COLON)
    case TooDeep(capturing) => room == 0 && Opens(text, capturing) && !Begins(Body(text, capturing), CLOSE)
    case Unclosed(capturing, branches, trailing) =>
      && room > 0 && Opens(text, capturing) && WrittenBranches(mode, room - 1, branches, trailing)
      && Body(text, capturing) == WriteBranches(branches, trailing)
    case Inside(capturing, body) =>
      && room > 0 && Opens(text, capturing) && !Begins(Body(text, capturing), CLOSE)
      && BrokenText(mode, room - 1, Body(text, capturing), true, body)
    case BadClass(inverted, members, low, slip) =>
      && (forall m :: m in members ==> WritableMember(mode, m)) && (low.Some? ==> WritableClassUnit(low.value))
      && ClassText(inverted, members, low) <= text && (inverted <==> Begins(text[1..], CARET))
      && ClassSlips(mode, Drop(text, |ClassText(inverted, members, low)|), members, low, slip)
    case BadRepeat(atom, slip) =>
      && !atom.Quantified? && Writable(mode, atom) && Fits(atom, room) && Write(atom) <= text
      && RepeatSlips(Drop(text, |Write(atom)|), slip)
  }

  /** The branches here are well written up to a fault. */
  predicate BrokenText(mode: Mode, room: nat, text: Text, inGroup: bool, b: Broken)
    decreases b
  {
    match b
    case Here(items, fault) =>
      && (forall s :: s in items ==> Writable(mode, s) && Fits(s, room)) && WriteAll(items) <= text
      && (fault.StrayClose? ==> !inGroup) && (fault.NoAtom? ==> items == [])
      && Faulty(mode, room, Drop(text, |WriteAll(items)|), fault)
    case Later(first, rest) =>
      && WritableBranch(mode, first) && FitsBranch(first, room) && WriteAll(first.items) + [BAR] <= text
      && BrokenText(mode, room, Drop(text, |WriteAll(first.items)| + 1), inGroup, rest)
  }

  /** The fault at the bottom is a group too many. */
  predicate DeepFault(f: Fault)
    decreases f
  {
    match f
    case TooDeep(_) => true
    case Inside(_, body) => DeepBroken(body)
    case _ => false
  }

  predicate DeepBroken(b: Broken)
    decreases b
  {
    match b
    case Here(_, fault) => DeepFault(fault)
    case Later(_, rest) => DeepBroken(rest)
  }

  // ---- Errors --------------------------------------------------------------------------

  function Min(a: nat, b: nat): nat {
    if a <= b then a else b
  }

  /** Where the span of a count error ends, when the brace is at `at` and the source ends at `end`. */
  function CountErrorEnd(at: nat, end: nat, slip: CountSlip): nat {
    match slip
    case NoLeast => Min(at + 2, end)
    case LeastTooGreat(digits) => at + 1 + |digits|
    case NoBrace(digits) => at + 1 + |digits|
    case NoMost(digits) => Min(at + 3 + |digits|, end)
    case MostTooGreat(digits, most) => at + 2 + |digits| + |most|
    case NoBraceAfter(digits, most) => at + 2 + |digits| + |most|
    case OutOfOrder(digits, limit) => at + |WriteQuantifier(Counted(digits, limit))|
  }

  function RepeatError(at: nat, end: nat, slip: RepeatSlip): ParseError {
    match slip
    case Doubled(q) => InvalidPattern(at, at + |WriteQuantifier(q)| + 1)
    case BadCount(count) => InvalidPattern(at, CountErrorEnd(at, end, count))
  }

  /** The class begins at `start`, the slip is at `at`. */
  function ClassError(start: nat, at: nat, end: nat, low: Option<ClassUnit>, slip: ClassSlip): ParseError {
    match slip
    case ClassEnds => InvalidPattern(start, end)
    case OpenRange => InvalidPattern(start, at + 1)
    case BadClassEscape => InvalidPattern(at, Min(at + 2, end))
    case Reversed(high) =>
      InvalidPattern(if |RangeText(low)| <= at then at - |RangeText(low)| else 0, at + |WriteClassUnit(high)|)
    case RangeToNamed(_) => InvalidPattern(start, at + 2)
    case LoneDash => InvalidPattern(at, at + 1)
  }

  function FaultError(at: nat, end: nat, f: Fault): ParseError
    decreases f
  {
    match f
    case StrayClose => InvalidPattern(at, at + 1)
    case NoAtom => InvalidPattern(at, at + 1)
    case BadEscape => InvalidPattern(at, Min(at + 2, end))
    case BadMark => InvalidPattern(at, at + 2)
    case TooDeep(_) => NestingTooDeep
    case Unclosed(_, _, _) => InvalidPattern(at, end)
    case Inside(capturing, body) => BrokenError(at + |WriteOpen(capturing)|, end, body)
    case BadClass(inverted, members, low, slip) =>
      ClassError(at, at + |ClassText(inverted, members, low)|, end, low, slip)
    case BadRepeat(atom, slip) => RepeatError(at + |Write(atom)|, end, slip)
  }

  function BrokenError(at: nat, end: nat, b: Broken): ParseError
    decreases b
  {
    match b
    case Here(items, fault) => FaultError(at + |WriteAll(items)|, end, fault)
    case Later(first, rest) => BrokenError(at + |WriteAll(first.items)| + 1, end, rest)
  }

  // ---- Too many groups -----------------------------------------------------------------

  function Count(text: Text, u: U16): nat {
    if text == [] then 0 else (if text[0] == u then 1 else 0) + Count(text[1..], u)
  }

  lemma {:induction false} CountDrop(text: Text, n: nat, u: U16)
    ensures Count(Drop(text, n), u) <= Count(text, u)
    decreases n
  {
    if n > 0 && text != [] {
      CountDrop(text[1..], n - 1, u);
      assert Drop(text, n) == Drop(text[1..], n - 1);
    }
  }

  /** Only a group too many is reported so. */
  lemma {:induction false} DeepErrors(at: nat, end: nat, b: Broken)
    ensures BrokenError(at, end, b) == NestingTooDeep <==> DeepBroken(b)
    ensures BrokenError(at, end, b) != EmptyPattern
    decreases b
  {
    match b
    case Here(items, fault) =>
      match fault {
        case Inside(capturing, body) => DeepErrors(at + |WriteAll(items)| + |WriteOpen(capturing)|, end, body);
        case _ =>
      }
    case Later(first, rest) => DeepErrors(at + |WriteAll(first.items)| + 1, end, rest);
  }

  /** Only where more groups open than there is room for is one too many, and each has its parenthesis. */
  lemma {:induction false} DeepHasOpens(mode: Mode, room: nat, text: Text, inGroup: bool, b: Broken)
    requires BrokenText(mode, room, text, inGroup, b) && DeepBroken(b)
    ensures Count(text, OPEN) > room
    decreases b
  {
    hide Writable, Fits, WritableBranch, FitsBranch, Write, WriteAll, WriteBranches, RepeatSlips, ClassSlips;
    match b
    case Here(items, fault) =>
      var left := Drop(text, |WriteAll(items)|);
      CountDrop(text, |WriteAll(items)|, OPEN);
      match fault {
        case Inside(capturing, body) =>
          var n := |WriteOpen(capturing)|;
          DeepHasOpens(mode, room - 1, Body(left, capturing), true, body);
          CountDrop(left[1..], n - 1, OPEN);
          assert Drop(left[1..], n - 1) == Body(left, capturing);
        case _ =>
      }
    case Later(first, rest) =>
      var n := |WriteAll(first.items)| + 1;
      CountDrop(text, n, OPEN);
      DeepHasOpens(mode, room, Drop(text, n), inGroup, rest);
  }

  // ---- Whole sources -------------------------------------------------------------------

  predicate AllFlags(flags: seq<U16>) {
    forall f :: f in flags ==> IsFlag(f)
  }

  /** The source begins with a flag prefix. */
  ghost predicate OpensFlags(units: Text) {
    exists flags: seq<U16> :: flags != [] && AllFlags(flags) && WriteFlags(flags) <= units
  }

  /** Behind its flag prefix, if it has one, the source is well written up to a fault. */
  ghost predicate IsBroken(mode: Mode, units: Text, flags: seq<U16>, b: Broken) {
    && AllFlags(flags) && WriteFlags(flags) <= units && (flags == [] ==> !OpensFlags(units))
    && BrokenText(mode.(caseInsensitive := mode.caseInsensitive || FOLD_FLAG in flags), 256,
                  Drop(units, |WriteFlags(flags)|), false, b)
  }

  function SourceError(units: Text, flags: seq<U16>, b: Broken): ParseError {
    BrokenError(|WriteFlags(flags)|, |units|, b)
  }
}
