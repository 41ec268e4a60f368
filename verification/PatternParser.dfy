/**
 The recursive-descent parser (rustmatch/src/parser.rs).  The Java case table is a parameter;
 everything else, including the exact error spans, follows the source.

 Ghost results name what was read: where a method succeeds, the tree whose writing it has
 read and whose denotation and shape its expression has; where it fails, what is broken there and
 how.  As no source has two verdicts, these results are the only ones possible.
 */
module PatternParser {
  import opened Base
  import opened Assertions
  import opened Predicates
  import opened HirSyntax
  import opened Meaning
  import opened HirBuild
  import opened HirFacts
  import opened HirShape
  import opened PatternSyntax
  import opened PatternFault
  import opened PatternUnique
  import opened PatternVerdict
  import opened PatternMeaning
  import opened PatternBehind
  import opened PatternClass

  const MAX_GROUP_NESTING: nat := 256

  // ---- Kinds of units ------------------------------------------------------------------

  predicate RepetitionOperator(unit: U16): (r: bool)
    ensures r <==> IsRepetitionOperator(unit)
  {
    unit in {0x3f, 0x2a, 0x2b, 0x7b}
  }

  predicate EscapedLiteral(unit: U16): (r: bool)
    ensures r <==> IsEscapedLiteral(unit)
  {
    unit in {0x5c, 0x2e, 0x2a, 0x2b, 0x3f, 0x5b, 0x5d, 0x28, 0x29, 0x7c, 0x5e, 0x24, 0x2d, 0x7b, 0x7d}
  }

  predicate Shorthands(unit: U16): (r: bool)
    ensures r <==> IsShorthand(unit)
  {
    unit in {0x64, 0x44, 0x77, 0x57, 0x73, 0x53}
  }

  // ---- Shorthand classes ---------------------------------------------------------------

  method InsertUnit(p: CanonicalPredicate, u: U16) returns (q: CanonicalPredicate)
    ensures forall v: U16 :: q.Contains(v) <==> p.Contains(v) || v == u
  {
    hide SymbolPredicate.Contains;
    var ok;
    q, ok := InsertRange(p, u, u);
  }

  method NoUnits() returns (p: CanonicalPredicate)
    ensures forall u: U16 :: !p.Contains(u)
  {
    p := EmptyPredicate();
    forall u: U16 ensures !p.Contains(u) {
      Extremes(u);
    }
  }

  method DigitClass() returns (p: CanonicalPredicate)
    ensures forall u: U16 :: p.Contains(u) <==> IsDigit(u)
  {
    hide SymbolPredicate.Contains;
    p := NoUnits();
    var ok;
    p, ok := InsertRange(p, 0x30, 0x39);
  }

  method WordClass() returns (p: CanonicalPredicate)
    ensures forall u: U16 :: p.Contains(u) <==> IsAsciiWord(u)
  {
    hide SymbolPredicate.Contains;
    p := NoUnits();
    var ok;
    p, ok := InsertRange(p, 0x61, 0x7a);
    p, ok := InsertRange(p, 0x41, 0x5a);
    p, ok := InsertRange(p, 0x30, 0x39);
    p := InsertUnit(p, 0x5f);
  }

  method WhitespaceClass() returns (p: CanonicalPredicate)
    ensures forall u: U16 :: p.Contains(u) <==> IsWhitespace(u)
  {
    hide SymbolPredicate.Contains;
    p := NoUnits();
    p := InsertUnit(p, 0x20);
    p := InsertUnit(p, 0x09);
    p := InsertUnit(p, 0x0a);
    p := InsertUnit(p, 0x0b);
    p := InsertUnit(p, 0x0c);
    p := InsertUnit(p, 0x0d);
  }

  method ShorthandClass(escape: U16) returns (p: CanonicalPredicate)
    requires IsShorthand(escape)
    ensures forall u: U16 :: p.Contains(u) <==> ShorthandHas(escape, u)
  {
    hide SymbolPredicate.Contains, IsDigit, IsAsciiWord, IsWhitespace;
    if escape == 0x64 || escape == 0x44 {
      p := DigitClass();
    } else if escape == 0x77 || escape == 0x57 {
      p := WordClass();
    } else {
      p := WhitespaceClass();
    }
    if escape == 0x44 || escape == 0x57 || escape == 0x53 {
      p := Complement(p);
    }
  }

  // ---- The parser ----------------------------------------------------------------------

  class Parser {
    const units: Text
    /** The Java lower and upper mappings of a unit. */
    const fold: U16 -> (U16, U16)
    var index: nat
    var caseInsensitive: bool
    var groupDepth: nat

    ghost predicate Valid()
      reads this
    {
      index <= |units| && groupDepth <= MAX_GROUP_NESTING
    }

    function Reading(): Mode
      reads this`caseInsensitive
    {
      Mode(caseInsensitive, fold)
    }

    /** How many more groups may open. */
    ghost function Room(): nat
      requires Valid()
      reads this
    {
      MAX_GROUP_NESTING - groupDepth
    }

    /** Every malformed-syntax span is non-empty and inside the source. */
    ghost predicate Located<T>(r: Result<T>) {
      r.Rejected? ==> r.error.NestingTooDeep? || (r.error.InvalidPattern? && r.error.start < r.error.end <= |units|)
    }

    /** What every parsing step of an expression promises. */
    ghost predicate Promises(r: Result<Hir>) {
      Located(r) && (r.Parsed? ==> Regular(r.value))
    }

    constructor (units: Text, caseInsensitive: bool, fold: U16 -> (U16, U16))
      ensures Valid() && this.units == units && index == 0 && groupDepth == 0
              && Reading() == Mode(caseInsensitive, fold)
    {
      this.units, this.fold, this.caseInsensitive := units, fold, caseInsensitive;
      index, groupDepth := 0, 0;
    }

    predicate CurrentIs(expected: U16)
      reads this
    {
      index < |units| && units[index] == expected
    }

    /** Reads the flag prefix exactly if there is one. */
    method ConsumeFlagPrefix() returns (ghost read: seq<U16>)
      requires Valid() && index == 0
      modifies this`index, this`caseInsensitive
      ensures Valid() && Behind(units, 0, index, WriteFlags(read)) && AllFlags(read)
      ensures read == [] ==> !OpensFlags(units)
      ensures caseInsensitive == (old(caseInsensitive) || FOLD_FLAG in read)
    {
      hide WriteFlags, Behind, OpensFlags;
      read := [];
      NoFlagsRead(units);
      if |units| < 2 || units[0] != OPEN || units[1] != QUESTION {
        NoPrefix(units, 2);
        return;
      }
      var cursor := 2;
      var sawFlag, sawCaseInsensitive := false, false;
      while cursor < |units| && (units[cursor] == 0x69 || units[cursor] == 0x73)
        invariant 2 <= cursor <= |units| && sawFlag == (cursor > 2)
        invariant sawCaseInsensitive == (FOLD_FLAG in units[2..cursor])
        invariant AllFlags(units[2..cursor])
      {
        assert units[2..cursor + 1] == units[2..cursor] + [units[cursor]];
        sawFlag := true;
        if units[cursor] == 0x69 {
          sawCaseInsensitive := true;
        }
        cursor := cursor + 1;
      }
      if sawFlag && cursor < |units| && units[cursor] == CLOSE {
        caseInsensitive := caseInsensitive || sawCaseInsensitive;
        index := cursor + 1;
        read := units[2..cursor];
        FlagsRead(units, cursor);
      } else {
        NoPrefix(units, cursor);
      }
    }

    method ParseAlternation(inGroup: bool)
      returns (r: Result<Hir>, ghost read: seq<Branch>, ghost barLast: bool, ghost broken: Broken)
      requires Valid()
      modifies this`index, this`groupDepth
      ensures Valid() && Promises(r) && index >= old(index) && groupDepth == old(groupDepth)
      ensures r.Parsed? ==>
                && ParsedBranches(Reading(), Room(), r.value, read, barLast)
                && Behind(units, old(index), index, WriteBranches(read, barLast))
                && (index == |units| || (inGroup && CurrentIs(CLOSE)))
      ensures r.Rejected? ==>
                && BrokenText(Reading(), Room(), units[old(index)..], inGroup, broken)
                && r.error == BrokenError(old(index), |units|, broken)
      decreases |units| - index, 3
    {
      hide Regular, Matches, WriteAll, WriteMore, WritableBranch, FitsBranch, MeansBranch, MeansAny, Behind,
        BranchesBehind, ParsedBranch, ParsedBranches, BrokenText, BrokenError, SequenceOf, AlternationOf;
      read, barLast := [], false;
      ghost var from := index;
      var first;
      ghost var branch;
      first, branch, broken := ParseSequence(inGroup);
      if first.Rejected? {
        return first, read, barLast, broken;
      }
      FirstBehind(Reading(), Room(), units, from, index, branch, first.value);
      read := [branch];
      var alternatives := [first.value];
      ghost var start := index;
      while CurrentIs(BAR)
        invariant Valid() && index >= from && groupDepth == old(groupDepth) && AllRegular(alternatives)
        invariant start == index && !barLast && StopsAt(units, index, inGroup)
        invariant BranchesBehind(Reading(), Room(), units, from, index, read, alternatives)
        decreases |units| - index
      {
        index := index + 1;
        if index == |units| || (inGroup && CurrentIs(CLOSE)) {
          barLast := true;
          break;
        }
        var next;
        next, branch, broken := ParseSequence(inGroup);
        if next.Rejected? {
          LedBehind(Reading(), Room(), units, from, start, read, alternatives, inGroup, broken);
          broken := Led(read, broken);
          return next, read, barLast, broken;
        }
        NextBehind(Reading(), Room(), units, from, start, read, alternatives, index, branch, next.value, inGroup);
        read := read + [branch];
        alternatives := alternatives + [next.value];
        start := index;
      }
      var h := MakeAlternation(alternatives);
      AlternationBehind(Reading(), Room(), units, from, start, read, alternatives, index, barLast);
      r := Parsed(h);
    }

    method ParseSequence(inGroup: bool) returns (r: Result<Hir>, ghost read: Branch, ghost broken: Broken)
      requires Valid()
      modifies this`index, this`groupDepth
      ensures Valid() && Promises(r) && index >= old(index) && groupDepth == old(groupDepth)
      ensures r.Parsed? ==>
                && ParsedBranch(Reading(), Room(), r.value, read) && StopsAt(units, index, inGroup)
                && Behind(units, old(index), index, WriteAll(read.items))
      ensures r.Rejected? ==>
                && BrokenText(Reading(), Room(), units[old(index)..], inGroup, broken)
                && r.error == BrokenError(old(index), |units|, broken)
      decreases |units| - index, 2
    {
      hide Regular, Matches, WriteAll, Write, Writable, Fits, Means, MeansBranch, WritableBranch, FitsBranch, Behind,
        ItemsBehind, ParsedBranch, ParsedAtom, BrokenText, BrokenError, Faulty, FaultError, RepeatSlips, RepeatError,
        SequenceOf;
      ghost var from := index;
      ghost var behind: seq<Syntax> := [];
      read, broken := Branch([]), Here([], StrayClose);
      var expressions: seq<Hir> := [];
      NoItemBehind(Reading(), Room(), units, index);
      while index < |units|
        invariant Valid() && index >= from && groupDepth == old(groupDepth) && AllRegular(expressions)
        invariant ItemsBehind(Reading(), Room(), units, from, index, behind, expressions)
        invariant behind != [] && index < |units| ==> !IsRepetitionOperator(units[index])
        decreases |units| - index
      {
        var unit := units[index];
        if unit == BAR || (inGroup && unit == CLOSE) {
          break;
        }
        if unit == CLOSE {
          StrayBehindIs(Reading(), Room(), units, index);
          FaultBehind(Reading(), Room(), units, from, index, behind, expressions, inGroup, StrayClose);
          broken := Here(behind, StrayClose);
          return Rejected(InvalidPattern(index, index + 1)), read, broken;
        }
        ghost var start := index;
        var atom;
        ghost var s, f;
        atom, s, f := ParseAtom();
        if atom.Rejected? {
          FaultBehind(Reading(), Room(), units, from, start, behind, expressions, inGroup, f);
          broken := Here(behind, f);
          return atom, read, broken;
        }
        ghost var mid := index;
        var repeated;
        ghost var q, slip;
        repeated, q, slip := ParseRepetition(atom.value);
        if repeated.Rejected? {
          RepeatFault(Reading(), Room(), units, start, mid, atom.value, s, slip);
          FaultBehind(Reading(), Room(), units, from, start, behind, expressions, inGroup, BadRepeat(s, slip));
          broken := Here(behind, BadRepeat(s, slip));
          return repeated, read, broken;
        }
        ItemBehind(Reading(), Room(), units, from, start, behind, expressions, mid, index, atom.value, s, q);
        behind := behind + [Item(s, q)];
        expressions := expressions + [repeated.value];
      }
      var h := MakeSequence(expressions);
      BranchBehind(Reading(), Room(), units, from, index, behind, expressions);
      read := Branch(behind);
      r := Parsed(h);
    }

    method ParseAtom() returns (r: Result<Hir>, ghost read: Syntax, ghost fault: Fault)
      requires Valid() && index < |units| && units[index] != CLOSE && units[index] != BAR
      modifies this`index, this`groupDepth
      ensures Valid() && Promises(r) && (r.Parsed? ==> index > old(index)) && index >= old(index)
              && groupDepth == old(groupDepth)
      ensures r.Parsed? ==> ParsedAtom(Reading(), Room(), r.value, read)
                            && Behind(units, old(index), index, Write(read))
      ensures r.Rejected? ==>
                && Faulty(Reading(), Room(), units[old(index)..], fault)
                && r.error == FaultError(old(index), |units|, fault)
                && !fault.StrayClose? && (fault.NoAtom? ==> IsRepetitionOperator(units[old(index)]))
      decreases |units| - index, 1
    {
      hide Regular, Matches, Write, Writable, Fits, Means, Behind, ParsedAtom, Faulty, FaultError;
      var unit := units[index];
      ghost var start := index;
      read, fault := AnyUnit, NoAtom;
      if unit == DOT {
        index := index + 1;
        var h := DotClass(Reading());
        PlainBehind(Reading(), Room(), units, start, h);
        r := Parsed(h);
      } else if unit == BACKSLASH {
        r := ParseEscape();
        if r.Parsed? {
          read := EscapeTree(units[start + 1]).value;
          EscapeBehind(Reading(), Room(), units, start, r.value);
        } else {
          fault := BadEscape;
          EscapeFault(Reading(), Room(), units, start);
        }
      } else if unit == OPEN_BRACKET {
        r, read, fault := ParseCharacterClass();
      } else if unit == OPEN {
        r, read, fault := ParseGroup();
      } else if unit == CARET {
        index := index + 1;
        r, read := Parsed(Assert(LineStart)), ZeroWidth(LineStart);
        AssertionMeans(Reading(), LineStart);
        PlainBehind(Reading(), Room(), units, start, Assert(LineStart));
      } else if unit == DOLLAR {
        index := index + 1;
        r, read := Parsed(Assert(LineEnd)), ZeroWidth(LineEnd);
        AssertionMeans(Reading(), LineEnd);
        PlainBehind(Reading(), Room(), units, start, Assert(LineEnd));
      } else if RepetitionOperator(unit) {
        OperatorFault(Reading(), Room(), units, start);
        r := Rejected(InvalidPattern(index, index + 1));
      } else {
        index := index + 1;
        var h := LiteralOf(unit);
        read := LiteralUnit(unit, false);
        LiteralMeans(Reading(), h, unit, false);
        PlainBehind(Reading(), Room(), units, start, h);
        r := Parsed(h);
      }
    }

    method DotClass(ghost mode: Mode) returns (h: Hir)
      ensures Regular(h) && Means(mode, h, AnyUnit)
    {
      hide Means;
      forall v: U16 ensures AnyPredicate().Contains(v) {
        Extremes(v);
      }
      ClassMeans(mode, AnyPredicate(), AnyUnit);
      h := Predicate(AnyPredicate());
    }

    method ParseGroup() returns (r: Result<Hir>, ghost read: Syntax, ghost fault: Fault)
      requires Valid() && index < |units| && units[index] == OPEN
      modifies this`index, this`groupDepth
      ensures Valid() && Promises(r) && index > old(index) && groupDepth == old(groupDepth)
      ensures r.Parsed? ==> ParsedAtom(Reading(), Room(), r.value, read)
                            && Behind(units, old(index), index, Write(read))
      ensures r.Rejected? ==>
                && Faulty(Reading(), Room(), units[old(index)..], fault)
                && r.error == FaultError(old(index), |units|, fault) && OpenFault(fault)
      decreases |units| - index, 0
    {
      hide Regular, Matches, Write, WriteOpen, WriteBranches, Means, MeansAny, Writable, Behind, ParsedAtom,
        ParsedBranches, Fits, Faulty, FaultError, BrokenText, BrokenError, Opens, Body;
      var start := index;
      read, fault := EmptyGroup(true), BadMark;
      ghost var capturing := true;
      index := index + 1;
      if CurrentIs(QUESTION) {
        index := index + 1;
        if !CurrentIs(COLON) {
          MarkFault(Reading(), Room(), units, start);
          return Rejected(InvalidPattern(start, index)), read, fault;
        }
        index := index + 1;
        capturing := false;
      }
      ghost var body := index;
      OpenBehind(units, start, body, capturing);
      if CurrentIs(CLOSE) {
        EmptyGroupBehind(Reading(), Room(), units, start, body, capturing);
        read := EmptyGroup(capturing);
        index := index + 1;
        return Parsed(Never), read, fault;
      }
      if groupDepth == MAX_GROUP_NESTING {
        fault := TooDeep(capturing);
        DeepFaultHere(Reading(), units, start, body, capturing);
        return Rejected(NestingTooDeep), read, fault;
      }
      groupDepth := groupDepth + 1;
      ghost var inside, barLast, broken;
      r, inside, barLast, broken := ParseAlternation(true);
      groupDepth := groupDepth - 1;
      if r.Rejected? {
        fault := Inside(capturing, broken);
        InsideFault(Reading(), Room(), units, start, body, capturing, broken);
        return;
      }
      if !CurrentIs(CLOSE) {
        fault := Unclosed(capturing, inside, barLast);
        UnclosedFault(Reading(), Room(), units, start, body, capturing, inside, barLast, r.value);
        return Rejected(InvalidPattern(start, |units|)), read, fault;
      }
      GroupBehind(Reading(), Room(), units, start, body, index, capturing, inside, barLast, r.value);
      read := Group(capturing, inside, barLast);
      index := index + 1;
    }

    method ParseRepetition(expression: Hir)
      returns (r: Result<Hir>, ghost read: Option<Quantifier>, ghost slip: RepeatSlip)
      requires Valid() && Regular(expression)
      modifies this`index
      ensures Valid() && Promises(r) && index >= old(index)
      ensures r.Parsed? ==>
                && r == Parsed(Repeated(expression, read)) && Behind(units, old(index), index, WriteQuantified(read))
                && (read.Some? ==> WritableQuantifier(read.value))
                && (index < |units| ==> !IsRepetitionOperator(units[index]))
      ensures r.Rejected? ==>
                RepeatSlips(units[old(index)..], slip) && r.error == RepeatError(old(index), |units|, slip)
    {
      hide Regular, Behind, CountSlips, CountErrorEnd, MakeRepeat;
      var start := index;
      ghost var q := Optional;
      read, slip := None, Doubled(Optional);
      if CurrentIs(QUESTION) {
        index := index + 1;
        q := Optional;
        BehindOne(units, start);
        RepeatRegular(expression, q);
        r := Parsed(MakeRepeat(expression, 0, Some(1)));
      } else if CurrentIs(STAR) {
        index := index + 1;
        q := AnyNumber;
        BehindOne(units, start);
        RepeatRegular(expression, q);
        r := Parsed(MakeRepeat(expression, 0, None));
      } else if CurrentIs(PLUS) {
        index := index + 1;
        q := AtLeastOnce;
        BehindOne(units, start);
        RepeatRegular(expression, q);
        r := Parsed(MakeRepeat(expression, 1, None));
      } else if CurrentIs(OPEN_BRACE) {
        ghost var count;
        r, q, count := ParseCountedRepetition(expression);
        if r.Rejected? {
          slip := BadCount(count);
          return;
        }
      } else {
        NothingBehind(units, index);
        return Parsed(expression), read, slip;
      }
      read := Some(q);
      if index < |units| && RepetitionOperator(units[index]) {
        slip := Doubled(q);
        DoubledSlip(units, start, index, q);
        return Rejected(InvalidPattern(start, index + 1)), read, slip;
      }
    }

    method ParseCountedRepetition(expression: Hir)
      returns (r: Result<Hir>, ghost read: Quantifier, ghost slip: CountSlip)
      requires Valid() && index < |units| && units[index] == OPEN_BRACE && Regular(expression)
      modifies this`index
      ensures Valid() && Promises(r) && index > old(index)
      ensures r.Parsed? ==>
                && read.Counted? && WritableQuantifier(read) && r == Parsed(Repeated(expression, Some(read)))
                && Behind(units, old(index), index, WriteQuantifier(read))
      ensures r.Rejected? ==>
                && CountSlips(units[old(index)..], slip)
                && r.error == InvalidPattern(old(index), CountErrorEnd(old(index), |units|, slip))
    {
      hide Regular, WriteLimit, Decimal, Behind, WriteQuantifier, CountSlips, CountErrorEnd, LeadingDigits, MakeRepeat,
        IsDigit, AllDigits;
      var start := index;
      read, slip := Optional, NoLeast;
      index := index + 1;
      var min;
      ghost var least;
      min, least := ParseCount(start);
      ghost var mid := index;
      if min.Rejected? {
        slip := LeastSlip(units, start, mid, least);
        return Rejected(min.error), read, slip;
      }
      ghost var limit: Limit := Exactly;
      var max: Option<U16> := Some(min.value);
      LimitText(units, mid);
      if CurrentIs(CLOSE_BRACE) {
        index := index + 1;
      } else if CurrentIs(COMMA) {
        index := index + 1;
        if CurrentIs(CLOSE_BRACE) {
          index := index + 1;
          max, limit := None, OrMore;
        } else {
          var limitCount;
          ghost var most;
          limitCount, most := ParseCount(start);
          if limitCount.Rejected? {
            slip := MostSlip(units, start, mid, least, index, most);
            return Rejected(limitCount.error), read, slip;
          }
          if !CurrentIs(CLOSE_BRACE) {
            slip := NoBraceAfter(least, most);
            BraceAfterSlip(units, start, mid, least, index, most);
            return Rejected(InvalidPattern(start, index)), read, slip;
          }
          UpToBehind(units, mid, index, most);
          index := index + 1;
          max, limit := Some(limitCount.value), UpTo(most);
        }
      } else {
        slip := NoBrace(least);
        BraceSlip(units, start, mid, least);
        return Rejected(InvalidPattern(start, index)), read, slip;
      }
      CountedBehind(units, start, mid, index, least, limit);
      if (max.Some? && max.value < min.value) || max == Some(0) || min.value > MAX_COUNTED_REPETITION
         || (max.Some? && max.value > MAX_COUNTED_REPETITION) {
        slip := OutOfOrder(least, limit);
        OrderSlip(units, start, index, least, limit);
        return Rejected(InvalidPattern(start, index)), read, slip;
      }
      read := Counted(least, limit);
      RepeatRegular(expression, read);
      r := Parsed(MakeRepeat(expression, min.value, max));
    }

    /** A decimal count, clamped just above the limit so that it cannot overflow. */
    method ParseCount(quantifierStart: nat) returns (r: Result<U16>, ghost digits: Text)
      requires Valid() && quantifierStart < index
      modifies this`index
      ensures Valid() && Located(r) && index >= old(index)
      ensures Behind(units, old(index), index, digits) && LeadingDigits(units[old(index)..], digits)
      ensures r == if WritableCount(digits) then Parsed(CountOf(digits))
                   else
                     Rejected(InvalidPattern(quantifierStart,
                                             Min(if digits == [] then old(index) + 1 else index, |units|)))
    {
      hide Decimal, Digit;
      var numberStart := index;
      var value: nat := 0;
      NoDigits();
      while index < |units| && 0x30 <= units[index] <= 0x39
        invariant numberStart <= index <= |units|
        invariant AllDigits(units[numberStart..index]) && value == Clamp(Decimal(units[numberStart..index]))
      {
        var digit := units[index] - 0x30;
        assert units[numberStart..index + 1] == units[numberStart..index] + [units[index]];
        DecimalMore(units[numberStart..index], units[index]);
        assert digit == Digit(units[index]) by { DigitIs(units[index]); }
        ClampStep(Decimal(units[numberStart..index]), digit);
        value := Clamp(value * 10 + digit);
        index := index + 1;
      }
      digits := units[numberStart..index];
      BehindStarts(units, numberStart, index, digits);
      if index == numberStart || value > MAX_COUNTED_REPETITION {
        var end := if index > numberStart + 1 then index else numberStart + 1;
        return Rejected(InvalidPattern(quantifierStart, if end < |units| then end else |units|)), digits;
      }
      r := Parsed(value);
    }

    /** Decides every escape outright. */
    method ParseEscape() returns (r: Result<Hir>)
      requires Valid() && index < |units| && units[index] == BACKSLASH
      modifies this`index
      ensures Valid() && Promises(r) && index > old(index)
      ensures old(index) + 1 == |units| ==> r == Rejected(InvalidPattern(old(index), |units|))
      ensures old(index) + 1 < |units| ==>
                var escaped := units[old(index) + 1];
                && index == old(index) + 2
                && (r.Parsed? <==> EscapeTree(escaped).Some?)
                && (r.Parsed? ==> Means(Reading(), r.value, EscapeTree(escaped).value))
                && (r.Rejected? ==> r == Rejected(InvalidPattern(old(index), index)))
    {
      hide Regular, Matches, Denotes, Means, TakesUnit;
      var start := index;
      index := index + 1;
      if index >= |units| {
        return Rejected(InvalidPattern(start, index));
      }
      var escaped := units[index];
      index := index + 1;
      if EscapedLiteral(escaped) {
        var h := LiteralOf(escaped);
        LiteralMeans(Reading(), h, escaped, true);
        r := Parsed(h);
      } else if escaped == 0x6e {
        r := Parsed(Symbol(0x0a));
        ControlMeans(Reading(), escaped);
      } else if escaped == 0x74 {
        r := Parsed(Symbol(0x09));
        ControlMeans(Reading(), escaped);
      } else if escaped == 0x72 {
        r := Parsed(Symbol(0x0d));
        ControlMeans(Reading(), escaped);
      } else if escaped == 0x66 {
        r := Parsed(Symbol(0x0c));
        ControlMeans(Reading(), escaped);
      } else if Shorthands(escaped) {
        var p := ShorthandClass(escaped);
        ShorthandMeans(Reading(), p, escaped);
        r := Parsed(Predicate(p));
        ClassIsRegular(p);
      } else if escaped == 0x62 {
        r := Parsed(Assert(WordBoundary));
        AssertionMeans(Reading(), WordBoundary);
      } else if escaped == 0x42 {
        r := Parsed(Assert(NonWordBoundary));
        AssertionMeans(Reading(), NonWordBoundary);
      } else {
        r := Rejected(InvalidPattern(start, index));
      }
    }

    /** However the literal is spelled. */
    method LiteralOf(u: U16) returns (h: Hir)
      ensures Regular(h) && Means(Reading(), h, LiteralUnit(u, true))
    {
      hide Means, SymbolPredicate.Contains;
      if !caseInsensitive {
        SymbolMeans(Reading(), u, LiteralUnit(u, true));
        return Symbol(u);
      }
      var (lower, upper) := fold(u);
      if lower == upper {
        SymbolMeans(Reading(), u, LiteralUnit(u, true));
        return Symbol(u);
      }
      var p := NoUnits();
      p := InsertUnit(p, lower);
      p := InsertUnit(p, upper);
      h := Predicate(p);
      ClassMeans(Reading(), p, LiteralUnit(u, true));
    }

    /** The literal held back is a member, and a caret in front negates the class. */
    method CloseClass(class_: CanonicalPredicate, pending: Option<(U16, nat)>, inverted: bool, ghost classStart: nat,
                      ghost g: Progress)
      returns (all: CanonicalPredicate, ghost read: Syntax)
      requires Valid() && CurrentIs(CLOSE_BRACKET)
      requires classStart < |units| && units[classStart] == OPEN_BRACKET && inverted == Negates(units, classStart)
      requires InClass(Reading(), units, ClassBody(units, classStart), index, g, class_)
      requires g.low.None? && UnitOf(pending) == ValueOf(g.held)
      modifies this`index
      ensures Valid() && index == old(index) + 1
      ensures ParsedAtom(Reading(), Room(), Predicate(all), read) && Behind(units, classStart, index, Write(read))
    {
      hide SymbolPredicate.Contains, Means, Write, AddsHeld, Behind, InClass, ParsedAtom, ValueOf,
        SymbolPredicate.Canonical;
      all := InsertHeld(class_, pending);
      ghost var positive := all;
      index := index + 1;
      if inverted {
        all := Complement(all);
      }
      read := CloseStep(Reading(), Room(), units, classStart, index - 1, g, class_, positive, all);
    }

    /** A class; the bracket that opens it is ahead. */
    method ParseCharacterClass() returns (r: Result<Hir>, ghost read: Syntax, ghost fault: Fault)
      requires Valid() && index < |units| && units[index] == OPEN_BRACKET
      modifies this`index
      ensures Valid() && Promises(r) && index > old(index)
      ensures r.Parsed? ==> ParsedAtom(Reading(), Room(), r.value, read)
                            && Behind(units, old(index), index, Write(read))
      ensures r.Rejected? ==>
                && fault.BadClass? && Faulty(Reading(), Room(), units[old(index)..], fault)
                && r.error == FaultError(old(index), |units|, fault)
    {
      hide SymbolPredicate.Contains, Regular, Means, Write, TokenAt, AddsRange, AddsHeld, Behind, InClass, ParsedAtom,
        RangeInOrder, ValueOf, SymbolPredicate.Canonical, ClassSlips, ClassError, Faulty, FaultError, WriteClassUnit,
        RangeText, Flushed, Negates;
      var classStart := index;
      index := index + 1;
      var inverted := CurrentIs(CARET);
      if inverted {
        index := index + 1;
      }
      var class_ := NoUnits();
      var pending: Option<(U16, nat)> := None;
      var rangeStart: Option<(U16, nat)> := None;
      read, fault := AnyUnit, NoAtom;
      ghost var from, g := index, Progress([], None, None);
      ClassStarts(Reading(), units, classStart, class_);
      NegatesIs(units, classStart);
      HeldIs(g);
      while true
        invariant Valid() && index > classStart && (inverted <==> Negates(units, classStart))
        invariant from == ClassBody(units, classStart) && InClass(Reading(), units, from, index, g, class_)
        invariant Holds(g, pending, rangeStart, index)
        decreases |units| - index
      {
        NotBothHeld(Reading(), units, from, index, g, class_);
        HeldIs(g);
        ghost var members, at := Flushed(g.done, g.held), index;
        if index >= |units| {
          EndSlips(Reading(), units, classStart, index, members, g.low);
          fault := ClassFault(Reading(), Room(), units, classStart, index, g, class_, ClassEnds);
          return Rejected(InvalidPattern(classStart, index)), read, fault;
        }
        if units[index] == CLOSE_BRACKET {
          if rangeStart.Some? {
            OpenRangeSlips(Reading(), units, classStart, index, members, g.low);
            fault := ClassFault(Reading(), Room(), units, classStart, index, g, class_, OpenRange);
            return Rejected(InvalidPattern(classStart, index + 1)), read, fault;
          }
          class_, read := CloseClass(class_, pending, inverted, classStart, g);
          ClassIsRegular(class_);
          return Parsed(Predicate(class_)), read, fault;
        }
        var token := ParseClassToken();
        if token.Rejected? {
          TokenSlips(Reading(), units, classStart, at, members, g.low, token, index);
          fault := ClassFault(Reading(), Room(), units, classStart, at, g, class_, BadClassEscape);
          return Rejected(token.error), read, fault;
        }
        var error;
        error, class_, pending, rangeStart, g, fault :=
          TakeToken(token.value, classStart, at, class_, pending, rangeStart, g);
        if error.Some? {
          return Rejected(error.value), read, fault;
        }
      }
    }

    /** The literals held back, and where they begin. */
    ghost predicate Holds(g: Progress, pending: Option<(U16, nat)>, rangeStart: Option<(U16, nat)>, at: nat) {
      && UnitOf(pending) == ValueOf(g.held) && UnitOf(rangeStart) == ValueOf(g.low)
      && (pending.Some? ==> g.held.Some? && pending.value.1 + |WriteClassUnit(g.held.value)| == at)
      && (rangeStart.Some? ==> rangeStart.value.1 + |RangeText(g.low)| == at)
    }

    /** One token of a class, read from `at` to `index`. */
    method TakeToken(token: ClassToken, classStart: nat, ghost at: nat, p: CanonicalPredicate, held: Option<(U16, nat)>,
                     low: Option<(U16, nat)>, ghost before: Progress)
      returns (error: Option<ParseError>, class_: CanonicalPredicate, pending: Option<(U16, nat)>,
               rangeStart: Option<(U16, nat)>, ghost g: Progress, ghost fault: Fault)
      requires Valid() && classStart < at < |units| && units[classStart] == OPEN_BRACKET && units[at] != CLOSE_BRACKET
      requires TokenAt(units, at, Parsed(token), index) && (!token.Shorthand? ==> token.position == at)
      requires InClass(Reading(), units, ClassBody(units, classStart), at, before, p) && Holds(before, held, low, at)
      ensures error.None? ==>
                && InClass(Reading(), units, ClassBody(units, classStart), index, g, class_)
                && Holds(g, pending, rangeStart, index)
      ensures error.Some? ==>
                && error.value.InvalidPattern? && error.value.start < error.value.end <= |units|
                && fault.BadClass? && Faulty(Reading(), Room(), units[classStart..], fault)
                && error.value == FaultError(classStart, |units|, fault)
    {
      hide SymbolPredicate.Contains, TokenAt, AddsRange, AddsHeld, InClass, RangeInOrder, ValueOf,
        SymbolPredicate.Canonical, ClassSlips, ClassError, Faulty, FaultError, WriteClassUnit, RangeText;
      error, class_, pending, rangeStart, g, fault := None, p, held, low, before, NoAtom;
      ghost var from, members := ClassBody(units, classStart), Flushed(before.done, before.held);
      NotBothHeld(Reading(), units, from, at, before, p);
      TokenEnds(units, at, token, index);
      HeldIs(before);
      match token
      case Literal(unit, position) =>
        if rangeStart.Some? {
          var ok;
          class_, ok := InsertClassRange(class_, rangeStart.value.0, unit);
          if !ok {
            ReversedSlips(Reading(), units, classStart, at, members, g.low, unit, index);
            fault := ClassFault(Reading(), Room(), units, classStart, at, g, p, Reversed(SpellingAt(units, at)));
            error := Some(InvalidPattern(rangeStart.value.1, index));
            return;
          }
          g := RangeStep(Reading(), units, from, at, g, p, unit, index, class_);
          rangeStart := None;
        } else {
          class_ := InsertHeld(class_, pending);
          g := LiteralStep(Reading(), units, from, at, g, p, unit, index, class_);
          pending := Some((unit, position));
        }
        HeldIs(g);
      case Shorthand(other) =>
        if rangeStart.Some? {
          NamedSlips(Reading(), units, classStart, at, members, g.low, other, index);
          fault := ClassFault(Reading(), Room(), units, classStart, at, g, class_, RangeToNamed(units[at + 1]));
          error := Some(InvalidPattern(classStart, index));
          return;
        }
        class_ := InsertHeld(class_, pending);
        pending := None;
        ghost var flushed := class_;
        class_ := Union(class_, other);
        g := NamedStep(Reading(), units, from, at, g, p, flushed, other, index, class_);
        HeldIs(g);
      case RangeMarker(marker) =>
        if pending.None? {
          DashSlips(Reading(), units, classStart, at, from, g, class_, index);
          fault := ClassFault(Reading(), Room(), units, classStart, at, g, class_, LoneDash);
          error := Some(InvalidPattern(marker, index));
          return;
        }
        RangeTextIs(g.held.value);
        g := MarkerStep(Reading(), units, from, at, g, class_, index);
        HeldIs(g);
        rangeStart := pending;
        pending := None;
    }

    /** Decides every token of a class outright. */
    method ParseClassToken() returns (r: Result<ClassToken>)
      requires Valid() && index < |units|
      modifies this`index
      ensures Valid() && Located(r) && index > old(index)
      ensures TokenAt(units, old(index), r, index)
      ensures r.Parsed? && !r.value.Shorthand? ==> r.value.position == old(index)
    {
      hide SymbolPredicate.Contains, SymbolPredicate.Canonical, ShorthandHas;
      var start := index;
      var unit := units[index];
      index := index + 1;
      if unit == DASH {
        return Parsed(RangeMarker(start));
      }
      if unit != BACKSLASH {
        return Parsed(Literal(unit, start));
      }
      if index >= |units| {
        return Rejected(InvalidPattern(start, index));
      }
      var escaped := units[index];
      index := index + 1;
      if escaped in {BACKSLASH, CLOSE_BRACKET, OPEN_BRACKET, DASH, CARET} {
        r := Parsed(Literal(escaped, start));
      } else if escaped == 0x6e {
        r := Parsed(Literal(0x0a, start));
      } else if escaped == 0x74 {
        r := Parsed(Literal(0x09, start));
      } else if escaped == 0x72 {
        r := Parsed(Literal(0x0d, start));
      } else if escaped == 0x66 {
        r := Parsed(Literal(0x0c, start));
      } else if escaped in {0x64, 0x77, 0x73} {
        var p := ShorthandClass(escaped);
        r := Parsed(Shorthand(p));
      } else {
        r := Rejected(InvalidPattern(start, index));
      }
    }

    /** A literal is held back until it is clear that no range begins with it. */
    method InsertHeld(p: CanonicalPredicate, held: Option<(U16, nat)>) returns (q: CanonicalPredicate)
      ensures AddsHeld(Reading(), p, UnitOf(held), q)
    {
      hide SymbolPredicate.Contains, ClassUnitHas;
      q := p;
      if held.Some? {
        q := InsertClassLiteral(p, held.value.0);
      }
    }

    method InsertClassLiteral(p: CanonicalPredicate, u: U16) returns (q: CanonicalPredicate)
      ensures forall v: U16 :: q.Contains(v) <==> p.Contains(v) || ClassUnitHas(Reading(), u, v)
    {
      hide SymbolPredicate.Contains;
      q := InsertUnit(p, u);
      if caseInsensitive {
        var (lower, upper) := fold(u);
        q := InsertUnit(q, lower);
        q := InsertUnit(q, upper);
      }
    }

    method InsertClassRange(p: CanonicalPredicate, start: U16, end: U16) returns (q: CanonicalPredicate, ok: bool)
      ensures ok <==> RangeInOrder(Reading(), start, end)
      ensures ok ==> AddsRange(Reading(), p, start, end, q)
    {
      hide SymbolPredicate.Contains;
      q, ok := InsertRange(p, start, end);
      if !ok || !caseInsensitive {
        return;
      }
      var (startLower, startUpper) := fold(start);
      var (endLower, endUpper) := fold(end);
      if startLower != startUpper && endLower != endUpper {
        if (start, end) != (startLower, endLower) {
          q, ok := InsertRange(q, startLower, endLower);
          if !ok {
            return;
          }
        }
        if (start, end) != (startUpper, endUpper) {
          q, ok := InsertRange(q, startUpper, endUpper);
        }
      }
    }
  }

  // ---- Small facts -----------------------------------------------------------------------

  lemma HeldIs(g: Progress)
    ensures ValueOf(g.held) == if g.held.Some? then Some(Value(g.held.value)) else None
    ensures ValueOf(g.low) == if g.low.Some? then Some(Value(g.low.value)) else None
  {
  }

  lemma NegatesIs(units: Text, start: nat)
    ensures Negates(units, start) <==> start + 1 < |units| && units[start + 1] == CARET
  {
  }

  lemma RangeTextIs(c: ClassUnit)
    ensures |RangeText(Some(c))| == |WriteClassUnit(c)| + 1
  {
  }

  lemma TokenEnds(units: Text, at: nat, token: ClassToken, next: nat)
    requires at < |units| && TokenAt(units, at, Parsed(token), next)
    ensures at < next <= |units|
  {
  }

  ghost function UnitOf(held: Option<(U16, nat)>): Option<U16> {
    if held.Some? then Some(held.value.0) else None
  }

  lemma DigitIs(u: U16)
    requires IsDigit(u)
    ensures Digit(u) == u - 0x30
  {
  }

  lemma NothingBehind(units: Text, index: nat)
    requires index <= |units|
    ensures Behind(units, index, index, [])
  {
  }

  lemma NoFlagsRead(units: Text)
    ensures Behind(units, 0, 0, WriteFlags([]))
  {
  }

  lemma FlagsRead(units: Text, cursor: nat)
    requires 2 < cursor < |units| && units[0] == OPEN && units[1] == QUESTION && units[cursor] == CLOSE
    ensures Behind(units, 0, cursor + 1, WriteFlags(units[2..cursor]))
  {
    assert units[0..cursor + 1] == [OPEN, QUESTION] + (units[2..cursor] + [CLOSE]);
  }

  /** Where the letters of a flag prefix end and it does not close, there is none. */
  lemma NoPrefix(units: Text, cursor: nat)
    requires cursor >= 2 && (|units| < 2 || units[0] != OPEN || units[1] != QUESTION
                             || (&& cursor <= |units| && AllFlags(units[2..cursor])
                                 && (cursor < |units| ==> !IsFlag(units[cursor]))
                                 && !(cursor > 2 && cursor < |units| && units[cursor] == CLOSE)))
    ensures !OpensFlags(units)
  {
    hide WriteFlags;
    if OpensFlags(units) {
      var f :| f != [] && AllFlags(f) && WriteFlags(f) <= units;
      Split(WriteFlags(f), units);
      FlagsUnfold(f, Drop(units, |WriteFlags(f)|), units);
      FlagsAt(units, cursor);
    }
  }

  lemma FlagsAt(units: Text, cursor: nat)
    requires 2 <= cursor <= |units| && AllFlags(units[2..cursor])
    ensures forall k :: 2 <= k < cursor ==> IsFlag(units[k])
  {
    forall k | 2 <= k < cursor ensures IsFlag(units[k]) {
      assert units[2..cursor][k - 2] in units[2..cursor];
    }
  }

  lemma ClassIsRegular(p: CanonicalPredicate)
    ensures Regular(Predicate(p))
  {
  }

  // ---- Whole patterns ------------------------------------------------------------------

  ghost predicate MeansPattern(mode: Mode, h: Hir, p: Pattern) {
    && SameChoiceShape(PatternMode(mode, p), h, p.branches)
    && forall w, c, d :: Matches(h, w, c, d) <==> DenotesPattern(mode, p, w, c, d)
  }

  lemma PatternMeans(mode: Mode, h: Hir, p: Pattern)
    requires MeansAny(PatternMode(mode, p), h, p.branches)
    ensures MeansPattern(mode, h, p)
  {
    hide Matches, DenotesAll, SameChoiceShape;
    forall w, c, d ensures Matches(h, w, c, d) <==> DenotesPattern(mode, p, w, c, d) {
      assert DenotesAny(PatternMode(mode, p), p.branches, w, c, d) <==> DenotesPattern(mode, p, w, c, d);
    }
  }

  /** The word of every match is empty, reading assertions as empty. */
  ghost predicate OnlyEmpty(h: Hir) {
    Spells(h, []) && !Consuming(h)
  }

  /** The tree decides which patterns have no word but the empty one. */
  lemma WeightlessIsExact(mode: Mode, h: Hir, p: Pattern)
    requires Regular(h) && MeansPattern(mode, h, p)
    ensures PatternWeightless(mode, p) <==> OnlyEmpty(h)
  {
    hide Spells, Consuming, ZeroWidthOnly, WellFormed, Matches, DenotesPattern, BranchesWeightless, Regular;
    RegularIsWellFormed(h);
    ZeroWidthIsExact(h);
  }

  /** What the source deserves if it is the writing of `p`. */
  ghost predicate Judges(r: Result<Hir>, mode: Mode, p: Pattern, units: Text) {
    if !FitsPattern(p) then r == Rejected(NestingTooDeep)
    else if PatternWeightless(mode, p) then r == Rejected(InvalidPattern(0, |units|))
    else r.Parsed? && MeansPattern(mode, r.value, p)
  }

  /** The source is well written up to `k`. */
  ghost predicate WellWrittenTo(mode: Mode, units: Text, k: nat)
    requires k <= |units|
  {
    exists p :: Writes(mode, p, units[..k]) && FitsPattern(p)
  }

  ghost predicate WellFormedSource(mode: Mode, units: Text) {
    exists p :: Writes(mode, p, units)
  }

  ghost predicate BrokenSource(mode: Mode, units: Text) {
    exists flags, b :: IsBroken(mode, units, flags, b)
  }

  /**
   `parse_with_flags`.  Every source is the writing of a tree or broken.  A tree decides whether
   it is accepted and what its expression means; what is broken decides the error.
   */
  method ParseWithFlags(units: Text, caseInsensitive: bool, fold: U16 -> (U16, U16)) returns (r: Result<Hir>)
    ensures units == [] ==> r == Rejected(EmptyPattern)
    ensures WellFormedSource(Mode(caseInsensitive, fold), units) || BrokenSource(Mode(caseInsensitive, fold), units)
    ensures units != [] ==>
              forall p :: Writes(Mode(caseInsensitive, fold), p, units) ==>
                            Judges(r, Mode(caseInsensitive, fold), p, units)
    ensures units != [] ==>
              forall flags, b :: IsBroken(Mode(caseInsensitive, fold), units, flags, b) ==>
                                   r == Rejected(SourceError(units, flags, b))
    ensures r.Rejected? ==> match r.error
                            case EmptyPattern => units == []
                            case InvalidPattern(start, end) => start < end <= |units|
                            case NestingTooDeep => Count(units, OPEN) > 256
    ensures var mode := Mode(caseInsensitive, fold);
            forall k :: 0 <= k < |units| && units[k] == CLOSE && WellWrittenTo(mode, units, k) ==>
                          r == Rejected(InvalidPattern(k, k + 1))
    ensures r.Parsed? ==> Regular(r.value) && !OnlyEmpty(r.value)
  {
    hide Regular, OnlyEmpty, Writes, MeansPattern, PatternWeightless, IsBroken, SourceError, ParsedBranches,
      ZeroWidthOnly, FitsPattern, BrokenText, BrokenError, WriteFlags, WriteBranches, OpensFlags, AllFlags, Behind,
      Judges;
    ghost var mode := Mode(caseInsensitive, fold);
    if units == [] {
      EmptyIsWritten(mode);
      return Rejected(EmptyPattern);
    }
    var parser := new Parser(units, caseInsensitive, fold);
    ghost var flags := parser.ConsumeFlagPrefix();
    ghost var start := parser.index;
    ghost var branches, barLast, broken;
    r, branches, barLast, broken := parser.ParseAlternation(false);
    if r.Rejected? {
      BrokenBehind(mode, parser.Reading(), units, start, flags, broken);
      BrokenVerdict(mode, units, flags, broken, r);
      return;
    }
    // Nothing is left to read, so the source's test for that never fails.
    assert parser.index == |units|;
    ghost var p := Pattern(flags, branches, barLast);
    PatternBehindOf(mode, parser.Reading(), units, start, flags, branches, barLast, r.value);
    ghost var h := r.value;
    PatternWeight(mode, h, p);
    if ZeroWidthOnly(r.value) {
      r := Rejected(InvalidPattern(0, |units|));
    }
    TreeVerdict(mode, units, p, h, r);
  }

  lemma EmptyIsWritten(mode: Mode)
    ensures WellFormedSource(mode, [])
  {
    var p := Pattern([], [Branch([])], false);
    assert Writes(mode, p, []);
  }

  lemma PatternWeight(mode: Mode, h: Hir, p: Pattern)
    requires Regular(h) && MeansPattern(mode, h, p)
    ensures ZeroWidthOnly(h) <==> PatternWeightless(mode, p)
    ensures ZeroWidthOnly(h) <==> OnlyEmpty(h)
  {
    hide ZeroWidthOnly, Regular, OnlyEmpty;
    WeightlessIsExact(mode, h, p);
  }

  /** What was read is written so and fits. */
  lemma PatternBehindOf(mode: Mode, reading: Mode, units: Text, start: nat, flags: seq<U16>, branches: seq<Branch>,
                        trailing: bool, h: Hir)
    requires Behind(units, 0, start, WriteFlags(flags)) && AllFlags(flags)
             && Behind(units, start, |units|, WriteBranches(branches, trailing))
    requires reading == mode.(caseInsensitive := mode.caseInsensitive || FOLD_FLAG in flags)
    requires ParsedBranches(reading, MAX_GROUP_NESTING, h, branches, trailing)
    ensures var p := Pattern(flags, branches, trailing); Writes(mode, p, units) && FitsPattern(p)
                                                         && MeansPattern(mode, h, p)
  {
    hide WriteBranches, WriteFlags, WritableBranch, FitsBranch, MeansAny, MeansPattern;
    var p := Pattern(flags, branches, trailing);
    BehindJoin(units, 0, start, |units|, WriteFlags(flags), WriteBranches(branches, trailing));
    assert units[0..|units|] == units;
    PatternMeans(mode, h, p);
  }

  /** What was read is broken. */
  lemma BrokenBehind(mode: Mode, reading: Mode, units: Text, start: nat, flags: seq<U16>, b: Broken)
    requires Behind(units, 0, start, WriteFlags(flags)) && AllFlags(flags) && (flags == [] ==> !OpensFlags(units))
    requires reading == mode.(caseInsensitive := mode.caseInsensitive || FOLD_FLAG in flags)
    requires start <= |units| && BrokenText(reading, MAX_GROUP_NESTING, units[start..], false, b)
    ensures IsBroken(mode, units, flags, b) && SourceError(units, flags, b) == BrokenError(start, |units|, b)
  {
    hide WriteFlags, OpensFlags, BrokenText, BrokenError;
    BehindStarts(units, 0, start, WriteFlags(flags));
    assert units[0..] == units;
  }

  /** What breaks the source is its only verdict. */
  lemma BrokenVerdict(mode: Mode, units: Text, flags: seq<U16>, b: Broken, r: Result<Hir>)
    requires IsBroken(mode, units, flags, b) && r == Rejected(SourceError(units, flags, b))
    ensures BrokenSource(mode, units) && r.error != EmptyPattern
    ensures forall p :: Writes(mode, p, units) ==> Judges(r, mode, p, units)
    ensures forall f, c :: IsBroken(mode, units, f, c) ==> r == Rejected(SourceError(units, f, c))
    ensures r.error == NestingTooDeep ==> Count(units, OPEN) > 256
    ensures forall k :: 0 <= k < |units| && units[k] == CLOSE && WellWrittenTo(mode, units, k) ==>
                          r == Rejected(InvalidPattern(k, k + 1))
  {
    hide Writes, IsBroken, SourceError, FitsPattern, DeepBroken, MeansPattern, PatternWeightless;
    DeepSource(mode, units, flags, b);
    forall p | Writes(mode, p, units) ensures Judges(r, mode, p, units) {
      TreeOrBroken(mode, p, units, flags, b);
    }
    forall f, c | IsBroken(mode, units, f, c) ensures r == Rejected(SourceError(units, f, c)) {
      OneBreak(mode, units, flags, b, f, c);
    }
    forall k | 0 <= k < |units| && units[k] == CLOSE && WellWrittenTo(mode, units, k)
      ensures r == Rejected(InvalidPattern(k, k + 1))
    {
      var p :| Writes(mode, p, units[..k]) && FitsPattern(p);
      StrayBreaks(mode, p, k, units);
    }
  }

  lemma DeepSource(mode: Mode, units: Text, flags: seq<U16>, b: Broken)
    requires IsBroken(mode, units, flags, b)
    ensures SourceError(units, flags, b) == NestingTooDeep <==> DeepBroken(b)
    ensures DeepBroken(b) ==> Count(units, OPEN) > 256
    ensures SourceError(units, flags, b) != EmptyPattern
  {
    hide BrokenText, BrokenError, DeepBroken, OpensFlags;
    DeepErrors(|WriteFlags(flags)|, |units|, b);
    if DeepBroken(b) {
      DeepHasOpens(mode.(caseInsensitive := mode.caseInsensitive || FOLD_FLAG in flags), 256,
                   Drop(units, |WriteFlags(flags)|), false, b);
      CountDrop(units, |WriteFlags(flags)|, OPEN);
    }
  }

  /** The tree that the source is the writing of is its only verdict. */
  lemma TreeVerdict(mode: Mode, units: Text, p: Pattern, h: Hir, r: Result<Hir>)
    requires Writes(mode, p, units) && FitsPattern(p) && MeansPattern(mode, h, p)
    requires r == if PatternWeightless(mode, p) then Rejected(InvalidPattern(0, |units|)) else Parsed(h)
    ensures WellFormedSource(mode, units)
    ensures forall q :: Writes(mode, q, units) ==> Judges(r, mode, q, units)
    ensures forall f, c :: !IsBroken(mode, units, f, c)
    ensures forall k :: 0 <= k < |units| && units[k] == CLOSE ==> !WellWrittenTo(mode, units, k)
  {
    hide Writes, IsBroken, FitsPattern, DeepBroken, MeansPattern, PatternWeightless;
    forall q | Writes(mode, q, units) ensures Judges(r, mode, q, units) {
      OneTree(mode, p, q, units);
    }
    forall f, c ensures !IsBroken(mode, units, f, c) {
      if IsBroken(mode, units, f, c) {
        TreeOrBroken(mode, p, units, f, c);
      }
    }
    forall k | 0 <= k < |units| && units[k] == CLOSE ensures !WellWrittenTo(mode, units, k) {
      if q :| Writes(mode, q, units[..k]) && FitsPattern(q) {
        StrayBreaks(mode, q, k, units);
      }
    }
  }
}
