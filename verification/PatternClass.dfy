/**
 A class while it is being read: the members completed, and the literal held back until it is
 clear whether a range begins with it.
 */
module PatternClass {
  import opened Base
  import opened Predicates
  import opened HirSyntax
  import opened PatternSyntax
  import opened PatternFault
  import opened PatternUnique
  import opened PatternMeaning
  import opened PatternBehind

  datatype ClassToken = Literal(unit: U16,
                                position: nat) | Shorthand(class_: CanonicalPredicate) | RangeMarker(position: nat)

  // ---- Tokens of a class ----------------------------------------------------------------

  /** What stands for which token inside a class. */
  ghost predicate TokenAt(units: Text, start: nat, r: Result<ClassToken>, next: nat)
    requires start < |units|
  {
    if units[start] == DASH then r == Parsed(RangeMarker(start)) && next == start + 1
    else if units[start] != BACKSLASH then r == Parsed(Literal(units[start], start)) && next == start + 1
    else if start + 1 == |units| then r == Rejected(InvalidPattern(start, start + 1)) && next == start + 1
    else next == start + 2 && TokenOf(r, start, units[start + 1])
  }

  /** The same behind a backslash. */
  ghost predicate TokenOf(r: Result<ClassToken>, start: nat, escaped: U16) {
    if IsClassEscape(escaped) then r == Parsed(Literal(escaped, start))
    else if IsControl(escaped) then r == Parsed(Literal(ControlUnit(escaped), start))
    else if IsClassShorthand(escaped) then
      r.Parsed? && r.value.Shorthand? && forall v: U16 :: r.value.class_.Contains(v) <==> ShorthandHas(escaped, v)
    else r == Rejected(InvalidPattern(start, start + 2))
  }

  /** Every token that is read is the writing of something. */
  lemma TokenWritten(units: Text, start: nat, r: Result<ClassToken>, next: nat)
    requires start < |units| && units[start] != CLOSE_BRACKET && TokenAt(units, start, r, next) && r.Parsed?
    ensures r.value.Literal? ==>
              var c := SpellingAt(units, start);
              WritableClassUnit(c) && Value(c) == r.value.unit && Behind(units, start, next, WriteClassUnit(c))
    ensures r.value.Shorthand? ==>
              && next == start + 2 && start + 1 < |units| && units[start] == BACKSLASH
              && IsClassShorthand(units[start + 1])
              && forall v: U16 :: r.value.class_.Contains(v) <==> ShorthandHas(units[start + 1], v)
    ensures r.value.RangeMarker? ==> units[start] == DASH && next == start + 1
  {
    hide SymbolPredicate.Contains, ShorthandHas;
  }

  // ---- Classes -------------------------------------------------------------------------

  /** The spelling of the literal that begins at `start`. */
  function SpellingAt(units: Text, start: nat): ClassUnit
    requires start < |units|
  {
    if units[start] != BACKSLASH || start + 1 >= |units| then RawUnit(units[start])
    else if IsClassEscape(units[start + 1]) then EscapedUnit(units[start + 1])
    else ControlLetter(units[start + 1])
  }

  ghost function Spelling(held: Option<ClassUnit>): Text {
    if held.Some? then WriteClassUnit(held.value) else []
  }

  /**
   The members completed since `from`, then a literal held back, or the literal and dash of a
   range that has begun.
   */
  ghost predicate ClassBehind(mode: Mode, units: Text, from: nat, index: nat, members: seq<ClassItem>,
                              class_: SymbolPredicate, pending: Option<ClassUnit>, rangeStart: Option<ClassUnit>) {
    && (forall m :: m in members ==> WritableMember(mode, m))
    && (pending.Some? ==> rangeStart.None? && WritableClassUnit(pending.value))
    && (rangeStart.Some? ==> WritableClassUnit(rangeStart.value))
    && Behind(units, from, index, WriteMembers(members) + HeldText(pending, rangeStart))
    && forall v: U16 :: class_.Contains(v) <==> SomeMemberHas(mode, members, v)
  }

  ghost function HeldText(pending: Option<ClassUnit>, rangeStart: Option<ClassUnit>): Text {
    if rangeStart.Some? then WriteClassUnit(rangeStart.value) + [DASH] else Spelling(pending)
  }

  lemma ClassOpens(mode: Mode, units: Text, index: nat, class_: SymbolPredicate)
    requires index <= |units| && forall v: U16 :: !class_.Contains(v)
    ensures ClassBehind(mode, units, index, index, [], class_, None, None)
  {
    hide SymbolPredicate.Contains;
  }

  lemma {:induction false} WriteMemberMore(members: seq<ClassItem>, m: ClassItem)
    ensures WriteMembers(members + [m]) == WriteMembers(members) + WriteMember(m)
    decreases |members|
  {
    hide WriteMember;
    if members == [] {
      assert [] + [m] == [m] && [m][1..] == [];
      assert WriteMembers([m]) == WriteMember(m) + WriteMembers([m][1..]);
    } else {
      assert (members + [m])[0] == members[0] && (members + [m])[1..] == members[1..] + [m];
      WriteMemberMore(members[1..], m);
    }
  }

  lemma SomeMemberMore(mode: Mode, members: seq<ClassItem>, m: ClassItem, v: U16)
    ensures SomeMemberHas(mode, members + [m], v) <==> SomeMemberHas(mode, members, v) || MemberHas(mode, m, v)
  {
    hide MemberHas;
  }

  ghost function Flushed(members: seq<ClassItem>, pending: Option<ClassUnit>): seq<ClassItem> {
    if pending.Some? then members + [One(pending.value)] else members
  }

  ghost function ValueOf(held: Option<ClassUnit>): Option<U16> {
    if held.Some? then Some(Value(held.value)) else None
  }

  /** The literal held back becomes a member of its own. */
  lemma Flush(mode: Mode, units: Text, from: nat, index: nat, members: seq<ClassItem>, before: SymbolPredicate,
              pending: Option<ClassUnit>, after: SymbolPredicate)
    requires ClassBehind(mode, units, from, index, members, before, pending, None)
    requires forall v: U16 :: after.Contains(v) <==> before.Contains(v) || HeldHas(mode, ValueOf(pending), v)
    ensures ClassBehind(mode, units, from, index, Flushed(members, pending), after, None, None)
    ensures pending.None? ==> Behind(units, from, index, WriteMembers(members))
  {
    hide SymbolPredicate.Contains, Behind, WriteClassUnit, SomeMemberHas, ClassUnitHas, WritableClassUnit, WriteMembers;
    assert WriteMembers(members) + [] == WriteMembers(members);
    if pending.Some? {
      var m := One(pending.value);
      WriteMemberMore(members, m);
      assert WriteMembers(members + [m]) + [] == WriteMembers(members + [m]);
      forall v: U16 ensures after.Contains(v) <==> SomeMemberHas(mode, members + [m], v) {
        SomeMemberMore(mode, members, m, v);
      }
    }
  }

  /** A literal that follows no marker is held back. */
  lemma LiteralBehind(mode: Mode, units: Text, from: nat, index: nat, members: seq<ClassItem>,
                      class_: SymbolPredicate, c: ClassUnit, next: nat)
    requires ClassBehind(mode, units, from, index, members, class_, None, None)
    requires WritableClassUnit(c) && Behind(units, index, next, WriteClassUnit(c))
    ensures ClassBehind(mode, units, from, next, members, class_, Some(c), None)
  {
    hide SymbolPredicate.Contains, Behind, WriteClassUnit, SomeMemberHas, WritableMember, WriteMembers;
    assert WriteMembers(members) + [] == WriteMembers(members);
    BehindJoin(units, from, index, next, WriteMembers(members), WriteClassUnit(c));
  }

  lemma MarkerBehind(mode: Mode, units: Text, from: nat, index: nat, members: seq<ClassItem>, class_: SymbolPredicate,
                     c: ClassUnit)
    requires ClassBehind(mode, units, from, index, members, class_, Some(c), None) && index < |units|
             && units[index] == DASH
    ensures ClassBehind(mode, units, from, index + 1, members, class_, None, Some(c))
  {
    hide SymbolPredicate.Contains, Behind, WriteClassUnit, SomeMemberHas, WritableMember, WriteMembers;
    BehindOne(units, index);
    BehindJoin(units, from, index, index + 1, WriteMembers(members) + WriteClassUnit(c), [DASH]);
    Regroup(WriteMembers(members), WriteClassUnit(c), [DASH]);
  }

  lemma RangeBehind(mode: Mode, units: Text, from: nat, index: nat, members: seq<ClassItem>, before: SymbolPredicate,
                    low: ClassUnit, high: ClassUnit, next: nat, after: SymbolPredicate)
    requires ClassBehind(mode, units, from, index, members, before, None, Some(low))
    requires WritableClassUnit(high) && Behind(units, index, next, WriteClassUnit(high))
    requires RangeInOrder(mode, Value(low), Value(high))
    requires forall v: U16 :: after.Contains(v) <==> before.Contains(v) || RangeHas(mode, Value(low), Value(high), v)
    ensures ClassBehind(mode, units, from, next, members + [Between(low, high)], after, None, None)
  {
    hide SymbolPredicate.Contains, Behind, WriteClassUnit, SomeMemberHas, WriteMembers, RangeInOrder, RangeHas,
      WritableClassUnit;
    var m := Between(low, high);
    BehindJoin(units, from, index, next, WriteMembers(members) + (WriteClassUnit(low) + [DASH]), WriteClassUnit(high));
    Regroup(WriteMembers(members), WriteClassUnit(low) + [DASH], WriteClassUnit(high));
    Regroup(WriteClassUnit(low), [DASH], WriteClassUnit(high));
    WriteMemberMore(members, m);
    assert WriteMembers(members + [m]) + [] == WriteMembers(members + [m]);
    forall v: U16 ensures after.Contains(v) <==> SomeMemberHas(mode, members + [m], v) {
      SomeMemberMore(mode, members, m, v);
    }
  }

  lemma NamedBehind(mode: Mode, units: Text, from: nat, index: nat, members: seq<ClassItem>, before: SymbolPredicate,
                    escape: U16, after: SymbolPredicate)
    requires ClassBehind(mode, units, from, index, members, before, None, None) && IsClassShorthand(escape)
    requires index + 1 < |units| && units[index] == BACKSLASH && units[index + 1] == escape
    requires forall v: U16 :: after.Contains(v) <==> before.Contains(v) || ShorthandHas(escape, v)
    ensures ClassBehind(mode, units, from, index + 2, members + [Named(escape)], after, None, None)
  {
    hide SymbolPredicate.Contains, SomeMemberHas, WriteMembers, ShorthandHas;
    var m := Named(escape);
    assert WriteMembers(members) + [] == WriteMembers(members);
    assert Behind(units, index, index + 2, [BACKSLASH, escape]);
    BehindJoin(units, from, index, index + 2, WriteMembers(members), [BACKSLASH, escape]);
    WriteMemberMore(members, m);
    assert WriteMembers(members + [m]) + [] == WriteMembers(members + [m]);
    forall v: U16 ensures after.Contains(v) <==> SomeMemberHas(mode, members + [m], v) {
      SomeMemberMore(mode, members, m, v);
    }
  }

  lemma ClassCloses(mode: Mode, room: nat, units: Text, start: nat, index: nat, members: seq<ClassItem>,
                    all: SymbolPredicate, final: CanonicalPredicate, negated: bool)
    requires start + 1 < |units| && units[start] == OPEN_BRACKET && (negated <==> units[start + 1] == CARET)
    requires var body := start + if negated then 2
                         else 1; ClassBehind(mode, units, body, index, members, all, None, None)
    requires index < |units| && units[index] == CLOSE_BRACKET
    requires forall v: U16 :: final.Contains(v) <==> negated != all.Contains(v)
    ensures ParsedAtom(mode, room, Predicate(final), BracketClass(negated, members))
    ensures Behind(units, start, index + 1, Write(BracketClass(negated, members)))
  {
    hide SymbolPredicate.Contains, SomeMemberHas, Means, WritableMember, WriteMembers, Behind, OpensClass;
    assert WriteMembers(members) + [] == WriteMembers(members);
    ClassWritten(units, start, index, members, negated);
    ClassMeaning(mode, members, all, final, negated);
  }

  lemma ClassMeaning(mode: Mode, members: seq<ClassItem>, all: SymbolPredicate, final: CanonicalPredicate,
                     negated: bool)
    requires forall v: U16 :: all.Contains(v) <==> SomeMemberHas(mode, members, v)
    requires forall v: U16 :: final.Contains(v) <==> negated != all.Contains(v)
    ensures Means(mode, Predicate(final), BracketClass(negated, members))
  {
    hide SymbolPredicate.Contains, SomeMemberHas, Means;
    forall v: U16 ensures final.Contains(v) <==> TakesUnit(mode, BracketClass(negated, members), v) {
    }
    ClassMeans(mode, final, BracketClass(negated, members));
  }

  lemma ClassWritten(units: Text, start: nat, index: nat, members: seq<ClassItem>, negated: bool)
    requires start + 1 < |units| && units[start] == OPEN_BRACKET && (negated <==> units[start + 1] == CARET)
    requires Behind(units, start + if negated then 2 else 1, index, WriteMembers(members))
    requires index < |units| && units[index] == CLOSE_BRACKET
    ensures Behind(units, start, index + 1, Write(BracketClass(negated, members)))
    ensures !negated && members != [] ==> OpensClass(members[0])
  {
    hide WriteMembers, Behind, OpensClass;
    var body := start + if negated then 2 else 1;
    if !negated && members != [] {
      FirstSpelled(units, body, index, members);
    }
    OpenBracket(units, start, negated);
    BehindOne(units, index);
    BehindJoin(units, body, index, index + 1, WriteMembers(members), [CLOSE_BRACKET]);
    var open := if negated then [OPEN_BRACKET, CARET] else [OPEN_BRACKET];
    BehindJoin(units, start, body, index + 1, open, WriteMembers(members) + [CLOSE_BRACKET]);
  }

  lemma OpenBracket(units: Text, start: nat, negated: bool)
    requires start + 1 < |units| && units[start] == OPEN_BRACKET && (negated ==> units[start + 1] == CARET)
    ensures Behind(units, start, start + if negated then 2 else 1, if negated then [OPEN_BRACKET, CARET]
                   else [OPEN_BRACKET])
  {
  }

  lemma FirstSpelled(units: Text, body: nat, index: nat, members: seq<ClassItem>)
    requires members != [] && Behind(units, body, index, WriteMembers(members)) && body < |units|
             && units[body] != CARET
    ensures OpensClass(members[0])
  {
    assert |WriteMember(members[0])| > 0;
    assert units[body] == units[body..index][0] == WriteMember(members[0])[0];
  }

  // ---- A class, token by token -----------------------------------------------------------

  datatype Progress = Progress(done: seq<ClassItem>, held: Option<ClassUnit>, low: Option<ClassUnit>)

  /** A literal completed as a member of its own is followed by another member. */
  ghost predicate InClass(mode: Mode, units: Text, from: nat, index: nat, g: Progress, class_: SymbolPredicate) {
    && ClassBehind(mode, units, from, index, g.done, class_, g.held, g.low)
    && (g.held.None? && g.low.None? ==> !HoldsBack(g.done))
  }

  predicate HeldHas(mode: Mode, held: Option<U16>, v: U16) {
    held.Some? && ClassUnitHas(mode, held.value, v)
  }

  /** The literal held back, if there is one, is added. */
  ghost predicate AddsHeld(mode: Mode, before: SymbolPredicate, held: Option<U16>, after: SymbolPredicate) {
    forall v: U16 :: after.Contains(v) <==> before.Contains(v) || HeldHas(mode, held, v)
  }

  ghost predicate AddsRange(mode: Mode, before: SymbolPredicate, low: U16, high: U16, after: SymbolPredicate) {
    forall v: U16 :: after.Contains(v) <==> before.Contains(v) || RangeHas(mode, low, high, v)
  }

  predicate Negates(units: Text, start: nat) {
    start + 1 < |units| && units[start + 1] == CARET
  }

  function ClassBody(units: Text, start: nat): nat {
    start + if Negates(units, start) then 2 else 1
  }

  lemma ClassStarts(mode: Mode, units: Text, start: nat, class_: SymbolPredicate)
    requires start < |units| && forall v: U16 :: !class_.Contains(v)
    ensures InClass(mode, units, ClassBody(units, start), ClassBody(units, start), Progress([], None, None), class_)
  {
    hide SymbolPredicate.Contains, ClassBehind;
    ClassOpens(mode, units, ClassBody(units, start), class_);
  }

  lemma NotBothHeld(mode: Mode, units: Text, from: nat, index: nat, g: Progress, class_: SymbolPredicate)
    requires InClass(mode, units, from, index, g, class_)
    ensures (g.low.Some? ==> g.held.None?) && from <= index <= |units|
  {
  }

  /** A range is complete. */
  lemma RangeStep(mode: Mode, units: Text, from: nat, index: nat, g: Progress, before: SymbolPredicate, u: U16,
                  next: nat, after: SymbolPredicate)
    returns (g': Progress)
    requires InClass(mode, units, from, index, g, before) && g.low.Some?
    requires index < |units| && units[index] != CLOSE_BRACKET && TokenAt(units, index, Parsed(Literal(u, index)), next)
    requires RangeInOrder(mode, Value(g.low.value), u)
    requires AddsRange(mode, before, Value(g.low.value), u, after)
    ensures InClass(mode, units, from, next, g', after) && g'.held.None? && g'.low.None?
  {
    hide SymbolPredicate.Contains, ClassBehind, TokenAt, RangeInOrder, Value, RangeHas, WritableClassUnit, Behind,
      WriteClassUnit, SpellingAt;
    TokenWritten(units, index, Parsed(Literal(u, index)), next);
    var high := SpellingAt(units, index);
    NotBothHeld(mode, units, from, index, g, before);
    RangeBehind(mode, units, from, index, g.done, before, g.low.value, high, next, after);
    g' := Progress(g.done + [Between(g.low.value, high)], None, None);
  }

  /** A literal is held back; the one held before it was a member of its own. */
  lemma LiteralStep(mode: Mode, units: Text, from: nat, index: nat, g: Progress, before: SymbolPredicate, u: U16,
                    next: nat, after: SymbolPredicate)
    returns (g': Progress)
    requires InClass(mode, units, from, index, g, before) && g.low.None?
    requires index < |units| && units[index] != CLOSE_BRACKET && TokenAt(units, index, Parsed(Literal(u, index)), next)
    requires AddsHeld(mode, before, ValueOf(g.held), after)
    ensures InClass(mode, units, from, next, g', after) && ValueOf(g'.held) == Some(u) && g'.low.None?
    ensures index + |WriteClassUnit(g'.held.value)| == next
  {
    hide SymbolPredicate.Contains, ClassBehind, TokenAt, Value, HeldHas, Flushed, WritableClassUnit, WriteClassUnit,
      SpellingAt;
    TokenWritten(units, index, Parsed(Literal(u, index)), next);
    var c := SpellingAt(units, index);
    Flush(mode, units, from, index, g.done, before, g.held, after);
    LiteralBehind(mode, units, from, index, Flushed(g.done, g.held), after, c, next);
    g' := Progress(Flushed(g.done, g.held), Some(c), None);
  }

  /** A shorthand is a member of its own, and so is the literal held before it. */
  lemma NamedStep(mode: Mode, units: Text, from: nat, index: nat, g: Progress, before: SymbolPredicate,
                  flushed: SymbolPredicate, other: CanonicalPredicate, next: nat, after: SymbolPredicate)
    returns (g': Progress)
    requires InClass(mode, units, from, index, g, before) && g.low.None?
    requires index < |units| && units[index] != CLOSE_BRACKET && TokenAt(units, index, Parsed(Shorthand(other)), next)
    requires AddsHeld(mode, before, ValueOf(g.held), flushed)
    requires forall v: U16 :: after.Contains(v) <==> flushed.Contains(v) || other.Contains(v)
    ensures InClass(mode, units, from, next, g', after) && g'.held.None? && g'.low.None?
  {
    hide SymbolPredicate.Contains, ClassBehind, TokenAt, HeldHas, Flushed, Behind, ShorthandHas, SpellingAt;
    TokenWritten(units, index, Parsed(Shorthand(other)), next);
    Flush(mode, units, from, index, g.done, before, g.held, flushed);
    NamedBehind(mode, units, from, index, Flushed(g.done, g.held), flushed, units[index + 1], after);
    g' := Progress(Flushed(g.done, g.held) + [Named(units[index + 1])], None, None);
  }

  /** A dash behind a literal begins a range. */
  lemma MarkerStep(mode: Mode, units: Text, from: nat, index: nat, g: Progress, class_: SymbolPredicate, next: nat)
    returns (g': Progress)
    requires InClass(mode, units, from, index, g, class_) && g.held.Some? && g.low.None?
    requires index < |units| && units[index] != CLOSE_BRACKET && TokenAt(units, index, Parsed(RangeMarker(index)), next)
    ensures InClass(mode, units, from, next, g', class_) && g'.held.None? && g'.low == g.held && next == index + 1
  {
    hide SymbolPredicate.Contains, ClassBehind, TokenAt, Behind, SpellingAt;
    TokenWritten(units, index, Parsed(RangeMarker(index)), next);
    MarkerBehind(mode, units, from, index, g.done, class_, g.held.value);
    g' := g.(held := None, low := g.held);
  }

  /** The bracket that closes the class. */
  lemma CloseStep(mode: Mode, room: nat, units: Text, start: nat, index: nat, g: Progress, before: SymbolPredicate,
                  all: SymbolPredicate, final: CanonicalPredicate)
    returns (read: Syntax)
    requires start < |units| && units[start] == OPEN_BRACKET
    requires InClass(mode, units, ClassBody(units, start), index, g, before) && g.low.None?
    requires index < |units| && units[index] == CLOSE_BRACKET
    requires AddsHeld(mode, before, ValueOf(g.held), all)
    requires forall v: U16 :: final.Contains(v) <==> Negates(units, start) != all.Contains(v)
    ensures ParsedAtom(mode, room, Predicate(final), read) && Behind(units, start, index + 1, Write(read))
  {
    hide SymbolPredicate.Contains, HeldHas, Flushed, Behind, Write, ParsedAtom, SomeMemberHas, ClassBehind;
    NotBothHeld(mode, units, ClassBody(units, start), index, g, before);
    Flush(mode, units, ClassBody(units, start), index, g.done, before, g.held, all);
    ClassCloses(mode, room, units, start, index, Flushed(g.done, g.held), all, final, Negates(units, start));
    read := BracketClass(Negates(units, start), Flushed(g.done, g.held));
  }

  // ---- A class that is broken ------------------------------------------------------------

  lemma FlushedText(members: seq<ClassItem>, pending: Option<ClassUnit>, low: Option<ClassUnit>)
    requires low.Some? ==> pending.None?
    ensures WriteMembers(members) + HeldText(pending, low) == WriteMembers(Flushed(members, pending)) + RangeText(low)
  {
    hide WriteClassUnit, WriteMembers;
    if pending.Some? {
      WriteMemberMore(members, One(pending.value));
      assert WriteMembers(members + [One(pending.value)]) + [] == WriteMembers(members) + WriteClassUnit(pending.value);
    }
  }

  lemma SlipBehind(mode: Mode, units: Text, start: nat, index: nat, g: Progress, class_: SymbolPredicate)
    requires start < |units| && units[start] == OPEN_BRACKET
    requires InClass(mode, units, ClassBody(units, start), index, g, class_)
    ensures var members := Flushed(g.done, g.held);
            && Behind(units, start, index, ClassText(Negates(units, start), members, g.low))
            && (forall m :: m in members ==> WritableMember(mode, m))
            && (g.low.Some? ==> WritableClassUnit(g.low.value))
  {
    hide SymbolPredicate.Contains, WriteMembers, WriteClassUnit, SomeMemberHas, WritableClassUnit, HeldText, RangeText;
    var body, negated := ClassBody(units, start), Negates(units, start);
    NotBothHeld(mode, units, body, index, g, class_);
    FlushedText(g.done, g.held, g.low);
    var rest := WriteMembers(Flushed(g.done, g.held)) + RangeText(g.low);
    if start + 1 < |units| {
      OpenBracket(units, start, negated);
    }
    assert Behind(units, start, body, OpenClass(negated));
    hide Behind;
    BehindJoin(units, start, body, index, OpenClass(negated), rest);
  }

  /** What is read of the class, and then a slip. */
  lemma ClassFault(mode: Mode, room: nat, units: Text, start: nat, index: nat, g: Progress, class_: SymbolPredicate,
                   slip: ClassSlip)
    returns (f: Fault)
    requires start < |units| && units[start] == OPEN_BRACKET
    requires InClass(mode, units, ClassBody(units, start), index, g, class_) && index <= |units|
    requires ClassSlips(mode, units[index..], Flushed(g.done, g.held), g.low, slip)
    ensures f.BadClass? && Faulty(mode, room, units[start..], f)
    ensures FaultError(start, |units|, f) == ClassError(start, index, |units|, g.low, slip)
  {
    hide SymbolPredicate.Contains, ClassSlips, WriteClassUnit, ClassText, WritableMember, WritableClassUnit, InClass,
      ClassError;
    var members := Flushed(g.done, g.held);
    SlipBehind(mode, units, start, index, g, class_);
    BehindStarts(units, start, index, ClassText(Negates(units, start), members, g.low));
    f := BadClass(Negates(units, start), members, g.low, slip);
  }

  lemma EndSlips(mode: Mode, units: Text, start: nat, index: nat, members: seq<ClassItem>, low: Option<ClassUnit>)
    requires index == |units|
    ensures ClassSlips(mode, units[index..], members, low, ClassEnds)
    ensures ClassError(start, index, |units|, low, ClassEnds) == InvalidPattern(start, index)
  {
  }

  lemma OpenRangeSlips(mode: Mode, units: Text, start: nat, index: nat, members: seq<ClassItem>, low: Option<ClassUnit>)
    requires index < |units| && units[index] == CLOSE_BRACKET && low.Some?
    ensures ClassSlips(mode, units[index..], members, low, OpenRange)
    ensures ClassError(start, index, |units|, low, OpenRange) == InvalidPattern(start, index + 1)
  {
  }

  lemma TokenSlips(mode: Mode, units: Text, start: nat, index: nat, members: seq<ClassItem>, low: Option<ClassUnit>,
                   r: Result<ClassToken>, next: nat)
    requires index < |units| && TokenAt(units, index, r, next) && r.Rejected?
    ensures ClassSlips(mode, units[index..], members, low, BadClassEscape)
    ensures ClassError(start, index, |units|, low, BadClassEscape) == r.error
  {
  }

  lemma ReversedSlips(mode: Mode, units: Text, start: nat, index: nat, members: seq<ClassItem>, low: Option<ClassUnit>,
                      u: U16, next: nat)
    requires index < |units| && units[index] != CLOSE_BRACKET && TokenAt(units, index, Parsed(Literal(u, index)), next)
    requires low.Some? && !RangeInOrder(mode, Value(low.value), u) && |RangeText(low)| <= index
    ensures ClassSlips(mode, units[index..], members, low, Reversed(SpellingAt(units, index)))
    ensures ClassError(start, index, |units|, low, Reversed(SpellingAt(units, index)))
         == InvalidPattern(index - |RangeText(low)|, next)
  {
    hide RangeInOrder, TokenAt, Value, SpellingAt, WriteClassUnit, WritableClassUnit, RangeText;
    TokenWritten(units, index, Parsed(Literal(u, index)), next);
    BehindStarts(units, index, next, WriteClassUnit(SpellingAt(units, index)));
  }

  lemma NamedSlips(mode: Mode, units: Text, start: nat, index: nat, members: seq<ClassItem>, low: Option<ClassUnit>,
                   other: CanonicalPredicate, next: nat)
    requires index < |units| && units[index] != CLOSE_BRACKET && TokenAt(units, index, Parsed(Shorthand(other)), next)
    requires low.Some?
    ensures next == index + 2 <= |units|
    ensures ClassSlips(mode, units[index..], members, low, RangeToNamed(units[index + 1]))
    ensures ClassError(start, index, |units|, low, RangeToNamed(units[index + 1])) == InvalidPattern(start, next)
  {
    hide TokenAt, ShorthandHas, SymbolPredicate.Contains;
    TokenWritten(units, index, Parsed(Shorthand(other)), next);
    assert units[index..index + 2] == [BACKSLASH, units[index + 1]];
    BehindStarts(units, index, index + 2, [BACKSLASH, units[index + 1]]);
  }

  lemma DashSlips(mode: Mode, units: Text, start: nat, index: nat, from: nat, g: Progress, class_: SymbolPredicate,
                  next: nat)
    requires index < |units| && units[index] != CLOSE_BRACKET && TokenAt(units, index, Parsed(RangeMarker(index)), next)
    requires InClass(mode, units, from, index, g, class_) && g.held.None?
    ensures ClassSlips(mode, units[index..], Flushed(g.done, g.held), g.low, LoneDash)
    ensures ClassError(start, index, |units|, g.low, LoneDash) == InvalidPattern(index, next)
  {
    hide TokenAt, ClassBehind;
    TokenWritten(units, index, Parsed(RangeMarker(index)), next);
  }
}
