/**
 Every source has one verdict: it is the writing of one tree at most, what is broken is broken in
 one way only, and no source is both, except that a tree with too many groups in each other is
 also broken where one group too many opens.
 */
module PatternVerdict {
  import opened Base
  import opened PatternSyntax
  import opened PatternFault
  import opened PatternUnique

  lemma Split(a: Text, text: Text)
    requires a <= text
    ensures text == a + Drop(text, |a|)
  {
  }

  // ---- Counted quantifiers -----------------------------------------------------------------

  ghost function LeastDigits(slip: CountSlip): Text {
    if slip.NoLeast? then [] else slip.digits
  }

  ghost function MostDigits(slip: CountSlip): Text {
    match slip
    case MostTooGreat(_, most) => most
    case NoBraceAfter(_, most) => most
    case OutOfOrder(_, UpTo(most)) => most
    case _ => []
  }

  /** The text is read so far, and stops as the slip says; a counted quantifier need not be out of order. */
  predicate CountStops(text: Text, slip: CountSlip) {
    if slip.OutOfOrder? then
      && WriteQuantifier(Counted(slip.digits, slip.limit)) <= text && WritableCount(slip.digits)
      && (slip.limit.UpTo? ==> WritableCount(slip.limit.digits))
    else CountSlips(text, slip)
  }

  predicate BehindComma(slip: CountSlip) {
    slip.NoMost? || slip.MostTooGreat? || slip.NoBraceAfter? || (slip.OutOfOrder? && !slip.limit.Exactly?)
  }

  lemma CommaParts(text: Text, digits: Text)
    requires ToComma(text, digits)
    ensures Begins(text, OPEN_BRACE) && LeadingDigits(text[1..], digits) && Begins(Drop(text, 1 + |digits|), COMMA)
  {
    hide IsDigit, Decimal;
    var lead := [OPEN_BRACE] + (digits + [COMMA]);
    Split(lead, text);
    var after := Drop(text, |lead|);
    assert text == [OPEN_BRACE] + (digits + ([COMMA] + after));
    assert text[1..] == digits + ([COMMA] + after);
    Behindhand(digits, [COMMA] + after);
    DropMore(text, 1, |digits|);
    NoDigit();
  }

  lemma StopParts(text: Text, slip: CountSlip)
    requires CountStops(text, slip)
    ensures Begins(text, OPEN_BRACE) && LeadingDigits(text[1..], LeastDigits(slip))
    ensures slip.NoLeast? <==> LeastDigits(slip) == []
    ensures slip.LeastTooGreat? <==> TooGreat(LeastDigits(slip))
    ensures BehindComma(slip) ==> Begins(Drop(text, 1 + |LeastDigits(slip)|), COMMA)
    ensures slip.OutOfOrder? && slip.limit.Exactly? ==> Begins(Drop(text, 1 + |LeastDigits(slip)|), CLOSE_BRACE)
  {
    hide IsDigit, Decimal, LeadingDigits;
    if slip.OutOfOrder? {
      var q := Counted(slip.digits, slip.limit);
      Split(WriteQuantifier(q), text);
      CountedParts(slip.digits, slip.limit, Drop(text, |WriteQuantifier(q)|), text);
      LimitHead(slip.limit, Drop(text, |WriteQuantifier(q)|));
    } else if BehindComma(slip) {
      CommaParts(text, slip.digits);
    }
  }

  /** Behind the comma of a counted quantifier. */
  lemma CountedMost(digits: Text, limit: Limit, rest: Text, text: Text)
    requires AllDigits(digits) && !limit.Exactly? && text == WriteQuantifier(Counted(digits, limit)) + rest
    requires limit.UpTo? ==> limit.digits != [] && AllDigits(limit.digits)
    ensures var most := if limit.UpTo? then limit.digits else [];
            && LeadingDigits(AfterComma(text, digits), most)
            && Drop(AfterComma(text, digits), |most|) == [CLOSE_BRACE] + rest
  {
    hide IsDigit, Decimal, WriteQuantifier, WriteLimit;
    CountedParts(digits, limit, rest, text);
    DropMore(text, 1 + |digits|, 1);
    var after := WriteLimit(limit) + rest;
    assert AfterComma(text, digits) == Drop(after, 1);
    if limit.UpTo? {
      UpToParts(limit.digits, rest, after);
      DropMore(after, 1, |limit.digits|);
      assert Drop(after, 1) == after[1..];
    } else {
      OrMoreParts(rest);
    }
  }

  lemma OrMoreParts(rest: Text)
    ensures Drop(WriteLimit(OrMore) + rest, 1) == [CLOSE_BRACE] + rest && LeadingDigits([CLOSE_BRACE] + rest, [])
  {
    NoDigit();
  }

  /** Behind the comma of any reading. */
  lemma MostParts(text: Text, slip: CountSlip)
    requires CountStops(text, slip) && BehindComma(slip)
    ensures var after, most := AfterComma(text, LeastDigits(slip)), MostDigits(slip);
            && LeadingDigits(after, most)
            && (slip.MostTooGreat? <==> TooGreat(most))
            && (slip.NoMost? || (slip.OutOfOrder? && slip.limit.OrMore?) <==> most == [])
            && (slip.OutOfOrder? ==> Begins(Drop(after, |most|), CLOSE_BRACE))
            && (slip.NoMost? || slip.NoBraceAfter? ==> !Begins(Drop(after, |most|), CLOSE_BRACE))
  {
    hide IsDigit, Decimal, LeadingDigits, WriteLimit;
    if slip.OutOfOrder? {
      var q := Counted(slip.digits, slip.limit);
      Split(WriteQuantifier(q), text);
      CountedMost(slip.digits, slip.limit, Drop(text, |WriteQuantifier(q)|), text);
    }
  }

  /** The slip, by the digits and the units behind them. */
  ghost function SlipOf(text: Text, least: Text, most: Text): CountSlip {
    if least == [] then NoLeast
    else if TooGreat(least) then LeastTooGreat(least)
    else if Begins(Drop(text, 1 + |least|), CLOSE_BRACE) then OutOfOrder(least, Exactly)
    else if !Begins(Drop(text, 1 + |least|), COMMA) then NoBrace(least)
    else if TooGreat(most) then MostTooGreat(least, most)
    else if Begins(Drop(AfterComma(text, least), |most|), CLOSE_BRACE) then
      OutOfOrder(least, if most == [] then OrMore else UpTo(most))
    else if most == [] then NoMost(least)
    else NoBraceAfter(least, most)
  }

  lemma SlipIs(text: Text, slip: CountSlip)
    requires CountStops(text, slip)
    ensures slip == SlipOf(text, LeastDigits(slip), MostDigits(slip))
  {
    hide IsDigit, Decimal, LeadingDigits, TooGreat, WriteQuantifier, WriteLimit;
    StopParts(text, slip);
    if BehindComma(slip) {
      MostParts(text, slip);
    }
  }

  lemma CommaDecides(text: Text, slip: CountSlip)
    requires CountStops(text, slip)
    ensures var c := Drop(text, 1 + |LeastDigits(slip)|);
            BehindComma(slip) <==> LeastDigits(slip) != [] && !TooGreat(LeastDigits(slip)) && Begins(c, COMMA)
  {
    hide IsDigit, Decimal, LeadingDigits, TooGreat, WriteQuantifier, WriteLimit;
    StopParts(text, slip);
  }

  lemma CountStopsAgree(text: Text, a: CountSlip, b: CountSlip)
    requires CountStops(text, a) && CountStops(text, b)
    ensures a == b
  {
    hide IsDigit, Decimal, LeadingDigits, TooGreat, CountStops, AfterComma, SlipOf;
    StopParts(text, a);
    StopParts(text, b);
    LeadingAgree(text[1..], LeastDigits(a), LeastDigits(b));
    CommaDecides(text, a);
    CommaDecides(text, b);
    if BehindComma(a) {
      MostParts(text, a);
      MostParts(text, b);
      LeadingAgree(AfterComma(text, LeastDigits(a)), MostDigits(a), MostDigits(b));
    }
    SlipIs(text, a);
    SlipIs(text, b);
  }

  lemma CountedStops(q: Quantifier, rest: Text, text: Text)
    requires q.Counted? && WritableQuantifier(q) && text == WriteQuantifier(q) + rest
    ensures CountStops(text, OutOfOrder(q.digits, q.limit))
  {
    Behindhand(WriteQuantifier(q), rest);
  }

  lemma SlipStops(text: Text, slip: CountSlip)
    requires CountSlips(text, slip)
    ensures CountStops(text, slip) && Begins(text, OPEN_BRACE)
    ensures slip.OutOfOrder? ==> !WritableQuantifier(Counted(slip.digits, slip.limit))
  {
  }

  /** A quantifier is not at once well written and a slip. */
  lemma QuantifierSlips(q: Quantifier, rest: Text, text: Text, slip: CountSlip)
    requires WritableQuantifier(q) && text == WriteQuantifier(q) + rest
    ensures !CountSlips(text, slip)
  {
    hide WriteQuantifier, WritableQuantifier, CountSlips, CountStops;
    if CountSlips(text, slip) {
      SlipStops(text, slip);
      QuantifierHead(q, rest);
      CountedStops(q, rest, text);
      CountStopsAgree(text, slip, OutOfOrder(q.digits, q.limit));
    }
  }

  lemma RepeatSlipHead(text: Text, slip: RepeatSlip)
    requires RepeatSlips(text, slip)
    ensures !Fresh(text)
    ensures slip.Doubled? ==> text == WriteQuantifier(slip.quantifier) + Drop(text, |WriteQuantifier(slip.quantifier)|)
  {
    if slip.Doubled? {
      Split(WriteQuantifier(slip.quantifier), text);
      QuantifierHead(slip.quantifier, Drop(text, |WriteQuantifier(slip.quantifier)|));
    }
  }

  lemma QuantifiedSlips(q: Option<Quantifier>, rest: Text, text: Text, slip: RepeatSlip)
    requires (q.Some? ==> WritableQuantifier(q.value)) && Fresh(rest) && text == WriteQuantified(q) + rest
    ensures !RepeatSlips(text, slip)
  {
    hide WriteQuantifier, WritableQuantifier, CountSlips;
    assert q.None? ==> text == rest;
    if RepeatSlips(text, slip) {
      RepeatSlipHead(text, slip);
      if q.None? {
      } else if slip.Doubled? {
        QuantifiersAgree(q.value, rest, slip.quantifier, Drop(text, |WriteQuantifier(slip.quantifier)|));
      } else {
        QuantifierSlips(q.value, rest, text, slip.slip);
      }
    }
  }

  lemma RepeatSlipsAgree(text: Text, a: RepeatSlip, b: RepeatSlip)
    requires RepeatSlips(text, a) && RepeatSlips(text, b)
    ensures a == b
  {
    hide WriteQuantifier, WritableQuantifier, CountSlips, CountStops;
    RepeatSlipHead(text, a);
    RepeatSlipHead(text, b);
    if a.Doubled? && b.Doubled? {
      QuantifiersAgree(a.quantifier, Drop(text, |WriteQuantifier(a.quantifier)|),
                       b.quantifier, Drop(text, |WriteQuantifier(b.quantifier)|));
    } else if a.Doubled? {
      QuantifierSlips(a.quantifier, Drop(text, |WriteQuantifier(a.quantifier)|), text, b.slip);
    } else if b.Doubled? {
      QuantifierSlips(b.quantifier, Drop(text, |WriteQuantifier(b.quantifier)|), text, a.slip);
    } else {
      SlipStops(text, a.slip);
      SlipStops(text, b.slip);
      CountStopsAgree(text, a.slip, b.slip);
    }
  }

  // ---- Classes -------------------------------------------------------------------------------

  lemma RangeUnfold(low: Option<ClassUnit>, tail: Text)
    ensures low.None? ==> RangeText(low) + tail == tail
    ensures low.Some? ==> RangeText(low) + tail == WriteClassUnit(low.value) + ([DASH] + tail)
  {
    hide WriteClassUnit;
    if low.Some? {
      Regroup(WriteClassUnit(low.value), [DASH], tail);
    }
  }

  /** Where a class slips, no further unit of it is written. */
  lemma UnitSlips(mode: Mode, c: ClassUnit, rest: Text, text: Text, members: seq<ClassItem>, low: Option<ClassUnit>,
                  slip: ClassSlip)
    requires WritableClassUnit(c) && text == WriteClassUnit(c) + rest && ClassSlips(mode, text, members, low, slip)
    ensures low.Some? && slip == Reversed(c) && !RangeInOrder(mode, Value(low.value), Value(c))
  {
    hide WriteClassUnit, WritableClassUnit, RangeInOrder, HoldsBack;
    UnitHead(c, rest);
    if slip.Reversed? {
      Split(WriteClassUnit(slip.high), text);
      UnitsAgree(c, rest, slip.high, Drop(text, |WriteClassUnit(slip.high)|));
    }
  }

  /** Where a class slips, no further member of it is written. */
  lemma MemberSlips(mode: Mode, m: ClassItem, rest: Text, members: seq<ClassItem>, low: Option<ClassUnit>, tail: Text,
                    slip: ClassSlip)
    requires WritableMember(mode, m) && (low.Some? ==> WritableClassUnit(low.value)) && (m.One? ==> !Begins(rest, DASH))
    requires RangeText(low) + tail == WriteMember(m) + rest
    ensures !ClassSlips(mode, tail, members, low, slip)
  {
    hide WriteClassUnit, WritableClassUnit, RangeInOrder, HoldsBack, RangeText;
    RangeUnfold(low, tail);
    MemberHead(mode, m, rest);
    if low.Some? {
      UnitHead(low.value, [DASH] + tail);
      if m.One? {
        UnitsAgree(low.value, [DASH] + tail, m.only, rest);
      } else if m.Between? {
        BetweenText(m.low, m.high, rest);
        UnitsAgree(low.value, [DASH] + tail, m.low, [DASH] + (WriteClassUnit(m.high) + rest));
        SplitSame([DASH], tail, [DASH], WriteClassUnit(m.high) + rest);
        if ClassSlips(mode, tail, members, low, slip) {
          UnitSlips(mode, m.high, rest, tail, members, low, slip);
        }
      }
    }
  }

  lemma SlipSettles(mode: Mode, members: seq<ClassItem>, low: Option<ClassUnit>, tail: Text, slip: ClassSlip)
    requires (low.Some? ==> WritableClassUnit(low.value)) && ClassSlips(mode, tail, members, low, slip)
    ensures Settled(members, RangeText(low) + tail) && !Begins(RangeText(low) + tail, CLOSE_BRACKET)
  {
    hide WriteClassUnit, WritableClassUnit, RangeInOrder, RangeText;
    RangeUnfold(low, tail);
    if low.Some? {
      UnitHead(low.value, [DASH] + tail);
    }
  }

  /** Members that go on where a class slips are none. */
  lemma MembersSlip(mode: Mode, more: seq<ClassItem>, rest: Text, members: seq<ClassItem>, low: Option<ClassUnit>,
                    tail: Text, slip: ClassSlip)
    requires (forall m :: m in more ==> WritableMember(mode, m)) && Settled(more, rest)
    requires (low.Some? ==> WritableClassUnit(low.value)) && ClassSlips(mode, tail, members, low, slip)
    requires RangeText(low) + tail == WriteMembers(more) + rest
    ensures more == [] && rest == RangeText(low) + tail
  {
    hide WriteMember, WritableMember, WritableClassUnit, ClassSlips, RangeText, Settled;
    if more != [] {
      MembersUnfold(more, rest);
      MembersHead(mode, more, rest);
      MemberSlips(mode, more[0], WriteMembers(more[1..]) + rest, members, low, tail, slip);
    }
  }

  predicate ClassReads(mode: Mode, text: Text, inverted: bool, members: seq<ClassItem>, after: Text) {
    && (forall m :: m in members ==> WritableMember(mode, m)) && Settled(members, after)
    && text == OpenClass(inverted) + (WriteMembers(members) + after) && (inverted <==> Begins(text[1..], CARET))
  }

  ghost function SlipTail(text: Text, f: Fault): Text
    requires f.BadClass?
  {
    Drop(text, |ClassText(f.inverted, f.members, f.low)|)
  }

  lemma BadClassReads(mode: Mode, room: nat, text: Text, f: Fault)
    requires f.BadClass? && Faulty(mode, room, text, f)
    ensures ClassReads(mode, text, f.inverted, f.members, RangeText(f.low) + SlipTail(text, f))
    ensures (f.low.Some? ==> WritableClassUnit(f.low.value))
            && ClassSlips(mode, SlipTail(text, f), f.members, f.low, f.classSlip)
    ensures !Begins(RangeText(f.low) + SlipTail(text, f), CLOSE_BRACKET)
  {
    hide WriteMembers, WritableMember, ClassSlips, RangeText, WritableClassUnit, Settled;
    var tail := SlipTail(text, f);
    Split(ClassText(f.inverted, f.members, f.low), text);
    Regroup(OpenClass(f.inverted), WriteMembers(f.members) + RangeText(f.low), tail);
    Regroup(WriteMembers(f.members), RangeText(f.low), tail);
    SlipSettles(mode, f.members, f.low, tail, f.classSlip);
  }

  lemma ReadsAgree(mode: Mode, text: Text, i: bool, a: seq<ClassItem>, ra: Text, j: bool, b: seq<ClassItem>, rb: Text)
    requires ClassReads(mode, text, i, a, ra) && ClassReads(mode, text, j, b, rb)
    ensures i == j
    ensures || (a <= b && ra == WriteMembers(b[|a|..]) + rb && Settled(b[|a|..], rb))
            || (b <= a && rb == WriteMembers(a[|b|..]) + ra && Settled(a[|b|..], ra))
  {
    hide WriteMembers, WritableMember, Settled;
    SplitSame(OpenClass(i), WriteMembers(a) + ra, OpenClass(j), WriteMembers(b) + rb);
    MembersAgree(mode, a, ra, b, rb);
  }

  lemma ClassSlipsNot(mode: Mode, room: nat, s: Syntax, rest: Text, text: Text, f: Fault)
    requires s.BracketClass? && Writable(mode, s) && text == Write(s) + rest && f.BadClass?
    ensures !Faulty(mode, room, text, f)
  {
    hide WritableMember, WriteMembers, OpensClass, Settled, ClassSlips, RangeText, Faulty;
    if Faulty(mode, room, text, f) {
      var tail, close := SlipTail(text, f), [CLOSE_BRACKET] + rest;
      ClassHead(mode, s, rest, text);
      CloseSettles(s.members, close);
      BadClassReads(mode, room, text, f);
      ReadsAgree(mode, text, s.inverted, s.members, close, f.inverted, f.members, RangeText(f.low) + tail);
      if s.members <= f.members && close == WriteMembers(f.members[|s.members|..]) + (RangeText(f.low) + tail) {
        NoMemberCloses(mode, f.members[|s.members|..], RangeText(f.low) + tail, close);
      } else {
        MembersSlip(mode, s.members[|f.members|..], close, f.members, f.low, tail, f.classSlip);
      }
    }
  }

  lemma TailsAgree(mode: Mode, text: Text, members: seq<ClassItem>, low: Option<ClassUnit>, a: ClassSlip, b: ClassSlip)
    requires ClassSlips(mode, text, members, low, a) && ClassSlips(mode, text, members, low, b)
    ensures a == b
  {
    hide WriteClassUnit, WritableClassUnit, RangeInOrder, HoldsBack;
    assert a.RangeToNamed? ==> text[1] == [BACKSLASH, a.escape][1];
    assert b.RangeToNamed? ==> text[1] == [BACKSLASH, b.escape][1];
    if a.Reversed? {
      Split(WriteClassUnit(a.high), text);
      UnitSlips(mode, a.high, Drop(text, |WriteClassUnit(a.high)|), text, members, low, b);
    } else if b.Reversed? {
      Split(WriteClassUnit(b.high), text);
      UnitSlips(mode, b.high, Drop(text, |WriteClassUnit(b.high)|), text, members, low, a);
    }
  }

  lemma LowsAgree(mode: Mode, members: seq<ClassItem>, p: Option<ClassUnit>, tp: Text, a: ClassSlip,
                  q: Option<ClassUnit>, tq: Text, b: ClassSlip)
    requires (p.Some? ==> WritableClassUnit(p.value)) && (q.Some? ==> WritableClassUnit(q.value))
    requires ClassSlips(mode, tp, members, p, a) && ClassSlips(mode, tq, members, q, b)
    requires RangeText(p) + tp == RangeText(q) + tq
    ensures p == q && a == b
  {
    hide WriteClassUnit, WritableClassUnit, ClassSlips, RangeText;
    RangeUnfold(p, tp);
    RangeUnfold(q, tq);
    if p.Some? && q.Some? {
      UnitsAgree(p.value, [DASH] + tp, q.value, [DASH] + tq);
      SplitSame([DASH], tp, [DASH], tq);
    } else if p.Some? {
      UnitSlips(mode, p.value, [DASH] + tp, tq, members, q, b);
    } else if q.Some? {
      UnitSlips(mode, q.value, [DASH] + tq, tp, members, p, a);
    }
    TailsAgree(mode, tp, members, p, a, b);
  }

  lemma BadClassesAgree(mode: Mode, room: nat, text: Text, f: Fault, g: Fault)
    requires f.BadClass? && g.BadClass? && Faulty(mode, room, text, f) && Faulty(mode, room, text, g)
    ensures f == g
  {
    hide WritableMember, WriteMembers, Settled, ClassSlips, RangeText, Faulty, WritableClassUnit;
    BadClassReads(mode, room, text, f);
    BadClassReads(mode, room, text, g);
    var tf, tg := SlipTail(text, f), SlipTail(text, g);
    var rf, rg := RangeText(f.low) + tf, RangeText(g.low) + tg;
    ReadsAgree(mode, text, f.inverted, f.members, rf, g.inverted, g.members, rg);
    if f.members <= g.members && rf == WriteMembers(g.members[|f.members|..]) + rg
       && Settled(g.members[|f.members|..], rg) {
      MembersSlip(mode, g.members[|f.members|..], rg, f.members, f.low, tf, f.classSlip);
    } else {
      MembersSlip(mode, f.members[|g.members|..], rf, g.members, g.low, tg, g.classSlip);
    }
    assert f.members == g.members && rf == rg;
    LowsAgree(mode, f.members, f.low, tf, f.classSlip, g.low, tg, g.classSlip);
    assert f == BadClass(f.inverted, f.members, f.low, f.classSlip);
  }

  // ---- Trees and faults ----------------------------------------------------------------------

  /** A fault begins with a unit of its own kind. */
  lemma FaultHead(mode: Mode, room: nat, text: Text, f: Fault)
    requires Faulty(mode, room, text, f)
    ensures text != [] && text[0] != BAR
    ensures f.NoAtom? <==> IsRepetitionOperator(text[0])
    ensures f.StrayClose? <==> text[0] == CLOSE
    ensures f.BadEscape? ==> text[0] == BACKSLASH
    ensures f.BadClass? ==> text[0] == OPEN_BRACKET
    ensures f.BadMark? || f.TooDeep? || f.Unclosed? || f.Inside? ==> text[0] == OPEN
  {
    hide WriteBranches, WrittenBranches, BrokenText, WriteMembers, WritableMember, ClassSlips, RangeText, RepeatSlips;
    match f
    case BadClass(inverted, members, low, slip) =>
      Split(ClassText(inverted, members, low), text);
      Regroup(OpenClass(inverted), WriteMembers(members) + RangeText(low), SlipTail(text, f));
    case BadRepeat(atom, _) =>
      Split(Write(atom), text);
      AtomHead(mode, atom, Drop(text, |Write(atom)|), text);
    case _ =>
  }

  lemma LaterText(first: Branch, text: Text)
    requires WriteAll(first.items) + [BAR] <= text
    ensures text == WriteAll(first.items) + ([BAR] + Drop(text, |WriteAll(first.items)| + 1))
  {
    Split(WriteAll(first.items) + [BAR], text);
  }

  lemma BrokenHead(mode: Mode, room: nat, text: Text, inGroup: bool, b: Broken)
    requires BrokenText(mode, room, text, inGroup, b)
    ensures !BranchesStop(text, inGroup)
  {
    hide Writable, Fits, Write, WriteAll, Faulty;
    match b
    case Here(items, fault) =>
      Split(WriteAll(items), text);
      AllHead(mode, items, Drop(text, |WriteAll(items)|));
      FaultHead(mode, room, Drop(text, |WriteAll(items)|), fault);
    case Later(first, _) =>
      LaterText(first, text);
      AllHead(mode, first.items, [BAR] + Drop(text, |WriteAll(first.items)| + 1));
  }

  /** Where a tree goes on, nothing is broken but that one group too many opens. */
  lemma {:induction false} AtomFaults(mode: Mode, room: nat, s: Syntax, rest: Text, text: Text, f: Fault)
    requires !s.Quantified? && Writable(mode, s) && text == Write(s) + rest
    requires Faulty(mode, room, text, f) && !f.BadRepeat?
    ensures DeepFault(f) && !Fits(s, room)
    decreases s, 0
  {
    hide Write, WriteBranches, Writable, BrokenText, DeepBroken, FitsBranch, Opens, Body;
    FaultHead(mode, room, text, f);
    AtomHead(mode, s, rest, text);
    if f.BadClass? {
      ClassSlipsNot(mode, room, s, rest, text, f);
    } else if text[0] == OPEN {
      GroupHead(mode, s, rest, text);
      GroupFaults(mode, room, s, rest, text, f);
    } else {
      BadEscapeIs(mode, room, text, f);
    }
  }

  lemma BadEscapeIs(mode: Mode, room: nat, text: Text, f: Fault)
    requires Faulty(mode, room, text, f) && f.BadEscape?
    ensures |text| == 1 || EscapeTree(text[1]).None?
  {
  }

  lemma MarkBehind(text: Text, capturing: bool)
    requires Opens(text, capturing) && [OPEN, QUESTION] <= text
    ensures Begins(text[2..], COLON)
  {
    assert text[1] == [OPEN, QUESTION][1];
    assert !capturing ==> text[2] == WriteOpen(false)[2];
  }

  lemma {:induction false} GroupFaults(mode: Mode, room: nat, s: Syntax, rest: Text, text: Text, f: Fault)
    requires (s.Group? || s.EmptyGroup?) && Writable(mode, s) && text == Write(s) + rest
    requires f.BadMark? || f.TooDeep? || f.Unclosed? || f.Inside?
    requires Faulty(mode, room, text, f)
    ensures DeepFault(f) && !Fits(s, room)
    decreases s, 0, 0
  {
    hide Write, WriteBranches, Writable, WritableBranch, FitsBranch, Opens, Body, BrokenText, DeepBroken;
    GroupHead(mode, s, rest, text);
    var body := Body(text, s.capturing);
    if f.BadMark? {
      MarkBehind(text, s.capturing);
    } else {
      OpensOnce(text, s.capturing, f.capturing);
      if f.Unclosed? {
        assert WriteBranches(f.branches, f.trailing) + [] == WriteBranches(f.branches, f.trailing);
        BranchesHead(mode, f.branches, f.trailing, []);
      }
      assert s.Group?;
      GroupShape(mode, s);
      Regroup(WriteBranches(s.branches, s.trailing), [CLOSE], rest);
      if f.Unclosed? {
        BranchesAgree(mode, s.branches, s.trailing, [CLOSE] + rest, f.branches, f.trailing, [], true);
      } else if f.Inside? {
        BranchesFaults(mode, room - 1, s.branches, s.trailing, [CLOSE] + rest, true, body, f.body);
      }
    }
  }

  /** Where an item goes on. */
  lemma {:induction false} ItemFaults(mode: Mode, room: nat, s: Syntax, rest: Text, text: Text, f: Fault)
    requires Writable(mode, s) && Fresh(rest) && text == Write(s) + rest && Faulty(mode, room, text, f)
    ensures DeepFault(f) && !Fits(s, room)
    decreases s, 1
  {
    hide Write, Writable, Fits, WritableQuantifier, WriteQuantified, DeepFault, Fresh, RepeatSlips;
    ItemParts(mode, room, s, rest);
    var atom, tail := AtomOf(s), WriteQuantified(QuantifierOf(s)) + rest;
    if f.BadRepeat? {
      Split(Write(f.atom), text);
      AtomsAgree(mode, atom, tail, f.atom, Drop(text, |Write(f.atom)|));
      QuantifiedSlips(QuantifierOf(s), rest, tail, f.repeatSlip);
    } else {
      AtomFaults(mode, room, atom, tail, text, f);
    }
  }

  /** Items that go on where a fault begins are none. */
  lemma ItemsFault(mode: Mode, room: nat, items: seq<Syntax>, rest: Text, text: Text, f: Fault)
    requires (forall s :: s in items ==> Writable(mode, s)) && text == WriteAll(items) + rest
    requires (items != [] ==> Fresh(rest)) && Faulty(mode, room, text, f)
    ensures items == [] ==> text == rest
    ensures items != [] ==> DeepFault(f) && !Fits(items[0], room)
    decreases items, 0
  {
    hide Write, Writable, Fits, DeepFault, Fresh, Faulty;
    if items != [] {
      AllUnfold(items, rest);
      AllHead(mode, items[1..], rest);
      ItemFaults(mode, room, items[0], WriteAll(items[1..]) + rest, text, f);
    }
  }

  /** Where the branches go on. */
  lemma {:induction false} BranchesFaults(mode: Mode, room: nat, branches: seq<Branch>, trailing: bool, rest: Text,
                                          inGroup: bool, text: Text, b: Broken)
    requires WellWritten(mode, branches, trailing) && BranchesStop(rest, inGroup)
    requires text == WriteBranches(branches, trailing) + rest && BrokenText(mode, room, text, inGroup, b)
    ensures DeepBroken(b) && exists br :: br in branches && !FitsBranch(br, room)
    decreases branches, 0
  {
    hide WriteAll, WriteMore, WriteBranches, Writable, Fits, Faulty, DeepFault, BranchesStop, BranchStops;
    assert WritableBranch(mode, branches[0]);
    BranchesUnfold(branches, trailing, rest);
    MoreText(branches[1..], trailing, rest, inGroup);
    var more := WriteMore(branches[1..], trailing) + rest;
    match b
    case Here(items, fault) =>
      BranchFaults(mode, room, branches[0], more, inGroup, text, items, fault);
      assert branches[0] in branches;
    case Later(first, later) =>
      LaterText(first, text);
      var left := Drop(text, |WriteAll(first.items)| + 1);
      BarStops(left, inGroup);
      BranchAgree(mode, branches[0], more, first, [BAR] + left, inGroup);
      AfterBar(branches[1..], trailing, rest, inGroup, more);
      assert more[1..] == left;
      if branches[1..] == [] {
        BrokenHead(mode, room, left, inGroup, later);
      } else {
        LaterShows(branches, trailing);
        BranchesFaults(mode, room, branches[1..], trailing, rest, inGroup, left, later);
      }
  }

  lemma BarStops(left: Text, inGroup: bool)
    ensures BranchStops([BAR] + left, inGroup)
  {
  }

  lemma LaterShows(branches: seq<Branch>, trailing: bool)
    requires |branches| > 1 && LastShows(branches, trailing)
    ensures LastShows(branches[1..], trailing)
  {
  }

  lemma {:induction false} BranchFaults(mode: Mode, room: nat, branch: Branch, more: Text, inGroup: bool, text: Text,
                                        items: seq<Syntax>, f: Fault)
    requires WritableBranch(mode, branch) && BranchStops(more, inGroup) && text == WriteAll(branch.items) + more
    requires BrokenText(mode, room, text, inGroup, Here(items, f))
    ensures DeepFault(f) && !FitsBranch(branch, room)
    decreases branch, 0
  {
    hide Write, WriteAll, Writable, Fits, Faulty, DeepFault;
    var left := Drop(text, |WriteAll(items)|);
    Split(WriteAll(items), text);
    FaultHead(mode, room, left, f);
    ItemsAgree(mode, items, left, branch.items, more);
    if items <= branch.items && left == WriteAll(branch.items[|items|..]) + more {
      var further := branch.items[|items|..];
      ItemsFault(mode, room, further, more, left, f);
      if further != [] {
        assert further[0] in branch.items;
      }
    } else {
      NoItemStops(mode, items[|branch.items|..], left, more, inGroup);
    }
  }

  // ---- Two faults ------------------------------------------------------------------------------

  lemma {:induction false} FaultsAgree(mode: Mode, room: nat, text: Text, f: Fault, g: Fault)
    requires Faulty(mode, room, text, f) && Faulty(mode, room, text, g)
    ensures f == g
    decreases f
  {
    hide Write, Writable, Fits, BrokenText, WritableMember, WriteMembers, ClassSlips, RepeatSlips, WriteBranches;
    hide WrittenBranches, Body, Opens;
    FaultHead(mode, room, text, f);
    FaultHead(mode, room, text, g);
    if f.BadRepeat? && g.BadRepeat? {
      Split(Write(f.atom), text);
      Split(Write(g.atom), text);
      AtomsAgree(mode, f.atom, Drop(text, |Write(f.atom)|), g.atom, Drop(text, |Write(g.atom)|));
      RepeatSlipsAgree(Drop(text, |Write(f.atom)|), f.repeatSlip, g.repeatSlip);
    } else if f.BadRepeat? {
      Split(Write(f.atom), text);
      AtomFaults(mode, room, f.atom, Drop(text, |Write(f.atom)|), text, g);
    } else if g.BadRepeat? {
      Split(Write(g.atom), text);
      AtomFaults(mode, room, g.atom, Drop(text, |Write(g.atom)|), text, f);
    } else if f.BadClass? {
      BadClassesAgree(mode, room, text, f, g);
    } else if text[0] == OPEN {
      GroupFaultsAgree(mode, room, text, f, g);
    }
  }

  predicate OpenFault(f: Fault) {
    f.BadMark? || f.TooDeep? || f.Unclosed? || f.Inside?
  }

  lemma {:induction false} GroupFaultsAgree(mode: Mode, room: nat, text: Text, f: Fault, g: Fault)
    requires Faulty(mode, room, text, f) && Faulty(mode, room, text, g) && OpenFault(f) && OpenFault(g)
    ensures f == g
    decreases f, 0
  {
    hide BrokenText, WriteBranches, Body, Opens, WritableBranch, FitsBranch;
    if f.BadMark? {
      if !g.BadMark? {
        MarkBehind(text, g.capturing);
      }
    } else if g.BadMark? {
      MarkBehind(text, f.capturing);
    } else {
      OpensOnce(text, f.capturing, g.capturing);
      var body := Body(text, f.capturing);
      assert f.Unclosed? ==> body == WriteBranches(f.branches, f.trailing) + [];
      assert g.Unclosed? ==> body == WriteBranches(g.branches, g.trailing) + [];
      if f.Unclosed? {
        BranchesHead(mode, f.branches, f.trailing, []);
      }
      if g.Unclosed? {
        BranchesHead(mode, g.branches, g.trailing, []);
      }
      if f.Unclosed? && g.Unclosed? {
        BranchesAgree(mode, f.branches, f.trailing, [], g.branches, g.trailing, [], true);
      } else if f.Unclosed? && g.Inside? {
        BranchesFaults(mode, room - 1, f.branches, f.trailing, [], true, body, g.body);
      } else if f.Inside? && g.Unclosed? {
        BranchesFaults(mode, room - 1, g.branches, g.trailing, [], true, body, f.body);
      } else if f.Inside? && g.Inside? {
        BrokensAgree(mode, room - 1, body, true, f.body, g.body);
      }
    }
  }

  lemma {:induction false} BrokensAgree(mode: Mode, room: nat, text: Text, inGroup: bool, b: Broken, c: Broken)
    requires BrokenText(mode, room, text, inGroup, b) && BrokenText(mode, room, text, inGroup, c)
    ensures b == c
    decreases b
  {
    hide WriteAll, Writable, Fits, Faulty, FitsBranch, BrokenText;
    if b.Here? && c.Here? {
      HeresAgree(mode, room, text, inGroup, b, c);
    } else if b.Later? && c.Later? {
      FirstsAgree(mode, room, text, inGroup, b, c);
      BrokensAgree(mode, room, Drop(text, |WriteAll(b.first.items)| + 1), inGroup, b.rest, c.rest);
    } else if b.Here? {
      HereOrLater(mode, room, text, inGroup, b, c);
    } else {
      HereOrLater(mode, room, text, inGroup, c, b);
    }
  }

  lemma {:induction false} HeresAgree(mode: Mode, room: nat, text: Text, inGroup: bool, b: Broken, c: Broken)
    requires BrokenText(mode, room, text, inGroup, b) && BrokenText(mode, room, text, inGroup, c) && b.Here? && c.Here?
    ensures b == c
    decreases b, 0
  {
    hide WriteAll, Writable, Fits, Faulty, FitsBranch;
    var rb, rc := Drop(text, |WriteAll(b.items)|), Drop(text, |WriteAll(c.items)|);
    Split(WriteAll(b.items), text);
    Split(WriteAll(c.items), text);
    FaultHead(mode, room, rb, b.fault);
    FaultHead(mode, room, rc, c.fault);
    ItemsAgree(mode, b.items, rb, c.items, rc);
    if b.items <= c.items && rb == WriteAll(c.items[|b.items|..]) + rc {
      ItemsFault(mode, room, c.items[|b.items|..], rc, rb, b.fault);
    } else {
      ItemsFault(mode, room, b.items[|c.items|..], rb, rc, c.fault);
    }
    assert b.items == c.items && rb == rc;
    FaultsAgree(mode, room, rb, b.fault, c.fault);
  }

  lemma LaterIs(mode: Mode, room: nat, text: Text, inGroup: bool, b: Broken)
    requires BrokenText(mode, room, text, inGroup, b) && b.Later?
    ensures var left := Drop(text, |WriteAll(b.first.items)| + 1);
            && WritableBranch(mode, b.first) && text == WriteAll(b.first.items) + ([BAR] + left)
            && BrokenText(mode, room, left, inGroup, b.rest)
  {
    hide WriteAll, WritableBranch, FitsBranch, Faulty;
    LaterText(b.first, text);
  }

  lemma FirstsAgree(mode: Mode, room: nat, text: Text, inGroup: bool, b: Broken, c: Broken)
    requires BrokenText(mode, room, text, inGroup, b) && BrokenText(mode, room, text, inGroup, c)
    requires b.Later? && c.Later?
    ensures b.first == c.first
    ensures var left := Drop(text, |WriteAll(b.first.items)| + 1);
            BrokenText(mode, room, left, inGroup, b.rest) && BrokenText(mode, room, left, inGroup, c.rest)
  {
    hide WriteAll, WritableBranch, BrokenText, BranchStops, Drop;
    var rb, rc := Drop(text, |WriteAll(b.first.items)| + 1), Drop(text, |WriteAll(c.first.items)| + 1);
    LaterIs(mode, room, text, inGroup, b);
    LaterIs(mode, room, text, inGroup, c);
    BarStops(rb, inGroup);
    BarStops(rc, inGroup);
    BranchAgree(mode, b.first, [BAR] + rb, c.first, [BAR] + rc, inGroup);
  }

  /** A fault is not followed by a bar that ends its branch. */
  lemma HereOrLater(mode: Mode, room: nat, text: Text, inGroup: bool, b: Broken, c: Broken)
    requires BrokenText(mode, room, text, inGroup, b) && b.Here? && c.Later?
    ensures !BrokenText(mode, room, text, inGroup, c)
  {
    hide WriteAll, Writable, Faulty, Fits;
    if BrokenText(mode, room, text, inGroup, c) {
      var left := Drop(text, |WriteAll(c.first.items)| + 1);
      LaterText(c.first, text);
      BarStops(left, inGroup);
      BranchFaults(mode, room, c.first, [BAR] + left, inGroup, text, b.items, b.fault);
    }
  }

  // ---- Flag prefixes -----------------------------------------------------------------------------

  lemma FlagsUnfold(f: seq<U16>, rest: Text, text: Text)
    requires AllFlags(f) && f != [] && text == WriteFlags(f) + rest
    ensures |text| > 2 + |f| && text[0] == OPEN && text[1] == QUESTION && text[2 + |f|] == CLOSE
    ensures forall k :: 2 <= k < 2 + |f| ==> IsFlag(text[k])
    ensures text[2..2 + |f|] == f
  {
    assert forall k :: 2 <= k < 2 + |f| ==> text[k] == f[k - 2];
  }

  /** A flag prefix is read in one way. */
  lemma FlagsAgree(f: seq<U16>, rf: Text, g: seq<U16>, rg: Text)
    requires AllFlags(f) && AllFlags(g) && f != [] && g != [] && WriteFlags(f) + rf == WriteFlags(g) + rg
    ensures f == g && rf == rg
  {
    hide WriteFlags, AllFlags;
    var text := WriteFlags(f) + rf;
    FlagsUnfold(f, rf, text);
    FlagsUnfold(g, rg, text);
    SplitSame(WriteFlags(f), rf, WriteFlags(f), rg);
  }

  lemma FlagsOpen(text: Text)
    requires OpensFlags(text)
    ensures [OPEN, QUESTION] <= text && |text| > 2 && IsFlag(text[2])
  {
    hide WriteFlags;
    var f :| f != [] && AllFlags(f) && WriteFlags(f) <= text;
    Split(WriteFlags(f), text);
    FlagsUnfold(f, Drop(text, |WriteFlags(f)|), text);
  }

  /** Branches that begin with a parenthesis begin with an item. */
  lemma BranchesOpen(mode: Mode, branches: seq<Branch>, trailing: bool, rest: Text, text: Text)
    requires WellWritten(mode, branches, trailing) && BranchesStop(rest, true)
    requires text == WriteBranches(branches, trailing) + rest && Begins(text, OPEN)
    ensures exists s, more :: Writable(mode, s) && text == Write(s) + more
  {
    hide WriteAll, WriteMore, Writable, Write;
    var items, more := branches[0].items, WriteMore(branches[1..], trailing) + rest;
    assert WritableBranch(mode, branches[0]);
    BranchesUnfold(branches, trailing, rest);
    AllHead(mode, items, more);
    MoreText(branches[1..], trailing, rest, true);
    AllUnfold(items, more);
    assert Writable(mode, items[0]) && text == Write(items[0]) + (WriteAll(items[1..]) + more);
  }

  /** A tree that names no flags is not written like one that does. */
  lemma BranchesOpenNoFlags(mode: Mode, branches: seq<Branch>, trailing: bool, rest: Text, text: Text)
    requires WellWritten(mode, branches, trailing) && BranchesStop(rest, true)
    requires text == WriteBranches(branches, trailing) + rest
    ensures !OpensFlags(text)
  {
    hide WriteBranches, Writable, Write, OpensFlags, WellWritten, BranchesStop;
    if OpensFlags(text) {
      FlagsOpen(text);
      BranchesOpen(mode, branches, trailing, rest, text);
      var s, more :| Writable(mode, s) && text == Write(s) + more;
      FirstOpens(mode, s, more, text);
    }
  }

  lemma FirstOpens(mode: Mode, s: Syntax, rest: Text, text: Text)
    requires Writable(mode, s) && text == Write(s) + rest && [OPEN, QUESTION] <= text
    ensures Begins(text[2..], COLON)
  {
    hide Write, Writable, Opens, WriteQuantified;
    assert text[0] == [OPEN, QUESTION][0];
    ItemParts(mode, 0, s, rest);
    var tail := WriteQuantified(QuantifierOf(s)) + rest;
    AtomHead(mode, AtomOf(s), tail, text);
    GroupHead(mode, AtomOf(s), tail, text);
    MarkBehind(text, AtomOf(s).capturing);
  }

  // ---- Whole sources -----------------------------------------------------------------------------

  /** The source is the writing of the pattern. */
  predicate Writes(mode: Mode, p: Pattern, units: Text) {
    WritablePattern(mode, p) && WritePattern(p) == units
  }

  predicate FitsPattern(p: Pattern) {
    forall b :: b in p.branches ==> FitsBranch(b, 256)
  }

  lemma PatternText(mode: Mode, p: Pattern, units: Text)
    requires Writes(mode, p, units)
    ensures AllFlags(p.flags) && WriteFlags(p.flags) <= units && (p.flags == [] ==> !OpensFlags(units))
    ensures WellWritten(PatternMode(mode, p), p.branches, p.trailing)
    ensures Drop(units, |WriteFlags(p.flags)|) == WriteBranches(p.branches, p.trailing) + []
  {
    hide WriteBranches, WritableBranch;
    Behindhand(WriteFlags(p.flags), WriteBranches(p.branches, p.trailing));
    if p.flags == [] {
      assert units == WriteBranches(p.branches, p.trailing) + [];
      BranchesOpenNoFlags(PatternMode(mode, p), p.branches, p.trailing, [], units);
    }
  }

  /** Two flag prefixes of one source, where no prefix means that there is none, are the same. */
  lemma PrefixesAgree(units: Text, f: seq<U16>, g: seq<U16>)
    requires AllFlags(f) && WriteFlags(f) <= units && (f == [] ==> !OpensFlags(units))
    requires AllFlags(g) && WriteFlags(g) <= units && (g == [] ==> !OpensFlags(units))
    ensures f == g
  {
    hide WriteFlags, AllFlags;
    if f != [] && g != [] {
      Split(WriteFlags(f), units);
      Split(WriteFlags(g), units);
      FlagsAgree(f, Drop(units, |WriteFlags(f)|), g, Drop(units, |WriteFlags(g)|));
    }
  }

  /** Two trees with the same writing are the same tree. */
  lemma OneTree(mode: Mode, p: Pattern, q: Pattern, units: Text)
    requires Writes(mode, p, units) && Writes(mode, q, units)
    ensures p == q
  {
    hide Writes, WriteFlags, AllFlags, WellWritten, WriteBranches, OpensFlags;
    PatternText(mode, p, units);
    PatternText(mode, q, units);
    PrefixesAgree(units, p.flags, q.flags);
    BranchesAgree(PatternMode(mode, p), p.branches, p.trailing, [], q.branches, q.trailing, [], false);
  }

  /** A well-written source is only broken where one group too many opens. */
  lemma TreeOrBroken(mode: Mode, p: Pattern, units: Text, flags: seq<U16>, b: Broken)
    requires Writes(mode, p, units) && IsBroken(mode, units, flags, b)
    ensures DeepBroken(b) && !FitsPattern(p)
  {
    hide Writes, WriteFlags, AllFlags, WellWritten, WriteBranches, OpensFlags, FitsBranch, BrokenText, DeepBroken;
    PatternText(mode, p, units);
    PrefixesAgree(units, p.flags, flags);
    BranchesFaults(PatternMode(mode, p), 256, p.branches, p.trailing, [], false,
                   Drop(units, |WriteFlags(flags)|), b);
  }

  /** A source is broken in one way only. */
  lemma OneBreak(mode: Mode, units: Text, f: seq<U16>, b: Broken, g: seq<U16>, c: Broken)
    requires IsBroken(mode, units, f, b) && IsBroken(mode, units, g, c)
    ensures f == g && b == c
  {
    hide WriteFlags, AllFlags, OpensFlags, BrokenText;
    PrefixesAgree(units, f, g);
    BrokensAgree(mode.(caseInsensitive := mode.caseInsensitive || FOLD_FLAG in f), 256,
                 Drop(units, |WriteFlags(f)|), false, b, c);
  }

  // ---- A parenthesis too many --------------------------------------------------------------------

  /** Well-written branches, and then a parenthesis that closes nothing. */
  function StrayAfter(branches: seq<Branch>, trailing: bool): Broken
    requires branches != []
  {
    if |branches| > 1 then Later(branches[0], StrayAfter(branches[1..], trailing))
    else if trailing then Later(branches[0], Here([], StrayClose))
    else Here(branches[0].items, StrayClose)
  }

  lemma StrayBehind(mode: Mode, room: nat, b: Branch, rest: Text, text: Text)
    requires WritableBranch(mode, b) && FitsBranch(b, room) && Begins(rest, CLOSE) && text == WriteAll(b.items) + rest
    ensures BrokenText(mode, room, text, false, Here(b.items, StrayClose))
  {
    hide Writable, Fits, WriteAll;
    Behindhand(WriteAll(b.items), rest);
  }

  lemma NothingWritten(mode: Mode, room: nat)
    ensures WriteAll([]) == [] && WritableBranch(mode, Branch([])) && FitsBranch(Branch([]), room)
  {
  }

  lemma BreaksLater(mode: Mode, room: nat, first: Branch, left: Text, text: Text, inGroup: bool, rest: Broken)
    requires WritableBranch(mode, first) && FitsBranch(first, room) && text == WriteAll(first.items) + ([BAR] + left)
    requires BrokenText(mode, room, left, inGroup, rest)
    ensures BrokenText(mode, room, text, inGroup, Later(first, rest))
  {
    hide WritableBranch, FitsBranch, WriteAll, Faulty;
    Regroup(WriteAll(first.items), [BAR], left);
    Behindhand(WriteAll(first.items) + [BAR], left);
  }

  lemma {:induction false} StrayText(mode: Mode, room: nat, branches: seq<Branch>, trailing: bool, rest: Text,
                                     text: Text, at: nat, end: nat)
    requires branches != [] && forall b :: b in branches ==> WritableBranch(mode, b) && FitsBranch(b, room)
    requires Begins(rest, CLOSE) && text == WriteBranches(branches, trailing) + rest
    ensures BrokenText(mode, room, text, false, StrayAfter(branches, trailing))
    ensures var p := at + |WriteBranches(branches, trailing)|;
            BrokenError(at, end, StrayAfter(branches, trailing)) == InvalidPattern(p, p + 1)
    decreases branches
  {
    hide WritableBranch, FitsBranch, WriteAll, WriteMore, BrokenText;
    var items := branches[0].items;
    BranchesUnfold(branches, trailing, rest);
    MoreText(branches[1..], trailing, rest, true);
    MoreText(branches[1..], trailing, [], true);
    if |branches| > 1 {
      var left := WriteBranches(branches[1..], trailing) + rest;
      StrayText(mode, room, branches[1..], trailing, rest, left, at + |WriteAll(items)| + 1, end);
      BreaksLater(mode, room, branches[0], left, text, false, StrayAfter(branches[1..], trailing));
    } else {
      NothingWritten(mode, room);
      if trailing {
        StrayBehind(mode, room, Branch([]), rest, rest);
        BreaksLater(mode, room, branches[0], rest, text, false, Here([], StrayClose));
      } else {
        StrayBehind(mode, room, branches[0], rest, text);
      }
    }
  }

  lemma FlagsOf(mode: Mode, p: Pattern)
    requires WritablePattern(mode, p)
    ensures AllFlags(p.flags) && (p.flags == [] ==> WriteFlags(p.flags) == [])
  {
  }

  /** A source that is well written up to a parenthesis that closes nothing is broken there. */
  lemma StrayBreaks(mode: Mode, p: Pattern, k: nat, units: Text)
    requires k < |units| && units[k] == CLOSE && Writes(mode, p, units[..k]) && FitsPattern(p)
    ensures IsBroken(mode, units, p.flags, StrayAfter(p.branches, p.trailing))
    ensures SourceError(units, p.flags, StrayAfter(p.branches, p.trailing)) == InvalidPattern(k, k + 1)
  {
    hide WriteBranches, WritableBranch, FitsBranch, BrokenText, StrayAfter, OpensFlags, WriteFlags, BrokenError,
      AllFlags;
    var flags, text := WriteFlags(p.flags), WriteBranches(p.branches, p.trailing) + units[k..];
    assert units == units[..k] + units[k..];
    assert AllFlags(p.flags) && (p.flags == [] ==> flags == []) by { FlagsOf(mode, p); }
    Regroup(flags, WriteBranches(p.branches, p.trailing), units[k..]);
    Behindhand(flags, text);
    StrayText(PatternMode(mode, p), 256, p.branches, p.trailing, units[k..], text, |flags|, |units|);
    if p.flags == [] {
      assert units == text;
      BranchesOpenNoFlags(PatternMode(mode, p), p.branches, p.trailing, units[k..], units);
    }
  }
}
