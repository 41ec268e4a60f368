/**
 Every source has one reading: two trees with the same writing are the same tree, no source is
 both well written and broken, and a broken source is broken in one way only.
 */
module PatternUnique {
  import opened Base
  import opened PatternSyntax
  import opened PatternFault

  lemma SplitSame(a: Text, ra: Text, b: Text, rb: Text)
    requires a + ra == b + rb && |a| == |b|
    ensures a == b && ra == rb
  {
    assert (a + ra)[..|a|] == a && (b + rb)[..|b|] == b;
    assert (a + ra)[|a|..] == ra && (b + rb)[|b|..] == rb;
  }

  lemma Behindhand(a: Text, r: Text)
    ensures a <= a + r && Drop(a + r, |a|) == r
  {
  }

  lemma Regroup(a: Text, b: Text, c: Text)
    ensures (a + b) + c == a + (b + c)
  {
  }

  // ---- Atoms by their first units --------------------------------------------------------

  lemma AtomHead(mode: Mode, s: Syntax, rest: Text, text: Text)
    requires !s.Quantified? && Writable(mode, s) && text == Write(s) + rest
    ensures text != [] && !IsRepetitionOperator(text[0]) && text[0] != BAR && text[0] != CLOSE
    ensures if text[0] == BACKSLASH then |text| > 1 && EscapeTree(text[1]) == Some(s) && rest == text[2..]
            else if text[0] == OPEN_BRACKET then s.BracketClass?
            else if text[0] == OPEN then s.Group? || s.EmptyGroup?
            else s == PlainTree(text[0]) && rest == text[1..]
  {
    hide WriteBranches, WriteMembers;
    assert text[0] == Write(s)[0];
    assert |Write(s)| == 2 ==> text[1] == Write(s)[1];
    Behindhand(Write(s), rest);
  }

  lemma AllHead(mode: Mode, items: seq<Syntax>, rest: Text)
    requires forall s :: s in items ==> Writable(mode, s)
    ensures items != [] ==>
              && WriteAll(items) != [] && WriteAll(items)[0] != BAR && WriteAll(items)[0] != CLOSE
              && Fresh(WriteAll(items) + rest)
    ensures items == [] ==> WriteAll(items) + rest == rest
  {
    hide Write, Writable;
    if items != [] {
      ItemHead(mode, items[0]);
    }
  }

  ghost function GroupBody(s: Syntax): Text
    requires s.Group? || s.EmptyGroup?
  {
    if s.EmptyGroup? then [CLOSE] else WriteBranches(s.branches, s.trailing) + [CLOSE]
  }

  /** The writing of branches begins with no operator and no parenthesis that closes. */
  lemma BranchesHead(mode: Mode, branches: seq<Branch>, trailing: bool, rest: Text)
    requires branches != [] && forall b :: b in branches ==> WritableBranch(mode, b)
    requires rest == [] || (rest[0] == CLOSE && (|branches| == 1 ==> LastShows(branches, trailing)))
    ensures Fresh(WriteBranches(branches, trailing) + rest)
    ensures !Begins(WriteBranches(branches, trailing) + rest, CLOSE)
  {
    hide Writable, WriteAll;
    assert WritableBranch(mode, branches[0]);
    var items, more := branches[0].items, WriteMore(branches[1..], trailing);
    AllHead(mode, items, more + rest);
    Regroup(WriteAll(items), more, rest);
    if items == [] && branches[1..] == [] {
      assert WriteBranches(branches, trailing) + rest == more + rest;
    }
  }

  lemma GroupHead(mode: Mode, s: Syntax, rest: Text, text: Text)
    requires (s.Group? || s.EmptyGroup?) && Writable(mode, s) && text == Write(s) + rest
    ensures Opens(text, s.capturing) && Body(text, s.capturing) == GroupBody(s) + rest
    ensures Begins(Body(text, s.capturing), CLOSE) <==> s.EmptyGroup?
  {
    hide WriteBranches;
    var body := GroupBody(s) + rest;
    assert text == WriteOpen(s.capturing) + body;
    Behindhand(WriteOpen(s.capturing), body);
    if s.Group? {
      BranchesHead(mode, s.branches, s.trailing, [CLOSE] + rest);
      Regroup(WriteBranches(s.branches, s.trailing), [CLOSE], rest);
    }
    if s.capturing {
      assert text[1..] == body;
    }
  }

  lemma OpensOnce(text: Text, capturing: bool, other: bool)
    requires Opens(text, capturing) && Opens(text, other)
    ensures capturing == other
  {
  }

  // ---- Quantifiers ---------------------------------------------------------------------

  lemma LeadingAgree(text: Text, a: Text, b: Text)
    requires LeadingDigits(text, a) && LeadingDigits(text, b)
    ensures a == b
  {
    hide IsDigit;
    DigitBehind(text, a, b);
    DigitBehind(text, b, a);
  }

  lemma DigitBehind(text: Text, shorter: Text, digits: Text)
    requires LeadingDigits(text, digits)
    ensures |shorter| < |digits| ==> |shorter| < |text| && IsDigit(text[|shorter|])
  {
    assert |shorter| < |digits| ==> digits[|shorter|] == text[|shorter|];
  }

  lemma LimitHead(limit: Limit, rest: Text)
    ensures WriteLimit(limit) + rest != [] && !IsDigit((WriteLimit(limit) + rest)[0])
    ensures (WriteLimit(limit) + rest)[0] == if limit.Exactly? then CLOSE_BRACE else COMMA
  {
  }

  lemma LeadingBefore(digits: Text, after: Text)
    requires AllDigits(digits) && after != [] && !IsDigit(after[0])
    ensures LeadingDigits(digits + after, digits) && Drop(digits + after, |digits|) == after
  {
    hide IsDigit;
    Behindhand(digits, after);
  }

  /** A counted quantifier, taken apart. */
  lemma CountedParts(digits: Text, limit: Limit, rest: Text, text: Text)
    requires AllDigits(digits) && text == WriteQuantifier(Counted(digits, limit)) + rest
    ensures Begins(text, OPEN_BRACE) && LeadingDigits(text[1..], digits)
    ensures Drop(text, 1 + |digits|) == WriteLimit(limit) + rest
  {
    hide WriteLimit, IsDigit, AllDigits, LeadingDigits;
    LimitHead(limit, rest);
    var after := WriteLimit(limit) + rest;
    Regroup(digits, WriteLimit(limit), rest);
    Regroup([OPEN_BRACE], digits + WriteLimit(limit), rest);
    assert text[1..] == digits + after;
    LeadingBefore(digits, after);
    DropMore(text, 1, |digits|);
  }

  lemma LimitAgree(a: Limit, ra: Text, b: Limit, rb: Text)
    requires WriteLimit(a) + ra == WriteLimit(b) + rb
    requires a.UpTo? ==> AllDigits(a.digits) && a.digits != []
    requires b.UpTo? ==> AllDigits(b.digits) && b.digits != []
    ensures a == b && ra == rb
  {
    var text := WriteLimit(a) + ra;
    LimitHead(a, ra);
    LimitHead(b, rb);
    if a.UpTo? {
      UpToParts(a.digits, ra, text);
    }
    if b.UpTo? {
      UpToParts(b.digits, rb, text);
    }
    if a.UpTo? && b.UpTo? {
      LeadingAgree(text[1..], a.digits, b.digits);
    }
    if a.Exactly? || a.OrMore? {
      SplitSame(WriteLimit(a), ra, WriteLimit(a), text[|WriteLimit(a)|..]);
    }
    if b.Exactly? || b.OrMore? {
      SplitSame(WriteLimit(b), rb, WriteLimit(b), text[|WriteLimit(b)|..]);
    }
  }

  lemma DropMore(text: Text, m: nat, n: nat)
    ensures Drop(text, m + n) == Drop(Drop(text, m), n)
  {
  }

  lemma NoDigit()
    ensures !IsDigit(CLOSE_BRACE) && !IsDigit(COMMA)
  {
  }

  lemma UpToParts(digits: Text, rest: Text, text: Text)
    requires AllDigits(digits) && digits != [] && text == WriteLimit(UpTo(digits)) + rest
    ensures Begins(text, COMMA) && LeadingDigits(text[1..], digits) && IsDigit(text[1])
    ensures Drop(text, 1 + |digits|) == [CLOSE_BRACE] + rest && Drop(text, 2 + |digits|) == rest
  {
    hide IsDigit;
    var tail := [CLOSE_BRACE] + rest;
    assert text == [COMMA] + (digits + tail);
    assert text[1..] == digits + tail;
    Behindhand(digits, tail);
    DropMore(text, 1, |digits|);
    DropMore(text, 1 + |digits|, 1);
    assert tail[1..] == rest && text[1] == (digits + tail)[0] == digits[0];
    assert !IsDigit(CLOSE_BRACE) by { NoDigit(); }
  }

  lemma QuantifiersAgree(p: Quantifier, rp: Text, q: Quantifier, rq: Text)
    requires WritableQuantifier(p) && WritableQuantifier(q) && WriteQuantifier(p) + rp == WriteQuantifier(q) + rq
    ensures p == q && rp == rq
  {
    hide WriteLimit, Decimal;
    var text := WriteQuantifier(p) + rp;
    assert text[0] == WriteQuantifier(p)[0] == WriteQuantifier(q)[0];
    if p.Counted? && q.Counted? {
      CountedParts(p.digits, p.limit, rp, text);
      CountedParts(q.digits, q.limit, rq, text);
      LeadingAgree(text[1..], p.digits, q.digits);
      LimitAgree(p.limit, rp, q.limit, rq);
    } else {
      SplitSame(WriteQuantifier(p), rp, WriteQuantifier(q), rq);
    }
  }

  ghost function WriteQuantified(q: Option<Quantifier>): Text {
    if q.Some? then WriteQuantifier(q.value) else []
  }

  /** With or without quantifier. */
  lemma QuantifiedAgree(p: Option<Quantifier>, rp: Text, q: Option<Quantifier>, rq: Text)
    requires (p.Some? ==> WritableQuantifier(p.value)) && (q.Some? ==> WritableQuantifier(q.value))
    requires WriteQuantified(p) + rp == WriteQuantified(q) + rq && Fresh(rp) && Fresh(rq)
    ensures p == q && rp == rq
  {
    hide WritableQuantifier;
    assert p.None? ==> WriteQuantified(p) + rp == rp;
    assert q.None? ==> WriteQuantified(q) + rq == rq;
    if p.Some? {
      QuantifierHead(p.value, rp);
    }
    if q.Some? {
      QuantifierHead(q.value, rq);
    }
    if p.Some? && q.Some? {
      QuantifiersAgree(p.value, rp, q.value, rq);
    }
  }

  lemma QuantifierHead(q: Quantifier, rest: Text)
    ensures WriteQuantifier(q) + rest != [] && IsRepetitionOperator((WriteQuantifier(q) + rest)[0])
    ensures Begins(WriteQuantifier(q) + rest, OPEN_BRACE) <==> q.Counted?
  {
  }

  // ---- Classes -------------------------------------------------------------------------

  predicate ClassEscapable(u: U16) {
    IsClassEscape(u) || IsControl(u) || IsClassShorthand(u)
  }

  lemma UnitHead(c: ClassUnit, rest: Text)
    requires WritableClassUnit(c)
    ensures WriteClassUnit(c) + rest != []
    ensures var text := WriteClassUnit(c) + rest;
            && text[0] != CLOSE_BRACKET && text[0] != DASH
            && (text[0] == BACKSLASH ==> |text| > 1 && ClassEscapable(text[1]) && !IsClassShorthand(text[1]))
  {
  }

  lemma UnitsAgree(c: ClassUnit, rc: Text, d: ClassUnit, rd: Text)
    requires WritableClassUnit(c) && WritableClassUnit(d) && WriteClassUnit(c) + rc == WriteClassUnit(d) + rd
    ensures c == d && rc == rd
  {
    var text := WriteClassUnit(c) + rc;
    assert text[0] == WriteClassUnit(c)[0] == WriteClassUnit(d)[0];
    SplitSame(WriteClassUnit(c), rc, WriteClassUnit(d), rd);
    if !c.RawUnit? {
      assert text[1] == WriteClassUnit(c)[1] == WriteClassUnit(d)[1];
    }
  }

  lemma MemberHead(mode: Mode, m: ClassItem, rest: Text)
    requires WritableMember(mode, m)
    ensures WriteMember(m) + rest != []
    ensures var text := WriteMember(m) + rest;
            && text[0] != CLOSE_BRACKET && text[0] != DASH
            && (text[0] == BACKSLASH ==> |text| > 1 && ClassEscapable(text[1]))
            && (m.Named? <==> text[0] == BACKSLASH && IsClassShorthand(text[1]))
  {
    match m
    case One(only) => UnitHead(only, rest);
    case Between(low, high) =>
      UnitHead(low, [DASH] + WriteClassUnit(high) + rest);
      assert WriteMember(m) + rest == WriteClassUnit(low) + ([DASH] + WriteClassUnit(high) + rest);
    case Named(_) =>
  }

  lemma BetweenText(low: ClassUnit, high: ClassUnit, rest: Text)
    ensures WriteMember(Between(low, high)) + rest == WriteClassUnit(low) + ([DASH] + (WriteClassUnit(high) + rest))
  {
  }

  /** A literal is a member of its own unless a dash follows it. */
  lemma MemberAgree(mode: Mode, m: ClassItem, rm: Text, n: ClassItem, rn: Text)
    requires WritableMember(mode, m) && WritableMember(mode, n) && WriteMember(m) + rm == WriteMember(n) + rn
    requires (m.One? ==> !Begins(rm, DASH)) && (n.One? ==> !Begins(rn, DASH))
    ensures m == n && rm == rn
  {
    hide RangeInOrder, WritableClassUnit, WriteClassUnit;
    MemberHead(mode, m, rm);
    MemberHead(mode, n, rn);
    if m.Named? || n.Named? {
      SplitSame(WriteMember(m), rm, WriteMember(n), rn);
    } else {
      var c, d := if m.One? then m.only else m.low, if n.One? then n.only else n.low;
      if m.Between? { BetweenText(m.low, m.high, rm); }
      if n.Between? { BetweenText(n.low, n.high, rn); }
      UnitsAgree(c, if m.One? then rm else [DASH] + (WriteClassUnit(m.high) + rm),
                 d, if n.One? then rn else [DASH] + (WriteClassUnit(n.high) + rn));
      if m.Between? && n.Between? {
        SplitSame([DASH], WriteClassUnit(m.high) + rm, [DASH], WriteClassUnit(n.high) + rn);
        UnitsAgree(m.high, rm, n.high, rn);
      }
    }
  }

  /** A literal that is the last member is not followed by a dash. */
  predicate Settled(members: seq<ClassItem>, rest: Text) {
    HoldsBack(members) ==> !Begins(rest, DASH)
  }

  lemma MembersUnfold(members: seq<ClassItem>, rest: Text)
    requires members != []
    ensures WriteMembers(members) + rest == WriteMember(members[0]) + (WriteMembers(members[1..]) + rest)
  {
    hide WriteMember;
    Regroup(WriteMember(members[0]), WriteMembers(members[1..]), rest);
  }

  lemma MembersHead(mode: Mode, members: seq<ClassItem>, rest: Text)
    requires members != [] && Settled(members, rest) && forall m :: m in members ==> WritableMember(mode, m)
    ensures members[0].One? ==> !Begins(WriteMembers(members[1..]) + rest, DASH)
    ensures Settled(members[1..], rest)
  {
    hide WriteMember, WritableMember;
    if members[1..] == [] {
      assert WriteMembers(members[1..]) + rest == rest;
    } else {
      MembersUnfold(members[1..], rest);
      MemberHead(mode, members[1..][0], WriteMembers(members[1..][1..]) + rest);
    }
  }

  /** Of two rows of members that begin the same text, one continues the other. */
  lemma {:induction false} MembersAgree(mode: Mode, a: seq<ClassItem>, ra: Text, b: seq<ClassItem>, rb: Text)
    requires (forall m :: m in a ==> WritableMember(mode, m)) && (forall m :: m in b ==> WritableMember(mode, m))
    requires Settled(a, ra) && Settled(b, rb) && WriteMembers(a) + ra == WriteMembers(b) + rb
    ensures || (a <= b && ra == WriteMembers(b[|a|..]) + rb && Settled(b[|a|..], rb))
            || (b <= a && rb == WriteMembers(a[|b|..]) + ra && Settled(a[|b|..], ra))
    decreases |a|
  {
    hide WriteMember, WritableMember, Settled;
    if a == [] {
      assert WriteMembers(a) + ra == ra && b[0..] == b;
    } else if b == [] {
      assert WriteMembers(b) + rb == rb && a[0..] == a;
    } else {
      MembersUnfold(a, ra);
      MembersUnfold(b, rb);
      MembersHead(mode, a, ra);
      MembersHead(mode, b, rb);
      MemberAgree(mode, a[0], WriteMembers(a[1..]) + ra, b[0], WriteMembers(b[1..]) + rb);
      MembersAgree(mode, a[1..], ra, b[1..], rb);
      assert a == [a[0]] + a[1..] && b == [b[0]] + b[1..];
      assert a[1..] <= b[1..] ==> b[1..][|a[1..]|..] == b[|a|..];
      assert b[1..] <= a[1..] ==> a[1..][|b[1..]|..] == a[|b|..];
    }
  }

  lemma CloseSettles(members: seq<ClassItem>, rest: Text)
    requires Begins(rest, CLOSE_BRACKET)
    ensures Settled(members, rest)
  {
  }

  lemma ClassHead(mode: Mode, s: Syntax, rest: Text, text: Text)
    requires s.BracketClass? && Writable(mode, s) && text == Write(s) + rest
    ensures text != [] && (s.inverted <==> Begins(text[1..], CARET))
    ensures text == OpenClass(s.inverted) + (WriteMembers(s.members) + ([CLOSE_BRACKET] + rest))
  {
    hide WritableMember, WriteMember;
    var after := WriteMembers(s.members) + ([CLOSE_BRACKET] + rest);
    assert text == OpenClass(s.inverted) + after;
    if !s.inverted {
      assert text[1..] == after;
      if s.members != [] {
        MembersUnfold(s.members, [CLOSE_BRACKET] + rest);
        NoCaret(s.members[0], WriteMembers(s.members[1..]) + ([CLOSE_BRACKET] + rest));
      } else {
        assert after == [CLOSE_BRACKET] + rest;
      }
    }
  }

  lemma NoCaret(m: ClassItem, rest: Text)
    requires OpensClass(m)
    ensures !Begins(WriteMember(m) + rest, CARET)
  {
  }

  lemma ClassesAgree(mode: Mode, s: Syntax, rs: Text, t: Syntax, rt: Text)
    requires s.BracketClass? && t.BracketClass? && Writable(mode, s) && Writable(mode, t)
    requires Write(s) + rs == Write(t) + rt
    ensures s == t && rs == rt
  {
    hide WritableMember, WriteMembers, OpensClass, Settled;
    var text := Write(s) + rs;
    ClassHead(mode, s, rs, text);
    ClassHead(mode, t, rt, text);
    var cs, ct := [CLOSE_BRACKET] + rs, [CLOSE_BRACKET] + rt;
    SplitSame(OpenClass(s.inverted), WriteMembers(s.members) + cs, OpenClass(t.inverted), WriteMembers(t.members) + ct);
    CloseSettles(s.members, cs);
    CloseSettles(t.members, ct);
    MembersAgree(mode, s.members, cs, t.members, ct);
    if s.members <= t.members && cs == WriteMembers(t.members[|s.members|..]) + ct {
      NoMemberCloses(mode, t.members[|s.members|..], ct, cs);
    } else {
      NoMemberCloses(mode, s.members[|t.members|..], cs, ct);
    }
    assert cs[1..] == rs && ct[1..] == rt;
  }

  lemma NoMemberCloses(mode: Mode, members: seq<ClassItem>, rest: Text, text: Text)
    requires (forall m :: m in members ==> WritableMember(mode, m)) && text == WriteMembers(members) + rest
    requires Begins(text, CLOSE_BRACKET)
    ensures members == [] && text == rest
  {
    hide WritableMember, WriteMember;
    if members != [] {
      MembersUnfold(members, rest);
      MemberHead(mode, members[0], WriteMembers(members[1..]) + rest);
    }
  }

  // ---- Trees ---------------------------------------------------------------------------

  ghost function AtomOf(s: Syntax): Syntax {
    if s.Quantified? then s.atom else s
  }

  ghost function QuantifierOf(s: Syntax): Option<Quantifier> {
    if s.Quantified? then Some(s.quantifier) else None
  }

  lemma ItemParts(mode: Mode, room: nat, s: Syntax, rest: Text)
    requires Writable(mode, s)
    ensures Writable(mode, AtomOf(s)) && !AtomOf(s).Quantified? && (Fits(s, room) <==> Fits(AtomOf(s), room))
    ensures Write(s) + rest == Write(AtomOf(s)) + (WriteQuantified(QuantifierOf(s)) + rest)
    ensures QuantifierOf(s).Some? ==> WritableQuantifier(QuantifierOf(s).value)
  {
    hide WriteBranches, WriteMembers, WriteQuantifier, WritableQuantifier;
    if s.Quantified? {
      Regroup(Write(s.atom), WriteQuantifier(s.quantifier), rest);
    } else {
      assert [] + rest == rest;
    }
  }

  lemma {:induction false} AtomsAgree(mode: Mode, s: Syntax, rs: Text, t: Syntax, rt: Text)
    requires !s.Quantified? && !t.Quantified? && Writable(mode, s) && Writable(mode, t)
    requires Write(s) + rs == Write(t) + rt
    ensures s == t && rs == rt
    decreases s, 0
  {
    hide Write, Writable, WriteBranches;
    var text := Write(s) + rs;
    AtomHead(mode, s, rs, text);
    AtomHead(mode, t, rt, text);
    if text[0] == OPEN_BRACKET {
      ClassesAgree(mode, s, rs, t, rt);
    } else if text[0] == OPEN {
      GroupHead(mode, s, rs, text);
      GroupHead(mode, t, rt, text);
      OpensOnce(text, s.capturing, t.capturing);
      if s.EmptyGroup? {
        SplitSame([CLOSE], rs, [CLOSE], rt);
      } else {
        Regroup(WriteBranches(s.branches, s.trailing), [CLOSE], rs);
        Regroup(WriteBranches(t.branches, t.trailing), [CLOSE], rt);
        GroupShape(mode, s);
        GroupShape(mode, t);
        BranchesAgree(mode, s.branches, s.trailing, [CLOSE] + rs, t.branches, t.trailing, [CLOSE] + rt, true);
        SplitSame([CLOSE], rs, [CLOSE], rt);
      }
    }
  }

  lemma GroupShape(mode: Mode, s: Syntax)
    requires s.Group? && Writable(mode, s)
    ensures WellWritten(mode, s.branches, s.trailing) && LastShows(s.branches, s.trailing)
  {
  }

  /** Two items at one place, each followed by no operator, are the same. */
  lemma {:induction false} ItemAgree(mode: Mode, s: Syntax, rs: Text, t: Syntax, rt: Text)
    requires Writable(mode, s) && Writable(mode, t) && Fresh(rs) && Fresh(rt) && Write(s) + rs == Write(t) + rt
    ensures s == t && rs == rt
    decreases s, 1
  {
    hide Write, Writable, Fresh, WritableQuantifier, WriteQuantifier, WriteQuantified;
    ItemParts(mode, 0, s, rs);
    ItemParts(mode, 0, t, rt);
    AtomsAgree(mode, AtomOf(s), WriteQuantified(QuantifierOf(s)) + rs,
               AtomOf(t), WriteQuantified(QuantifierOf(t)) + rt);
    QuantifiedAgree(QuantifierOf(s), rs, QuantifierOf(t), rt);
  }

  lemma AllUnfold(items: seq<Syntax>, rest: Text)
    requires items != []
    ensures WriteAll(items) + rest == Write(items[0]) + (WriteAll(items[1..]) + rest)
  {
    hide Write;
    Regroup(Write(items[0]), WriteAll(items[1..]), rest);
  }

  /** Of two rows of items that begin the same text, one continues the other. */
  lemma {:induction false} ItemsAgree(mode: Mode, a: seq<Syntax>, ra: Text, b: seq<Syntax>, rb: Text)
    requires (forall s :: s in a ==> Writable(mode, s)) && (forall s :: s in b ==> Writable(mode, s))
    requires (a != [] ==> Fresh(ra)) && (b != [] ==> Fresh(rb)) && WriteAll(a) + ra == WriteAll(b) + rb
    ensures (a <= b && ra == WriteAll(b[|a|..]) + rb) || (b <= a && rb == WriteAll(a[|b|..]) + ra)
    decreases a
  {
    hide Write, Writable, Fresh;
    if a == [] {
      assert WriteAll(a) + ra == ra && b[0..] == b;
    } else if b == [] {
      assert WriteAll(b) + rb == rb && a[0..] == a;
    } else {
      AllUnfold(a, ra);
      AllUnfold(b, rb);
      AllHead(mode, a[1..], ra);
      AllHead(mode, b[1..], rb);
      ItemAgree(mode, a[0], WriteAll(a[1..]) + ra, b[0], WriteAll(b[1..]) + rb);
      ItemsAgree(mode, a[1..], ra, b[1..], rb);
      assert a == [a[0]] + a[1..] && b == [b[0]] + b[1..];
      assert a[1..] <= b[1..] ==> b[1..][|a[1..]|..] == b[|a|..];
      assert b[1..] <= a[1..] ==> a[1..][|b[1..]|..] == a[|b|..];
    }
  }

  /** A branch ends at a bar, at the close of its group, or with the source. */
  predicate BranchStops(rest: Text, inGroup: bool) {
    rest == [] || rest[0] == BAR || (inGroup && rest[0] == CLOSE)
  }

  /** The branches end at the close of their group or with the source. */
  predicate BranchesStop(rest: Text, inGroup: bool) {
    rest == [] || (inGroup && rest[0] == CLOSE)
  }

  lemma NoItemStops(mode: Mode, items: seq<Syntax>, rest: Text, text: Text, inGroup: bool)
    requires (forall s :: s in items ==> Writable(mode, s)) && text == WriteAll(items) + rest
    requires BranchStops(text, inGroup)
    ensures items == [] && text == rest
  {
    hide Writable, WriteAll;
    AllHead(mode, items, rest);
  }

  /** Two branches at one place are the same. */
  lemma {:induction false} BranchAgree(mode: Mode, a: Branch, ra: Text, b: Branch, rb: Text, inGroup: bool)
    requires WritableBranch(mode, a) && WritableBranch(mode, b)
    requires BranchStops(ra, inGroup) && BranchStops(rb, inGroup) && WriteAll(a.items) + ra == WriteAll(b.items) + rb
    ensures a == b && ra == rb
    decreases a
  {
    hide WriteAll, Writable;
    ItemsAgree(mode, a.items, ra, b.items, rb);
    if a.items <= b.items && ra == WriteAll(b.items[|a.items|..]) + rb {
      NoItemStops(mode, b.items[|a.items|..], rb, ra, inGroup);
    } else {
      NoItemStops(mode, a.items[|b.items|..], ra, rb, inGroup);
    }
  }

  predicate WellWritten(mode: Mode, branches: seq<Branch>, trailing: bool) {
    && branches != [] && (|branches| == 1 || LastShows(branches, trailing))
    && forall b :: b in branches ==> WritableBranch(mode, b)
  }

  lemma BranchesUnfold(branches: seq<Branch>, trailing: bool, rest: Text)
    requires branches != []
    ensures WriteBranches(branches, trailing) + rest ==
            WriteAll(branches[0].items) + (WriteMore(branches[1..], trailing) + rest)
  {
    hide WriteAll, WriteMore;
    Regroup(WriteAll(branches[0].items), WriteMore(branches[1..], trailing), rest);
  }

  /** What follows a branch: the end, the trailing bar, or a bar and the other branches. */
  lemma MoreText(branches: seq<Branch>, trailing: bool, rest: Text, inGroup: bool)
    requires BranchesStop(rest, inGroup)
    ensures var text := WriteMore(branches, trailing) + rest;
            && BranchStops(text, inGroup)
            && (branches == [] && !trailing ==> text == rest && !Begins(text, BAR))
            && (branches == [] && trailing ==> text == [BAR] + rest)
            && (branches != [] ==> text == [BAR] + (WriteBranches(branches, trailing) + rest))
  {
    hide WriteAll;
    if branches != [] {
      Regroup([BAR], WriteBranches(branches, trailing), rest);
    }
  }

  /** After a bar, branches never begin with what would end them. */
  lemma LaterBranchesGoOn(mode: Mode, branches: seq<Branch>, trailing: bool, rest: Text, inGroup: bool)
    requires branches != [] && LastShows(branches, trailing) && forall b :: b in branches ==> WritableBranch(mode, b)
    requires BranchesStop(rest, inGroup)
    ensures !BranchesStop(WriteBranches(branches, trailing) + rest, inGroup)
  {
    hide WriteAll, Writable;
    assert WritableBranch(mode, branches[0]);
    AllHead(mode, branches[0].items, WriteMore(branches[1..], trailing) + rest);
    BranchesUnfold(branches, trailing, rest);
    MoreText(branches[1..], trailing, rest, inGroup);
  }

  /** Two alternations at one place are the same. */
  lemma {:induction false} BranchesAgree(mode: Mode, a: seq<Branch>, ta: bool, ra: Text, b: seq<Branch>,
                                         tb: bool, rb: Text, inGroup: bool)
    requires WellWritten(mode, a, ta) && WellWritten(mode, b, tb)
    requires BranchesStop(ra, inGroup) && BranchesStop(rb, inGroup)
    requires WriteBranches(a, ta) + ra == WriteBranches(b, tb) + rb
    ensures a == b && ta == tb && ra == rb
    decreases a
  {
    hide WriteAll, WriteMore, WriteBranches, Writable, BranchStops, BranchesStop;
    assert WritableBranch(mode, a[0]) && WritableBranch(mode, b[0]);
    BranchesUnfold(a, ta, ra);
    BranchesUnfold(b, tb, rb);
    MoreText(a[1..], ta, ra, inGroup);
    MoreText(b[1..], tb, rb, inGroup);
    BranchAgree(mode, a[0], WriteMore(a[1..], ta) + ra, b[0], WriteMore(b[1..], tb) + rb, inGroup);
    var text := WriteMore(a[1..], ta) + ra;
    assert a == [a[0]] + a[1..] && b == [b[0]] + b[1..];
    if a[1..] != [] {
      LaterBranchesGoOn(mode, a[1..], ta, ra, inGroup);
    }
    if b[1..] != [] {
      LaterBranchesGoOn(mode, b[1..], tb, rb, inGroup);
    }
    if Begins(text, BAR) {
      AfterBar(a[1..], ta, ra, inGroup, text);
      AfterBar(b[1..], tb, rb, inGroup, text);
      if a[1..] != [] && b[1..] != [] {
        BranchesAgree(mode, a[1..], ta, ra, b[1..], tb, rb, inGroup);
      }
    }
  }

  lemma AfterBar(branches: seq<Branch>, trailing: bool, rest: Text, inGroup: bool, text: Text)
    requires BranchesStop(rest, inGroup) && text == WriteMore(branches, trailing) + rest && Begins(text, BAR)
    ensures branches == [] ==> trailing && text[1..] == rest
    ensures branches != [] ==> text[1..] == WriteBranches(branches, trailing) + rest
  {
    MoreText(branches, trailing, rest, inGroup);
    hide WriteMore, WriteBranches;
  }
}
