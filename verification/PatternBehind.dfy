/**
 What the parser has read, as a tree under construction: whatever it accepts is the writing
 of some tree, and means what that tree denotes.  Where it stops, the source is broken in the way
 that the error says.
 */
module PatternBehind {
  import opened Base
  import opened HirSyntax
  import opened HirBuild
  import opened PatternSyntax
  import opened PatternFault
  import opened PatternUnique
  import opened PatternVerdict
  import opened PatternMeaning

  ghost function Repeated(h: Hir, q: Option<Quantifier>): Hir {
    if q.Some? then MakeRepeat(h, Least(q.value), Most(q.value)) else h
  }

  ghost predicate ParsedAtom(mode: Mode, room: nat, h: Hir, s: Syntax) {
    !s.Quantified? && Writable(mode, s) && Fits(s, room) && Means(mode, h, s)
  }

  ghost predicate ParsedBranch(mode: Mode, room: nat, h: Hir, b: Branch) {
    WritableBranch(mode, b) && FitsBranch(b, room) && MeansBranch(mode, h, b)
  }

  ghost predicate ParsedBranches(mode: Mode, room: nat, h: Hir, branches: seq<Branch>, trailing: bool) {
    WrittenBranches(mode, room, branches, trailing) && MeansAny(mode, h, branches)
  }

  /** What is read is what the rest of the source begins with. */
  lemma BehindStarts(units: Text, from: nat, index: nat, text: Text)
    requires Behind(units, from, index, text)
    ensures from + |text| == index <= |units| && text <= units[from..] && Drop(units[from..], |text|) == units[index..]
  {
    assert units[from..] == units[from..index] + units[index..];
  }

  // ---- Items ---------------------------------------------------------------------------

  /** The items read since `from`. */
  ghost predicate ItemsBehind(mode: Mode, room: nat, units: Text, from: nat, index: nat, items: seq<Syntax>,
                              hs: seq<Hir>) {
    && Behind(units, from, index, WriteAll(items))
    && (forall s :: s in items ==> Writable(mode, s) && Fits(s, room))
    && EachMeans(mode, hs, items)
  }

  lemma NoItemBehind(mode: Mode, room: nat, units: Text, index: nat)
    requires index <= |units|
    ensures ItemsBehind(mode, room, units, index, index, [], [])
  {
  }

  lemma {:induction false} WriteOneMore(items: seq<Syntax>, s: Syntax)
    ensures WriteAll(items + [s]) == WriteAll(items) + Write(s)
    decreases |items|
  {
    hide Write;
    if items == [] {
      assert [s][1..] == [];
      assert [] + [s] == [s];
      assert WriteAll([s]) == Write(s) + WriteAll([s][1..]);
    } else {
      assert (items + [s])[0] == items[0] && (items + [s])[1..] == items[1..] + [s];
      WriteOneMore(items[1..], s);
    }
  }

  ghost function Item(s: Syntax, q: Option<Quantifier>): Syntax {
    if q.Some? then Quantified(s, q.value) else s
  }

  lemma ItemIs(mode: Mode, room: nat, atom: Hir, s: Syntax, q: Option<Quantifier>)
    requires ParsedAtom(mode, room, atom, s) && Regular(atom) && (q.Some? ==> WritableQuantifier(q.value))
    ensures Write(Item(s, q)) == Write(s) + WriteQuantified(q) && Writable(mode, Item(s, q)) && Fits(Item(s, q), room)
    ensures Means(mode, Repeated(atom, q), Item(s, q))
  {
    hide Means, WriteQuantifier, WriteBranches, WriteMembers, Regular;
    if q.Some? {
      RepeatMeans(mode, atom, s, q.value);
    }
  }

  lemma ItemBehind(mode: Mode, room: nat, units: Text, from: nat, index: nat, items: seq<Syntax>, hs: seq<Hir>,
                   mid: nat, next: nat, atom: Hir, s: Syntax, q: Option<Quantifier>)
    requires ItemsBehind(mode, room, units, from, index, items, hs) && ParsedAtom(mode, room, atom, s) && Regular(atom)
    requires Behind(units, index, mid, Write(s)) && Behind(units, mid, next, WriteQuantified(q))
    requires q.Some? ==> WritableQuantifier(q.value)
    ensures ItemsBehind(mode, room, units, from, next, items + [Item(s, q)], hs + [Repeated(atom, q)])
  {
    hide Write, WriteAll, Means, Writable, Fits, Behind, Item, Repeated, WriteQuantified, ParsedAtom,
      WritableQuantifier, Regular;
    ItemIs(mode, room, atom, s, q);
    BehindJoin(units, index, mid, next, Write(s), WriteQuantified(q));
    BehindJoin(units, from, index, next, WriteAll(items), Write(Item(s, q)));
    WriteOneMore(items, Item(s, q));
  }

  lemma BranchBehind(mode: Mode, room: nat, units: Text, from: nat, index: nat, items: seq<Syntax>, hs: seq<Hir>)
    requires ItemsBehind(mode, room, units, from, index, items, hs) && AllRegular(hs)
    ensures ParsedBranch(mode, room, SequenceOf(hs), Branch(items)) && Behind(units, from, index, WriteAll(items))
  {
    hide MeansBranch, Means, Writable, Fits, Behind, SequenceOf, Regular;
    SequenceMeans(mode, hs, items);
  }

  /** The items read, and then a fault. */
  lemma FaultBehind(mode: Mode, room: nat, units: Text, from: nat, index: nat, items: seq<Syntax>, hs: seq<Hir>,
                    inGroup: bool, f: Fault)
    requires ItemsBehind(mode, room, units, from, index, items, hs) && Faulty(mode, room, units[index..], f)
    requires (f.StrayClose? ==> !inGroup) && (f.NoAtom? ==> items == [])
    ensures BrokenText(mode, room, units[from..], inGroup, Here(items, f))
    ensures BrokenError(from, |units|, Here(items, f)) == FaultError(index, |units|, f)
  {
    hide WriteAll, Means, Writable, Fits, Faulty, FaultError, EachMeans;
    BehindStarts(units, from, index, WriteAll(items));
  }

  lemma StrayBehindIs(mode: Mode, room: nat, units: Text, index: nat)
    requires index < |units| && units[index] == CLOSE
    ensures Faulty(mode, room, units[index..], StrayClose)
    ensures FaultError(index, |units|, StrayClose) == InvalidPattern(index, index + 1)
  {
  }

  lemma OperatorFault(mode: Mode, room: nat, units: Text, index: nat)
    requires index < |units| && IsRepetitionOperator(units[index])
    ensures Faulty(mode, room, units[index..], NoAtom)
    ensures FaultError(index, |units|, NoAtom) == InvalidPattern(index, index + 1)
  {
  }

  lemma RepeatFault(mode: Mode, room: nat, units: Text, start: nat, mid: nat, atom: Hir, s: Syntax, slip: RepeatSlip)
    requires ParsedAtom(mode, room, atom, s) && Behind(units, start, mid, Write(s))
    requires mid <= |units| && RepeatSlips(units[mid..], slip)
    ensures Faulty(mode, room, units[start..], BadRepeat(s, slip))
    ensures FaultError(start, |units|, BadRepeat(s, slip)) == RepeatError(mid, |units|, slip)
  {
    hide Write, Writable, Fits, Means, RepeatSlips, RepeatError;
    BehindStarts(units, start, mid, Write(s));
  }

  // ---- Branches ------------------------------------------------------------------------

  ghost predicate BranchesBehind(mode: Mode, room: nat, units: Text, from: nat, index: nat, branches: seq<Branch>,
                                 hs: seq<Hir>) {
    && Behind(units, from, index, WriteBranches(branches, false)) && branches != []
    && (forall b :: b in branches ==> WritableBranch(mode, b) && FitsBranch(b, room))
    && EachMeansBranch(mode, hs, branches)
    && (|branches| == 1 || LastShows(branches, false) || (index < |units| && units[index] == BAR))
  }

  /** A branch ends at a bar, at the close of its group, or with the source. */
  ghost predicate StopsAt(units: Text, index: nat, inGroup: bool) {
    index == |units| || (index < |units| && (units[index] == BAR || (inGroup && units[index] == CLOSE)))
  }

  lemma FirstBehind(mode: Mode, room: nat, units: Text, from: nat, index: nat, b: Branch, h: Hir)
    requires ParsedBranch(mode, room, h, b) && Behind(units, from, index, WriteAll(b.items))
    ensures BranchesBehind(mode, room, units, from, index, [b], [h])
  {
    hide WriteAll, WritableBranch, FitsBranch, MeansBranch;
    assert [b][1..] == [];
    assert WriteBranches([b], false) == WriteAll(b.items) + WriteMore([], false);
    assert WriteAll(b.items) + [] == WriteAll(b.items);
  }

  lemma {:induction false} WriteMoreBranches(branches: seq<Branch>, b: Branch)
    ensures WriteMore(branches + [b], false) == WriteMore(branches, false) + ([BAR] + WriteAll(b.items))
    decreases |branches|
  {
    hide WriteAll;
    if branches == [] {
      assert [] + [b] == [b] && [b][1..] == [];
      assert WriteAll(b.items) + [] == WriteAll(b.items);
      assert WriteMore([b], false) == [BAR] + (WriteAll(b.items) + WriteMore([b][1..], false));
    } else {
      assert (branches + [b])[0] == branches[0] && (branches + [b])[1..] == branches[1..] + [b];
      WriteMoreBranches(branches[1..], b);
      Regroup(WriteAll(branches[0].items), WriteMore(branches[1..], false), [BAR] + WriteAll(b.items));
      Regroup([BAR], WriteAll(branches[0].items) + WriteMore(branches[1..], false), [BAR] + WriteAll(b.items));
    }
  }

  lemma NextBehind(mode: Mode, room: nat, units: Text, from: nat, index: nat, branches: seq<Branch>, hs: seq<Hir>,
                   next: nat, b: Branch, h: Hir, inGroup: bool)
    requires BranchesBehind(mode, room, units, from, index, branches, hs) && ParsedBranch(mode, room, h, b)
    requires index < |units| && units[index] == BAR && Behind(units, index + 1, next, WriteAll(b.items))
    requires !(index + 1 == |units| || (inGroup && units[index + 1] == CLOSE)) && StopsAt(units, next, inGroup)
    ensures BranchesBehind(mode, room, units, from, next, branches + [b], hs + [h])
  {
    hide WriteAll, WriteMore, WritableBranch, FitsBranch, MeansBranch;
    BehindOne(units, index);
    BehindJoin(units, index, index + 1, next, [BAR], WriteAll(b.items));
    BehindJoin(units, from, index, next, WriteBranches(branches, false), [BAR] + WriteAll(b.items));
    assert (branches + [b])[0] == branches[0] && (branches + [b])[1..] == branches[1..] + [b];
    WriteMoreBranches(branches[1..], b);
    Regroup(WriteAll(branches[0].items), WriteMore(branches[1..], false), [BAR] + WriteAll(b.items));
    if b.items == [] {
      NothingWritten(mode, room);
    }
  }

  lemma {:induction false} WriteTrailingBar(branches: seq<Branch>)
    ensures WriteMore(branches, true) == WriteMore(branches, false) + [BAR]
    decreases |branches|
  {
    hide WriteAll;
    if branches != [] {
      WriteTrailingBar(branches[1..]);
      Regroup(WriteAll(branches[0].items), WriteMore(branches[1..], false), [BAR]);
      Regroup([BAR], WriteAll(branches[0].items) + WriteMore(branches[1..], false), [BAR]);
    }
  }

  lemma AlternationBehind(mode: Mode, room: nat, units: Text, from: nat, index: nat, branches: seq<Branch>,
                          hs: seq<Hir>, end: nat, trailing: bool)
    requires BranchesBehind(mode, room, units, from, index, branches, hs) && AllRegular(hs)
    requires if trailing then index < |units| && units[index] == BAR && end == index + 1
             else end == index && (index < |units| ==> units[index] != BAR)
    ensures ParsedBranches(mode, room, AlternationOf(hs), branches, trailing)
            && Behind(units, from, end, WriteBranches(branches, trailing))
  {
    hide WriteAll, WriteMore, WritableBranch, FitsBranch, MeansBranch, MeansAny, AlternationOf, Regular;
    if trailing {
      BehindOne(units, index);
      BehindJoin(units, from, index, end, WriteBranches(branches, false), [BAR]);
      WriteTrailingBar(branches[1..]);
      Regroup(WriteAll(branches[0].items), WriteMore(branches[1..], false), [BAR]);
    }
    AlternationMeans(mode, hs, branches);
  }

  /** Branches that are read, each with its bar, and then what is broken. */
  ghost function Led(branches: seq<Branch>, b: Broken): Broken {
    if branches == [] then b else Later(branches[0], Led(branches[1..], b))
  }

  lemma {:induction false} LedText(mode: Mode, room: nat, branches: seq<Branch>, left: Text, text: Text, inGroup: bool,
                                   b: Broken, at: nat, end: nat)
    requires branches != [] && forall br :: br in branches ==> WritableBranch(mode, br) && FitsBranch(br, room)
    requires text == WriteBranches(branches, false) + ([BAR] + left) && BrokenText(mode, room, left, inGroup, b)
    ensures BrokenText(mode, room, text, inGroup, Led(branches, b))
    ensures BrokenError(at, end, Led(branches, b))
         == BrokenError(at + |WriteBranches(branches, false)| + 1, end, b)
    decreases branches
  {
    hide WritableBranch, FitsBranch, WriteAll, WriteMore, BrokenText;
    var items, rest := branches[0].items, branches[1..];
    BranchesUnfold(branches, false, [BAR] + left);
    if rest == [] {
      NothingMore();
      assert Led(rest, b) == b;
      BreaksLater(mode, room, branches[0], left, text, inGroup, b);
    } else {
      var more := WriteBranches(rest, false) + ([BAR] + left);
      MoreUnfold(rest, [BAR] + left);
      LedText(mode, room, rest, left, more, inGroup, b, at + |WriteAll(items)| + 1, end);
      BreaksLater(mode, room, branches[0], more, text, inGroup, Led(rest, b));
    }
  }

  lemma NothingMore()
    ensures WriteMore([], false) == []
  {
  }

  lemma MoreUnfold(branches: seq<Branch>, rest: Text)
    requires branches != []
    ensures WriteMore(branches, false) == [BAR] + WriteBranches(branches, false)
    ensures WriteMore(branches, false) + rest == [BAR] + (WriteBranches(branches, false) + rest)
  {
    hide WriteAll;
    Regroup([BAR], WriteBranches(branches, false), rest);
  }

  /** What comes behind a bar is broken. */
  lemma LedBehind(mode: Mode, room: nat, units: Text, from: nat, index: nat, branches: seq<Branch>, hs: seq<Hir>,
                  inGroup: bool, b: Broken)
    requires BranchesBehind(mode, room, units, from, index, branches, hs) && index < |units| && units[index] == BAR
    requires BrokenText(mode, room, units[index + 1..], inGroup, b)
    ensures BrokenText(mode, room, units[from..], inGroup, Led(branches, b))
    ensures BrokenError(from, |units|, Led(branches, b)) == BrokenError(index + 1, |units|, b)
  {
    hide WriteAll, WriteBranches, WritableBranch, FitsBranch, MeansBranch, BrokenText, BrokenError, EachMeansBranch;
    BehindStarts(units, from, index, WriteBranches(branches, false));
    Split(WriteBranches(branches, false), units[from..]);
    assert units[index..] == [BAR] + units[index + 1..];
    LedText(mode, room, branches, units[index + 1..], units[from..], inGroup, b, from, |units|);
  }

  // ---- Groups --------------------------------------------------------------------------

  /** The opening of a group: a parenthesis, and perhaps a question mark and a colon. */
  lemma OpenBehind(units: Text, start: nat, body: nat, capturing: bool)
    requires start < |units| && units[start] == OPEN && body <= |units|
    requires if capturing then body == start + 1 && (body < |units| ==> units[body] != QUESTION)
             else body == start + 3 && units[start + 1] == QUESTION && units[start + 2] == COLON
    ensures Behind(units, start, body, WriteOpen(capturing)) && body == start + |WriteOpen(capturing)|
    ensures Opens(units[start..], capturing) && Body(units[start..], capturing) == units[body..]
  {
    BehindStarts(units, start, body, WriteOpen(capturing));
  }

  lemma EmptyGroupBehind(mode: Mode, room: nat, units: Text, start: nat, body: nat, capturing: bool)
    requires Behind(units, start, body, WriteOpen(capturing)) && body < |units| && units[body] == CLOSE
    ensures ParsedAtom(mode, room, Never, EmptyGroup(capturing)) && Regular(Never)
    ensures Behind(units, start, body + 1, Write(EmptyGroup(capturing)))
  {
    hide WriteOpen, Means;
    BehindOne(units, body);
    BehindJoin(units, start, body, body + 1, WriteOpen(capturing), [CLOSE]);
    NeverMeans(mode, EmptyGroup(capturing));
  }

  lemma GroupBehind(mode: Mode, room: nat, units: Text, start: nat, body: nat, end: nat, capturing: bool,
                    branches: seq<Branch>, trailing: bool, h: Hir)
    requires Behind(units, start, body, WriteOpen(capturing)) && body < |units| && units[body] != CLOSE && room > 0
    requires ParsedBranches(mode, room - 1, h, branches, trailing)
             && Behind(units, body, end, WriteBranches(branches, trailing))
    requires end < |units| && units[end] == CLOSE
    ensures ParsedAtom(mode, room, h, Group(capturing, branches, trailing))
    ensures Behind(units, start, end + 1, Write(Group(capturing, branches, trailing)))
  {
    hide WriteOpen, WritableBranch, FitsBranch, MeansAny, Means;
    EmptyBranchText(branches, trailing);
    GroupMeans(mode, h, Group(capturing, branches, trailing));
    GroupText(units, start, body, end, capturing, branches, trailing);
  }

  lemma EmptyBranchText(branches: seq<Branch>, trailing: bool)
    ensures |branches| == 1 && branches[0].items == [] && !trailing ==> WriteBranches(branches, trailing) == []
  {
  }

  lemma GroupText(units: Text, start: nat, body: nat, end: nat, capturing: bool, branches: seq<Branch>, trailing: bool)
    requires Behind(units, start, body, WriteOpen(capturing))
             && Behind(units, body, end, WriteBranches(branches, trailing))
    requires end < |units| && units[end] == CLOSE
    ensures Behind(units, start, end + 1, Write(Group(capturing, branches, trailing)))
  {
    hide WriteOpen, WriteBranches, Behind;
    BehindOne(units, end);
    BehindJoin(units, body, end, end + 1, WriteBranches(branches, trailing), [CLOSE]);
    BehindJoin(units, start, body, end + 1, WriteOpen(capturing), WriteBranches(branches, trailing) + [CLOSE]);
  }

  lemma MarkFault(mode: Mode, room: nat, units: Text, start: nat)
    requires start + 1 < |units| && units[start] == OPEN && units[start + 1] == QUESTION
    requires start + 2 < |units| ==> units[start + 2] != COLON
    ensures Faulty(mode, room, units[start..], BadMark)
    ensures FaultError(start, |units|, BadMark) == InvalidPattern(start, start + 2)
  {
  }

  lemma DeepFaultHere(mode: Mode, units: Text, start: nat, body: nat, capturing: bool)
    requires start < |units| && body <= |units| && Opens(units[start..], capturing)
    requires Body(units[start..], capturing) == units[body..] && (body < |units| ==> units[body] != CLOSE)
    ensures Faulty(mode, 0, units[start..], TooDeep(capturing))
    ensures FaultError(start, |units|, TooDeep(capturing)) == NestingTooDeep
  {
    hide Opens, Body;
  }

  lemma InsideFault(mode: Mode, room: nat, units: Text, start: nat, body: nat, capturing: bool, b: Broken)
    requires start < |units| && body <= |units| && room > 0 && Opens(units[start..], capturing)
    requires Body(units[start..], capturing) == units[body..] && body == start + |WriteOpen(capturing)|
    requires (body < |units| ==> units[body] != CLOSE) && BrokenText(mode, room - 1, units[body..], true, b)
    ensures Faulty(mode, room, units[start..], Inside(capturing, b))
    ensures FaultError(start, |units|, Inside(capturing, b)) == BrokenError(body, |units|, b)
  {
    hide Opens, Body, WriteOpen, BrokenText, BrokenError;
  }

  lemma UnclosedFault(mode: Mode, room: nat, units: Text, start: nat, body: nat, capturing: bool, branches: seq<Branch>,
                      trailing: bool, h: Hir)
    requires start < |units| && body <= |units| && room > 0 && Opens(units[start..], capturing)
    requires Body(units[start..], capturing) == units[body..]
    requires ParsedBranches(mode, room - 1, h, branches, trailing)
             && Behind(units, body, |units|, WriteBranches(branches, trailing))
    ensures Faulty(mode, room, units[start..], Unclosed(capturing, branches, trailing))
    ensures FaultError(start, |units|, Unclosed(capturing, branches, trailing)) == InvalidPattern(start, |units|)
  {
    hide Opens, Body, WriteBranches, WrittenBranches, MeansAny;
    assert units[body..|units|] == units[body..];
  }

  // ---- Counts --------------------------------------------------------------------------

  /** The text at a brace, when digits are read behind it. */
  lemma CountText(units: Text, start: nat, mid: nat, digits: Text)
    requires start < |units| && units[start] == OPEN_BRACE && Behind(units, start + 1, mid, digits)
    ensures Begins(units[start..], OPEN_BRACE) && units[start..][1..] == units[start + 1..]
    ensures mid == start + 1 + |digits| <= |units| && Drop(units[start..], 1 + |digits|) == units[mid..]
    ensures mid < |units| && units[mid] == COMMA && WritableCount(digits) ==>
              ToComma(units[start..], digits) && AfterComma(units[start..], digits) == units[mid + 1..]
  {
    hide WritableCount;
    BehindOne(units, start);
    BehindStarts(units, start + 1, mid, digits);
    BehindJoin(units, start, start + 1, mid, [OPEN_BRACE], digits);
    BehindStarts(units, start, mid, [OPEN_BRACE] + digits);
    if mid < |units| && units[mid] == COMMA {
      BehindOne(units, mid);
      BehindJoin(units, start + 1, mid, mid + 1, digits, [COMMA]);
      BehindJoin(units, start, start + 1, mid + 1, [OPEN_BRACE], digits + [COMMA]);
      BehindStarts(units, start, mid + 1, [OPEN_BRACE] + (digits + [COMMA]));
    }
  }

  lemma CountedBehind(units: Text, start: nat, afterLeast: nat, end: nat, digits: Text, limit: Limit)
    requires start < |units| && units[start] == OPEN_BRACE
    requires Behind(units, start + 1, afterLeast, digits) && Behind(units, afterLeast, end, WriteLimit(limit))
    ensures Behind(units, start, end, WriteQuantifier(Counted(digits, limit)))
  {
    hide WriteLimit, Behind;
    BehindOne(units, start);
    BehindJoin(units, start + 1, afterLeast, end, digits, WriteLimit(limit));
    BehindJoin(units, start, start + 1, end, [OPEN_BRACE], digits + WriteLimit(limit));
  }

  lemma UpToBehind(units: Text, comma: nat, brace: nat, digits: Text)
    requires comma < |units| && units[comma] == COMMA && Behind(units, comma + 1, brace, digits)
    requires brace < |units| && units[brace] == CLOSE_BRACE
    ensures Behind(units, comma, brace + 1, WriteLimit(UpTo(digits)))
  {
    hide Behind;
    BehindOne(units, comma);
    BehindOne(units, brace);
    BehindJoin(units, comma + 1, brace, brace + 1, digits, [CLOSE_BRACE]);
    BehindJoin(units, comma, comma + 1, brace + 1, [COMMA], digits + [CLOSE_BRACE]);
  }

  lemma LimitText(units: Text, start: nat)
    ensures start < |units| && units[start] == CLOSE_BRACE ==> Behind(units, start, start + 1, WriteLimit(Exactly))
    ensures start + 1 < |units| && units[start] == COMMA && units[start + 1] == CLOSE_BRACE ==>
              Behind(units, start, start + 2, WriteLimit(OrMore))
  {
    if start + 1 < |units| && units[start] == COMMA && units[start + 1] == CLOSE_BRACE {
      assert units[start..start + 2] == [COMMA, CLOSE_BRACE];
    }
  }

  /** The digits that are not one of the counts allowed. */
  lemma BadDigits(digits: Text)
    requires AllDigits(digits) && !WritableCount(digits)
    ensures digits == [] || TooGreat(digits)
  {
  }

  lemma LeastSlip(units: Text, start: nat, mid: nat, digits: Text) returns (slip: CountSlip)
    requires start < |units| && units[start] == OPEN_BRACE && Behind(units, start + 1, mid, digits)
    requires LeadingDigits(units[start + 1..], digits) && !WritableCount(digits)
    ensures CountSlips(units[start..], slip)
    ensures CountErrorEnd(start, |units|, slip) == Min(if digits == [] then start + 2 else mid, |units|)
  {
    hide LeadingDigits, WritableCount, TooGreat;
    CountText(units, start, mid, digits);
    assert AllDigits(digits) by { LeadingAll(units[start + 1..], digits); }
    BadDigits(digits);
    slip := if digits == [] then NoLeast else LeastTooGreat(digits);
  }

  lemma LeadingAll(text: Text, digits: Text)
    requires LeadingDigits(text, digits)
    ensures AllDigits(digits)
  {
  }

  lemma BraceSlip(units: Text, start: nat, mid: nat, digits: Text)
    requires start < |units| && units[start] == OPEN_BRACE && Behind(units, start + 1, mid, digits)
    requires LeadingDigits(units[start + 1..], digits) && WritableCount(digits)
    requires mid < |units| ==> units[mid] != CLOSE_BRACE && units[mid] != COMMA
    ensures CountSlips(units[start..], NoBrace(digits)) && CountErrorEnd(start, |units|, NoBrace(digits)) == mid
  {
    hide LeadingDigits, WritableCount;
    CountText(units, start, mid, digits);
  }

  lemma MostSlip(units: Text, start: nat, mid: nat, digits: Text, end: nat, most: Text) returns (slip: CountSlip)
    requires start < |units| && units[start] == OPEN_BRACE && Behind(units, start + 1, mid, digits)
    requires WritableCount(digits) && mid < |units| && units[mid] == COMMA
    requires Behind(units, mid + 1, end, most) && LeadingDigits(units[mid + 1..], most)
    requires !WritableCount(most) && (mid + 1 < |units| ==> units[mid + 1] != CLOSE_BRACE)
    ensures CountSlips(units[start..], slip)
    ensures CountErrorEnd(start, |units|, slip) == Min(if most == [] then mid + 2 else end, |units|)
  {
    hide LeadingDigits, WritableCount, TooGreat, ToComma, AfterComma;
    CountText(units, start, mid, digits);
    assert AllDigits(most) by { LeadingAll(units[mid + 1..], most); }
    BadDigits(most);
    slip := if most == [] then NoMost(digits) else MostTooGreat(digits, most);
  }

  lemma BraceAfterSlip(units: Text, start: nat, mid: nat, digits: Text, end: nat, most: Text)
    requires start < |units| && units[start] == OPEN_BRACE && Behind(units, start + 1, mid, digits)
    requires WritableCount(digits) && mid < |units| && units[mid] == COMMA
    requires Behind(units, mid + 1, end, most) && LeadingDigits(units[mid + 1..], most)
    requires WritableCount(most) && (end < |units| ==> units[end] != CLOSE_BRACE)
    ensures CountSlips(units[start..], NoBraceAfter(digits, most))
    ensures CountErrorEnd(start, |units|, NoBraceAfter(digits, most)) == end
  {
    hide LeadingDigits, WritableCount, ToComma, AfterComma;
    CountText(units, start, mid, digits);
    BehindStarts(units, mid + 1, end, most);
  }

  lemma OrderSlip(units: Text, start: nat, end: nat, digits: Text, limit: Limit)
    requires Behind(units, start, end, WriteQuantifier(Counted(digits, limit)))
    requires WritableCount(digits) && (limit.UpTo? ==> WritableCount(limit.digits))
    requires !WritableQuantifier(Counted(digits, limit))
    ensures CountSlips(units[start..], OutOfOrder(digits, limit))
    ensures CountErrorEnd(start, |units|, OutOfOrder(digits, limit)) == end
  {
    hide WritableCount, WriteLimit, WritableQuantifier;
    BehindStarts(units, start, end, WriteQuantifier(Counted(digits, limit)));
  }

  lemma DoubledSlip(units: Text, start: nat, end: nat, q: Quantifier)
    requires WritableQuantifier(q) && Behind(units, start, end, WriteQuantifier(q))
    requires end < |units| && IsRepetitionOperator(units[end])
    ensures RepeatSlips(units[start..], Doubled(q))
    ensures RepeatError(start, |units|, Doubled(q)) == InvalidPattern(start, end + 1)
  {
    hide WriteQuantifier, WritableQuantifier;
    BehindStarts(units, start, end, WriteQuantifier(q));
  }

  // ---- Escapes -------------------------------------------------------------------------

  lemma EscapeBehind(mode: Mode, room: nat, units: Text, start: nat, h: Hir)
    requires start + 1 < |units| && units[start] == BACKSLASH && EscapeTree(units[start + 1]).Some?
    requires Means(mode, h, EscapeTree(units[start + 1]).value)
    ensures var s := EscapeTree(units[start + 1]).value; ParsedAtom(mode, room, h, s)
                                                         && Behind(units, start, start + 2, Write(s))
  {
    hide Means;
  }

  lemma EscapeFault(mode: Mode, room: nat, units: Text, start: nat)
    requires start < |units| && units[start] == BACKSLASH
    requires start + 1 < |units| ==> EscapeTree(units[start + 1]).None?
    ensures Faulty(mode, room, units[start..], BadEscape)
    ensures FaultError(start, |units|, BadEscape) == InvalidPattern(start, Min(start + 2, |units|))
  {
  }

  lemma PlainBehind(mode: Mode, room: nat, units: Text, index: nat, h: Hir)
    requires index < |units| && !IsRepetitionOperator(units[index])
    requires units[index] !in {BACKSLASH, OPEN_BRACKET, OPEN, CLOSE, BAR} && Means(mode, h, PlainTree(units[index]))
    ensures ParsedAtom(mode, room, h, PlainTree(units[index]))
    ensures Behind(units, index, index + 1, Write(PlainTree(units[index])))
  {
    hide Means;
  }
}
