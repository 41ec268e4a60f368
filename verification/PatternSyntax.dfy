/**
 The pattern language (rustmatch/src/parser.rs) as trees: how a tree is written, and what it
 means.  Neither mentions the parser; the parser is proved to undo the writing.
 */
module PatternSyntax {
  import opened Base
  import opened Assertions
  import opened HirSyntax

  const DOLLAR: U16 := '$' as int
  const OPEN: U16 := '(' as int
  const CLOSE: U16 := ')' as int
  const STAR: U16 := '*' as int
  const PLUS: U16 := '+' as int
  const COMMA: U16 := ',' as int
  const DASH: U16 := '-' as int
  const DOT: U16 := '.' as int
  const COLON: U16 := ':' as int
  const QUESTION: U16 := '?' as int
  const OPEN_BRACKET: U16 := '[' as int
  const BACKSLASH: U16 := '\\' as int
  const CLOSE_BRACKET: U16 := ']' as int
  const CARET: U16 := '^' as int
  const OPEN_BRACE: U16 := '{' as int
  const BAR: U16 := '|' as int
  const CLOSE_BRACE: U16 := '}' as int
  const FOLD_FLAG: U16 := 'i' as int
  const DOT_FLAG: U16 := 's' as int

  predicate IsRepetitionOperator(u: U16) {
    u == QUESTION || u == STAR || u == PLUS || u == OPEN_BRACE
  }

  /** Units that a backslash makes stand for themselves. */
  predicate IsEscapedLiteral(u: U16) {
    IsSpecial(u) || u == CLOSE_BRACKET || u == CLOSE_BRACE || u == DASH
  }

  predicate IsShorthand(u: U16) {
    IsClassShorthand(u) || u == 'D' as int || u == 'W' as int || u == 'S' as int
  }

  /** The shorthands that may stand inside a class. */
  predicate IsClassShorthand(u: U16) {
    u == 'd' as int || u == 'w' as int || u == 's' as int
  }

  predicate IsControl(u: U16) {
    u == 'n' as int || u == 't' as int || u == 'r' as int || u == 'f' as int
  }

  /** Units that mean something other than themselves outside a class. */
  predicate IsSpecial(u: U16) {
    IsRepetitionOperator(u) || u in {BACKSLASH, DOT, OPEN_BRACKET, OPEN, CLOSE, BAR, CARET, DOLLAR}
  }

  /** Units a class accepts behind a backslash as themselves. */
  predicate IsClassEscape(u: U16) {
    u in {BACKSLASH, CLOSE_BRACKET, OPEN_BRACKET, DASH, CARET}
  }

  /** Units a class never accepts as themselves without a backslash. */
  predicate IsClassSpecial(u: U16) {
    u in {BACKSLASH, CLOSE_BRACKET, DASH}
  }

  predicate IsFlag(u: U16) {
    u == FOLD_FLAG || u == DOT_FLAG
  }

  predicate IsDigit(u: U16) {
    '0' as int <= u <= '9' as int
  }

  predicate IsWhitespace(u: U16) {
    u == ' ' as int || u == '\n' as int || u == '\r' as int || u == '\t' as int || u == 0x0b || u == 0x0c
  }

  /** What a shorthand escape stands for. */
  predicate ShorthandHas(escape: U16, u: U16) {
    if escape == 'd' as int then IsDigit(u)
    else if escape == 'D' as int then !IsDigit(u)
    else if escape == 'w' as int then IsAsciiWord(u)
    else if escape == 'W' as int then !IsAsciiWord(u)
    else if escape == 's' as int then IsWhitespace(u)
    else !IsWhitespace(u)
  }

  function ControlUnit(letter: U16): U16 {
    if letter == 'n' as int then '\n' as int
    else if letter == 't' as int then '\t' as int
    else if letter == 'r' as int then '\r' as int
    else 0x0c
  }

  // ---- Trees ---------------------------------------------------------------------------

  /** One unit of a class, in one of its spellings. */
  datatype ClassUnit = RawUnit(unit: U16) | EscapedUnit(unit: U16) | ControlLetter(letter: U16)

  datatype ClassItem = One(only: ClassUnit) | Between(low: ClassUnit, high: ClassUnit) | Named(escape: U16)

  datatype Limit = Exactly | OrMore | UpTo(digits: Text)

  datatype Quantifier = Optional | AnyNumber | AtLeastOnce | Counted(digits: Text, limit: Limit)

  datatype Branch = Branch(items: seq<Syntax>)

  /**
   A tree records the spelling, so that every source the parser accepts is the writing of one.
   `EmptyGroup` is `()`, which matches nothing at all.  `trailing` is a final bar with
   nothing behind it, which adds no branch.
   */
  datatype Syntax =
    | LiteralUnit(unit: U16, escaped: bool)
    | Control(letter: U16)
    | AnyUnit
    | ZeroWidth(assertion: Assertion)
    | ShorthandEscape(escape: U16)
    | BracketClass(inverted: bool, members: seq<ClassItem>)
    | EmptyGroup(capturing: bool)
    | Group(capturing: bool, branches: seq<Branch>, trailing: bool)
    | Quantified(atom: Syntax, quantifier: Quantifier)

  /** A pattern with the flags its `(?is)` prefix names, if it has one. */
  datatype Pattern = Pattern(flags: seq<U16>, branches: seq<Branch>, trailing: bool)

  function Value(c: ClassUnit): U16 {
    match c
    case RawUnit(u) => u
    case EscapedUnit(u) => u
    case ControlLetter(letter) => ControlUnit(letter)
  }

  /** The count that digits write, where they write one of the counts allowed. */
  function CountOf(digits: Text): U16 {
    if AllDigits(digits) && Decimal(digits) <= MAX_COUNTED_REPETITION then Decimal(digits) else 0
  }

  function Least(q: Quantifier): U16 {
    match q
    case Optional => 0
    case AnyNumber => 0
    case AtLeastOnce => 1
    case Counted(digits, _) => CountOf(digits)
  }

  function Most(q: Quantifier): Option<U16> {
    match q
    case Optional => Some(1)
    case AnyNumber => None
    case AtLeastOnce => None
    case Counted(digits, Exactly) => Some(CountOf(digits))
    case Counted(_, OrMore) => None
    case Counted(_, UpTo(digits)) => Some(CountOf(digits))
  }

  predicate AllDigits(s: Text) {
    forall k :: 0 <= k < |s| ==> IsDigit(s[k])
  }

  function Digit(u: U16): nat
    requires IsDigit(u)
  {
    u - '0' as int
  }

  /** The number a run of digits writes. */
  function Decimal(digits: Text): nat
    requires AllDigits(digits)
  {
    if digits == [] then 0
    else 10 * Decimal(digits[..|digits| - 1]) + Digit(digits[|digits| - 1])
  }

  lemma DecimalMore(digits: Text, u: U16)
    requires AllDigits(digits) && IsDigit(u)
    ensures AllDigits(digits + [u]) && Decimal(digits + [u]) == 10 * Decimal(digits) + Digit(u)
  {
    assert (digits + [u])[..|digits|] == digits;
  }

  // ---- Writing -------------------------------------------------------------------------

  function WriteUnit(u: U16, escaped: bool): Text {
    if escaped then [BACKSLASH, u] else [u]
  }

  function WriteClassUnit(c: ClassUnit): Text {
    match c
    case RawUnit(u) => [u]
    case EscapedUnit(u) => [BACKSLASH, u]
    case ControlLetter(letter) => [BACKSLASH, letter]
  }

  function WriteMember(m: ClassItem): Text {
    match m
    case One(only) => WriteClassUnit(only)
    case Between(low, high) => WriteClassUnit(low) + ([DASH] + WriteClassUnit(high))
    case Named(escape) => [BACKSLASH, escape]
  }

  function WriteMembers(members: seq<ClassItem>): Text {
    if members == [] then [] else WriteMember(members[0]) + WriteMembers(members[1..])
  }

  function WriteAssertion(a: Assertion): Text {
    match a
    case LineStart => [CARET]
    case LineEnd => [DOLLAR]
    case WordBoundary => [BACKSLASH, 'b' as int]
    case NonWordBoundary => [BACKSLASH, 'B' as int]
  }

  function WriteQuantifier(q: Quantifier): Text {
    match q
    case Optional => [QUESTION]
    case AnyNumber => [STAR]
    case AtLeastOnce => [PLUS]
    case Counted(digits, limit) => [OPEN_BRACE] + (digits + WriteLimit(limit))
  }

  function WriteLimit(limit: Limit): Text {
    match limit
    case Exactly => [CLOSE_BRACE]
    case OrMore => [COMMA, CLOSE_BRACE]
    case UpTo(digits) => [COMMA] + (digits + [CLOSE_BRACE])
  }

  function WriteOpen(capturing: bool): Text {
    if capturing then [OPEN] else [OPEN, QUESTION, COLON]
  }

  function Write(s: Syntax): Text {
    match s
    case LiteralUnit(u, escaped) => WriteUnit(u, escaped)
    case Control(letter) => [BACKSLASH, letter]
    case AnyUnit => [DOT]
    case ZeroWidth(a) => WriteAssertion(a)
    case ShorthandEscape(escape) => [BACKSLASH, escape]
    case BracketClass(inverted, members) =>
      (if inverted then [OPEN_BRACKET, CARET] else [OPEN_BRACKET]) + (WriteMembers(members) + [CLOSE_BRACKET])
    case EmptyGroup(capturing) => WriteOpen(capturing) + [CLOSE]
    case Group(capturing, branches, trailing) => WriteOpen(capturing) + (WriteBranches(branches, trailing) + [CLOSE])
    case Quantified(atom, q) => Write(atom) + WriteQuantifier(q)
  }

  function WriteAll(items: seq<Syntax>): Text {
    if items == [] then [] else Write(items[0]) + WriteAll(items[1..])
  }

  function WriteBranches(branches: seq<Branch>, trailing: bool): Text {
    if branches == [] then [] else WriteAll(branches[0].items) + WriteMore(branches[1..], trailing)
  }

  /** The branches after the first, each behind its bar. */
  function WriteMore(branches: seq<Branch>, trailing: bool): Text {
    if branches == [] then (if trailing then [BAR] else [])
    else [BAR] + (WriteAll(branches[0].items) + WriteMore(branches[1..], trailing))
  }

  function WriteFlags(flags: seq<U16>): Text {
    if flags == [] then [] else [OPEN, QUESTION] + (flags + [CLOSE])
  }

  function WritePattern(p: Pattern): Text {
    WriteFlags(p.flags) + WriteBranches(p.branches, p.trailing)
  }

  // ---- Which trees can be written ------------------------------------------------------

  /** Whether case is folded, and the Java lower and upper mappings of a unit. */
  datatype Mode = Mode(caseInsensitive: bool, fold: U16 -> (U16, U16))

  predicate Folds(mode: Mode, low: U16, high: U16) {
    mode.caseInsensitive && mode.fold(low).0 != mode.fold(low).1 && mode.fold(high).0 != mode.fold(high).1
  }

  predicate WritableClassUnit(c: ClassUnit) {
    match c
    case RawUnit(u) => !IsClassSpecial(u)
    case EscapedUnit(u) => IsClassEscape(u)
    case ControlLetter(letter) => IsControl(letter)
  }

  /** A range is accepted if it and, where case folds, its two images are in order. */
  predicate RangeInOrder(mode: Mode, low: U16, high: U16) {
    && low <= high
    && (Folds(mode, low, high) ==> mode.fold(low).0 <= mode.fold(high).0 && mode.fold(low).1 <= mode.fold(high).1)
  }

  predicate WritableMember(mode: Mode, m: ClassItem) {
    match m
    case One(only) => WritableClassUnit(only)
    case Between(low, high) => WritableClassUnit(low) && WritableClassUnit(high)
                               && RangeInOrder(mode, Value(low), Value(high))
    case Named(escape) => IsClassShorthand(escape)
  }

  /** A caret that opens a class would negate it. */
  predicate OpensClass(m: ClassItem) {
    match m
    case One(only) => only != RawUnit(CARET)
    case Between(low, _) => low != RawUnit(CARET)
    case Named(_) => true
  }

  predicate WritableCount(digits: Text) {
    digits != [] && AllDigits(digits) && Decimal(digits) <= MAX_COUNTED_REPETITION
  }

  predicate WritableQuantifier(q: Quantifier) {
    q.Counted? ==>
      && WritableCount(q.digits)
      && (q.limit.UpTo? ==> WritableCount(q.limit.digits))
      && (Most(q).Some? ==> Least(q) <= Most(q).value && Most(q).value > 0)
  }

  /** A last empty branch can only be written with a trailing bar behind it. */
  predicate LastShows(branches: seq<Branch>, trailing: bool) {
    trailing || (branches != [] && branches[|branches| - 1].items != [])
  }

  predicate Writable(mode: Mode, s: Syntax) {
    match s
    case LiteralUnit(u, escaped) => if escaped then IsEscapedLiteral(u) else !IsSpecial(u)
    case Control(letter) => IsControl(letter)
    case ShorthandEscape(escape) => IsShorthand(escape)
    case BracketClass(inverted, members) =>
      && (forall m :: m in members ==> WritableMember(mode, m))
      && (!inverted && members != [] ==> OpensClass(members[0]))
    case Group(_, branches, trailing) =>
      branches != [] && LastShows(branches, trailing) && forall b :: b in branches ==> WritableBranch(mode, b)
    case Quantified(atom, q) => !atom.Quantified? && Writable(mode, atom) && WritableQuantifier(q)
    case _ => true
  }

  predicate WritableBranch(mode: Mode, b: Branch) {
    forall s :: s in b.items ==> Writable(mode, s)
  }

  predicate WritablePattern(mode: Mode, p: Pattern) {
    && (forall f :: f in p.flags ==> IsFlag(f))
    && p.branches != [] && (|p.branches| == 1 || LastShows(p.branches, p.trailing))
    && forall b :: b in p.branches ==> WritableBranch(PatternMode(mode, p), b)
  }

  function PatternMode(mode: Mode, p: Pattern): Mode {
    mode.(caseInsensitive := mode.caseInsensitive || FOLD_FLAG in p.flags)
  }

  /** Groups nest at most `room` deep. */
  predicate Fits(s: Syntax, room: nat) {
    match s
    case Group(_, branches, _) => room > 0 && forall b :: b in branches ==> FitsBranch(b, room - 1)
    case Quantified(atom, _) => Fits(atom, room)
    case _ => true
  }

  predicate FitsBranch(b: Branch, room: nat) {
    forall s :: s in b.items ==> Fits(s, room)
  }

  // ---- Meaning -------------------------------------------------------------------------

  predicate UnitHas(mode: Mode, u: U16, v: U16) {
    if mode.caseInsensitive && mode.fold(u).0 != mode.fold(u).1 then v == mode.fold(u).0 || v == mode.fold(u).1
    else v == u
  }

  predicate ClassUnitHas(mode: Mode, u: U16, v: U16) {
    v == u || (mode.caseInsensitive && (v == mode.fold(u).0 || v == mode.fold(u).1))
  }

  predicate RangeHas(mode: Mode, low: U16, high: U16, v: U16) {
    || low <= v <= high
    || (Folds(mode, low, high)
        && (mode.fold(low).0 <= v <= mode.fold(high).0 || mode.fold(low).1 <= v <= mode.fold(high).1))
  }

  predicate MemberHas(mode: Mode, m: ClassItem, v: U16) {
    match m
    case One(only) => ClassUnitHas(mode, Value(only), v)
    case Between(low, high) => RangeHas(mode, Value(low), Value(high), v)
    case Named(escape) => ShorthandHas(escape, v)
  }

  predicate SomeMemberHas(mode: Mode, members: seq<ClassItem>, v: U16) {
    exists m :: m in members && MemberHas(mode, m, v)
  }

  /** The trees that consume exactly one unit, and which units those are. */
  predicate TakesUnit(mode: Mode, s: Syntax, v: U16) {
    match s
    case LiteralUnit(u, _) => UnitHas(mode, u, v)
    case Control(letter) => v == ControlUnit(letter)
    case AnyUnit => true
    case ShorthandEscape(escape) => ShorthandHas(escape, v)
    case BracketClass(inverted, members) => inverted != SomeMemberHas(mode, members, v)
    case _ => false
  }

  ghost predicate Denotes(mode: Mode, s: Syntax, w: Text, c: Cursor, d: Cursor)
    decreases s, 0
  {
    match s
    case ZeroWidth(a) => c == d && AssertionMatches(a, w, c)
    case EmptyGroup(_) => false
    case Group(_, branches, _) => exists b: Branch :: b in branches && DenotesAll(mode, b.items, w, c, d)
    case Quantified(atom, q) =>
      exists n: nat :: Least(q) <= n && (Most(q).Some? ==> n <= Most(q).value) && DenotesTimes(mode, atom, n, w, c, d)
    case _ => c.pos < |w| && TakesUnit(mode, s, w[c.pos]) && d == Cursor(c.pos + 1, true)
  }

  ghost predicate DenotesAll(mode: Mode, items: seq<Syntax>, w: Text, c: Cursor, d: Cursor)
    decreases items, 0
  {
    if items == [] then c == d
    else exists m :: Denotes(mode, items[0], w, c, m) && DenotesAll(mode, items[1..], w, m, d)
  }

  ghost predicate DenotesTimes(mode: Mode, s: Syntax, n: nat, w: Text, c: Cursor, d: Cursor)
    decreases s, n + 1
  {
    if n == 0 then c == d
    else exists m :: Denotes(mode, s, w, c, m) && DenotesTimes(mode, s, n - 1, w, m, d)
  }

  ghost predicate DenotesPattern(mode: Mode, p: Pattern, w: Text, c: Cursor, d: Cursor) {
    exists b: Branch :: b in p.branches && DenotesAll(PatternMode(mode, p), b.items, w, c, d)
  }

  // ---- Shape ---------------------------------------------------------------------------

  /** The tree cannot match: an empty group stands where something must. */
  predicate Barren(s: Syntax) {
    match s
    case EmptyGroup(_) => true
    case Group(_, branches, _) => forall b :: b in branches ==> BranchBarren(b)
    case Quantified(atom, q) => Barren(atom) && Least(q) > 0
    case _ => false
  }

  predicate BranchBarren(b: Branch) {
    exists s :: s in b.items && Barren(s)
  }

  /** The tree is written, and adds nothing to the row it stands in. */
  predicate Vanishes(s: Syntax) {
    match s
    case Group(_, branches, _) => ChoiceVanishes(branches)
    case Quantified(atom, q) => Vanishes(atom) || (Barren(atom) && Least(q) == 0)
    case _ => false
  }

  predicate BranchVanishes(b: Branch) {
    forall s :: s in b.items ==> Vanishes(s)
  }

  /** One branch does, and no other can match. */
  predicate ChoiceVanishes(branches: seq<Branch>) {
    exists k :: 0 <= k < |branches| && BranchVanishes(branches[k])
                && forall j :: 0 <= j < |branches| && j != k ==> BranchBarren(branches[j])
  }

  /** Two of the branches can match. */
  predicate TwoLive(branches: seq<Branch>) {
    exists j, k :: 0 <= j < k < |branches| && !BranchBarren(branches[j]) && !BranchBarren(branches[k])
  }

  /** The tree can begin with an unbounded repetition. */
  predicate LoopsFirst(s: Syntax) {
    match s
    case Group(_, branches, _) => exists b :: b in branches && BranchLoopsFirst(b)
    case Quantified(atom, q) =>
      !Barren(atom) && !Vanishes(atom) && ((Least(q) == 0 && Most(q).None?) || LoopsFirst(atom))
    case _ => false
  }

  predicate BranchLoopsFirst(b: Branch) {
    !BranchBarren(b) && ItemsLoopFirst(b.items)
  }

  /** The first item that does not vanish does. */
  predicate ItemsLoopFirst(items: seq<Syntax>) {
    items != [] && (LoopsFirst(items[0]) || (Vanishes(items[0]) && ItemsLoopFirst(items[1..])))
  }

  /**
   No branch of a real choice, and nothing that may be left out or repeated a varying number of
   times, can begin with an unbounded repetition.
   */
  predicate Shapely(s: Syntax) {
    match s
    case Group(_, branches, _) => BranchesShapely(branches)
    case Quantified(atom, q) => Shapely(atom) && (Most(q) != Some(Least(q)) ==> !LoopsFirst(atom))
    case _ => true
  }

  predicate BranchesShapely(branches: seq<Branch>) {
    && (forall b :: b in branches ==> BranchShapely(b))
    && (TwoLive(branches) ==> forall b :: b in branches ==> !BranchLoopsFirst(b))
  }

  predicate BranchShapely(b: Branch) {
    BranchBarren(b) || forall s :: s in b.items ==> Shapely(s)
  }

  predicate PatternShapely(p: Pattern) {
    BranchesShapely(p.branches)
  }

  // ---- Words ---------------------------------------------------------------------------

  /** No text at all is of the tree's form, assertions left aside: it needs a unit of an empty class, or `()`. */
  ghost predicate Wordless(mode: Mode, s: Syntax) {
    match s
    case ZeroWidth(_) => false
    case EmptyGroup(_) => true
    case Group(_, branches, _) => forall b :: b in branches ==> BranchWordless(mode, b)
    case Quantified(atom, q) => Least(q) > 0 && Wordless(mode, atom)
    case _ => forall v: U16 :: !TakesUnit(mode, s, v)
  }

  ghost predicate BranchWordless(mode: Mode, b: Branch) {
    exists s :: s in b.items && Wordless(mode, s)
  }

  /** Only the empty text is. */
  ghost predicate Weightless(mode: Mode, s: Syntax) {
    match s
    case ZeroWidth(_) => true
    case Group(_, branches, _) => BranchesWeightless(mode, branches)
    case Quantified(atom, q) => Weightless(mode, atom) || (Wordless(mode, atom) && Least(q) == 0)
    case _ => false
  }

  ghost predicate BranchWeightless(mode: Mode, b: Branch) {
    forall s :: s in b.items ==> Weightless(mode, s)
  }

  ghost predicate BranchesWeightless(mode: Mode, branches: seq<Branch>) {
    && (exists b :: b in branches && !BranchWordless(mode, b))
    && forall b :: b in branches ==> BranchWeightless(mode, b) || BranchWordless(mode, b)
  }

  ghost predicate PatternWeightless(mode: Mode, p: Pattern) {
    BranchesWeightless(PatternMode(mode, p), p.branches)
  }

  // ---- What has been read ----------------------------------------------------------------

  /** The units read between two indices are `text`. */
  ghost predicate Behind(units: Text, from: nat, index: nat, text: Text) {
    from <= index <= |units| && units[from..index] == text
  }

  lemma BehindJoin(units: Text, a: nat, b: nat, c: nat, first: Text, second: Text)
    requires Behind(units, a, b, first) && Behind(units, b, c, second)
    ensures Behind(units, a, c, first + second)
  {
    assert units[a..c] == units[a..b] + units[b..c];
  }

  lemma BehindOne(units: Text, index: nat)
    requires index < |units|
    ensures Behind(units, index, index + 1, [units[index]])
  {
  }

  /** The text does not continue what a quantified or plain item has begun. */
  predicate Fresh(rest: Text) {
    rest == [] || !IsRepetitionOperator(rest[0])
  }

  /** Every item is written with at least one unit, none of them a bar, a close or an operator. */
  lemma {:induction false} ItemHead(mode: Mode, s: Syntax)
    requires Writable(mode, s)
    ensures Write(s) != []
    ensures Write(s)[0] != BAR && Write(s)[0] != CLOSE && !IsRepetitionOperator(Write(s)[0])
  {
    match s
    case Quantified(atom, q) => ItemHead(mode, atom);
    case _ =>
  }
}
