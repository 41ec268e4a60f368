/**
 When an expression means what a syntax tree denotes and has its shape, and how the parser may
 combine such pairs.
 */
module PatternMeaning {
  import opened Base
  import opened Assertions
  import opened Predicates
  import opened HirSyntax
  import opened Meaning
  import opened HirBuild
  import opened HirFacts
  import opened HirShape
  import opened PatternSyntax

  // ---- What expressions and trees have in common ----------------------------------------

  ghost predicate SameShape(mode: Mode, h: Hir, s: Syntax) {
    && (h == Never <==> Barren(s)) && (h == Epsilon <==> Vanishes(s))
    && (Reentrant(h) <==> LoopsFirst(s)) && (WellShaped(h) <==> Shapely(s))
    && (Mute(h) <==> Wordless(mode, s)) && (ZeroWidthOnly(h) <==> Weightless(mode, s))
  }

  ghost predicate SameBranchShape(mode: Mode, h: Hir, b: Branch) {
    && (h == Never <==> BranchBarren(b)) && (h == Epsilon <==> BranchVanishes(b))
    && (Reentrant(h) <==> BranchLoopsFirst(b)) && (WellShaped(h) <==> BranchShapely(b))
    && (Mute(h) <==> BranchWordless(mode, b)) && (ZeroWidthOnly(h) <==> BranchWeightless(mode, b))
  }

  ghost predicate SameChoiceShape(mode: Mode, h: Hir, branches: seq<Branch>) {
    && (h == Never <==> forall b :: b in branches ==> BranchBarren(b)) && (h == Epsilon <==> ChoiceVanishes(branches))
    && (Reentrant(h) <==> exists b :: b in branches && BranchLoopsFirst(b))
    && (WellShaped(h) <==> BranchesShapely(branches))
    && (Mute(h) <==> forall b :: b in branches ==> BranchWordless(mode, b))
    && (ZeroWidthOnly(h) <==> BranchesWeightless(mode, branches))
  }

  ghost predicate Means(mode: Mode, h: Hir, s: Syntax) {
    SameShape(mode, h, s) && forall w, c, d :: Matches(h, w, c, d) <==> Denotes(mode, s, w, c, d)
  }

  ghost predicate MeansBranch(mode: Mode, h: Hir, b: Branch) {
    SameBranchShape(mode, h, b) && forall w, c, d :: Matches(h, w, c, d) <==> DenotesAll(mode, b.items, w, c, d)
  }

  ghost predicate DenotesAny(mode: Mode, branches: seq<Branch>, w: Text, c: Cursor, d: Cursor) {
    exists b :: b in branches && DenotesAll(mode, b.items, w, c, d)
  }

  ghost predicate MeansAny(mode: Mode, h: Hir, branches: seq<Branch>) {
    SameChoiceShape(mode, h, branches) && forall w, c, d :: Matches(h, w, c, d) <==> DenotesAny(mode, branches, w, c, d)
  }

  ghost predicate EachMeans(mode: Mode, hs: seq<Hir>, items: seq<Syntax>) {
    |hs| == |items| && forall k :: 0 <= k < |hs| ==> Means(mode, hs[k], items[k])
  }

  ghost predicate EachMeansBranch(mode: Mode, hs: seq<Hir>, branches: seq<Branch>) {
    |hs| == |branches| && forall k :: 0 <= k < |hs| ==> MeansBranch(mode, hs[k], branches[k])
  }

  // ---- Single units ----------------------------------------------------------------------

  predicate OneUnit(s: Syntax) {
    !s.ZeroWidth? && !s.EmptyGroup? && !s.Group? && !s.Quantified?
  }

  /** A class means a tree that consumes one unit when both have the same units. */
  lemma ClassMeans(mode: Mode, p: CanonicalPredicate, s: Syntax)
    requires OneUnit(s) && forall v: U16 :: p.Contains(v) <==> TakesUnit(mode, s, v)
    ensures Means(mode, Predicate(p), s)
  {
    hide SymbolPredicate.Contains, TakesUnit;
    EmptyMeansNothing(p);
  }

  lemma SymbolMeans(mode: Mode, u: U16, s: Syntax)
    requires OneUnit(s) && forall v: U16 :: v == u <==> TakesUnit(mode, s, v)
    ensures Means(mode, Symbol(u), s)
  {
    hide TakesUnit;
    assert TakesUnit(mode, s, u);
  }

  lemma AssertionMeans(mode: Mode, a: Assertion)
    ensures Means(mode, Assert(a), ZeroWidth(a)) && Regular(Assert(a))
  {
  }

  lemma NeverMeans(mode: Mode, s: Syntax)
    requires s.EmptyGroup?
    ensures Means(mode, Never, s) && Regular(Never)
  {
  }

  lemma ControlMeans(mode: Mode, letter: U16)
    ensures Means(mode, Symbol(ControlUnit(letter)), Control(letter)) && Regular(Symbol(ControlUnit(letter)))
  {
    SymbolMeans(mode, ControlUnit(letter), Control(letter));
  }

  lemma ShorthandMeans(mode: Mode, p: CanonicalPredicate, escape: U16)
    requires forall v: U16 :: p.Contains(v) <==> ShorthandHas(escape, v)
    ensures Means(mode, Predicate(p), ShorthandEscape(escape))
  {
    hide ShorthandHas, SymbolPredicate.Contains;
    ClassMeans(mode, p, ShorthandEscape(escape));
  }

  lemma LiteralMeans(mode: Mode, h: Hir, u: U16, escaped: bool)
    requires Means(mode, h, LiteralUnit(u, true))
    ensures Means(mode, h, LiteralUnit(u, escaped))
  {
    hide Matches;
    assert forall v :: TakesUnit(mode, LiteralUnit(u, escaped), v) <==> TakesUnit(mode, LiteralUnit(u, true), v);
    forall w, c, d ensures Denotes(mode, LiteralUnit(u, escaped), w, c, d) <==>
                           Denotes(mode, LiteralUnit(u, true), w, c, d) {
    }
  }

  // ---- Rows ------------------------------------------------------------------------------

  lemma {:induction false} ItemsMean(mode: Mode, hs: seq<Hir>, items: seq<Syntax>, w: Text, c: Cursor, d: Cursor)
    requires EachMeans(mode, hs, items)
    ensures MatchesAll(hs, w, c, d) <==> DenotesAll(mode, items, w, c, d)
    decreases |hs|
  {
    hide Matches, Denotes, SameShape;
    if hs != [] {
      assert Means(mode, hs[0], items[0]);
      forall k | 0 <= k < |hs[1..]| ensures Means(mode, hs[1..][k], items[1..][k]) {
        assert Means(mode, hs[k + 1], items[k + 1]);
      }
      forall m ensures Matches(hs[0], w, c, m) && MatchesAll(hs[1..], w, m, d) <==>
                       Denotes(mode, items[0], w, c, m) && DenotesAll(mode, items[1..], w, m, d) {
        ItemsMean(mode, hs[1..], items[1..], w, m, d);
      }
      assert MatchesAll(hs, w, c, d) <==> exists m :: Matches(hs[0], w, c, m) && MatchesAll(hs[1..], w, m, d);
      assert DenotesAll(mode, items, w, c, d) <==>
             exists m :: Denotes(mode, items[0], w, c, m) && DenotesAll(mode, items[1..], w, m, d);
    }
  }

  lemma ShapeOf(mode: Mode, hs: seq<Hir>, items: seq<Syntax>, k: nat)
    requires EachMeans(mode, hs, items) && k < |hs|
    ensures SameShape(mode, hs[k], items[k]) && items[k] in items && hs[k] in hs
  {
    assert Means(mode, hs[k], items[k]);
  }

  lemma {:induction false} FirstLoops(mode: Mode, hs: seq<Hir>, items: seq<Syntax>)
    requires EachMeans(mode, hs, items)
    ensures FirstReentrant(hs) <==> ItemsLoopFirst(items)
    decreases |hs|
  {
    hide Matches, Denotes, Reentrant, LoopsFirst, Vanishes, WellShaped, Shapely, Barren;
    if hs != [] {
      ShapeOf(mode, hs, items, 0);
      hide SameShape;
      forall k | 0 <= k < |hs[1..]| ensures Means(mode, hs[1..][k], items[1..][k]) {
        assert Means(mode, hs[k + 1], items[k + 1]);
      }
      hide Means;
      FirstLoops(mode, hs[1..], items[1..]);
    }
  }

  lemma SequenceSameShape(mode: Mode, hs: seq<Hir>, items: seq<Syntax>)
    requires EachMeans(mode, hs, items) && AllRegular(hs)
    ensures SameBranchShape(mode, SequenceOf(hs), Branch(items))
  {
    hide Means, Reentrant, LoopsFirst, Vanishes, WellShaped, Shapely, Barren, Mute, ZeroWidthOnly, Wordless, Weightless,
      SequenceOf, FirstReentrant, ItemsLoopFirst, Regular;
    SequenceShape(hs);
    SequenceWords(hs);
    FirstLoops(mode, hs, items);
    forall k | 0 <= k < |hs| ensures SameShape(mode, hs[k], items[k]) {
      ShapeOf(mode, hs, items, k);
    }
    var h, b := SequenceOf(hs), Branch(items);
    assert forall s :: s in items <==> exists k :: 0 <= k < |items| && items[k] == s;
    assert Never in hs <==> BranchBarren(b) by {
      if Never in hs {
        var k :| 0 <= k < |hs| && hs[k] == Never;
        assert items[k] in items;
      }
      if s :| s in items && Barren(s) {
        var k :| 0 <= k < |items| && items[k] == s;
        assert hs[k] == Never;
      }
    }
    assert AllEpsilon(hs) <==> BranchVanishes(b) by {
      if BranchVanishes(b) {
        forall k | 0 <= k < |hs| ensures hs[k] == Epsilon { assert items[k] in items; }
      }
    }
    assert BranchShapely(b) <==> BranchBarren(b) || AllWellShaped(hs) by {
      if BranchShapely(b) && !BranchBarren(b) {
        forall k | 0 <= k < |hs| ensures WellShaped(hs[k]) { assert items[k] in items; }
      }
    }
    assert SomeMute(hs) <==> BranchWordless(mode, b) by {
      if k :| 0 <= k < |hs| && Mute(hs[k]) {
        assert items[k] in items;
      }
      if s :| s in items && Wordless(mode, s) {
        var k :| 0 <= k < |items| && items[k] == s;
        assert Mute(hs[k]);
      }
    }
    assert AllWeightless(hs) <==> BranchWeightless(mode, b) by {
      if BranchWeightless(mode, b) {
        forall k | 0 <= k < |hs| ensures ZeroWidthOnly(hs[k]) { assert items[k] in items; }
      }
    }
  }

  lemma SequenceMeans(mode: Mode, hs: seq<Hir>, items: seq<Syntax>)
    requires EachMeans(mode, hs, items) && AllRegular(hs)
    ensures MeansBranch(mode, SequenceOf(hs), Branch(items))
  {
    hide Matches, DenotesAll, MatchesAll, Means, SequenceOf, SameBranchShape, Regular;
    SequenceSameShape(mode, hs, items);
    forall w, c, d ensures Matches(SequenceOf(hs), w, c, d) <==> DenotesAll(mode, items, w, c, d) {
      SequenceOfMeans(hs, w, c, d);
      ItemsMean(mode, hs, items, w, c, d);
    }
  }

  // ---- Choices ---------------------------------------------------------------------------

  lemma BranchesMean(mode: Mode, hs: seq<Hir>, branches: seq<Branch>, w: Text, c: Cursor, d: Cursor)
    requires EachMeansBranch(mode, hs, branches)
    ensures MatchesAny(hs, w, c, d) <==> DenotesAny(mode, branches, w, c, d)
  {
    hide Matches, DenotesAll, SameBranchShape;
    if MatchesAny(hs, w, c, d) {
      var k :| 0 <= k < |hs| && Matches(hs[k], w, c, d);
      assert MeansBranch(mode, hs[k], branches[k]);
      assert branches[k] in branches;
    }
    if DenotesAny(mode, branches, w, c, d) {
      var b :| b in branches && DenotesAll(mode, b.items, w, c, d);
      var k :| 0 <= k < |branches| && branches[k] == b;
      assert MeansBranch(mode, hs[k], branches[k]);
    }
  }

  ghost predicate EachSameShape(mode: Mode, hs: seq<Hir>, branches: seq<Branch>) {
    |hs| == |branches| && forall k :: 0 <= k < |hs| ==> SameBranchShape(mode, hs[k], branches[k])
  }

  lemma LiveBranches(mode: Mode, hs: seq<Hir>, branches: seq<Branch>)
    requires EachSameShape(mode, hs, branches)
    ensures AllNever(hs) <==> forall b :: b in branches ==> BranchBarren(b)
    ensures OneIs(hs, Epsilon) <==> ChoiceVanishes(branches)
    ensures TwoAlive(hs) <==> TwoLive(branches)
  {
    hide Reentrant, BranchLoopsFirst, BranchVanishes, WellShaped, BranchShapely, BranchBarren, Mute, ZeroWidthOnly,
      BranchWordless, BranchWeightless;
    if forall b :: b in branches ==> BranchBarren(b) {
      forall k | 0 <= k < |hs| ensures hs[k] == Never { assert branches[k] in branches; }
    }
    if OneIs(hs, Epsilon) {
      var k :| 0 <= k < |hs| && hs[k] == Epsilon && forall j :: 0 <= j < |hs| && j != k ==> hs[j] == Never;
      assert BranchVanishes(branches[k]);
    }
    if ChoiceVanishes(branches) {
      var k :| 0 <= k < |branches| && BranchVanishes(branches[k])
               && forall j :: 0 <= j < |branches| && j != k ==> BranchBarren(branches[j]);
      assert hs[k] == Epsilon;
    }
    if TwoAlive(hs) {
      var j, k :| 0 <= j < k < |hs| && hs[j] != Never && hs[k] != Never;
      assert !BranchBarren(branches[j]) && !BranchBarren(branches[k]);
    }
    if TwoLive(branches) {
      var j, k :| 0 <= j < k < |branches| && !BranchBarren(branches[j]) && !BranchBarren(branches[k]);
      assert hs[j] != Never && hs[k] != Never;
    }
  }

  lemma LoopingBranches(mode: Mode, hs: seq<Hir>, branches: seq<Branch>)
    requires EachSameShape(mode, hs, branches)
    ensures SomeReentrant(hs) <==> exists b :: b in branches && BranchLoopsFirst(b)
    ensures AllWellShaped(hs) <==> forall b :: b in branches ==> BranchShapely(b)
  {
    hide Reentrant, BranchLoopsFirst, BranchVanishes, WellShaped, BranchShapely, BranchBarren, Mute, ZeroWidthOnly,
      BranchWordless, BranchWeightless;
    if k :| 0 <= k < |hs| && Reentrant(hs[k]) {
      assert branches[k] in branches && BranchLoopsFirst(branches[k]);
    }
    if b :| b in branches && BranchLoopsFirst(b) {
      var k :| 0 <= k < |branches| && branches[k] == b;
      assert Reentrant(hs[k]);
    }
    if forall b :: b in branches ==> BranchShapely(b) {
      forall k | 0 <= k < |hs| ensures WellShaped(hs[k]) { assert branches[k] in branches; }
    }
  }

  lemma BranchesOfWords(mode: Mode, hs: seq<Hir>, branches: seq<Branch>)
    requires EachSameShape(mode, hs, branches)
    ensures AllMute(hs) <==> forall b :: b in branches ==> BranchWordless(mode, b)
    ensures NoWeight(hs) <==> forall b :: b in branches ==> BranchWeightless(mode, b) || BranchWordless(mode, b)
  {
    hide Reentrant, BranchLoopsFirst, BranchVanishes, WellShaped, BranchShapely, BranchBarren, Mute, ZeroWidthOnly,
      BranchWordless, BranchWeightless;
    forall k | 0 <= k < |hs| ensures hs[k] in hs && branches[k] in branches {
    }
  }

  lemma ChoiceSameShape(mode: Mode, hs: seq<Hir>, branches: seq<Branch>)
    requires EachMeansBranch(mode, hs, branches) && AllRegular(hs)
    ensures SameChoiceShape(mode, AlternationOf(hs), branches)
  {
    hide Reentrant, BranchLoopsFirst, BranchVanishes, WellShaped, BranchShapely, BranchBarren, Mute, ZeroWidthOnly,
      BranchWordless, BranchWeightless, AlternationOf, Regular, Live, SameBranchShape;
    forall k | 0 <= k < |hs| ensures SameBranchShape(mode, hs[k], branches[k]) {
      assert MeansBranch(mode, hs[k], branches[k]);
    }
    hide MeansBranch;
    LiveBranches(mode, hs, branches);
    LoopingBranches(mode, hs, branches);
    BranchesOfWords(mode, hs, branches);
    hide EachSameShape, AllNever, OneIs, ChoiceVanishes, TwoAlive, TwoLive, SomeReentrant, AllWellShaped, AllMute,
      NoWeight;
    AlternationShape(hs);
    AlternationWords(hs);
    LiveByIndex(hs, Epsilon);
  }

  lemma AlternationMeans(mode: Mode, hs: seq<Hir>, branches: seq<Branch>)
    requires EachMeansBranch(mode, hs, branches) && AllRegular(hs)
    ensures MeansAny(mode, AlternationOf(hs), branches)
  {
    hide Matches, DenotesAny, MatchesAny, MeansBranch, AlternationOf, SameChoiceShape, Regular;
    ChoiceSameShape(mode, hs, branches);
    forall w, c, d ensures Matches(AlternationOf(hs), w, c, d) <==> DenotesAny(mode, branches, w, c, d) {
      AlternationOfMeans(hs, w, c, d);
      BranchesMean(mode, hs, branches, w, c, d);
    }
  }

  lemma GroupMeans(mode: Mode, h: Hir, s: Syntax)
    requires s.Group? && MeansAny(mode, h, s.branches)
    ensures Means(mode, h, s)
  {
    hide Matches;
    forall w, c, d ensures Matches(h, w, c, d) <==> Denotes(mode, s, w, c, d) {
      assert DenotesAny(mode, s.branches, w, c, d) <==> Denotes(mode, s, w, c, d);
    }
  }

  // ---- Repetitions -----------------------------------------------------------------------

  lemma {:induction false} TimesMean(mode: Mode, h: Hir, s: Syntax, n: nat, w: Text, c: Cursor, d: Cursor)
    requires Means(mode, h, s)
    ensures MatchesTimes(h, n, w, c, d) <==> DenotesTimes(mode, s, n, w, c, d)
    decreases n
  {
    hide Matches, Denotes, SameShape;
    if n > 0 {
      forall m ensures Matches(h, w, c, m) && MatchesTimes(h, n - 1, w, m, d) <==>
                       Denotes(mode, s, w, c, m) && DenotesTimes(mode, s, n - 1, w, m, d) {
        TimesMean(mode, h, s, n - 1, w, m, d);
      }
      assert MatchesTimes(h, n, w, c, d) <==> exists m :: Matches(h, w, c, m) && MatchesTimes(h, n - 1, w, m, d);
      assert DenotesTimes(mode, s, n, w, c, d) <==>
             exists m :: Denotes(mode, s, w, c, m) && DenotesTimes(mode, s, n - 1, w, m, d);
    }
  }

  lemma QuantifierBounds(q: Quantifier)
    requires WritableQuantifier(q)
    ensures Least(q) <= MAX_COUNTED_REPETITION
    ensures Most(q).Some? ==> Least(q) <= Most(q).value <= MAX_COUNTED_REPETITION && Most(q).value > 0
  {
  }

  lemma RepeatRegular(h: Hir, q: Quantifier)
    requires Regular(h) && WritableQuantifier(q)
    ensures Regular(MakeRepeat(h, Least(q), Most(q)))
  {
    hide WritableQuantifier, Least, Most;
    QuantifierBounds(q);
  }

  lemma RepeatSameShape(mode: Mode, h: Hir, s: Syntax, q: Quantifier)
    requires SameShape(mode, h, s) && Regular(h) && WritableQuantifier(q)
    ensures SameShape(mode, MakeRepeat(h, Least(q), Most(q)), Quantified(s, q))
  {
    hide WritableQuantifier, Least, Most, Regular, MakeRepeat, Mute, ZeroWidthOnly;
    QuantifierBounds(q);
    RepeatRegular(h, q);
    RepeatShape(h, Least(q), Most(q));
    RepeatWords(h, Least(q), Most(q));
  }

  lemma RepeatMeans(mode: Mode, h: Hir, s: Syntax, q: Quantifier)
    requires Means(mode, h, s) && Regular(h) && WritableQuantifier(q)
    ensures Means(mode, MakeRepeat(h, Least(q), Most(q)), Quantified(s, q))
  {
    hide MatchesTimes, DenotesTimes, SameShape, Regular;
    RepeatSameShape(mode, h, s, q);
    forall w, c, d ensures Matches(MakeRepeat(h, Least(q), Most(q)), w, c, d) <==>
                           Denotes(mode, Quantified(s, q), w, c, d) {
      RepeatPreserved(h, Least(q), Most(q), w, c, d);
      forall n: nat ensures MatchesTimes(h, n, w, c, d) <==> DenotesTimes(mode, s, n, w, c, d) {
        TimesMean(mode, h, s, n, w, c, d);
      }
    }
  }

  // ---- Counts ----------------------------------------------------------------------------

  function Clamp(n: nat): nat {
    if n > MAX_COUNTED_REPETITION then MAX_COUNTED_REPETITION + 1 else n
  }

  lemma ClampStep(n: nat, digit: nat)
    ensures Clamp(Clamp(n) * 10 + digit) == Clamp(10 * n + digit)
  {
  }

  lemma NoDigits()
    ensures AllDigits([]) && Decimal([]) == 0
  {
  }
}
