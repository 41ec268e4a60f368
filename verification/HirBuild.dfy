/**
 The normalising constructors of the representation (rustmatch/src/hir.rs:68-115): the
 normal form each builds, and that it never changes the meaning.
 */
module HirBuild {
  import opened Base
  import opened Assertions
  import opened HirSyntax
  import opened Meaning

  lemma {:induction false} AllConcat(a: seq<Hir>, b: seq<Hir>, w: Text, c: Cursor, d: Cursor)
    ensures MatchesAll(a + b, w, c, d) <==> exists m :: MatchesAll(a, w, c, m) && MatchesAll(b, w, m, d)
    decreases |a|
  {
    if a == [] {
      assert a + b == b;
      assert MatchesAll(a, w, c, c);
    } else {
      assert (a + b)[0] == a[0] && (a + b)[1..] == a[1..] + b;
      if MatchesAll(a + b, w, c, d) {
        var x := AllWitness(a + b, w, c, d);
        AllConcat(a[1..], b, w, x, d);
        var m :| MatchesAll(a[1..], w, x, m) && MatchesAll(b, w, m, d);
        assert MatchesAll(a, w, c, m);
      }
      if m :| MatchesAll(a, w, c, m) && MatchesAll(b, w, m, d) {
        var x := AllWitness(a, w, c, m);
        assert MatchesAll(a[1..], w, x, m) && MatchesAll(b, w, m, d);
        AllConcat(a[1..], b, w, x, d);
        assert Matches((a + b)[0], w, c, x) && MatchesAll((a + b)[1..], w, x, d);
      }
    }
  }

  lemma OneOfAll(h: Hir, w: Text, c: Cursor, d: Cursor)
    ensures MatchesAll([h], w, c, d) <==> Matches(h, w, c, d)
  {
    if MatchesAll([h], w, c, d) {
      var m := AllWitness([h], w, c, d);
      assert [h][1..] == [];
    }
    if Matches(h, w, c, d) {
      assert [h][0] == h && MatchesAll([h][1..], w, d, d);
    }
  }

  /** The two item lists match between the same cursors. */
  ghost predicate SameAll(a: seq<Hir>, b: seq<Hir>) {
    forall w, c, d :: MatchesAll(a, w, c, d) <==> MatchesAll(b, w, c, d)
  }

  lemma SameAllConcat(a: seq<Hir>, a': seq<Hir>, b: seq<Hir>, b': seq<Hir>)
    requires SameAll(a, a') && SameAll(b, b')
    ensures SameAll(a + b, a' + b')
  {
    hide MatchesAll;
    forall w, c, d ensures MatchesAll(a + b, w, c, d) <==> MatchesAll(a' + b', w, c, d) {
      AllConcat(a, b, w, c, d);
      AllConcat(a', b', w, c, d);
      if m :| MatchesAll(a, w, c, m) && MatchesAll(b, w, m, d) {
        assert MatchesAll(a', w, c, m) && MatchesAll(b', w, m, d);
      }
      if m :| MatchesAll(a', w, c, m) && MatchesAll(b', w, m, d) {
        assert MatchesAll(a, w, c, m) && MatchesAll(b, w, m, d);
      }
    }
  }

  lemma EpsilonVanishes()
    ensures SameAll([Epsilon], [])
  {
    forall w, c, d ensures MatchesAll([Epsilon], w, c, d) <==> MatchesAll([], w, c, d) {
      OneOfAll(Epsilon, w, c, d);
    }
  }

  lemma SequenceFlattens(nested: seq<Hir>)
    ensures SameAll([Sequence(nested)], nested)
  {
    forall w, c, d ensures MatchesAll([Sequence(nested)], w, c, d) <==> MatchesAll(nested, w, c, d) {
      OneOfAll(Sequence(nested), w, c, d);
    }
  }

  lemma NeverBlocks(hs: seq<Hir>, k: nat, w: Text, c: Cursor, d: Cursor)
    requires k < |hs| && hs[k] == Never
    ensures !MatchesAll(hs, w, c, d)
    decreases k
  {
    if MatchesAll(hs, w, c, d) {
      var m := AllWitness(hs, w, c, d);
      if k > 0 {
        NeverBlocks(hs[1..], k - 1, w, m, d);
      }
    }
  }

  ghost predicate AllRegular(hs: seq<Hir>) {
    forall k :: 0 <= k < |hs| ==> Regular(hs[k])
  }

  ghost predicate AllSolid(hs: seq<Hir>) {
    forall k :: 0 <= k < |hs| ==> NoEmptySequence(hs[k])
  }

  // ---- Rows ----------------------------------------------------------------------------

  /** What an expression adds to a row. */
  function ItemsOf(h: Hir): seq<Hir> {
    match h
    case Epsilon => []
    case Sequence(nested) => nested
    case _ => [h]
  }

  function Row(hs: seq<Hir>): seq<Hir> {
    if hs == [] then [] else ItemsOf(hs[0]) + Row(hs[1..])
  }

  function SequenceOf(hs: seq<Hir>): Hir {
    if Never in hs then Never
    else if Row(hs) == [] then Epsilon
    else if |Row(hs)| == 1 then Row(hs)[0]
    else Sequence(Row(hs))
  }

  lemma {:induction false} RowOneMore(hs: seq<Hir>, h: Hir)
    ensures Row(hs + [h]) == Row(hs) + ItemsOf(h)
    decreases |hs|
  {
    hide ItemsOf;
    if hs == [] {
      assert [h][1..] == [];
      assert Row([h]) == ItemsOf(h) + Row([]);
      assert [] + [h] == [h];
    } else {
      assert (hs + [h])[0] == hs[0] && (hs + [h])[1..] == hs[1..] + [h];
      RowOneMore(hs[1..], h);
    }
  }

  lemma ItemsOfMean(h: Hir)
    ensures SameAll([h], ItemsOf(h))
  {
    hide MatchesAll;
    match h
    case Epsilon => EpsilonVanishes();
    case Sequence(nested) => SequenceFlattens(nested);
    case _ =>
  }

  lemma {:induction false} RowMeans(hs: seq<Hir>)
    ensures SameAll(hs, Row(hs))
    decreases |hs|
  {
    hide MatchesAll, ItemsOf;
    if hs != [] {
      assert hs == [hs[0]] + hs[1..];
      ItemsOfMean(hs[0]);
      RowMeans(hs[1..]);
      SameAllConcat([hs[0]], ItemsOf(hs[0]), hs[1..], Row(hs[1..]));
    }
  }

  /** The normalised row means the items in a row. */
  lemma SequenceOfMeans(hs: seq<Hir>, w: Text, c: Cursor, d: Cursor)
    ensures Matches(SequenceOf(hs), w, c, d) <==> MatchesAll(hs, w, c, d)
  {
    if Never in hs {
      var k :| 0 <= k < |hs| && hs[k] == Never;
      NeverBlocks(hs, k, w, c, d);
    } else {
      RowMeans(hs);
      if |Row(hs)| == 1 {
        assert Row(hs) == [Row(hs)[0]];
        OneOfAll(Row(hs)[0], w, c, d);
      }
    }
  }

  ghost predicate InRow(h: Hir) {
    Regular(h) && !h.Never? && !h.Epsilon? && !h.Sequence?
  }

  lemma {:induction false} RowRegular(hs: seq<Hir>)
    requires AllRegular(hs) && Never !in hs
    ensures forall h :: h in Row(hs) ==> InRow(h)
    decreases |hs|
  {
    if hs != [] {
      RowRegular(hs[1..]);
    }
  }

  lemma {:induction false} RowSolid(hs: seq<Hir>)
    requires AllSolid(hs)
    ensures forall h :: h in Row(hs) ==> NoEmptySequence(h)
    decreases |hs|
  {
    if hs != [] {
      RowSolid(hs[1..]);
    }
  }

  /** Regular items give a regular row; items without an empty sequence node give no such node. */
  lemma SequenceOfRegular(hs: seq<Hir>)
    ensures AllRegular(hs) ==> Regular(SequenceOf(hs))
    ensures AllSolid(hs) ==> NoEmptySequence(SequenceOf(hs))
  {
    if AllRegular(hs) && Never !in hs {
      RowRegular(hs);
      assert Row(hs) != [] ==> InRow(Row(hs)[0]);
    }
    if AllSolid(hs) {
      RowSolid(hs);
    }
  }

  /** `Hir::sequence`: the loop builds the normalised row. */
  method MakeSequence(expressions: seq<Hir>) returns (r: Hir)
    ensures r == SequenceOf(expressions)
    ensures forall w, c, d :: Matches(r, w, c, d) <==> MatchesAll(expressions, w, c, d)
    ensures AllRegular(expressions) ==> Regular(r)
    ensures AllSolid(expressions) ==> NoEmptySequence(r)
  {
    hide MatchesAll, Regular, NoEmptySequence, Matches;
    var normalized: seq<Hir> := [];
    for k := 0 to |expressions|
      invariant normalized == Row(expressions[..k]) && Never !in expressions[..k]
    {
      var item := expressions[k];
      assert expressions[..k + 1] == expressions[..k] + [item];
      RowOneMore(expressions[..k], item);
      match item
      case Never =>
        assert Never in expressions;
        forall w, c, d ensures Matches(Never, w, c, d) <==> MatchesAll(expressions, w, c, d) {
          SequenceOfMeans(expressions, w, c, d);
        }
        SequenceOfRegular(expressions);
        return Never;
      case Epsilon =>
      case Sequence(nested) => normalized := normalized + nested;
      case _ => normalized := normalized + [item];
    }
    assert expressions[..|expressions|] == expressions;
    if normalized == [] {
      r := Epsilon;
    } else if |normalized| == 1 {
      r := normalized[0];
    } else {
      r := Sequence(normalized);
    }
    forall w, c, d ensures Matches(r, w, c, d) <==> MatchesAll(expressions, w, c, d) {
      SequenceOfMeans(expressions, w, c, d);
    }
    SequenceOfRegular(expressions);
  }

  // ---- Alternation ---------------------------------------------------------------------

  ghost predicate MatchesAny(hs: seq<Hir>, w: Text, c: Cursor, d: Cursor) {
    exists k :: 0 <= k < |hs| && Matches(hs[k], w, c, d)
  }

  ghost predicate SameAny(a: seq<Hir>, b: seq<Hir>) {
    forall w, c, d :: MatchesAny(a, w, c, d) <==> MatchesAny(b, w, c, d)
  }

  lemma AnyConcat(a: seq<Hir>, b: seq<Hir>, w: Text, c: Cursor, d: Cursor)
    ensures MatchesAny(a + b, w, c, d) <==> MatchesAny(a, w, c, d) || MatchesAny(b, w, c, d)
  {
    hide Matches;
    var both := a + b;
    assert forall k :: 0 <= k < |a| ==> both[k] == a[k];
    if k :| 0 <= k < |b| && Matches(b[k], w, c, d) {
      assert both[|a| + k] == b[k];
    }
    if k :| 0 <= k < |both| && Matches(both[k], w, c, d) {
      assert k >= |a| ==> both[k] == b[k - |a|];
    }
  }

  lemma AlternationMeansAny(nested: seq<Hir>, w: Text, c: Cursor, d: Cursor)
    ensures Matches(Alternation(nested), w, c, d) <==> MatchesAny(nested, w, c, d)
  {
    if b :| b in nested && Matches(b, w, c, d) {
      var k :| 0 <= k < |nested| && nested[k] == b;
    }
    if k :| 0 <= k < |nested| && Matches(nested[k], w, c, d) {
      assert nested[k] in nested;
    }
  }

  lemma OneOfAny(h: Hir, w: Text, c: Cursor, d: Cursor)
    ensures MatchesAny([h], w, c, d) <==> Matches(h, w, c, d)
  {
    hide Matches;
    assert [h][0] == h;
  }

  lemma SameAnyConcat(a: seq<Hir>, a': seq<Hir>, b: seq<Hir>, b': seq<Hir>)
    requires SameAny(a, a') && SameAny(b, b')
    ensures SameAny(a + b, a' + b')
  {
    hide MatchesAny;
    forall w, c, d ensures MatchesAny(a + b, w, c, d) <==> MatchesAny(a' + b', w, c, d) {
      AnyConcat(a, b, w, c, d);
      AnyConcat(a', b', w, c, d);
    }
  }

  lemma NeverVanishes()
    ensures SameAny([Never], [])
  {
    forall w, c, d ensures MatchesAny([Never], w, c, d) <==> MatchesAny([], w, c, d) {
      OneOfAny(Never, w, c, d);
    }
  }

  lemma AlternationFlattens(nested: seq<Hir>)
    ensures SameAny([Alternation(nested)], nested)
  {
    hide Matches;
    forall w, c, d ensures MatchesAny([Alternation(nested)], w, c, d) <==> MatchesAny(nested, w, c, d) {
      OneOfAny(Alternation(nested), w, c, d);
      AlternationMeansAny(nested, w, c, d);
    }
  }

  /** What an expression adds to a choice. */
  function BranchesOf(h: Hir): seq<Hir> {
    match h
    case Never => []
    case Alternation(nested) => nested
    case _ => [h]
  }

  function Choices(hs: seq<Hir>): seq<Hir> {
    if hs == [] then [] else BranchesOf(hs[0]) + Choices(hs[1..])
  }

  function AlternationOf(hs: seq<Hir>): Hir {
    if Choices(hs) == [] then Never
    else if |Choices(hs)| == 1 then Choices(hs)[0]
    else Alternation(Choices(hs))
  }

  lemma {:induction false} ChoicesOneMore(hs: seq<Hir>, h: Hir)
    ensures Choices(hs + [h]) == Choices(hs) + BranchesOf(h)
    decreases |hs|
  {
    hide BranchesOf;
    if hs == [] {
      assert [h][1..] == [];
      assert Choices([h]) == BranchesOf(h) + Choices([]);
      assert [] + [h] == [h];
    } else {
      assert (hs + [h])[0] == hs[0] && (hs + [h])[1..] == hs[1..] + [h];
      ChoicesOneMore(hs[1..], h);
    }
  }

  lemma BranchesOfMean(h: Hir)
    ensures SameAny([h], BranchesOf(h))
  {
    hide MatchesAny;
    match h
    case Never => NeverVanishes();
    case Alternation(nested) => AlternationFlattens(nested);
    case _ =>
  }

  lemma {:induction false} ChoicesMean(hs: seq<Hir>)
    ensures SameAny(hs, Choices(hs))
    decreases |hs|
  {
    hide MatchesAny, BranchesOf;
    if hs != [] {
      assert hs == [hs[0]] + hs[1..];
      BranchesOfMean(hs[0]);
      ChoicesMean(hs[1..]);
      SameAnyConcat([hs[0]], BranchesOf(hs[0]), hs[1..], Choices(hs[1..]));
    }
  }

  /** The normalised choice means one of the branches. */
  lemma AlternationOfMeans(hs: seq<Hir>, w: Text, c: Cursor, d: Cursor)
    ensures Matches(AlternationOf(hs), w, c, d) <==> MatchesAny(hs, w, c, d)
  {
    ChoicesMean(hs);
    if |Choices(hs)| == 1 {
      assert Choices(hs) == [Choices(hs)[0]];
      OneOfAny(Choices(hs)[0], w, c, d);
    } else if |Choices(hs)| > 1 {
      AlternationMeansAny(Choices(hs), w, c, d);
    }
  }

  ghost predicate InChoice(h: Hir) {
    Regular(h) && !h.Never? && !h.Alternation?
  }

  lemma {:induction false} ChoicesRegular(hs: seq<Hir>)
    requires AllRegular(hs)
    ensures forall h :: h in Choices(hs) ==> InChoice(h)
    decreases |hs|
  {
    if hs != [] {
      ChoicesRegular(hs[1..]);
    }
  }

  lemma {:induction false} ChoicesSolid(hs: seq<Hir>)
    requires AllSolid(hs)
    ensures forall h :: h in Choices(hs) ==> NoEmptySequence(h)
    decreases |hs|
  {
    if hs != [] {
      ChoicesSolid(hs[1..]);
    }
  }

  lemma AlternationOfRegular(hs: seq<Hir>)
    ensures AllRegular(hs) ==> Regular(AlternationOf(hs))
    ensures AllSolid(hs) ==> NoEmptySequence(AlternationOf(hs))
  {
    if AllRegular(hs) {
      ChoicesRegular(hs);
      assert Choices(hs) != [] ==> InChoice(Choices(hs)[0]);
    }
    if AllSolid(hs) {
      ChoicesSolid(hs);
    }
  }

  /** `Hir::alternation`: the loop builds the normalised choice. */
  method MakeAlternation(expressions: seq<Hir>) returns (r: Hir)
    ensures r == AlternationOf(expressions)
    ensures forall w, c, d :: Matches(r, w, c, d) <==> MatchesAny(expressions, w, c, d)
    ensures AllRegular(expressions) ==> Regular(r)
    ensures AllSolid(expressions) ==> NoEmptySequence(r)
  {
    hide MatchesAny, Regular, NoEmptySequence, Matches;
    var normalized: seq<Hir> := [];
    for k := 0 to |expressions|
      invariant normalized == Choices(expressions[..k])
    {
      var item := expressions[k];
      assert expressions[..k + 1] == expressions[..k] + [item];
      ChoicesOneMore(expressions[..k], item);
      match item
      case Never =>
      case Alternation(nested) => normalized := normalized + nested;
      case _ => normalized := normalized + [item];
    }
    assert expressions[..|expressions|] == expressions;
    if normalized == [] {
      r := Never;
    } else if |normalized| == 1 {
      r := normalized[0];
    } else {
      r := Alternation(normalized);
    }
    forall w, c, d ensures Matches(r, w, c, d) <==> MatchesAny(expressions, w, c, d) {
      AlternationOfMeans(expressions, w, c, d);
    }
    AlternationOfRegular(expressions);
  }

  // ---- Repetition ----------------------------------------------------------------------

  function MakeRepeat(h: Hir, min: U16, max: Option<U16>): Hir {
    if max == Some(0) || h == Epsilon || (h == Never && min == 0) then Epsilon
    else if h == Never then Never
    else if min == 1 && max == Some(1) then h
    else Repeat(h, min, max)
  }

  lemma {:induction false} EpsilonTimes(n: nat, w: Text, c: Cursor, d: Cursor)
    ensures MatchesTimes(Epsilon, n, w, c, d) <==> c == d
  {
    if n > 0 {
      EpsilonTimes(n - 1, w, c, d);
      if MatchesTimes(Epsilon, n, w, c, d) {
        var m := TimesWitness(Epsilon, n, w, c, d);
        EpsilonTimes(n - 1, w, m, d);
      }
      if c == d {
        assert Matches(Epsilon, w, c, c) && MatchesTimes(Epsilon, n - 1, w, c, d);
      }
    }
  }

  lemma NeverTimes(n: nat, w: Text, c: Cursor, d: Cursor)
    requires n > 0
    ensures !MatchesTimes(Never, n, w, c, d)
  {
    if MatchesTimes(Never, n, w, c, d) {
      var m := TimesWitness(Never, n, w, c, d);
    }
  }

  lemma CountedMatches(h: Hir, min: U16, max: Option<U16>, n: nat, w: Text, c: Cursor, d: Cursor)
    requires min <= n && (max.Some? ==> n <= max.value) && MatchesTimes(h, n, w, c, d)
    ensures Matches(Repeat(h, min, max), w, c, d)
  {
  }

  /** `Hir::repeat` keeps the meaning whenever the bounds are in order. */
  lemma RepeatPreserved(h: Hir, min: U16, max: Option<U16>, w: Text, c: Cursor, d: Cursor)
    requires max.Some? ==> min <= max.value
    ensures Matches(MakeRepeat(h, min, max), w, c, d) <==> Matches(Repeat(h, min, max), w, c, d)
    ensures Regular(h) && min <= MAX_COUNTED_REPETITION && (max.Some? ==> max.value <= MAX_COUNTED_REPETITION) ==>
              Regular(MakeRepeat(h, min, max))
  {
    hide MatchesTimes;
    if Matches(Repeat(h, min, max), w, c, d) {
      var n := CountWitness(h, min, max, w, c, d);
      if max == Some(0) { NoneIs(h, w, c, d); }
      else if h == Epsilon { EpsilonTimes(n, w, c, d); }
      else if h == Never { if n > 0 { NeverTimes(n, w, c, d); } else { NoneIs(h, w, c, d); } }
      else if min == 1 && max == Some(1) { OnceIs(h, w, c, d); }
    } else if Matches(MakeRepeat(h, min, max), w, c, d) {
      if max == Some(0) || h == Never { NoneIs(h, w, c, d); CountedMatches(h, min, max, 0, w, c, d); }
      else if h == Epsilon { EpsilonTimes(min, w, c, d); CountedMatches(h, min, max, min, w, c, d); }
      else if min == 1 && max == Some(1) { OnceIs(h, w, c, d); CountedMatches(h, min, max, 1, w, c, d); }
    }
  }

  /** With bounds out of order the repeat means nothing, and only two shortcuts get that wrong. */
  lemma RepeatExactlyWhen(h: Hir, min: U16, max: Option<U16>)
    ensures (forall w, c, d :: Matches(MakeRepeat(h, min, max), w, c, d) <==> Matches(Repeat(h, min, max), w, c, d))
       <==> (max.Some? && max.value < min ==> max != Some(0) && h != Epsilon)
  {
    hide MatchesTimes;
    if max.Some? && max.value < min {
      var r, c := MakeRepeat(h, min, max), Cursor(0, false);
      if max == Some(0) || h == Epsilon {
        NoCount(h, min, max, [], c, c);
        assert Matches(r, [], c, c);
      } else {
        forall w, c, d ensures !Matches(r, w, c, d) && !Matches(Repeat(h, min, max), w, c, d) {
          NoCount(h, min, max, w, c, d);
        }
      }
    } else {
      forall w, c, d ensures Matches(MakeRepeat(h, min, max), w, c, d) <==> Matches(Repeat(h, min, max), w, c, d) {
        RepeatPreserved(h, min, max, w, c, d);
      }
    }
  }

  lemma NoCount(h: Hir, min: U16, max: Option<U16>, w: Text, c: Cursor, d: Cursor)
    requires max.Some? && max.value < min
    ensures !Matches(Repeat(h, min, max), w, c, d)
  {
    hide MatchesTimes;
    if Matches(Repeat(h, min, max), w, c, d) {
      var n := CountWitness(h, min, max, w, c, d);
    }
  }

  lemma NoneIs(h: Hir, w: Text, c: Cursor, d: Cursor)
    ensures MatchesTimes(h, 0, w, c, d) <==> c == d
  {
  }
}
