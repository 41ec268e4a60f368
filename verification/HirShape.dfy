/**
 Which shapes the normalising constructors build (rustmatch/src/hir.rs:68-113): when the result
 is re-entrant, and when it is well shaped, from the same facts about what it is built of.
 */
module HirShape {
  import opened Base
  import opened HirSyntax
  import opened HirBuild
  import opened HirFacts

  // ---- Rows ----------------------------------------------------------------------------

  /** The first item that is not `Epsilon` is re-entrant. */
  predicate FirstReentrant(hs: seq<Hir>) {
    hs != [] && (Reentrant(hs[0]) || (hs[0] == Epsilon && FirstReentrant(hs[1..])))
  }

  ghost predicate AllEpsilon(hs: seq<Hir>) {
    forall k :: 0 <= k < |hs| ==> hs[k] == Epsilon
  }

  ghost predicate AllWellShaped(hs: seq<Hir>) {
    forall k :: 0 <= k < |hs| ==> WellShaped(hs[k])
  }

  lemma {:induction false} RowShape(hs: seq<Hir>)
    requires AllRegular(hs) && Never !in hs
    ensures Row(hs) == [] <==> AllEpsilon(hs)
    ensures Row(hs) != [] && Reentrant(Row(hs)[0]) <==> FirstReentrant(hs)
    ensures (forall h :: h in Row(hs) ==> WellShaped(h)) <==> AllWellShaped(hs)
    decreases |hs|
  {
    if hs != [] {
      RowShape(hs[1..]);
      ItemsShape(hs[0]);
      assert forall k :: 0 < k < |hs| ==> hs[k] == hs[1..][k - 1];
      assert AllWellShaped(hs) <==> WellShaped(hs[0]) && AllWellShaped(hs[1..]);
    }
  }

  lemma ItemsShape(h: Hir)
    requires Regular(h) && h != Never
    ensures ItemsOf(h) == [] <==> h == Epsilon
    ensures ItemsOf(h) != [] ==> (Reentrant(ItemsOf(h)[0]) <==> Reentrant(h))
    ensures (forall i :: i in ItemsOf(h) ==> WellShaped(i)) <==> WellShaped(h)
  {
  }

  /** The shape of a row, from the shapes of its items. */
  lemma SequenceShape(hs: seq<Hir>)
    requires AllRegular(hs)
    ensures SequenceOf(hs) == Never <==> Never in hs
    ensures SequenceOf(hs) == Epsilon <==> AllEpsilon(hs)
    ensures Reentrant(SequenceOf(hs)) <==> Never !in hs && FirstReentrant(hs)
    ensures WellShaped(SequenceOf(hs)) <==> Never in hs || AllWellShaped(hs)
  {
    if Never in hs {
      var k :| 0 <= k < |hs| && hs[k] == Never;
    } else {
      RowShape(hs);
      RowRegular(hs);
      assert Row(hs) != [] ==> InRow(Row(hs)[0]);
    }
  }

  // ---- Choices -------------------------------------------------------------------------

  /** The branches that can match at all. */
  function Live(hs: seq<Hir>): seq<Hir> {
    if hs == [] then [] else (if hs[0] == Never then [] else [hs[0]]) + Live(hs[1..])
  }

  ghost predicate SomeReentrant(hs: seq<Hir>) {
    exists k :: 0 <= k < |hs| && Reentrant(hs[k])
  }

  ghost predicate Plain(h: Hir) {
    WellShaped(h) && !Reentrant(h)
  }

  lemma BranchesShape(h: Hir)
    requires Regular(h) && h != Never
    ensures |BranchesOf(h)| >= 1 && (|BranchesOf(h)| == 1 ==> BranchesOf(h) == [h])
    ensures (exists b :: b in BranchesOf(h) && Reentrant(b)) <==> Reentrant(h)
    ensures (forall b :: b in BranchesOf(h) ==> Plain(b)) <==> Plain(h)
  {
  }

  lemma {:induction false} ChoicesShape(hs: seq<Hir>)
    requires AllRegular(hs)
    ensures |Choices(hs)| >= |Live(hs)| && (Live(hs) == [] ==> Choices(hs) == [])
    ensures (exists h :: h in Choices(hs) && Reentrant(h)) <==> SomeReentrant(hs)
    ensures (forall h :: h in Choices(hs) ==> Plain(h)) <==> forall k :: 0 <= k < |hs| ==> Plain(hs[k])
    decreases |hs|
  {
    hide Regular, Reentrant, WellShaped, BranchesOf, Plain;
    if hs != [] {
      ChoicesShape(hs[1..]);
      FirstBranches(hs[0]);
      assert SomeReentrant(hs) <==> Reentrant(hs[0]) || SomeReentrant(hs[1..]) by {
        assert forall k :: 0 < k < |hs| ==> hs[k] == hs[1..][k - 1];
        if k :| 0 <= k < |hs[1..]| && Reentrant(hs[1..][k]) {
          assert hs[k + 1] == hs[1..][k];
        }
      }
      assert forall k :: 0 < k < |hs| ==> hs[k] == hs[1..][k - 1];
      assert forall k :: 0 <= k < |hs[1..]| ==> hs[1..][k] == hs[k + 1];
    }
  }

  /** The same, `Never` included. */
  lemma FirstBranches(h: Hir)
    requires Regular(h)
    ensures h == Never ==> BranchesOf(h) == [] && Plain(h) && !Reentrant(h)
    ensures h != Never ==> |BranchesOf(h)| >= 1
    ensures (exists b :: b in BranchesOf(h) && Reentrant(b)) <==> Reentrant(h)
    ensures (forall b :: b in BranchesOf(h) ==> Plain(b)) <==> Plain(h)
  {
    if h != Never {
      BranchesShape(h);
    }
  }

  lemma {:induction false} OnlyLive(hs: seq<Hir>)
    requires AllRegular(hs) && |Live(hs)| <= 1
    ensures Live(hs) == [] ==> forall k :: 0 <= k < |hs| ==> hs[k] == Never
    ensures Live(hs) != [] ==>
              && Live(hs)[0] != Never && Live(hs)[0] in hs && Choices(hs) == BranchesOf(Live(hs)[0])
              && forall k :: 0 <= k < |hs| ==> hs[k] == Never || hs[k] == Live(hs)[0]
    decreases |hs|
  {
    hide Regular, BranchesOf, SomeReentrant, Plain, Reentrant;
    if hs != [] {
      var rest := hs[1..];
      OnlyLive(rest);
      assert forall k :: 0 < k < |hs| ==> hs[k] == rest[k - 1];
      if hs[0] == Never {
        FirstBranches(hs[0]);
        assert Choices(hs) == Choices(rest) && Live(hs) == Live(rest);
      } else {
        ChoicesShape(rest);
        assert Live(rest) == [] && Choices(rest) == [];
      }
    }
  }

  /** The shape of a choice, from the shapes of its branches. */
  lemma AlternationShape(hs: seq<Hir>)
    requires AllRegular(hs)
    ensures AlternationOf(hs) == Never <==> Live(hs) == []
    ensures AlternationOf(hs) == Epsilon <==> Live(hs) == [Epsilon]
    ensures Reentrant(AlternationOf(hs)) <==> SomeReentrant(hs)
    ensures WellShaped(AlternationOf(hs)) <==> AllWellShaped(hs) && (|Live(hs)| >= 2 ==> !SomeReentrant(hs))
  {
    hide Regular;
    ChoicesShape(hs);
    if |Live(hs)| <= 1 {
      OnlyLive(hs);
      if Live(hs) != [] {
        var h := Live(hs)[0];
        var k :| 0 <= k < |hs| && hs[k] == h;
        BranchesShape(h);
        assert AlternationOf(hs) == h by { OneChoice(h, Choices(hs)); }
      }
    } else {
      forall k | 0 <= k < |hs| ensures Plain(hs[k]) <==> WellShaped(hs[k]) && !Reentrant(hs[k]) {
      }
    }
  }

  lemma OneChoice(h: Hir, choices: seq<Hir>)
    requires Regular(h) && h != Never && choices == BranchesOf(h)
    ensures choices != [] && h == if |choices| == 1 then choices[0] else Alternation(choices)
  {
  }

  // ---- What holds whatever the pieces are ------------------------------------------------

  /** Rows of well-shaped items are well shaped. */
  lemma {:induction false} SequenceKeepsShape(hs: seq<Hir>)
    requires AllWellShaped(hs)
    ensures WellShaped(SequenceOf(hs)) && forall h :: h in Row(hs) ==> WellShaped(h)
    decreases |hs|
  {
    if hs != [] {
      SequenceKeepsShape(hs[1..]);
      assert forall h :: h in ItemsOf(hs[0]) ==> WellShaped(h);
      assert Row(hs) != [] ==> Row(hs)[0] in Row(hs);
    }
  }

  /** Choices of well-shaped branches none of which is re-entrant are the same. */
  lemma {:induction false} AlternationKeepsShape(hs: seq<Hir>)
    ensures AllWellShaped(hs) && !SomeReentrant(hs) ==> WellShaped(AlternationOf(hs))
    ensures Reentrant(AlternationOf(hs)) ==> SomeReentrant(hs)
    ensures (exists h :: h in Choices(hs) && Reentrant(h)) ==> SomeReentrant(hs)
    ensures AllWellShaped(hs) ==> forall h :: h in Choices(hs) ==> WellShaped(h)
    decreases |hs|
  {
    hide WellShaped, Reentrant;
    if hs != [] {
      AlternationKeepsShape(hs[1..]);
      assert forall h :: h in Choices(hs) <==> h in BranchesOf(hs[0]) || h in Choices(hs[1..]);
      BranchesKeepShape(hs[0]);
      assert SomeReentrant(hs[1..]) ==> SomeReentrant(hs) by {
        if k :| 0 <= k < |hs[1..]| && Reentrant(hs[1..][k]) {
          assert hs[k + 1] == hs[1..][k];
        }
      }
      assert AllWellShaped(hs) ==> WellShaped(hs[0]) && AllWellShaped(hs[1..]);
      assert Choices(hs) != [] ==> Choices(hs)[0] in Choices(hs);
    }
    ChoiceShape(Choices(hs));
  }

  lemma BranchesKeepShape(h: Hir)
    ensures (exists b :: b in BranchesOf(h) && Reentrant(b)) ==> Reentrant(h)
    ensures WellShaped(h) ==> forall b :: b in BranchesOf(h) ==> WellShaped(b)
  {
  }

  lemma ChoiceShape(choices: seq<Hir>)
    ensures !Reentrant(Never) && WellShaped(Never)
    ensures Reentrant(Alternation(choices)) <==> exists h :: h in choices && Reentrant(h)
    ensures WellShaped(Alternation(choices)) <==>
            && (forall h :: h in choices ==> WellShaped(h))
            && (|choices| >= 2 ==> forall h :: h in choices ==> !Reentrant(h))
  {
  }

  // ---- Repetitions ---------------------------------------------------------------------

  /** The shape of a repetition, from that of its body. */
  lemma RepeatShape(h: Hir, min: U16, max: Option<U16>)
    requires max != Some(0)
    ensures MakeRepeat(h, min, max) == Never <==> h == Never && min > 0
    ensures MakeRepeat(h, min, max) == Epsilon <==> h == Epsilon || (h == Never && min == 0)
    ensures Reentrant(MakeRepeat(h, min, max)) <==>
            h != Never && h != Epsilon && ((min == 0 && max.None?) || Reentrant(h))
    ensures WellShaped(MakeRepeat(h, min, max)) <==> WellShaped(h) && (max != Some(min) ==> !Reentrant(h))
  {
  }

  // ---- Choices by index ------------------------------------------------------------------

  ghost predicate AllNever(hs: seq<Hir>) {
    forall k :: 0 <= k < |hs| ==> hs[k] == Never
  }

  ghost predicate TwoAlive(hs: seq<Hir>) {
    exists j, k :: 0 <= j < k < |hs| && hs[j] != Never && hs[k] != Never
  }

  ghost predicate OneIs(hs: seq<Hir>, h: Hir) {
    exists k :: 0 <= k < |hs| && hs[k] == h && forall j :: 0 <= j < |hs| && j != k ==> hs[j] == Never
  }

  lemma {:induction false} LiveByIndex(hs: seq<Hir>, h: Hir)
    requires h != Never
    ensures Live(hs) == [] <==> AllNever(hs)
    ensures Live(hs) == [h] <==> OneIs(hs, h)
    ensures |Live(hs)| >= 2 <==> TwoAlive(hs)
    decreases |hs|
  {
    if hs != [] {
      LiveByIndex(hs[1..], h);
      var rest := hs[1..];
      assert forall k :: 0 < k < |hs| ==> hs[k] == rest[k - 1];
      assert AllNever(hs) <==> hs[0] == Never && AllNever(rest) by {
        assert forall k :: 0 <= k < |rest| ==> rest[k] == hs[k + 1];
      }
      OneIsStep(hs, h);
      TwoAliveStep(hs);
    }
  }

  lemma OneIsStep(hs: seq<Hir>, h: Hir)
    requires hs != [] && h != Never
    ensures OneIs(hs, h) <==> if hs[0] == Never then OneIs(hs[1..], h) else hs[0] == h && AllNever(hs[1..])
  {
    if OneIs(hs, h) {
      OneIsDown(hs, h);
    }
    if hs[0] == Never && OneIs(hs[1..], h) {
      OneIsUp(hs, h);
    }
    if hs[0] == h && AllNever(hs[1..]) {
      assert forall k :: 0 < k < |hs| ==> hs[k] == hs[1..][k - 1];
      assert hs[0] == h && forall j :: 0 <= j < |hs| && j != 0 ==> hs[j] == Never;
    }
  }

  lemma OneIsDown(hs: seq<Hir>, h: Hir)
    requires hs != [] && h != Never && OneIs(hs, h)
    ensures if hs[0] == Never then OneIs(hs[1..], h) else hs[0] == h && AllNever(hs[1..])
  {
    var rest := hs[1..];
    var k :| 0 <= k < |hs| && hs[k] == h && forall j :: 0 <= j < |hs| && j != k ==> hs[j] == Never;
    forall j | 0 <= j < |rest| && j != k - 1 ensures rest[j] == Never {
      assert rest[j] == hs[j + 1];
    }
    if k > 0 {
      assert rest[k - 1] == h;
    }
  }

  lemma OneIsUp(hs: seq<Hir>, h: Hir)
    requires hs != [] && hs[0] == Never && OneIs(hs[1..], h)
    ensures OneIs(hs, h)
  {
    var rest := hs[1..];
    var k :| 0 <= k < |rest| && rest[k] == h && forall j :: 0 <= j < |rest| && j != k ==> rest[j] == Never;
    forall j | 0 <= j < |hs| && j != k + 1 ensures hs[j] == Never {
      assert j > 0 ==> hs[j] == rest[j - 1];
    }
    assert hs[k + 1] == h;
  }

  lemma TwoAliveStep(hs: seq<Hir>)
    requires hs != []
    ensures TwoAlive(hs) <==> TwoAlive(hs[1..]) || (hs[0] != Never && !AllNever(hs[1..]))
  {
    var rest := hs[1..];
    assert forall k :: 0 <= k < |rest| ==> rest[k] == hs[k + 1];
    if TwoAlive(hs) {
      var j, k :| 0 <= j < k < |hs| && hs[j] != Never && hs[k] != Never;
      assert rest[k - 1] != Never;
      if j > 0 {
        assert rest[j - 1] != Never;
      }
    }
    if TwoAlive(rest) {
      var j, k :| 0 <= j < k < |rest| && rest[j] != Never && rest[k] != Never;
      assert hs[j + 1] != Never && hs[k + 1] != Never;
    }
    if hs[0] != Never && !AllNever(rest) {
      var k :| 0 <= k < |rest| && rest[k] != Never;
      assert hs[k + 1] != Never;
    }
  }

  // ---- Words -----------------------------------------------------------------------------

  /** No word is spelled at all. */
  predicate Mute(h: Hir) {
    MinimumConsumed(h).None?
  }

  lemma {:induction false} RegularIsWellFormed(h: Hir)
    requires Regular(h)
    ensures WellFormed(h)
  {
    match h
    case Sequence(items) => forall i | i in items ensures WellFormed(i) { RegularIsWellFormed(i); }
    case Alternation(branches) => forall b | b in branches ensures WellFormed(b) { RegularIsWellFormed(b); }
    case Repeat(body, _, _) => RegularIsWellFormed(body);
    case _ =>
  }

  /** How the three questions the parser asks about words hang together. */
  lemma Words(h: Hir)
    requires Regular(h)
    ensures ZeroWidthOnly(h) <==> Nullable(h) && !CanConsume(h)
    ensures !CanConsume(h) <==> ZeroWidthOnly(h) || Mute(h)
    ensures Nullable(h) ==> !Mute(h)
  {
    hide Spells, CanConsume, Nullable, MinimumConsumed, Regular, WellFormed;
    RegularIsWellFormed(h);
    ZeroWidthIsExact(h);
    NullableIsExact(h);
    MinimumIsExact(h);
    CanConsumeIsExact(h);
  }

  lemma {:induction false} AllMinimum(items: seq<Hir>, total: nat)
    ensures MinimumOfAll(items, total).None? <==> exists h :: h in items && Mute(h)
    decreases |items|
  {
    if items != [] {
      assert forall h :: h in items <==> h == items[0] || h in items[1..];
      var first := MinimumConsumed(items[0]);
      assert Mute(items[0]) <==> first.None?;
      if first.Some? {
        AllMinimum(items[1..], Saturate(total + first.value));
      }
    }
  }

  lemma {:induction false} AnyMinimum(branches: seq<Hir>)
    ensures MinimumOfAny(branches).None? <==> forall h :: h in branches ==> Mute(h)
    decreases |branches|
  {
    if branches != [] {
      assert forall h :: h in branches <==> h == branches[0] || h in branches[1..];
      assert Mute(branches[0]) <==> MinimumConsumed(branches[0]).None?;
      AnyMinimum(branches[1..]);
    }
  }

  lemma RowWords(items: seq<Hir>)
    requires Regular(Sequence(items))
    ensures Mute(Sequence(items)) <==> exists h :: h in items && Mute(h)
    ensures ZeroWidthOnly(Sequence(items)) <==> forall h :: h in items ==> ZeroWidthOnly(h)
  {
    hide ZeroWidthOnly, Mute;
    AllMinimum(items, 0);
    Words(Sequence(items));
    forall h | h in items ensures ZeroWidthOnly(h) <==> Nullable(h) && !CanConsume(h) {
      Words(h);
    }
    assert Mute(Sequence(items)) <==> MinimumConsumed(Sequence(items)).None? by { MuteIs(Sequence(items)); }
  }

  lemma MuteIs(h: Hir)
    ensures Mute(h) <==> MinimumConsumed(h).None?
  {
  }

  predicate AllMute(hs: seq<Hir>) {
    forall h :: h in hs ==> Mute(h)
  }

  predicate NoWeight(hs: seq<Hir>) {
    forall h :: h in hs ==> ZeroWidthOnly(h) || Mute(h)
  }

  lemma ChoiceWords(branches: seq<Hir>)
    requires Regular(Alternation(branches))
    ensures Mute(Alternation(branches)) <==> AllMute(branches)
    ensures ZeroWidthOnly(Alternation(branches)) <==> NoWeight(branches) && !AllMute(branches)
  {
    hide ZeroWidthOnly, Mute;
    AnyMinimum(branches);
    MuteIs(Alternation(branches));
    Words(Alternation(branches));
    forall h | h in branches
      ensures ZeroWidthOnly(h) <==> Nullable(h) && !CanConsume(h)
      ensures !CanConsume(h) <==> ZeroWidthOnly(h) || Mute(h)
      ensures Nullable(h) ==> !Mute(h)
    {
      Words(h);
    }
  }

  ghost predicate SomeMute(hs: seq<Hir>) {
    exists k :: 0 <= k < |hs| && Mute(hs[k])
  }

  ghost predicate AllWeightless(hs: seq<Hir>) {
    forall k :: 0 <= k < |hs| ==> ZeroWidthOnly(hs[k])
  }

  lemma ItemsWords(h: Hir)
    requires Regular(h) && h != Never
    ensures (exists i :: i in ItemsOf(h) && Mute(i)) <==> Mute(h)
    ensures (forall i :: i in ItemsOf(h) ==> ZeroWidthOnly(i)) <==> ZeroWidthOnly(h)
  {
    hide Mute, ZeroWidthOnly;
    match h
    case Sequence(items) => RowWords(items);
    case Epsilon => EpsilonWords();
    case Never =>
    case _ =>
      assert ItemsOf(h) == [h];
      assert h in ItemsOf(h);
  }

  lemma EpsilonWords()
    ensures !Mute(Epsilon) && ZeroWidthOnly(Epsilon) && Mute(Never) && !ZeroWidthOnly(Never)
  {
  }

  lemma {:induction false} RowOfWords(hs: seq<Hir>)
    requires AllRegular(hs) && Never !in hs
    ensures (exists h :: h in Row(hs) && Mute(h)) <==> SomeMute(hs)
    ensures (forall h :: h in Row(hs) ==> ZeroWidthOnly(h)) <==> AllWeightless(hs)
    decreases |hs|
  {
    hide Mute, ZeroWidthOnly, Regular, ItemsOf;
    if hs != [] {
      RowOfWords(hs[1..]);
      ItemsWords(hs[0]);
      var rest := hs[1..];
      assert forall h :: h in Row(hs) <==> h in ItemsOf(hs[0]) || h in Row(rest);
      assert forall k :: 0 <= k < |rest| ==> rest[k] == hs[k + 1];
      assert forall k :: 0 < k < |hs| ==> hs[k] == rest[k - 1];
      assert AllWeightless(hs) <==> ZeroWidthOnly(hs[0]) && AllWeightless(rest);
      assert SomeMute(rest) ==> SomeMute(hs) by {
        if k :| 0 <= k < |rest| && Mute(rest[k]) {
          assert hs[k + 1] == rest[k];
        }
      }
      assert SomeMute(hs) <==> Mute(hs[0]) || SomeMute(rest);
    }
  }

  /** The words of a row, from those of its items. */
  lemma SequenceWords(hs: seq<Hir>)
    requires AllRegular(hs)
    ensures Mute(SequenceOf(hs)) <==> SomeMute(hs)
    ensures ZeroWidthOnly(SequenceOf(hs)) <==> AllWeightless(hs)
  {
    hide Mute, ZeroWidthOnly, Regular, Row;
    EpsilonWords();
    if Never in hs {
      var k :| 0 <= k < |hs| && hs[k] == Never;
      assert Mute(hs[k]);
    } else {
      RowOfWords(hs);
      SequenceOfRegular(hs);
      var row := Row(hs);
      if |row| >= 2 {
        RowWords(row);
      } else if |row| == 1 {
        assert forall h :: h in row <==> h == row[0];
      }
    }
  }

  lemma BranchWords(h: Hir)
    requires Regular(h)
    ensures AllMute(BranchesOf(h)) <==> Mute(h)
    ensures NoWeight(BranchesOf(h)) <==> ZeroWidthOnly(h) || Mute(h)
  {
    hide Mute, ZeroWidthOnly;
    match h
    case Alternation(branches) =>
      Words(h);
      ChoiceWords(branches);
      MuteIs(h);
    case Never => EpsilonWords();
    case _ =>
      assert BranchesOf(h) == [h];
      assert h in BranchesOf(h);
  }

  lemma {:induction false} ChoicesWords(hs: seq<Hir>)
    requires AllRegular(hs)
    ensures AllMute(Choices(hs)) <==> AllMute(hs)
    ensures NoWeight(Choices(hs)) <==> NoWeight(hs)
    decreases |hs|
  {
    hide Mute, ZeroWidthOnly, Regular, BranchesOf;
    if hs != [] {
      ChoicesWords(hs[1..]);
      BranchWords(hs[0]);
      assert forall h :: h in Choices(hs) <==> h in BranchesOf(hs[0]) || h in Choices(hs[1..]);
      assert forall h :: h in hs <==> h == hs[0] || h in hs[1..];
    }
  }

  /** The words of a choice, from those of its branches. */
  lemma AlternationWords(hs: seq<Hir>)
    requires AllRegular(hs)
    ensures Mute(AlternationOf(hs)) <==> AllMute(hs)
    ensures ZeroWidthOnly(AlternationOf(hs)) <==> NoWeight(hs) && !AllMute(hs)
  {
    hide Mute, ZeroWidthOnly, Regular, Choices;
    ChoicesWords(hs);
    AlternationOfRegular(hs);
    var choices := Choices(hs);
    if choices == [] {
      EpsilonWords();
    } else if |choices| == 1 {
      assert forall h :: h in choices <==> h == choices[0];
      NotBoth(choices[0]);
    } else {
      ChoiceWords(choices);
    }
  }

  lemma NotBoth(h: Hir)
    requires Regular(h)
    ensures !(ZeroWidthOnly(h) && Mute(h))
  {
    Words(h);
  }

  /** The words of a repetition, from those of its body. */
  lemma RepeatWords(h: Hir, min: U16, max: Option<U16>)
    requires Regular(h) && max != Some(0) && Regular(MakeRepeat(h, min, max))
    ensures Mute(MakeRepeat(h, min, max)) <==> Mute(h) && min > 0
    ensures ZeroWidthOnly(MakeRepeat(h, min, max)) <==> ZeroWidthOnly(h) || (Mute(h) && min == 0)
  {
    var r := MakeRepeat(h, min, max);
    if r == Repeat(h, min, max) {
      Words(h);
      Words(r);
    } else {
      EpsilonWords();
      NotBoth(h);
    }
  }
}
