/**
 What the compiled form of an expression means, written as another expression: the automaton
 of `h` accepts exactly the meaning of `Read(h)`, for every `h`.  Where `Read(h)` and `h`
 differ in meaning is where sharing states changes the language.
 */
module Reading {
  import opened Base
  import opened Assertions
  import opened HirSyntax
  import opened Meaning
  import opened CompiledMeaning
  import opened HirBuild

  /** The expression for coming back to the entry state. */
  function Back(h: Hir): Hir
    decreases h, 0
  {
    match h
    case Sequence(items) => if items == [] then Epsilon else Back(items[0])
    case Alternation(branches) => Repeat(Alternation(Backs(branches)), 0, None)
    case Repeat(body, min, max) =>
      if min == 0 && max.None? then Repeat(Alternation([Back(body), Read(body)]), 0, None)
      else if min == 0 && max == Some(0) then Epsilon
      else Back(body)
    case _ => Epsilon
  }

  /** The expression for running to the exit state. */
  function Read(h: Hir): Hir
    decreases h, 1
  {
    match h
    case Sequence(items) => if items == [] then Never else Sequence(Reads(items))
    case Alternation(branches) => Sequence([Back(h), Alternation(Reads(branches))])
    case Repeat(body, min, max) => Sequence([Repeat(Read(body), min, Some(min)), ReadTail(body, min, max)])
    case _ => h
  }

  function ReadTail(body: Hir, min: nat, max: Option<U16>): Hir
    decreases body, 3
  {
    match max
    case None => Repeat(Alternation([Back(body), Read(body)]), 0, None)
    case Some(limit) =>
      if limit == min then Epsilon
      else if limit < min then Never
      else ReadUpTo(Back(body), Read(body), limit - min)
  }

  function ReadUpTo(back: Hir, read: Hir, n: nat): Hir {
    if n == 0 then Epsilon else Alternation([back, Sequence([read, ReadUpTo(back, read, n - 1)])])
  }

  function Backs(hs: seq<Hir>): (r: seq<Hir>)
    ensures |r| == |hs| && forall k :: 0 <= k < |hs| ==> r[k] == Back(hs[k])
    decreases hs, 0
  {
    if hs == [] then [] else [Back(hs[0])] + Backs(hs[1..])
  }

  function Reads(hs: seq<Hir>): (r: seq<Hir>)
    ensures |r| == |hs| && forall k :: 0 <= k < |hs| ==> r[k] == Read(hs[k])
    decreases hs, 0
  {
    if hs == [] then [] else [Read(hs[0])] + Reads(hs[1..])
  }

  // ---- Small expressions ---------------------------------------------------------------

  lemma TwoInRow(a: Hir, b: Hir, w: Text, c: Cursor, d: Cursor)
    ensures Matches(Sequence([a, b]), w, c, d) <==> exists m :: Matches(a, w, c, m) && Matches(b, w, m, d)
  {
    var hs := [a, b];
    assert hs[1..] == [b] && hs[0] == a;
    if MatchesAll(hs, w, c, d) {
      var m := AllWitness(hs, w, c, d);
      OneOfAll(b, w, m, d);
    }
    if m :| Matches(a, w, c, m) && Matches(b, w, m, d) {
      OneOfAll(b, w, m, d);
      assert Matches(hs[0], w, c, m) && MatchesAll(hs[1..], w, m, d);
    }
  }

  lemma EitherOf(a: Hir, b: Hir, w: Text, c: Cursor, d: Cursor)
    ensures Matches(Alternation([a, b]), w, c, d) <==> Matches(a, w, c, d) || Matches(b, w, c, d)
  {
    var hs := [a, b];
    assert hs[0] == a && hs[1] == b;
    AlternationMeansAny(hs, w, c, d);
  }

  ghost predicate AnyTimes(h: Hir, w: Text, c: Cursor, d: Cursor) {
    exists n: nat :: MatchesTimes(h, n, w, c, d)
  }

  lemma StarMeans(h: Hir, w: Text, c: Cursor, d: Cursor)
    ensures Matches(Repeat(h, 0, None), w, c, d) <==> AnyTimes(h, w, c, d)
  {
    if Matches(Repeat(h, 0, None), w, c, d) {
      var n := CountWitness(h, 0, None, w, c, d);
    }
    if AnyTimes(h, w, c, d) {
      var n: nat :| MatchesTimes(h, n, w, c, d);
      CountedMatches(h, 0, None, n, w, c, d);
    }
  }

  lemma TwoWitness(a: Hir, b: Hir, w: Text, c: Cursor, d: Cursor) returns (m: Cursor)
    requires Matches(Sequence([a, b]), w, c, d)
    ensures Matches(a, w, c, m) && Matches(b, w, m, d)
  {
    TwoInRow(a, b, w, c, d);
    m :| Matches(a, w, c, m) && Matches(b, w, m, d);
  }

  lemma TwoFrom(a: Hir, b: Hir, w: Text, c: Cursor, m: Cursor, d: Cursor)
    requires Matches(a, w, c, m) && Matches(b, w, m, d)
    ensures Matches(Sequence([a, b]), w, c, d)
  {
    var hs := [a, b];
    assert hs[1..] == [b] && hs[0] == a;
    OneOfAll(b, w, m, d);
    assert Matches(hs[0], w, c, m) && MatchesAll(hs[1..], w, m, d);
  }

  lemma LastRound(h: Hir, n: nat, w: Text, c: Cursor, d: Cursor) returns (x: Cursor)
    requires n > 0 && MatchesTimes(h, n, w, c, d)
    ensures MatchesTimes(h, n - 1, w, c, x) && Matches(h, w, x, d)
  {
    x := MatchesTimesSplit(h, n - 1, n, w, c, d);
    OnceIs(h, w, x, d);
  }

  lemma AddRound(h: Hir, n: nat, w: Text, c: Cursor, x: Cursor, d: Cursor)
    requires n > 0 && MatchesTimes(h, n - 1, w, c, x) && Matches(h, w, x, d)
    ensures MatchesTimes(h, n, w, c, d)
  {
    OnceIs(h, w, x, d);
    MatchesTimesJoin(h, n - 1, 1, w, c, x, d);
  }

  lemma ChoiceFrom(readings: seq<Hir>, k: nat, w: Text, c: Cursor, d: Cursor)
    requires k < |readings| && Matches(readings[k], w, c, d)
    ensures Matches(Alternation(readings), w, c, d)
  {
    AlternationMeansAny(readings, w, c, d);
  }

  lemma ChoiceWitness(readings: seq<Hir>, w: Text, c: Cursor, d: Cursor) returns (k: nat)
    requires Matches(Alternation(readings), w, c, d)
    ensures k < |readings| && Matches(readings[k], w, c, d)
  {
    AlternationMeansAny(readings, w, c, d);
    k :| 0 <= k < |readings| && Matches(readings[k], w, c, d);
  }

  lemma ExactlyMeans(h: Hir, min: U16, w: Text, c: Cursor, d: Cursor)
    ensures Matches(Repeat(h, min, Some(min)), w, c, d) <==> MatchesTimes(h, min, w, c, d)
  {
    if Matches(Repeat(h, min, Some(min)), w, c, d) {
      var n := CountWitness(h, min, Some(min), w, c, d);
    }
    if MatchesTimes(h, min, w, c, d) {
      CountedMatches(h, min, Some(min), min, w, c, d);
    }
  }

  // ---- The two readings are exact ------------------------------------------------------

  lemma {:induction false} BackMeans(h: Hir, w: Text, c: Cursor, d: Cursor)
    ensures Returns(h, w, c, d) <==> Matches(Back(h), w, c, d)
    decreases h, 0, 0
  {
    match h
    case Sequence(items) => if items != [] { BackMeans(items[0], w, c, d); }
    case Alternation(branches) =>
      LapsMean(branches, w, c, d);
      assert Returns(h, w, c, d) <==> ManyBranchLaps(branches, w, c, d);
    case Repeat(body, min, max) =>
      if min == 0 && max.None? {
        RoundsMean(body, w, c, d);
        assert Returns(h, w, c, d) <==> ManyBodyRounds(body, w, c, d);
      } else if min > 0 || max != Some(0) {
        BackMeans(body, w, c, d);
      }
    case _ =>
  }

  lemma {:induction false} LapsMean(branches: seq<Hir>, w: Text, c: Cursor, d: Cursor)
    ensures ManyBranchLaps(branches, w, c, d) <==> Matches(Repeat(Alternation(Backs(branches)), 0, None), w, c, d)
    decreases branches, 2
  {
    hide Matches, MatchesTimes, BranchLaps;
    var lap := Alternation(Backs(branches));
    StarMeans(lap, w, c, d);
    if ManyBranchLaps(branches, w, c, d) {
      var n := ManyBranchLapsWitness(branches, w, c, d);
      LapsRead(branches, n, w, c, d);
    }
    if AnyTimes(lap, w, c, d) {
      var n: nat :| MatchesTimes(lap, n, w, c, d);
      LapsBack(branches, n, w, c, d);
    }
  }

  lemma {:induction false} LapsRead(branches: seq<Hir>, n: nat, w: Text, c: Cursor, d: Cursor)
    requires BranchLaps(branches, n, w, c, d)
    ensures MatchesTimes(Alternation(Backs(branches)), n, w, c, d)
    decreases branches, 1, n
  {
    if n > 0 {
      hide MatchesTimes, Matches;
      var x, b := BranchLapsWitness(branches, n, w, c, d);
      LapsRead(branches, n - 1, w, c, x);
      var k :| 0 <= k < |branches| && branches[k] == b;
      BackMeans(branches[k], w, x, d);
      ChoiceFrom(Backs(branches), k, w, x, d);
      AddRound(Alternation(Backs(branches)), n, w, c, x, d);
    }
  }

  lemma {:induction false} LapsBack(branches: seq<Hir>, n: nat, w: Text, c: Cursor, d: Cursor)
    requires MatchesTimes(Alternation(Backs(branches)), n, w, c, d)
    ensures BranchLaps(branches, n, w, c, d)
    decreases branches, 1, n
  {
    hide Matches, MatchesTimes, Returns, BranchLaps, Back;
    if n == 0 {
      NoLap(branches, w, c, d);
    } else {
      var x := LastRound(Alternation(Backs(branches)), n, w, c, d);
      LapsBack(branches, n - 1, w, c, x);
      var k := ChoiceWitness(Backs(branches), w, x, d);
      BackMeans(branches[k], w, x, d);
      LapFrom(branches, n, k, w, c, x, d);
    }
  }

  lemma NoLap(branches: seq<Hir>, w: Text, c: Cursor, d: Cursor)
    requires MatchesTimes(Alternation(Backs(branches)), 0, w, c, d)
    ensures BranchLaps(branches, 0, w, c, d)
  {
  }

  lemma LapFrom(branches: seq<Hir>, n: nat, k: nat, w: Text, c: Cursor, x: Cursor, d: Cursor)
    requires n > 0 && k < |branches| && BranchLaps(branches, n - 1, w, c, x) && Returns(branches[k], w, x, d)
    ensures BranchLaps(branches, n, w, c, d)
  {
    hide Returns;
    assert branches[k] in branches;
  }

  lemma {:induction false} RoundsMean(body: Hir, w: Text, c: Cursor, d: Cursor)
    ensures ManyBodyRounds(body, w, c, d) <==> Matches(Repeat(Alternation([Back(body), Read(body)]), 0, None), w, c, d)
    decreases body, 4
  {
    hide Matches, MatchesTimes, BodyRounds;
    var round := Alternation([Back(body), Read(body)]);
    StarMeans(round, w, c, d);
    if ManyBodyRounds(body, w, c, d) {
      var n := ManyBodyRoundsWitness(body, w, c, d);
      RoundsTimes(body, n, w, c, d);
    }
    if AnyTimes(round, w, c, d) {
      var n: nat :| MatchesTimes(round, n, w, c, d);
      RoundsTimes(body, n, w, c, d);
    }
  }

  lemma RoundMeans(body: Hir, w: Text, x: Cursor, d: Cursor)
    ensures Matches(Alternation([Back(body), Read(body)]), w, x, d) <==> Returns(body, w, x, d) || Exits(body, w, x, d)
    decreases body, 2
  {
    hide Matches;
    hide Returns;
    hide Exits;
    BackMeans(body, w, x, d);
    ReadMeans(body, w, x, d);
    EitherOf(Back(body), Read(body), w, x, d);
  }

  lemma RoundsFrom(body: Hir, n: nat, w: Text, c: Cursor, x: Cursor, d: Cursor)
    requires n > 0 && BodyRounds(body, n - 1, w, c, x) && (Returns(body, w, x, d) || Exits(body, w, x, d))
    ensures BodyRounds(body, n, w, c, d)
  {
    hide Returns;
    hide Exits;
  }

  lemma {:induction false} RoundsTimes(body: Hir, n: nat, w: Text, c: Cursor, d: Cursor)
    ensures BodyRounds(body, n, w, c, d) <==> MatchesTimes(Alternation([Back(body), Read(body)]), n, w, c, d)
    decreases body, 3, n
  {
    var round := Alternation([Back(body), Read(body)]);
    if n > 0 {
      hide Matches;
      hide MatchesTimes;
      hide Returns;
      hide Exits;
      hide BodyRounds;
      if BodyRounds(body, n, w, c, d) {
        var x := BodyRoundsWitness(body, n, w, c, d);
        RoundsTimes(body, n - 1, w, c, x);
        RoundMeans(body, w, x, d);
        AddRound(round, n, w, c, x, d);
      }
      if MatchesTimes(round, n, w, c, d) {
        var x := LastRound(round, n, w, c, d);
        RoundsTimes(body, n - 1, w, c, x);
        RoundMeans(body, w, x, d);
        RoundsFrom(body, n, w, c, x, d);
      }
    }
  }

  /** The compiled form of any expression accepts exactly what its reading means. */
  lemma {:induction false} ReadMeans(h: Hir, w: Text, c: Cursor, d: Cursor)
    ensures Exits(h, w, c, d) <==> Matches(Read(h), w, c, d)
    decreases h, 1
  {
    match h
    case Sequence(items) => if items != [] { ReadsMean(items, w, c, d); }
    case Alternation(branches) => ReadAlternation(branches, w, c, d);
    case Repeat(body, min, max) => ReadRepeat(body, min, max, w, c, d);
    case _ =>
  }

  lemma {:induction false} ReadsMean(items: seq<Hir>, w: Text, c: Cursor, d: Cursor)
    ensures ExitsAll(items, w, c, d) <==> MatchesAll(Reads(items), w, c, d)
    decreases items, 1
  {
    var readings := Reads(items);
    if items != [] {
      assert readings[1..] == Reads(items[1..]);
      if ExitsAll(items, w, c, d) {
        var m := ExitsAllWitness(items, w, c, d);
        ReadMeans(items[0], w, c, m);
        ReadsMean(items[1..], w, m, d);
        assert Matches(readings[0], w, c, m) && MatchesAll(readings[1..], w, m, d);
      }
      if MatchesAll(readings, w, c, d) {
        var m := AllWitness(readings, w, c, d);
        ReadMeans(items[0], w, c, m);
        ReadsMean(items[1..], w, m, d);
        ExitsAllFrom(items, w, c, m, d);
      }
    }
  }

  lemma {:induction false} ReadAlternation(branches: seq<Hir>, w: Text, c: Cursor, d: Cursor)
    ensures Exits(Alternation(branches), w, c, d) <==> Matches(Read(Alternation(branches)), w, c, d)
    decreases Alternation(branches), 0, 1
  {
    hide Matches;
    var h, choice := Alternation(branches), Alternation(Reads(branches));
    if Exits(h, w, c, d) {
      var m, b := AlternationWitness(branches, w, c, d);
      var k :| 0 <= k < |branches| && branches[k] == b;
      BackMeans(h, w, c, m);
      ReadMeans(branches[k], w, m, d);
      ChoiceFrom(Reads(branches), k, w, m, d);
      TwoFrom(Back(h), choice, w, c, m, d);
    }
    if Matches(Sequence([Back(h), choice]), w, c, d) {
      var m := TwoWitness(Back(h), choice, w, c, d);
      BackMeans(h, w, c, m);
      var k := ChoiceWitness(Reads(branches), w, m, d);
      ReadMeans(branches[k], w, m, d);
      assert Returns(h, w, c, m) && branches[k] in branches && Exits(branches[k], w, m, d);
    }
  }

  lemma {:induction false} TimesMean(body: Hir, n: nat, w: Text, c: Cursor, d: Cursor)
    ensures ExitsTimes(body, n, w, c, d) <==> MatchesTimes(Read(body), n, w, c, d)
    decreases body, 2, n
  {
    if n > 0 {
      forall m ensures Exits(body, w, c, m) && ExitsTimes(body, n - 1, w, m, d) <==>
                       Matches(Read(body), w, c, m) && MatchesTimes(Read(body), n - 1, w, m, d) {
        ReadMeans(body, w, c, m);
        TimesMean(body, n - 1, w, m, d);
      }
      assert ExitsTimes(body, n, w, c, d) <==> exists m :: Exits(body, w, c, m) && ExitsTimes(body, n - 1, w, m, d);
      assert MatchesTimes(Read(body), n, w, c, d) <==>
             exists m :: Matches(Read(body), w, c, m) && MatchesTimes(Read(body), n - 1, w, m, d);
    }
  }

  lemma UpToWitness(body: Hir, n: nat, w: Text, c: Cursor, d: Cursor) returns (m: Cursor)
    requires n > 0 && ExitsUpTo(body, n, w, c, d) && !Returns(body, w, c, d)
    ensures Exits(body, w, c, m) && ExitsUpTo(body, n - 1, w, m, d)
  {
    m :| Exits(body, w, c, m) && ExitsUpTo(body, n - 1, w, m, d);
  }

  lemma UpToFrom(body: Hir, n: nat, w: Text, c: Cursor, m: Cursor, d: Cursor)
    requires n > 0 && Exits(body, w, c, m) && ExitsUpTo(body, n - 1, w, m, d)
    ensures ExitsUpTo(body, n, w, c, d)
  {
  }

  lemma UpToHere(body: Hir, n: nat, w: Text, c: Cursor, d: Cursor)
    requires n > 0 && Returns(body, w, c, d)
    ensures ExitsUpTo(body, n, w, c, d)
  {
    hide Returns;
    hide Exits;
  }

  lemma ReadUpToMeans(back: Hir, read: Hir, n: nat, w: Text, c: Cursor, d: Cursor)
    requires n > 0
    ensures Matches(ReadUpTo(back, read, n), w, c, d) <==>
            Matches(back, w, c, d) || Matches(Sequence([read, ReadUpTo(back, read, n - 1)]), w, c, d)
  {
    hide Matches;
    EitherOf(back, Sequence([read, ReadUpTo(back, read, n - 1)]), w, c, d);
  }

  /** One step of `UpToMeans`, given readings `back` and `read` of the body. */
  lemma UpToStep(body: Hir, back: Hir, read: Hir, rest: Hir, less: nat, n: nat, w: Text, c: Cursor, d: Cursor)
    requires n == less + 1 && rest == ReadUpTo(back, read, less)
    requires Returns(body, w, c, d) <==> Matches(back, w, c, d)
    requires forall m :: Exits(body, w, c, m) <==> Matches(read, w, c, m)
    requires forall m :: ExitsUpTo(body, less, w, m, d) <==> Matches(rest, w, m, d)
    ensures ExitsUpTo(body, n, w, c, d) <==> Matches(ReadUpTo(back, read, n), w, c, d)
  {
    hide Matches;
    hide Returns;
    hide Exits;
    hide ExitsUpTo;
    hide ReadUpTo;
    ReadUpToMeans(back, read, n, w, c, d);
    if Returns(body, w, c, d) {
      UpToHere(body, n, w, c, d);
    } else if ExitsUpTo(body, n, w, c, d) {
      var m := UpToWitness(body, n, w, c, d);
      TwoFrom(read, rest, w, c, m, d);
    } else if Matches(Sequence([read, rest]), w, c, d) {
      var m := TwoWitness(read, rest, w, c, d);
      UpToFrom(body, n, w, c, m, d);
    }
  }

  lemma {:induction false} UpToMeans(body: Hir, n: nat, w: Text, c: Cursor, d: Cursor)
    ensures ExitsUpTo(body, n, w, c, d) <==> Matches(ReadUpTo(Back(body), Read(body), n), w, c, d)
    decreases body, 2, n
  {
    if n > 0 {
      hide Matches;
      hide Returns;
      hide Exits;
      hide ExitsUpTo;
      hide ReadUpTo;
      hide Back;
      hide Read;
      BackMeans(body, w, c, d);
      forall m ensures Exits(body, w, c, m) <==> Matches(Read(body), w, c, m) {
        ReadMeans(body, w, c, m);
      }
      var less := n - 1;
      var rest := ReadUpTo(Back(body), Read(body), less);
      forall m ensures ExitsUpTo(body, less, w, m, d) <==> Matches(rest, w, m, d) {
        UpToMeans(body, less, w, m, d);
      }
      UpToStep(body, Back(body), Read(body), rest, less, n, w, c, d);
    }
  }

  lemma {:induction false} TailMeans(body: Hir, min: U16, max: Option<U16>, w: Text, c: Cursor, d: Cursor)
    ensures ExitsTail(body, min, max, w, c, d) <==> Matches(ReadTail(body, min, max), w, c, d)
    decreases body, 5
  {
    match max
    case None => RoundsMean(body, w, c, d);
    case Some(limit) => if limit > min { UpToMeans(body, limit - min, w, c, d); }
  }

  lemma {:induction false} ReadRepeat(body: Hir, min: U16, max: Option<U16>, w: Text, c: Cursor, d: Cursor)
    ensures Exits(Repeat(body, min, max), w, c, d) <==> Matches(Read(Repeat(body, min, max)), w, c, d)
    decreases body, 6
  {
    hide Matches;
    var required, tail := Repeat(Read(body), min, Some(min)), ReadTail(body, min, max);
    if Exits(Repeat(body, min, max), w, c, d) {
      var m := RepeatWitness(body, min, max, w, c, d);
      ExactlyMeans(Read(body), min, w, c, m);
      TimesMean(body, min, w, c, m);
      TailMeans(body, min, max, w, m, d);
      TwoFrom(required, tail, w, c, m, d);
    }
    if Matches(Sequence([required, tail]), w, c, d) {
      var m := TwoWitness(required, tail, w, c, d);
      ExactlyMeans(Read(body), min, w, c, m);
      TimesMean(body, min, w, c, m);
      TailMeans(body, min, max, w, m, d);
      RepeatFrom(body, min, max, w, c, m, d);
    }
  }

  /** On well-shaped expressions without empty sequence nodes, reading changes nothing. */
  lemma ReadingIsFaithful(h: Hir, w: Text, c: Cursor, d: Cursor)
    requires WellShaped(h) && NoEmptySequence(h)
    ensures Matches(Read(h), w, c, d) <==> Matches(h, w, c, d)
  {
    ReadMeans(h, w, c, d);
    if Matches(h, w, c, d) {
      NoMatchLost(h, w, c, d);
    }
    if Exits(h, w, c, d) {
      NoMatchAdded(h, w, c, d);
    }
  }
}
