/**
 What the compiled form of an expression accepts, for every expression.

 `compile_expression` shares states: every branch of an alternation starts in the same
 state (rustmatch/src/nfa.rs:457-469) and a zero-minimum unbounded repeat loops back into
 its entry (rustmatch/src/nfa.rs:549-562).  So a fragment has two behaviours, not one: it
 can run to its exit (`Exits`) and it can come back to its entry (`Returns`).  The two
 relations below are exact for all expressions (module Emission); this module relates them
 to the intended meaning.
 */
module CompiledMeaning {
  import opened Base
  import opened Assertions
  import opened HirSyntax
  import opened Graph
  import opened Meaning

  ghost predicate Returns(h: Hir, w: Text, c: Cursor, d: Cursor)
    decreases h, 0
  {
    match h
    case Sequence(items) => if items == [] then c == d else Returns(items[0], w, c, d)
    case Alternation(branches) => ManyBranchLaps(branches, w, c, d)
    case Repeat(body, min, max) =>
      if min == 0 && max.None? then ManyBodyRounds(body, w, c, d)
      else if min == 0 && max == Some(0) then c == d
      else Returns(body, w, c, d)
    case _ => c == d
  }

  ghost predicate Exits(h: Hir, w: Text, c: Cursor, d: Cursor)
    decreases h, 1
  {
    match h
    case Never => false
    case Epsilon => c == d
    case Assert(a) => c == d && AssertionMatches(a, w, c)
    case Symbol(u) => c.pos < |w| && w[c.pos] == u && d == Next(c)
    case Predicate(p) => c.pos < |w| && p.Contains(w[c.pos]) && d == Next(c)
    case Sequence(items) => items != [] && ExitsAll(items, w, c, d)
    case Alternation(branches) => exists m, b :: Returns(h, w, c, m) && b in branches && Exits(b, w, m, d)
    case Repeat(body, min, max) => exists m :: ExitsTimes(body, min, w, c, m) && ExitsTail(body, min, max, w, m, d)
  }

  /** Laps through the shared entry of an alternation. */
  ghost predicate BranchLaps(branches: seq<Hir>, n: nat, w: Text, c: Cursor, d: Cursor)
    decreases branches, 2, n
  {
    if n == 0 then c == d
    else exists x, b :: BranchLaps(branches, n - 1, w, c, x) && b in branches && Returns(b, w, x, d)
  }

  ghost predicate ManyBranchLaps(branches: seq<Hir>, w: Text, c: Cursor, d: Cursor)
    decreases branches, 3
  {
    exists n: nat :: BranchLaps(branches, n, w, c, d)
  }

  /** Rounds of an unbounded loop; a round may be cut short by returning to the entry. */
  ghost predicate BodyRounds(body: Hir, n: nat, w: Text, c: Cursor, d: Cursor)
    decreases body, 2, n
  {
    if n == 0 then c == d
    else exists x :: BodyRounds(body, n - 1, w, c, x) && (Returns(body, w, x, d) || Exits(body, w, x, d))
  }

  ghost predicate ManyBodyRounds(body: Hir, w: Text, c: Cursor, d: Cursor)
    decreases body, 3
  {
    exists n: nat :: BodyRounds(body, n, w, c, d)
  }

  ghost predicate ExitsAll(hs: seq<Hir>, w: Text, c: Cursor, d: Cursor)
    decreases hs, 0
  {
    if hs == [] then c == d
    else exists m :: Exits(hs[0], w, c, m) && ExitsAll(hs[1..], w, m, d)
  }

  ghost predicate ExitsTimes(h: Hir, n: nat, w: Text, c: Cursor, d: Cursor)
    decreases h, 2, n
  {
    if n == 0 then c == d
    else exists m :: Exits(h, w, c, m) && ExitsTimes(h, n - 1, w, m, d)
  }

  /** At most `n` further copies; between copies the fragment may leave from a copy's entry. */
  ghost predicate ExitsUpTo(h: Hir, n: nat, w: Text, c: Cursor, d: Cursor)
    decreases h, 2, n
  {
    if n == 0 then c == d
    else Returns(h, w, c, d) || exists m :: Exits(h, w, c, m) && ExitsUpTo(h, n - 1, w, m, d)
  }

  /** What follows the required copies of a repeat. */
  ghost predicate ExitsTail(body: Hir, min: nat, max: Option<U16>, w: Text, c: Cursor, d: Cursor)
    decreases body, 4
  {
    match max
    case None => ManyBodyRounds(body, w, c, d)
    case Some(limit) => if limit == min then c == d else limit > min && ExitsUpTo(body, limit - min, w, c, d)
  }

  // ---- One-step unfoldings, to bring out the witnesses ---------------------------------

  lemma ExitsAllWitness(hs: seq<Hir>, w: Text, c: Cursor, d: Cursor) returns (x: Cursor)
    requires hs != [] && ExitsAll(hs, w, c, d)
    ensures Exits(hs[0], w, c, x) && ExitsAll(hs[1..], w, x, d)
  {
    x :| Exits(hs[0], w, c, x) && ExitsAll(hs[1..], w, x, d);
  }

  lemma ExitsAllFrom(hs: seq<Hir>, w: Text, c: Cursor, x: Cursor, d: Cursor)
    requires hs != [] && Exits(hs[0], w, c, x) && ExitsAll(hs[1..], w, x, d)
    ensures ExitsAll(hs, w, c, d)
  {
  }

  lemma ExitsAllSplits(hs: seq<Hir>, w: Text, c: Cursor, d: Cursor)
    requires hs != []
    ensures ExitsAll(hs, w, c, d) <==> exists x :: Exits(hs[0], w, c, x) && ExitsAll(hs[1..], w, x, d)
  {
    if ExitsAll(hs, w, c, d) {
      var x := ExitsAllWitness(hs, w, c, d);
    }
    if x :| Exits(hs[0], w, c, x) && ExitsAll(hs[1..], w, x, d) {
      assert Exits(hs[0], w, c, x) && ExitsAll(hs[1..], w, x, d);
      ExitsAllFrom(hs, w, c, x, d);
    }
  }

  lemma AlternationWitness(hs: seq<Hir>, w: Text, c: Cursor, d: Cursor) returns (x: Cursor, b: Hir)
    requires Exits(Alternation(hs), w, c, d)
    ensures Returns(Alternation(hs), w, c, x) && b in hs && Exits(b, w, x, d)
  {
    x, b :| Returns(Alternation(hs), w, c, x) && b in hs && Exits(b, w, x, d);
  }

  lemma BranchLapsWitness(hs: seq<Hir>, k: nat, w: Text, c: Cursor, d: Cursor) returns (x: Cursor, b: Hir)
    requires k > 0 && BranchLaps(hs, k, w, c, d)
    ensures BranchLaps(hs, k - 1, w, c, x) && b in hs && Returns(b, w, x, d)
  {
    x, b :| BranchLaps(hs, k - 1, w, c, x) && b in hs && Returns(b, w, x, d);
  }

  lemma ManyBodyRoundsWitness(body: Hir, w: Text, c: Cursor, d: Cursor) returns (k: nat)
    requires ManyBodyRounds(body, w, c, d)
    ensures BodyRounds(body, k, w, c, d)
  {
    k :| BodyRounds(body, k, w, c, d);
  }

  lemma ManyBranchLapsWitness(branches: seq<Hir>, w: Text, c: Cursor, d: Cursor) returns (k: nat)
    requires ManyBranchLaps(branches, w, c, d)
    ensures BranchLaps(branches, k, w, c, d)
  {
    k :| BranchLaps(branches, k, w, c, d);
  }

  lemma BodyRoundsWitness(body: Hir, k: nat, w: Text, c: Cursor, d: Cursor) returns (x: Cursor)
    requires k > 0 && BodyRounds(body, k, w, c, d)
    ensures BodyRounds(body, k - 1, w, c, x) && (Returns(body, w, x, d) || Exits(body, w, x, d))
  {
    x :| BodyRounds(body, k - 1, w, c, x) && (Returns(body, w, x, d) || Exits(body, w, x, d));
  }

  lemma RepeatWitness(body: Hir, min: U16, max: Option<U16>, w: Text, c: Cursor, d: Cursor) returns (x: Cursor)
    requires Exits(Repeat(body, min, max), w, c, d)
    ensures ExitsTimes(body, min, w, c, x) && ExitsTail(body, min, max, w, x, d)
  {
    x :| ExitsTimes(body, min, w, c, x) && ExitsTail(body, min, max, w, x, d);
  }

  lemma RepeatFrom(body: Hir, min: U16, max: Option<U16>, w: Text, c: Cursor, x: Cursor, d: Cursor)
    requires ExitsTimes(body, min, w, c, x) && ExitsTail(body, min, max, w, x, d)
    ensures Exits(Repeat(body, min, max), w, c, d)
  {
  }

  lemma RepeatSplits(body: Hir, min: U16, max: Option<U16>, w: Text, c: Cursor, d: Cursor)
    ensures Exits(Repeat(body, min, max), w, c, d) <==>
            exists x :: ExitsTimes(body, min, w, c, x) && ExitsTail(body, min, max, w, x, d)
  {
    if Exits(Repeat(body, min, max), w, c, d) {
      var x := RepeatWitness(body, min, max, w, c, d);
    }
    if x :| ExitsTimes(body, min, w, c, x) && ExitsTail(body, min, max, w, x, d) {
      assert ExitsTimes(body, min, w, c, x) && ExitsTail(body, min, max, w, x, d);
      RepeatFrom(body, min, max, w, c, x, d);
    }
  }

  lemma NoneRequired(body: Hir, max: Option<U16>, w: Text, c: Cursor, d: Cursor)
    ensures Exits(Repeat(body, 0, max), w, c, d) <==> ExitsTail(body, 0, max, w, c, d)
  {
    if Exits(Repeat(body, 0, max), w, c, d) {
      var x := RepeatWitness(body, 0, max, w, c, d);
      assert x == c;
    }
    assert ExitsTimes(body, 0, w, c, c);
  }

  // ---- The two relations compose -------------------------------------------------------

  lemma ReturnsRefl(h: Hir, w: Text, c: Cursor)
    ensures Returns(h, w, c, c)
  {
    match h
    case Sequence(items) => if items != [] { ReturnsRefl(items[0], w, c); }
    case Alternation(branches) => assert BranchLaps(branches, 0, w, c, c);
    case Repeat(body, min, max) =>
      assert BodyRounds(body, 0, w, c, c);
      ReturnsRefl(body, w, c);
    case _ =>
  }

  lemma {:induction false} BranchLapsJoin(branches: seq<Hir>, m: nat, n: nat, w: Text, c: Cursor, x: Cursor, d: Cursor)
    requires BranchLaps(branches, m, w, c, x) && BranchLaps(branches, n, w, x, d)
    ensures BranchLaps(branches, m + n, w, c, d)
  {
    if n > 0 {
      var y, b :| BranchLaps(branches, n - 1, w, x, y) && b in branches && Returns(b, w, y, d);
      BranchLapsJoin(branches, m, n - 1, w, c, x, y);
    }
  }

  lemma {:induction false} BodyRoundsJoin(body: Hir, m: nat, n: nat, w: Text, c: Cursor, x: Cursor, d: Cursor)
    requires BodyRounds(body, m, w, c, x) && BodyRounds(body, n, w, x, d)
    ensures BodyRounds(body, m + n, w, c, d)
  {
    if n > 0 {
      var y :| BodyRounds(body, n - 1, w, x, y) && (Returns(body, w, y, d) || Exits(body, w, y, d));
      BodyRoundsJoin(body, m, n - 1, w, c, x, y);
    }
  }

  lemma ReturnsTrans(h: Hir, w: Text, c: Cursor, x: Cursor, d: Cursor)
    requires Returns(h, w, c, x) && Returns(h, w, x, d)
    ensures Returns(h, w, c, d)
  {
    match h
    case Sequence(items) => if items != [] { ReturnsTrans(items[0], w, c, x, d); }
    case Alternation(branches) =>
      assert ManyBranchLaps(branches, w, c, x);
      var m: nat :| BranchLaps(branches, m, w, c, x);
      assert ManyBranchLaps(branches, w, x, d);
      var n: nat :| BranchLaps(branches, n, w, x, d);
      BranchLapsJoin(branches, m, n, w, c, x, d);
    case Repeat(body, min, max) =>
      if min == 0 && max.None? {
        assert ManyBodyRounds(body, w, c, x);
        var m: nat :| BodyRounds(body, m, w, c, x);
        assert ManyBodyRounds(body, w, x, d);
        var n: nat :| BodyRounds(body, n, w, x, d);
        BodyRoundsJoin(body, m, n, w, c, x, d);
      } else if min > 0 || max != Some(0) {
        ReturnsTrans(body, w, c, x, d);
      }
    case _ =>
  }

  lemma ReturnsThenExits(h: Hir, w: Text, c: Cursor, x: Cursor, d: Cursor)
    requires Returns(h, w, c, x) && Exits(h, w, x, d)
    ensures Exits(h, w, c, d)
    decreases h, 0
  {
    match h
    case Sequence(items) =>
      assert ExitsAll(items, w, x, d);
      var m :| Exits(items[0], w, x, m) && ExitsAll(items[1..], w, m, d);
      ReturnsThenExits(items[0], w, c, x, m);
    case Alternation(branches) =>
      var m, b :| Returns(h, w, x, m) && b in branches && Exits(b, w, m, d);
      ReturnsTrans(h, w, c, x, m);
    case Repeat(body, min, max) =>
      var m :| ExitsTimes(body, min, w, x, m) && ExitsTail(body, min, max, w, m, d);
      if min > 0 {
        assert ExitsTimes(body, min, w, x, m);
        var y :| Exits(body, w, x, y) && ExitsTimes(body, min - 1, w, y, m);
        ReturnsThenExits(body, w, c, x, y);
        assert ExitsTimes(body, min, w, c, m);
      } else {
        assert ExitsTimes(body, 0, w, c, c);
        ReturnsThenTail(body, max, w, c, x, d);
      }
    case _ =>
  }

  lemma ReturnsThenTail(body: Hir, max: Option<U16>, w: Text, c: Cursor, x: Cursor, d: Cursor)
    requires Returns(Repeat(body, 0, max), w, c, x) && ExitsTail(body, 0, max, w, x, d)
    ensures ExitsTail(body, 0, max, w, c, d)
    decreases body, 1
  {
    if max.None? {
      assert ManyBodyRounds(body, w, c, x);
      var m: nat :| BodyRounds(body, m, w, c, x);
      assert ManyBodyRounds(body, w, x, d);
      var n: nat :| BodyRounds(body, n, w, x, d);
      BodyRoundsJoin(body, m, n, w, c, x, d);
    } else if max.value > 0 {
      assert ExitsUpTo(body, max.value, w, x, d);
      assert Returns(Repeat(body, 0, max), w, c, x) ==> Returns(body, w, c, x);
      if Returns(body, w, x, d) {
        ReturnsTrans(body, w, c, x, d);
      } else {
        var y :| Exits(body, w, x, y) && ExitsUpTo(body, max.value - 1, w, y, d);
        ReturnsThenExits(body, w, c, x, y);
      }
    }
  }

  // ---- Compilation loses no match ------------------------------------------------------

  /** Whatever the expression means, its compiled form accepts. */
  lemma {:induction false} NoMatchLost(h: Hir, w: Text, c: Cursor, d: Cursor)
    requires NoEmptySequence(h) && Matches(h, w, c, d)
    ensures Exits(h, w, c, d)
    decreases h, 0
  {
    match h
    case Sequence(items) => NoMatchLostAll(items, w, c, d);
    case Alternation(branches) =>
      var b :| b in branches && Matches(b, w, c, d);
      NoMatchLost(b, w, c, d);
      ReturnsRefl(h, w, c);
    case Repeat(body, min, max) =>
      var n: nat :| min <= n && (max.Some? ==> n <= max.value) && MatchesTimes(body, n, w, c, d);
      var m := MatchesTimesSplit(body, min, n, w, c, d);
      NoMatchLostTimes(body, min, w, c, m);
      if max.None? {
        NoMatchLostRounds(body, n - min, w, m, d);
      } else if max != Some(min) {
        NoMatchLostUpTo(body, n - min, max.value - min, w, m, d);
      }
      assert ExitsTail(body, min, max, w, m, d);
    case _ =>
  }

  lemma {:induction false} NoMatchLostAll(hs: seq<Hir>, w: Text, c: Cursor, d: Cursor)
    requires (forall h :: h in hs ==> NoEmptySequence(h)) && MatchesAll(hs, w, c, d)
    ensures ExitsAll(hs, w, c, d)
    decreases hs, 0
  {
    if hs != [] {
      var m :| Matches(hs[0], w, c, m) && MatchesAll(hs[1..], w, m, d);
      NoMatchLost(hs[0], w, c, m);
      NoMatchLostAll(hs[1..], w, m, d);
    }
  }

  lemma {:induction false} MatchesTimesSplit(h: Hir, k: nat, n: nat, w: Text, c: Cursor, d: Cursor) returns (m: Cursor)
    requires k <= n && MatchesTimes(h, n, w, c, d)
    ensures MatchesTimes(h, k, w, c, m) && MatchesTimes(h, n - k, w, m, d)
    decreases k
  {
    if k == 0 {
      m := c;
    } else {
      var x :| Matches(h, w, c, x) && MatchesTimes(h, n - 1, w, x, d);
      m := MatchesTimesSplit(h, k - 1, n - 1, w, x, d);
    }
  }

  lemma {:induction false} NoMatchLostTimes(h: Hir, n: nat, w: Text, c: Cursor, d: Cursor)
    requires NoEmptySequence(h) && MatchesTimes(h, n, w, c, d)
    ensures ExitsTimes(h, n, w, c, d)
    decreases h, 1 + n
  {
    if n > 0 {
      var m :| Matches(h, w, c, m) && MatchesTimes(h, n - 1, w, m, d);
      NoMatchLost(h, w, c, m);
      NoMatchLostTimes(h, n - 1, w, m, d);
    }
  }

  lemma {:induction false} NoMatchLostRounds(h: Hir, n: nat, w: Text, c: Cursor, d: Cursor)
    requires NoEmptySequence(h) && MatchesTimes(h, n, w, c, d)
    ensures BodyRounds(h, n, w, c, d)
    decreases h, 1 + n
  {
    if n > 0 {
      var m :| Matches(h, w, c, m) && MatchesTimes(h, n - 1, w, m, d);
      NoMatchLost(h, w, c, m);
      NoMatchLostRounds(h, n - 1, w, m, d);
      assert BodyRounds(h, 0, w, c, c);
      assert BodyRounds(h, 1, w, c, m);
      BodyRoundsJoin(h, 1, n - 1, w, c, m, d);
    }
  }

  lemma {:induction false} NoMatchLostUpTo(h: Hir, n: nat, limit: nat, w: Text, c: Cursor, d: Cursor)
    requires NoEmptySequence(h) && n <= limit && limit > 0 && MatchesTimes(h, n, w, c, d)
    ensures ExitsUpTo(h, limit, w, c, d)
    decreases h, 1 + n
  {
    if n == 0 {
      ReturnsRefl(h, w, c);
    } else {
      var m :| Matches(h, w, c, m) && MatchesTimes(h, n - 1, w, m, d);
      NoMatchLost(h, w, c, m);
      if limit > 1 {
        NoMatchLostUpTo(h, n - 1, limit - 1, w, m, d);
      }
      assert ExitsUpTo(h, limit - 1, w, m, d);
    }
  }

  // ---- Compilation adds no match to a well-shaped expression ---------------------------

  lemma {:induction false} NotReentrant(h: Hir, w: Text, c: Cursor, d: Cursor)
    requires !Reentrant(h) && Returns(h, w, c, d)
    ensures c == d
  {
    match h
    case Sequence(items) => if items != [] { NotReentrant(items[0], w, c, d); }
    case Alternation(branches) =>
      assert ManyBranchLaps(branches, w, c, d);
      var n: nat :| BranchLaps(branches, n, w, c, d);
      NotReentrantLaps(branches, n, w, c, d);
    case Repeat(body, min, max) =>
      if min > 0 || max != Some(0) {
        NotReentrant(body, w, c, d);
      }
    case _ =>
  }

  lemma {:induction false} NotReentrantLaps(branches: seq<Hir>, n: nat, w: Text, c: Cursor, d: Cursor)
    requires (forall b :: b in branches ==> !Reentrant(b)) && BranchLaps(branches, n, w, c, d)
    ensures c == d
    decreases branches, n
  {
    if n > 0 {
      var x, b :| BranchLaps(branches, n - 1, w, c, x) && b in branches && Returns(b, w, x, d);
      NotReentrantLaps(branches, n - 1, w, c, x);
      NotReentrant(b, w, x, d);
    }
  }

  lemma {:induction false} NoMatchAdded(h: Hir, w: Text, c: Cursor, d: Cursor)
    requires WellShaped(h) && Exits(h, w, c, d)
    ensures Matches(h, w, c, d)
    decreases h, 0
  {
    match h
    case Sequence(items) => NoMatchAddedAll(items, w, c, d);
    case Alternation(branches) =>
      var m, b :| Returns(h, w, c, m) && b in branches && Exits(b, w, m, d);
      assert ManyBranchLaps(branches, w, c, m);
      var n: nat :| BranchLaps(branches, n, w, c, m);
      if |branches| >= 2 {
        NotReentrantLaps(branches, n, w, c, m);
      } else {
        assert branches == [b];
        SingleBranchLaps(b, n, w, c, m, d);
      }
      NoMatchAdded(b, w, c, d);
    case Repeat(body, min, max) =>
      var m :| ExitsTimes(body, min, w, c, m) && ExitsTail(body, min, max, w, m, d);
      NoMatchAddedTimes(body, min, w, c, m);
      var k := NoMatchAddedTail(body, min, max, w, m, d);
      MatchesTimesJoin(body, min, k, w, c, m, d);
    case _ =>
  }

  lemma {:induction false} SingleBranchLaps(b: Hir, n: nat, w: Text, c: Cursor, m: Cursor, d: Cursor)
    requires BranchLaps([b], n, w, c, m) && Exits(b, w, m, d)
    ensures Exits(b, w, c, d)
    decreases n
  {
    if n > 0 {
      var x, b' :| BranchLaps([b], n - 1, w, c, x) && b' in [b] && Returns(b', w, x, m);
      ReturnsThenExits(b, w, x, m, d);
      SingleBranchLaps(b, n - 1, w, c, x, d);
    }
  }

  lemma {:induction false} NoMatchAddedAll(hs: seq<Hir>, w: Text, c: Cursor, d: Cursor)
    requires (forall h :: h in hs ==> WellShaped(h)) && ExitsAll(hs, w, c, d)
    ensures MatchesAll(hs, w, c, d)
    decreases hs, 0
  {
    if hs != [] {
      var m :| Exits(hs[0], w, c, m) && ExitsAll(hs[1..], w, m, d);
      NoMatchAdded(hs[0], w, c, m);
      NoMatchAddedAll(hs[1..], w, m, d);
    }
  }

  lemma {:induction false} MatchesTimesJoin(h: Hir, m: nat, n: nat, w: Text, c: Cursor, x: Cursor, d: Cursor)
    requires MatchesTimes(h, m, w, c, x) && MatchesTimes(h, n, w, x, d)
    ensures MatchesTimes(h, m + n, w, c, d)
    decreases m
  {
    if m > 0 {
      var y :| Matches(h, w, c, y) && MatchesTimes(h, m - 1, w, y, x);
      MatchesTimesJoin(h, m - 1, n, w, y, x, d);
    }
  }

  lemma {:induction false} NoMatchAddedTimes(h: Hir, n: nat, w: Text, c: Cursor, d: Cursor)
    requires WellShaped(h) && ExitsTimes(h, n, w, c, d)
    ensures MatchesTimes(h, n, w, c, d)
    decreases h, 1 + n
  {
    if n > 0 {
      var m :| Exits(h, w, c, m) && ExitsTimes(h, n - 1, w, m, d);
      NoMatchAdded(h, w, c, m);
      NoMatchAddedTimes(h, n - 1, w, m, d);
    }
  }

  lemma {:induction false} NoMatchAddedTail(body: Hir, min: nat, max: Option<U16>, w: Text, c: Cursor, d: Cursor)
    returns (k: nat)
    requires WellShaped(body) && (max != Some(min) ==> !Reentrant(body))
    requires min < 0x1_0000 && ExitsTail(body, min, max, w, c, d)
    ensures (max.Some? ==> min + k <= max.value) && MatchesTimes(body, k, w, c, d)
    decreases body
  {
    if max.None? {
      assert ManyBodyRounds(body, w, c, d);
      var n: nat :| BodyRounds(body, n, w, c, d);
      k := NoMatchAddedRounds(body, n, w, c, d);
    } else if max == Some(min) {
      k := 0;
    } else {
      k := NoMatchAddedUpTo(body, max.value - min, w, c, d);
    }
  }

  lemma {:induction false} NoMatchAddedRounds(h: Hir, n: nat, w: Text, c: Cursor, d: Cursor) returns (k: nat)
    requires WellShaped(h) && !Reentrant(h) && BodyRounds(h, n, w, c, d)
    ensures MatchesTimes(h, k, w, c, d)
    decreases h, 1 + n
  {
    if n == 0 {
      k := 0;
    } else {
      var x :| BodyRounds(h, n - 1, w, c, x) && (Returns(h, w, x, d) || Exits(h, w, x, d));
      k := NoMatchAddedRounds(h, n - 1, w, c, x);
      if Returns(h, w, x, d) {
        NotReentrant(h, w, x, d);
      } else {
        NoMatchAdded(h, w, x, d);
        assert MatchesTimes(h, 0, w, d, d);
        assert MatchesTimes(h, 1, w, x, d);
        MatchesTimesJoin(h, k, 1, w, c, x, d);
        k := k + 1;
      }
    }
  }

  lemma {:induction false} NoMatchAddedUpTo(h: Hir, limit: nat, w: Text, c: Cursor, d: Cursor) returns (k: nat)
    requires WellShaped(h) && !Reentrant(h) && ExitsUpTo(h, limit, w, c, d)
    ensures k <= limit && MatchesTimes(h, k, w, c, d)
    decreases h, 1 + limit
  {
    if limit == 0 {
      k := 0;
    } else if Returns(h, w, c, d) {
      NotReentrant(h, w, c, d);
      k := 0;
    } else {
      var m :| Exits(h, w, c, m) && ExitsUpTo(h, limit - 1, w, m, d);
      NoMatchAdded(h, w, c, m);
      k := NoMatchAddedUpTo(h, limit - 1, w, m, d);
      k := k + 1;
    }
  }
}
