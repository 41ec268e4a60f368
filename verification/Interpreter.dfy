/**
 The reference interpreter the repository's tests compare the engine with
 (rustmatch/src/engine.rs:1322-1408), and the proof that it computes exactly the relation
 of module Meaning, although it bounds every unbounded repetition.
 */
module Interpreter {
  import opened Base
  import opened Assertions
  import opened HirSyntax
  import opened Graph
  import opened Meaning
  import opened CompiledMeaning
  import opened HirFacts

  ghost function Interpret(h: Hir, w: Text, c: Cursor): set<Cursor>
    decreases h, 0
  {
    match h
    case Never => {}
    case Epsilon => {c}
    case Assert(a) => if AssertionMatches(a, w, c) then {c} else {}
    case Symbol(u) => if c.pos < |w| && w[c.pos] == u then {Next(c)} else {}
    case Predicate(p) => if c.pos < |w| && p.Contains(w[c.pos]) then {Next(c)} else {}
    case Sequence(items) => InterpretAll(items, w, {c})
    case Alternation(branches) => InterpretAny(branches, w, c)
    case Repeat(body, min, max) =>
      InterpretLoop(body, min, 1, if max.Some? then max.value else min + |w| + 1, w, {c}, if min == 0 then {c} else {})
  }

  /** Every cursor some state of the set leads to. */
  ghost function After(h: Hir, w: Text, states: set<Cursor>): set<Cursor>
    decreases h, 1
  {
    set s, d | s in states && d in Interpret(h, w, s) :: d
  }

  ghost function InterpretAll(items: seq<Hir>, w: Text, states: set<Cursor>): set<Cursor>
    decreases items, 0
  {
    if items == [] then states else InterpretAll(items[1..], w, After(items[0], w, states))
  }

  ghost function InterpretAny(branches: seq<Hir>, w: Text, c: Cursor): set<Cursor>
    decreases branches, 0
  {
    if branches == [] then {} else Interpret(branches[0], w, c) + InterpretAny(branches[1..], w, c)
  }

  /** Counts `count ..= limit`, stopping when no state is left. */
  ghost function InterpretLoop(body: Hir, min: nat, count: nat, limit: nat, w: Text, positions: set<Cursor>,
                               accepted: set<Cursor>): set<Cursor>
    decreases body, 2, limit + 1 - count
  {
    if count > limit then accepted
    else
      var next := After(body, w, positions);
      if next == {} then accepted
      else InterpretLoop(body, min, count + 1, limit, w, next, if count >= min then accepted + next else accepted)
  }

  // ---- The repetition bound is enough --------------------------------------------------

  /** A run of more rounds than it consumes units has a round that consumes nothing. */
  lemma {:induction false} DropIdleRound(h: Hir, n: nat, w: Text, c: Cursor, d: Cursor)
    requires MatchesTimes(h, n, w, c, d) && n > d.pos - c.pos
    ensures n > 0 && MatchesTimes(h, n - 1, w, c, d)
    decreases n
  {
    if n == 0 {
      assert false;
    } else {
      var x := TimesWitness(h, n, w, c, d);
      MatchSpells(h, w, c, x);
      MatchTimesSpells(h, n - 1, w, x, d);
      if x.pos == c.pos {
        StillMatch(h, w, c, x);
      } else {
        DropIdleRound(h, n - 1, w, x, d);
        assert Matches(h, w, c, x) && MatchesTimes(h, n - 2, w, x, d);
      }
    }
  }

  lemma {:induction false} FewerRounds(h: Hir, n: nat, m: nat, w: Text, c: Cursor, d: Cursor)
    requires MatchesTimes(h, n, w, c, d) && d.pos - c.pos <= m <= n
    ensures MatchesTimes(h, m, w, c, d)
    decreases n
  {
    if m < n {
      DropIdleRound(h, n, w, c, d);
      FewerRounds(h, n - 1, m, w, c, d);
    }
  }

  /** Counts up to `min + |w| + 1` decide an unbounded repetition. */
  lemma BoundSuffices(h: Hir, min: nat, n: nat, w: Text, c: Cursor, d: Cursor) returns (m: nat)
    requires min <= n && MatchesTimes(h, n, w, c, d)
    ensures min <= m <= min + |w| + 1 && MatchesTimes(h, m, w, c, d)
  {
    MatchTimesSpells(h, n, w, c, d);
    var consumed := d.pos - c.pos;
    if n <= min + |w| + 1 {
      m := n;
    } else {
      m := if consumed < min then min else consumed;
      FewerRounds(h, n, m, w, c, d);
    }
  }

  // ---- The interpreter is exact --------------------------------------------------------

  lemma {:induction false} InterpretIsMeaning(h: Hir, w: Text, c: Cursor, d: Cursor)
    ensures d in Interpret(h, w, c) <==> Matches(h, w, c, d)
    decreases h, 0
  {
    match h
    case Sequence(items) =>
      InterpretAllIsMeaning(items, w, {c}, d);
      assert c in {c};
    case Alternation(branches) => InterpretAnyIsMeaning(branches, w, c, d);
    case Repeat(body, min, max) => InterpretRepeatIsMeaning(body, min, max, w, c, d);
    case _ =>
  }

  lemma {:induction false} AfterIsMeaning(h: Hir, w: Text, states: set<Cursor>, d: Cursor)
    ensures d in After(h, w, states) <==> exists s :: s in states && Matches(h, w, s, d)
    decreases h, 1
  {
    forall s | s in states ensures d in Interpret(h, w, s) <==> Matches(h, w, s, d) {
      InterpretIsMeaning(h, w, s, d);
    }
  }

  lemma {:induction false} InterpretAllIsMeaning(items: seq<Hir>, w: Text, states: set<Cursor>, d: Cursor)
    ensures d in InterpretAll(items, w, states) <==> exists s :: s in states && MatchesAll(items, w, s, d)
    decreases items, 0
  {
    if items != [] {
      var next := After(items[0], w, states);
      InterpretAllIsMeaning(items[1..], w, next, d);
      if m :| m in next && MatchesAll(items[1..], w, m, d) {
        AfterIsMeaning(items[0], w, states, m);
        var s :| s in states && Matches(items[0], w, s, m);
        assert MatchesAll(items, w, s, d);
      }
      if s :| s in states && MatchesAll(items, w, s, d) {
        var m := AllWitness(items, w, s, d);
        AfterIsMeaning(items[0], w, states, m);
        assert m in next;
      }
    }
  }

  lemma {:induction false} InterpretAnyIsMeaning(branches: seq<Hir>, w: Text, c: Cursor, d: Cursor)
    ensures d in InterpretAny(branches, w, c) <==> exists b :: b in branches && Matches(b, w, c, d)
    decreases branches, 0
  {
    if branches != [] {
      InterpretIsMeaning(branches[0], w, c, d);
      InterpretAnyIsMeaning(branches[1..], w, c, d);
      assert branches == [branches[0]] + branches[1..];
    }
  }

  /** `positions` is what `count` rounds can reach. */
  ghost predicate Reached(body: Hir, count: nat, w: Text, c: Cursor, positions: set<Cursor>) {
    forall x :: x in positions <==> MatchesTimes(body, count, w, c, x)
  }

  /** `accepted` is what some number of rounds between `min` and `count` can reach. */
  ghost predicate Accepted(body: Hir, min: nat, count: nat, w: Text, c: Cursor, accepted: set<Cursor>) {
    forall x :: x in accepted <==> Counted(body, min, count, w, c, x)
  }

  ghost predicate Counted(body: Hir, min: nat, limit: nat, w: Text, c: Cursor, d: Cursor) {
    exists n: nat :: min <= n <= limit && MatchesTimes(body, n, w, c, d)
  }

  lemma NextRound(body: Hir, count: nat, w: Text, c: Cursor, positions: set<Cursor>)
    requires Reached(body, count, w, c, positions)
    ensures Reached(body, count + 1, w, c, After(body, w, positions))
    decreases body, 2
  {
    var next := After(body, w, positions);
    forall x ensures x in next <==> MatchesTimes(body, count + 1, w, c, x) {
      AfterIsMeaning(body, w, positions, x);
      if x in next {
        var s :| s in positions && Matches(body, w, s, x);
        OnceIs(body, w, s, x);
        MatchesTimesJoin(body, count, 1, w, c, s, x);
      }
      if MatchesTimes(body, count + 1, w, c, x) {
        var s := MatchesTimesSplit(body, count, count + 1, w, c, x);
        OnceIs(body, w, s, x);
        assert s in positions;
      }
    }
  }

  lemma MoreAccepted(body: Hir, min: nat, count: nat, w: Text, c: Cursor, next: set<Cursor>, accepted: set<Cursor>)
    requires Accepted(body, min, count, w, c, accepted) && Reached(body, count + 1, w, c, next)
    ensures Accepted(body, min, count + 1, w, c, if count + 1 >= min then accepted + next else accepted)
  {
    hide MatchesTimes;
    forall x ensures Counted(body, min, count + 1, w, c, x) <==>
                     Counted(body, min, count, w, c, x)
                     || (count + 1 >= min && MatchesTimes(body, count + 1, w, c, x)) {
      if Counted(body, min, count, w, c, x) {
        var n: nat :| min <= n <= count && MatchesTimes(body, n, w, c, x);
        assert min <= n <= count + 1;
      }
      if Counted(body, min, count + 1, w, c, x) {
        var n: nat :| min <= n <= count + 1 && MatchesTimes(body, n, w, c, x);
        assert n == count + 1 || n <= count;
      }
    }
  }

  /** Once no state is left, further rounds accept nothing more. */
  lemma {:induction false} NothingLater(body: Hir, min: nat, count: nat, limit: nat, w: Text, c: Cursor,
                                        accepted: set<Cursor>)
    requires count <= limit && Accepted(body, min, count, w, c, accepted) && Reached(body, count + 1, w, c, {})
    ensures Accepted(body, min, limit, w, c, accepted)
    decreases body, 3, limit - count
  {
    if count < limit {
      MoreAccepted(body, min, count, w, c, {}, accepted);
      assert accepted + {} == accepted;
      NextRound(body, count + 1, w, c, {});
      assert After(body, w, {}) == {};
      NothingLater(body, min, count + 1, limit, w, c, accepted);
    }
  }

  lemma {:induction false} InterpretLoopIsMeaning(body: Hir, min: nat, count: nat, limit: nat, w: Text, c: Cursor,
                                                  positions: set<Cursor>, accepted: set<Cursor>)
    requires 1 <= count <= limit + 1 && Reached(body, count - 1, w, c, positions)
             && Accepted(body, min, count - 1, w, c, accepted)
    ensures Accepted(body, min, limit, w, c, InterpretLoop(body, min, count, limit, w, positions, accepted))
    decreases body, 4, limit + 1 - count
  {
    hide MatchesTimes, Reached, Accepted, After;
    if count <= limit {
      var next := After(body, w, positions);
      NextRound(body, count - 1, w, c, positions);
      if next == {} {
        NothingLater(body, min, count - 1, limit, w, c, accepted);
      } else {
        MoreAccepted(body, min, count - 1, w, c, next, accepted);
        InterpretLoopIsMeaning(body, min, count + 1, limit, w, c, next, if count >= min then accepted + next
                               else accepted);
      }
    }
  }

  lemma InterpretRepeatIsMeaning(body: Hir, min: U16, max: Option<U16>, w: Text, c: Cursor, d: Cursor)
    ensures d in Interpret(Repeat(body, min, max), w, c) <==> Matches(Repeat(body, min, max), w, c, d)
    decreases body, 5
  {
    var limit := if max.Some? then max.value else min + |w| + 1;
    var start := if min == 0 then {c} else {};
    LoopStarts(body, min, w, c);
    InterpretLoopIsMeaning(body, min, 1, limit, w, c, {c}, start);
    RepeatIsCounted(body, min, max, w, c, d);
  }

  lemma LoopStarts(body: Hir, min: nat, w: Text, c: Cursor)
    ensures Reached(body, 0, w, c, {c}) && Accepted(body, min, 0, w, c, if min == 0 then {c} else {})
  {
    if min == 0 {
      forall x ensures Counted(body, 0, 0, w, c, x) <==> x == c {
        assert MatchesTimes(body, 0, w, c, x) <==> x == c;
      }
    }
  }

  lemma RepeatIsCounted(body: Hir, min: U16, max: Option<U16>, w: Text, c: Cursor, d: Cursor)
    ensures Matches(Repeat(body, min, max), w, c, d) <==>
            Counted(body, min, if max.Some? then max.value else min + |w| + 1, w, c, d)
  {
    var limit := if max.Some? then max.value else min + |w| + 1;
    if Matches(Repeat(body, min, max), w, c, d) {
      var n := CountWitness(body, min, max, w, c, d);
      if max.None? {
        var m := BoundSuffices(body, min, n, w, c, d);
        assert Counted(body, min, limit, w, c, d);
      }
    }
    if Counted(body, min, limit, w, c, d) {
      var n: nat :| min <= n <= limit && MatchesTimes(body, n, w, c, d);
      assert Matches(Repeat(body, min, max), w, c, d);
    }
  }
}
