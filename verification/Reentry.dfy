/**
 Where the compiled form departs from the meaning (rustmatch/src/nfa.rs:457-469, 528-562):
 branches share a start state, and an optional copy may be left from its start state.  For
 the families below it is decided exactly when that changes the language.
 */
module Reentry {
  import opened Base
  import opened Assertions
  import opened HirSyntax
  import opened Graph
  import opened Meaning
  import opened CompiledMeaning
  import opened Fronts
  import opened PatternEvents
  import opened Contract
  import opened Prefix

  /** The compiled form of `h` accepts exactly the consuming matches, in every text. */
  ghost predicate ExactEverywhere(h: Hir) {
    forall w, start, end :: Accepts(h, w, start, end) <==> MatchesFrom(h, w, start, end)
  }

  // ---- Runs of one unit ----------------------------------------------------------------

  function Star(u: U16): Hir {
    Repeat(Symbol(u), 0, None)
  }

  /** Only `u` stands between the cursors. */
  ghost predicate IsRun(u: U16, w: Text, c: Cursor, d: Cursor) {
    c == d || (c.pos < d.pos && d.after && forall k :: c.pos <= k < d.pos ==> UnitIs(w, k, u))
  }

  lemma RunTrans(u: U16, w: Text, c: Cursor, m: Cursor, d: Cursor)
    requires IsRun(u, w, c, m) && IsRun(u, w, m, d)
    ensures IsRun(u, w, c, d)
  {
  }

  lemma {:induction false} RoundsAreRun(u: U16, n: nat, w: Text, c: Cursor, d: Cursor)
    requires BodyRounds(Symbol(u), n, w, c, d)
    ensures IsRun(u, w, c, d)
    decreases n
  {
    if n > 0 {
      var x := BodyRoundsWitness(Symbol(u), n, w, c, d);
      RoundsAreRun(u, n - 1, w, c, x);
    }
  }

  lemma {:induction false} RunIsRounds(u: U16, w: Text, c: Cursor, d: Cursor)
    requires IsRun(u, w, c, d)
    ensures BodyRounds(Symbol(u), d.pos - c.pos, w, c, d)
    decreases d.pos - c.pos
  {
    if c != d {
      assert UnitIs(w, d.pos - 1, u);
      var x := if d.pos - 1 == c.pos then c else Cursor(d.pos - 1, true);
      RunIsRounds(u, w, c, x);
      assert BodyRounds(Symbol(u), x.pos - c.pos, w, c, x) && Exits(Symbol(u), w, x, d);
    }
  }

  lemma StarRuns(u: U16, w: Text, c: Cursor, d: Cursor)
    ensures Returns(Star(u), w, c, d) <==> IsRun(u, w, c, d)
    ensures Exits(Star(u), w, c, d) <==> IsRun(u, w, c, d)
    ensures Matches(Star(u), w, c, d) <==> IsRun(u, w, c, d)
  {
    NoneRequired(Symbol(u), None, w, c, d);
    if ManyBodyRounds(Symbol(u), w, c, d) {
      var n := ManyBodyRoundsWitness(Symbol(u), w, c, d);
      RoundsAreRun(u, n, w, c, d);
    }
    if IsRun(u, w, c, d) {
      RunIsRounds(u, w, c, d);
      NoMatchAdded(Star(u), w, c, d);
    }
    assert NoEmptySequence(Symbol(u));
    if Matches(Star(u), w, c, d) {
      NoMatchLost(Star(u), w, c, d);
    }
  }

  // ---- Plain texts ---------------------------------------------------------------------

  /** The text stands at `c`, and `d` is behind it. */
  ghost predicate Stands(text: seq<U16>, w: Text, c: Cursor, d: Cursor) {
    if text == [] then c == d
    else c.pos + |text| <= |w| && w[c.pos..c.pos + |text|] == text && d == Cursor(c.pos + |text|, true)
  }

  lemma StandsMore(text: seq<U16>, w: Text, c: Cursor, d: Cursor)
    requires text != []
    ensures Stands(text, w, c, d) <==> c.pos < |w| && w[c.pos] == text[0] && Stands(text[1..], w, Next(c), d)
  {
    if c.pos + |text| <= |w| {
      assert w[c.pos..c.pos + |text|] == [w[c.pos]] + w[c.pos + 1..c.pos + |text|];
      assert text == [text[0]] + text[1..];
    }
  }

  lemma {:induction false} SpelledStands(items: seq<Hir>, text: seq<U16>, w: Text, c: Cursor, d: Cursor)
    requires Spelled(items, text)
    ensures ExitsAll(items, w, c, d) <==> Stands(text, w, c, d)
    ensures MatchesAll(items, w, c, d) <==> Stands(text, w, c, d)
    decreases |items|
  {
    if items != [] {
      assert items[0] == Symbol(text[0]);
      StandsMore(text, w, c, d);
      SpelledStands(items[1..], text[1..], w, Next(c), d);
      if ExitsAll(items, w, c, d) {
        var m := ExitsAllWitness(items, w, c, d);
      }
      if MatchesAll(items, w, c, d) {
        var m := AllWitness(items, w, c, d);
      }
      if Stands(text, w, c, d) {
        assert Exits(items[0], w, c, Next(c)) && Matches(items[0], w, c, Next(c));
        ExitsAllFrom(items, w, c, Next(c), d);
      }
    }
  }

  /** `h` is a plain text, as one symbol or as a sequence of them. */
  ghost predicate IsText(h: Hir, text: seq<U16>) {
    text != [] && ((|text| == 1 && h == Symbol(text[0])) || (h.Sequence? && Spelled(h.items, text)))
  }

  lemma TextStands(h: Hir, text: seq<U16>, w: Text, c: Cursor, d: Cursor)
    requires IsText(h, text)
    ensures Exits(h, w, c, d) <==> Stands(text, w, c, d)
    ensures Matches(h, w, c, d) <==> Stands(text, w, c, d)
    ensures Returns(h, w, c, d) <==> c == d
  {
    if h.Sequence? {
      SpelledStands(h.items, text, w, c, d);
      assert h.items[0] == Symbol(text[0]);
    } else {
      StandsMore(text, w, c, d);
    }
  }

  ghost predicate AllAre(u: U16, text: seq<U16>) {
    forall k :: 0 <= k < |text| ==> text[k] == u
  }

  lemma StandingRun(u: U16, text: seq<U16>, w: Text, c: Cursor, d: Cursor)
    requires AllAre(u, text) && Stands(text, w, c, d)
    ensures IsRun(u, w, c, d)
  {
    forall k | c.pos <= k < d.pos ensures UnitIs(w, k, u) {
      assert w[k] == w[c.pos..d.pos][k - c.pos];
    }
  }

  // ---- A run or a text -----------------------------------------------------------------

  lemma {:induction false} LapsAreRun(u: U16, h: Hir, text: seq<U16>, n: nat, w: Text, c: Cursor, d: Cursor)
    requires IsText(h, text) && BranchLaps([Star(u), h], n, w, c, d)
    ensures IsRun(u, w, c, d)
    decreases n
  {
    hide IsRun;
    if n > 0 {
      var x, b := BranchLapsWitness([Star(u), h], n, w, c, d);
      LapsAreRun(u, h, text, n - 1, w, c, x);
      if b == Star(u) {
        StarRuns(u, w, x, d);
        RunTrans(u, w, c, x, d);
      } else {
        TextStands(h, text, w, x, d);
      }
    } else {
      StarRuns(u, w, c, d);
      ReturnsRefl(Star(u), w, c);
    }
  }

  /** The shared start state lets a run stand before the text. */
  lemma RunOrTextAccepts(u: U16, h: Hir, text: seq<U16>, w: Text, c: Cursor, d: Cursor)
    requires IsText(h, text)
    ensures Exits(Alternation([Star(u), h]), w, c, d) <==>
            exists m :: IsRun(u, w, c, m) && (IsRun(u, w, m, d) || Stands(text, w, m, d))
  {
    hide IsRun, Stands;
    var branches := [Star(u), h];
    assert branches[0] in branches && branches[1] in branches;
    if Exits(Alternation(branches), w, c, d) {
      var m, b := AlternationWitness(branches, w, c, d);
      var n := ManyBranchLapsWitness(branches, w, c, m);
      LapsAreRun(u, h, text, n, w, c, m);
      StarRuns(u, w, m, d);
      TextStands(h, text, w, m, d);
    }
    if m :| IsRun(u, w, c, m) && (IsRun(u, w, m, d) || Stands(text, w, m, d)) {
      StarRuns(u, w, c, m);
      assert BranchLaps(branches, 0, w, c, c);
      assert BranchLaps(branches, 1, w, c, m);
      assert Returns(Alternation(branches), w, c, m);
      StarRuns(u, w, m, d);
      TextStands(h, text, w, m, d);
      assert Exits(branches[0], w, m, d) || Exits(branches[1], w, m, d);
    }
  }

  lemma RunOrTextMeans(u: U16, h: Hir, text: seq<U16>, w: Text, c: Cursor, d: Cursor)
    requires IsText(h, text)
    ensures Matches(Alternation([Star(u), h]), w, c, d) <==> IsRun(u, w, c, d) || Stands(text, w, c, d)
  {
    hide IsRun, Stands;
    var branches := [Star(u), h];
    assert branches[0] in branches && branches[1] in branches;
    StarRuns(u, w, c, d);
    TextStands(h, text, w, c, d);
  }

  /** If a unit of the text differs from `u`, the alternation accepts `u` and then the text. */
  lemma RunThenText(u: U16, h: Hir, text: seq<U16>)
    requires IsText(h, text) && !AllAre(u, text)
    ensures var h', w := Alternation([Star(u), h]), [u] + text;
            Accepts(h', w, 0, |w|) && !MatchesFrom(h', w, 0, |w|)
  {
    hide IsRun, Stands, AllAre;
    var w := [u] + text;
    var c, m, d := At(0, 0), At(0, 1), At(0, |w|);
    UnitBeforeText(u, text);
    RunOrTextAccepts(u, h, text, w, c, d);
    RunOrTextMeans(u, h, text, w, c, d);
    assert IsRun(u, w, c, m) && Stands(text, w, m, d);
  }

  lemma UnitBeforeText(u: U16, text: seq<U16>)
    requires text != []
    ensures var w := [u] + text;
            && IsRun(u, w, At(0, 0), At(0, 1)) && Stands(text, w, At(0, 1), At(0, |w|))
            && (!AllAre(u, text) ==> !IsRun(u, w, At(0, 0), At(0, |w|))) && !Stands(text, w, At(0, 0), At(0, |w|))
  {
    var w := [u] + text;
    assert w[1..1 + |text|] == text;
    if !AllAre(u, text) {
      var k :| 0 <= k < |text| && text[k] != u;
      assert !UnitIs(w, k + 1, u);
    }
  }

  /** An alternation of `u*` and a plain text is exact if and only if the text is a run of `u`. */
  lemma RunOrTextExact(u: U16, h: Hir, text: seq<U16>)
    requires IsText(h, text)
    ensures ExactEverywhere(Alternation([Star(u), h])) <==> AllAre(u, text)
  {
    hide IsRun, Stands;
    if !AllAre(u, text) {
      RunThenText(u, h, text);
    } else {
      forall w, start, end ensures Accepts(Alternation([Star(u), h]), w, start, end) <==>
                                   MatchesFrom(Alternation([Star(u), h]), w, start, end) {
        var c, d := At(start, start), At(start, end);
        RunOrTextAccepts(u, h, text, w, c, d);
        RunOrTextMeans(u, h, text, w, c, d);
        StarRuns(u, w, c, c);
        ReturnsRefl(Star(u), w, c);
        assert IsRun(u, w, c, c);
        forall m | IsRun(u, w, c, m) && (IsRun(u, w, m, d) || Stands(text, w, m, d)) ensures IsRun(u, w, c, d) {
          if Stands(text, w, m, d) {
            StandingRun(u, text, w, m, d);
          }
          RunTrans(u, w, c, m, d);
        }
      }
    }
  }

  /** The shared start state of an alternation: `u*|v` accepts `uv`, which it does not mean. */
  lemma StarOrUnit(u: U16, v: U16)
    requires u != v
    ensures var h := Alternation([Star(u), Symbol(v)]);
            !WellShaped(h) && Accepts(h, [u, v], 0, 2) && !MatchesFrom(h, [u, v], 0, 2)
  {
    RunThenText(u, Symbol(v), [v]);
    assert [u] + [v] == [u, v];
    var branches := [Star(u), Symbol(v)];
    assert branches[0] in branches && branches[0] == Star(u);
    StarIsReentrant(u);
  }

  lemma StarIsReentrant(u: U16)
    ensures Reentrant(Star(u))
  {
  }

  // ---- An optional run and unit --------------------------------------------------------

  function OptionalRun(u: U16, v: U16): Hir {
    Repeat(Sequence([Star(u), Symbol(v)]), 0, Some(1))
  }

  ghost predicate RunThenUnit(u: U16, v: U16, w: Text, c: Cursor, d: Cursor) {
    exists m :: IsRun(u, w, c, m) && UnitIs(w, m.pos, v) && d == Next(m)
  }

  lemma BodyMeans(u: U16, v: U16, w: Text, c: Cursor, d: Cursor)
    ensures var items := [Star(u), Symbol(v)];
            && (ExitsAll(items, w, c, d) <==> RunThenUnit(u, v, w, c, d))
            && (MatchesAll(items, w, c, d) <==> RunThenUnit(u, v, w, c, d))
            && (Returns(Sequence(items), w, c, d) <==> IsRun(u, w, c, d))
  {
    hide IsRun;
    var items, one := [Star(u), Symbol(v)], [Symbol(v)];
    assert items[1..] == one && one[1..] == [] && items[0] == Star(u);
    StarRuns(u, w, c, d);
    if ExitsAll(items, w, c, d) {
      var m := ExitsAllWitness(items, w, c, d);
      var x := ExitsAllWitness(one, w, m, d);
      StarRuns(u, w, c, m);
    }
    if MatchesAll(items, w, c, d) {
      var m := AllWitness(items, w, c, d);
      var x := AllWitness(one, w, m, d);
      StarRuns(u, w, c, m);
    }
    if RunThenUnit(u, v, w, c, d) {
      var m :| IsRun(u, w, c, m) && UnitIs(w, m.pos, v) && d == Next(m);
      StarRuns(u, w, c, m);
      assert Exits(one[0], w, m, d) && ExitsAll(one[1..], w, d, d);
      assert Matches(one[0], w, m, d) && MatchesAll(one[1..], w, d, d);
      ExitsAllFrom(one, w, m, d, d);
      ExitsAllFrom(items, w, c, m, d);
      assert MatchesAll(one, w, m, d);
    }
  }

  lemma OptionalRunAccepts(u: U16, v: U16, w: Text, c: Cursor, d: Cursor)
    ensures Exits(OptionalRun(u, v), w, c, d) <==> IsRun(u, w, c, d) || RunThenUnit(u, v, w, c, d)
  {
    hide IsRun, RunThenUnit;
    var body := Sequence([Star(u), Symbol(v)]);
    NoneRequired(body, Some(1), w, c, d);
    BodyMeans(u, v, w, c, d);
    assert ExitsTail(body, 0, Some(1), w, c, d) <==> ExitsUpTo(body, 1, w, c, d);
    assert Exits(body, w, c, d) <==> ExitsAll(body.items, w, c, d);
    OneCopy(body, w, c, d);
  }

  lemma OneCopy(body: Hir, w: Text, c: Cursor, d: Cursor)
    ensures ExitsUpTo(body, 1, w, c, d) <==> Returns(body, w, c, d) || Exits(body, w, c, d)
  {
    if Exits(body, w, c, d) {
      assert ExitsUpTo(body, 0, w, d, d);
    }
  }

  lemma OptionalRunMeans(u: U16, v: U16, w: Text, c: Cursor, d: Cursor)
    ensures Matches(OptionalRun(u, v), w, c, d) <==> c == d || RunThenUnit(u, v, w, c, d)
  {
    hide IsRun, RunThenUnit;
    var body := Sequence([Star(u), Symbol(v)]);
    BodyMeans(u, v, w, c, d);
    OnceIs(body, w, c, d);
    if Matches(OptionalRun(u, v), w, c, d) {
      var n := CountWitness(body, 0, Some(1), w, c, d);
      assert n == 0 || n == 1;
    }
    assert MatchesTimes(body, 0, w, c, d) <==> c == d;
  }

  /** An optional group around `u*v`: `(u*v)?` accepts `u`, which it does not mean. */
  lemma OptionalStar(u: U16, v: U16)
    requires u != v
    ensures !WellShaped(OptionalRun(u, v)) && Accepts(OptionalRun(u, v), [u], 0, 1)
            && !MatchesFrom(OptionalRun(u, v), [u], 0, 1)
  {
    var items, w, c, d := [Star(u), Symbol(v)], [u], At(0, 0), At(0, 1);
    assert items[0] == Star(u) && Reentrant(Sequence(items));
    assert IsRun(u, w, c, d);
    OptionalRunAccepts(u, v, w, c, d);
    OptionalRunMeans(u, v, w, c, d);
  }

  /** `(u*v)?` is exact if and only if the two units are the same. */
  lemma OptionalStarExact(u: U16, v: U16)
    ensures ExactEverywhere(OptionalRun(u, v)) <==> u == v
  {
    if u != v {
      OptionalStar(u, v);
    } else {
      forall w, start, end ensures Accepts(OptionalRun(u, v), w, start, end) <==>
                                   MatchesFrom(OptionalRun(u, v), w, start, end) {
        var c, d := At(start, start), At(start, end);
        OptionalRunAccepts(u, v, w, c, d);
        OptionalRunMeans(u, v, w, c, d);
        if IsRun(u, w, c, d) && c != d {
          LastOfRun(u, w, c, d);
        }
      }
    }
  }

  lemma LastOfRun(u: U16, w: Text, c: Cursor, d: Cursor)
    requires IsRun(u, w, c, d) && c != d
    ensures RunThenUnit(u, u, w, c, d)
  {
    var m := if d.pos - 1 == c.pos then c else Cursor(d.pos - 1, true);
    assert IsRun(u, w, c, m) && UnitIs(w, m.pos, u) && d == Next(m);
  }

  /** An empty `Sequence` node means the empty match but compiles to no edge at all. */
  lemma EmptySequenceIsLost(w: Text, c: Cursor)
    ensures Matches(Sequence([]), w, c, c) && forall d :: !Exits(Sequence([]), w, c, d)
  {
  }
}
