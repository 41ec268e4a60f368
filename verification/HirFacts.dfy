/**
 The structural facts the engine keeps about an expression (rustmatch/src/hir.rs:117-167),
 against the words it spells when every assertion is read as empty.
 */
module HirFacts {
  import opened Base
  import opened Assertions
  import opened Predicates
  import opened HirSyntax
  import opened Meaning

  const NO_UNITS: seq<U16> := []
  const USIZE_MAX: nat := 0xFFFF_FFFF_FFFF_FFFF

  // ---- Words ---------------------------------------------------------------------------

  ghost predicate Spells(h: Hir, word: seq<U16>)
    decreases h, 0
  {
    match h
    case Never => false
    case Epsilon => word == []
    case Assert(_) => word == []
    case Symbol(u) => word == [u]
    case Predicate(p) => |word| == 1 && p.Contains(word[0])
    case Sequence(items) => SpellsAll(items, word)
    case Alternation(branches) => exists b :: b in branches && Spells(b, word)
    case Repeat(body, min, max) =>
      exists n: nat :: min <= n && (max.Some? ==> n <= max.value) && SpellsTimes(body, n, word)
  }

  ghost predicate SpellsAll(hs: seq<Hir>, word: seq<U16>)
    decreases hs, 0
  {
    if hs == [] then word == []
    else exists k :: 0 <= k <= |word| && Spells(hs[0], word[..k]) && SpellsAll(hs[1..], word[k..])
  }

  ghost predicate SpellsTimes(h: Hir, n: nat, word: seq<U16>)
    decreases h, n + 1
  {
    if n == 0 then word == []
    else exists k :: 0 <= k <= |word| && Spells(h, word[..k]) && SpellsTimes(h, n - 1, word[k..])
  }

  /** Bounds in order and canonical classes: what the parser builds. */
  ghost predicate WellFormed(h: Hir) {
    match h
    case Sequence(items) => forall i :: i in items ==> WellFormed(i)
    case Alternation(branches) => forall b :: b in branches ==> WellFormed(b)
    case Repeat(body, min, max) => WellFormed(body) && (max.Some? ==> min <= max.value)
    case _ => true
  }

  // ---- One-step unfoldings -------------------------------------------------------------

  lemma SpellsAllSplit(hs: seq<Hir>, word: seq<U16>) returns (k: nat)
    requires hs != [] && SpellsAll(hs, word)
    ensures k <= |word| && Spells(hs[0], word[..k]) && SpellsAll(hs[1..], word[k..])
  {
    k :| 0 <= k <= |word| && Spells(hs[0], word[..k]) && SpellsAll(hs[1..], word[k..]);
  }

  lemma SpellsAllJoin(hs: seq<Hir>, a: seq<U16>, b: seq<U16>)
    requires hs != [] && Spells(hs[0], a) && SpellsAll(hs[1..], b)
    ensures SpellsAll(hs, a + b)
  {
    assert (a + b)[..|a|] == a && (a + b)[|a|..] == b;
  }

  lemma SpellsTimesSplit(h: Hir, n: nat, word: seq<U16>) returns (k: nat)
    requires n > 0 && SpellsTimes(h, n, word)
    ensures k <= |word| && Spells(h, word[..k]) && SpellsTimes(h, n - 1, word[k..])
  {
    k :| 0 <= k <= |word| && Spells(h, word[..k]) && SpellsTimes(h, n - 1, word[k..]);
  }

  lemma SpellsTimesJoin(h: Hir, n: nat, a: seq<U16>, b: seq<U16>)
    requires n > 0 && Spells(h, a) && SpellsTimes(h, n - 1, b)
    ensures SpellsTimes(h, n, a + b)
  {
    assert (a + b)[..|a|] == a && (a + b)[|a|..] == b;
  }

  lemma SpellsCount(body: Hir, min: U16, max: Option<U16>, word: seq<U16>) returns (n: nat)
    requires Spells(Repeat(body, min, max), word)
    ensures min <= n && (max.Some? ==> n <= max.value) && SpellsTimes(body, n, word)
  {
    n :| min <= n && (max.Some? ==> n <= max.value) && SpellsTimes(body, n, word);
  }

  lemma SpellsRepeat(body: Hir, min: U16, max: Option<U16>, n: nat, word: seq<U16>)
    requires min <= n && (max.Some? ==> n <= max.value) && SpellsTimes(body, n, word)
    ensures Spells(Repeat(body, min, max), word)
  {
  }

  // ---- Words and matches ---------------------------------------------------------------

  /** Every match consumes a word the expression spells. */
  lemma {:induction false} MatchSpells(h: Hir, w: Text, c: Cursor, d: Cursor)
    requires Matches(h, w, c, d)
    ensures c.pos <= d.pos && (c == d || d.pos <= |w|) && Spells(h, if c == d then [] else w[c.pos..d.pos])
    decreases h, 0
  {
    match h
    case Sequence(items) => MatchAllSpells(items, w, c, d);
    case Alternation(branches) =>
      var b :| b in branches && Matches(b, w, c, d);
      MatchSpells(b, w, c, d);
    case Repeat(body, min, max) =>
      var n := CountWitness(body, min, max, w, c, d);
      MatchTimesSpells(body, n, w, c, d);
      SpellsRepeat(body, min, max, n, if c == d then [] else w[c.pos..d.pos]);
    case _ =>
  }

  lemma WordsJoin(w: Text, c: Cursor, m: Cursor, d: Cursor)
    requires c.pos <= m.pos <= d.pos && (c == m || m.pos <= |w|) && (m == d || d.pos <= |w|)
    requires c.pos == m.pos ==> c == m
    requires m.pos == d.pos ==> m == d
    ensures (if c == d then [] else w[c.pos..d.pos])
         == (if c == m then [] else w[c.pos..m.pos]) + (if m == d then [] else w[m.pos..d.pos])
  {
  }

  /** A match that consumes nothing leaves the cursor as it was. */
  lemma {:induction false} StillMatch(h: Hir, w: Text, c: Cursor, d: Cursor)
    requires Matches(h, w, c, d) && c.pos == d.pos
    ensures c == d
    decreases h, 0
  {
    match h
    case Sequence(items) => StillAll(items, w, c, d);
    case Alternation(branches) =>
      var b :| b in branches && Matches(b, w, c, d);
      StillMatch(b, w, c, d);
    case Repeat(body, min, max) =>
      var n := CountWitness(body, min, max, w, c, d);
      StillTimes(body, n, w, c, d);
    case _ =>
  }

  lemma {:induction false} StillAll(hs: seq<Hir>, w: Text, c: Cursor, d: Cursor)
    requires MatchesAll(hs, w, c, d) && c.pos == d.pos
    ensures c == d
    decreases hs, 0
  {
    if hs != [] {
      var m := AllWitness(hs, w, c, d);
      MatchSpells(hs[0], w, c, m);
      MatchAllSpells(hs[1..], w, m, d);
      StillMatch(hs[0], w, c, m);
      StillAll(hs[1..], w, m, d);
    }
  }

  lemma {:induction false} StillTimes(h: Hir, n: nat, w: Text, c: Cursor, d: Cursor)
    requires MatchesTimes(h, n, w, c, d) && c.pos == d.pos
    ensures c == d
    decreases h, n + 1
  {
    if n > 0 {
      var m := TimesWitness(h, n, w, c, d);
      MatchSpells(h, w, c, m);
      MatchTimesSpells(h, n - 1, w, m, d);
      StillMatch(h, w, c, m);
      StillTimes(h, n - 1, w, m, d);
    }
  }

  lemma {:induction false} MatchAllSpells(hs: seq<Hir>, w: Text, c: Cursor, d: Cursor)
    requires MatchesAll(hs, w, c, d)
    ensures c.pos <= d.pos && (c == d || d.pos <= |w|) && SpellsAll(hs, if c == d then [] else w[c.pos..d.pos])
    decreases hs, 0
  {
    if hs != [] {
      var m := AllWitness(hs, w, c, d);
      MatchSpells(hs[0], w, c, m);
      MatchAllSpells(hs[1..], w, m, d);
      if c.pos == m.pos { StillMatch(hs[0], w, c, m); }
      if m.pos == d.pos { StillAll(hs[1..], w, m, d); }
      WordsJoin(w, c, m, d);
      SpellsAllJoin(hs, if c == m then [] else w[c.pos..m.pos], if m == d then [] else w[m.pos..d.pos]);
    }
  }

  lemma {:induction false} MatchTimesSpells(h: Hir, n: nat, w: Text, c: Cursor, d: Cursor)
    requires MatchesTimes(h, n, w, c, d)
    ensures c.pos <= d.pos && (c == d || d.pos <= |w|) && SpellsTimes(h, n, if c == d then [] else w[c.pos..d.pos])
    decreases h, n + 1
  {
    if n > 0 {
      var m := TimesWitness(h, n, w, c, d);
      MatchSpells(h, w, c, m);
      MatchTimesSpells(h, n - 1, w, m, d);
      if c.pos == m.pos { StillMatch(h, w, c, m); }
      if m.pos == d.pos { StillTimes(h, n - 1, w, m, d); }
      WordsJoin(w, c, m, d);
      SpellsTimesJoin(h, n, if c == m then [] else w[c.pos..m.pos], if m == d then [] else w[m.pos..d.pos]);
    }
  }

  /** Where a word of the given length leads from a cursor. */
  function Moved(c: Cursor, length: nat): Cursor {
    if length == 0 then c else Cursor(c.pos + length, true)
  }

  ghost predicate Reads(w: Text, c: Cursor, word: seq<U16>) {
    c.pos + |word| <= |w| && w[c.pos..c.pos + |word|] == word
  }

  lemma ReadsSplit(w: Text, c: Cursor, word: seq<U16>, k: nat)
    requires k <= |word| && Reads(w, c, word)
    ensures Reads(w, c, word[..k]) && Reads(w, Moved(c, k), word[k..])
            && Moved(Moved(c, k), |word| - k) == Moved(c, |word|)
  {
    assert w[c.pos..c.pos + |word|][..k] == w[c.pos..c.pos + k];
    assert w[c.pos..c.pos + |word|][k..] == w[c.pos + k..c.pos + |word|];
  }

  /** Without assertions, every spelled word that the text carries is a match. */
  lemma {:induction false} SpelledMatches(h: Hir, w: Text, c: Cursor, word: seq<U16>)
    requires !UsesAssertions(h) && Spells(h, word) && (word == [] || Reads(w, c, word))
    ensures Matches(h, w, c, Moved(c, |word|))
    decreases h, 0
  {
    match h
    case Symbol(u) => assert w[c.pos] == w[c.pos..c.pos + 1][0];
    case Predicate(p) => assert w[c.pos] == w[c.pos..c.pos + 1][0];
    case Sequence(items) => SpelledAllMatches(items, w, c, word);
    case Alternation(branches) =>
      var b :| b in branches && Spells(b, word);
      SpelledMatches(b, w, c, word);
    case Repeat(body, min, max) =>
      var n := SpellsCount(body, min, max, word);
      SpelledTimesMatches(body, n, w, c, word);
    case _ =>
  }

  lemma {:induction false} SpelledAllMatches(hs: seq<Hir>, w: Text, c: Cursor, word: seq<U16>)
    requires (forall h :: h in hs ==> !UsesAssertions(h)) && SpellsAll(hs, word) && (word == [] || Reads(w, c, word))
    ensures MatchesAll(hs, w, c, Moved(c, |word|))
    decreases hs, 0
  {
    if hs != [] {
      var k := SpellsAllSplit(hs, word);
      if word != [] { ReadsSplit(w, c, word, k); }
      SpelledMatches(hs[0], w, c, word[..k]);
      SpelledAllMatches(hs[1..], w, Moved(c, k), word[k..]);
    }
  }

  lemma {:induction false} SpelledTimesMatches(h: Hir, n: nat, w: Text, c: Cursor, word: seq<U16>)
    requires !UsesAssertions(h) && SpellsTimes(h, n, word) && (word == [] || Reads(w, c, word))
    ensures MatchesTimes(h, n, w, c, Moved(c, |word|))
    decreases h, n + 1
  {
    if n > 0 {
      var k := SpellsTimesSplit(h, n, word);
      if word != [] { ReadsSplit(w, c, word, k); }
      SpelledMatches(h, w, c, word[..k]);
      SpelledTimesMatches(h, n - 1, w, Moved(c, k), word[k..]);
    }
  }

  // ---- Nullable ------------------------------------------------------------------------

  predicate Nullable(h: Hir) {
    match h
    case Never => false
    case Symbol(_) => false
    case Predicate(_) => false
    case Epsilon => true
    case Assert(_) => true
    case Sequence(items) => forall i :: i in items ==> Nullable(i)
    case Alternation(branches) => exists b :: b in branches && Nullable(b)
    case Repeat(body, min, _) => min == 0 || Nullable(body)
  }

  /** `nullable` decides whether the empty word is spelled. */
  lemma {:induction false} NullableIsExact(h: Hir)
    requires WellFormed(h)
    ensures Nullable(h) <==> Spells(h, [])
    decreases h, 0
  {
    match h
    case Sequence(items) => NullableAll(items);
    case Alternation(branches) =>
      forall b | b in branches ensures Nullable(b) <==> Spells(b, []) { NullableIsExact(b); }
    case Repeat(body, min, max) =>
      NullableIsExact(body);
      if Nullable(h) {
        EmptyTimes(body, min);
        SpellsRepeat(body, min, max, min, []);
      }
      if Spells(h, []) {
        var n := SpellsCount(body, min, max, []);
        if n > 0 {
          var k := SpellsTimesSplit(body, n, []);
          assert NO_UNITS[..k] == [];
        }
      }
    case _ =>
  }

  lemma {:induction false} EmptyTimes(body: Hir, n: nat)
    requires n == 0 || Spells(body, [])
    ensures SpellsTimes(body, n, [])
  {
    if n > 0 {
      EmptyTimes(body, n - 1);
      SpellsTimesJoin(body, n, [], []);
      assert NO_UNITS + [] == [];
    }
  }

  lemma {:induction false} NullableAll(items: seq<Hir>)
    requires forall i :: i in items ==> WellFormed(i)
    ensures (forall i :: i in items ==> Nullable(i)) <==> SpellsAll(items, [])
    decreases items, 0
  {
    if items != [] {
      NullableIsExact(items[0]);
      NullableAll(items[1..]);
      assert items == [items[0]] + items[1..];
      if SpellsAll(items, []) {
        var k := SpellsAllSplit(items, []);
        assert NO_UNITS[..k] == [] && NO_UNITS[k..] == [];
      }
      if Spells(items[0], []) && SpellsAll(items[1..], []) {
        SpellsAllJoin(items, [], []);
        assert NO_UNITS + [] == [];
      }
    }
  }

  // ---- Minimum length ------------------------------------------------------------------

  function Saturate(n: nat): nat {
    if n > USIZE_MAX then USIZE_MAX else n
  }

  /** `minimum_consumed`, with the source's saturating sums and products. */
  function MinimumConsumed(h: Hir): (r: Option<nat>)
    decreases h, 0
  {
    match h
    case Never => None
    case Epsilon => Some(0)
    case Assert(_) => Some(0)
    case Symbol(_) => Some(1)
    case Predicate(p) => if p.IsEmpty() then None else Some(1)
    case Sequence(items) => MinimumOfAll(items, 0)
    case Alternation(branches) => MinimumOfAny(branches)
    case Repeat(body, min, _) =>
      if min == 0 then Some(0)
      else
        var each := MinimumConsumed(body);
        if each.None? then None else Some(Saturate(each.value * min))
  }

  function MinimumOfAll(items: seq<Hir>, total: nat): Option<nat>
    decreases items, 0
  {
    if items == [] then Some(total)
    else
      var first := MinimumConsumed(items[0]);
      if first.None? then None else MinimumOfAll(items[1..], Saturate(total + first.value))
  }

  function MinimumOfAny(branches: seq<Hir>): Option<nat>
    decreases branches, 0
  {
    if branches == [] then None
    else
      var first, rest := MinimumConsumed(branches[0]), MinimumOfAny(branches[1..]);
      if first.None? then rest
      else if rest.None? || first.value <= rest.value then first
      else rest
  }

  /** `r` is the length of a shortest word, capped; `None` when there is no word. */
  ghost predicate IsShortest(h: Hir, r: Option<nat>) {
    match r
    case None => forall word :: !Spells(h, word)
    case Some(n) =>
      && (forall word :: Spells(h, word) ==> Saturate(|word|) >= n)
      && exists word :: Spells(h, word) && Saturate(|word|) == n
  }

  lemma {:induction false} MinimumIsExact(h: Hir)
    requires WellFormed(h)
    ensures IsShortest(h, MinimumConsumed(h))
    decreases h, 0
  {
    match h
    case Never =>
    case Epsilon => assert Spells(h, []);
    case Assert(_) => assert Spells(h, []);
    case Symbol(u) => assert Spells(h, [u]);
    case Predicate(p) =>
      EmptyMeansNothing(p);
      if !p.IsEmpty() {
        var u: U16 :| p.Contains(u);
        assert Spells(h, [u]);
      }
    case Sequence(items) => MinimumAll(h, items);
    case Alternation(branches) => MinimumAny(h, branches);
    case Repeat(body, min, max) =>
      MinimumIsExact(body);
      MinimumRepeat(body, min, max);
  }

  lemma MinimumRepeat(body: Hir, min: U16, max: Option<U16>)
    requires WellFormed(Repeat(body, min, max)) && IsShortest(body, MinimumConsumed(body))
    ensures IsShortest(Repeat(body, min, max), MinimumConsumed(Repeat(body, min, max)))
  {
    var h := Repeat(body, min, max);
    if min == 0 {
      assert SpellsTimes(body, 0, []);
      SpellsRepeat(body, min, max, 0, []);
    } else {
      var each := MinimumConsumed(body);
      if each.None? {
        forall word | Spells(h, word) ensures false {
          var n := SpellsCount(body, min, max, word);
          var k := SpellsTimesSplit(body, n, word);
        }
      } else {
        var shortest :| Spells(body, shortest) && Saturate(|shortest|) == each.value;
        var word := TimesWord(body, shortest, min);
        SpellsRepeat(body, min, max, min, word);
        SaturatedProduct(|shortest|, min);
        forall word | Spells(h, word) ensures Saturate(|word|) >= Saturate(each.value * min) {
          var n := SpellsCount(body, min, max, word);
          TimesAtLeast(body, each.value, n, word);
          SaturatedBound(each.value, min, n, |word|);
        }
      }
    }
  }

  lemma SaturatedProduct(length: nat, min: nat)
    requires min > 0
    ensures Saturate(length * min) == Saturate(Saturate(length) * min)
  {
    if length > USIZE_MAX {
      assert length * min >= length;
      assert USIZE_MAX * min >= USIZE_MAX;
    }
  }

  lemma SaturatedBound(each: nat, min: nat, n: nat, length: nat)
    requires min <= n && Saturate(length) >= Saturate(each * n)
    ensures Saturate(length) >= Saturate(each * min)
  {
    assert each * min <= each * n;
  }

  lemma {:induction false} TimesWord(body: Hir, word: seq<U16>, n: nat) returns (all: seq<U16>)
    requires Spells(body, word)
    ensures SpellsTimes(body, n, all) && |all| == |word| * n
  {
    if n == 0 {
      all := [];
    } else {
      var rest := TimesWord(body, word, n - 1);
      SpellsTimesJoin(body, n, word, rest);
      all := word + rest;
      assert |word| * n == |word| + |word| * (n - 1);
    }
  }

  lemma SumOfBoth(x: nat, y: nat, a: nat, b: nat)
    requires Saturate(x) >= a && Saturate(y) >= Saturate(b)
    ensures Saturate(x + y) >= Saturate(b + a)
  {
  }

  lemma OneMoreTime(each: nat, n: nat)
    ensures each * (n + 1) == each * n + each && each * 0 == 0
  {
  }

  ghost predicate AllAtLeast(body: Hir, each: nat) {
    forall x :: Spells(body, x) ==> Saturate(|x|) >= each
  }

  lemma WordAtLeast(body: Hir, each: nat, word: seq<U16>)
    requires AllAtLeast(body, each) && Spells(body, word)
    ensures Saturate(|word|) >= each
  {
  }

  lemma {:induction false} TimesAtLeast(body: Hir, each: nat, n: nat, word: seq<U16>)
    requires SpellsTimes(body, n, word) && AllAtLeast(body, each)
    ensures Saturate(|word|) >= Saturate(each * n)
  {
    hide Saturate, AllAtLeast, Spells;
    if n == 0 {
      OneMoreTime(each, 0);
    } else {
      hide SpellsTimes;
      var k := SpellsTimesSplit(body, n, word);
      var head, rest := word[..k], word[k..];
      TimesAtLeast(body, each, n - 1, rest);
      WordAtLeast(body, each, head);
      OneMoreTime(each, n - 1);
      SumOfBoth(|head|, |rest|, each, each * (n - 1));
    }
  }

  lemma {:induction false} MinimumAll(h: Hir, items: seq<Hir>)
    requires h == Sequence(items) && WellFormed(h)
    ensures IsShortest(h, MinimumConsumed(h))
    decreases items, 1
  {
    AllShortest(items, 0);
    assert forall word :: SpellsAll(items, word) <==> Spells(h, word);
    if MinimumOfAll(items, 0).Some? {
      var word :| SpellsAll(items, word) && Saturate(0 + |word|) == MinimumOfAll(items, 0).value;
      assert Spells(h, word);
    }
  }

  lemma SaturateBounds(n: nat)
    ensures Saturate(n) <= USIZE_MAX && (n <= USIZE_MAX ==> Saturate(n) == n)
  {
  }

  lemma SumAtLeast(total: nat, first: nat, x: nat, y: nat, r: nat)
    requires Saturate(x) >= first && Saturate(Saturate(total + first) + y) >= r
    ensures Saturate(total + x + y) >= r
  {
  }

  lemma SumIs(total: nat, x: nat, y: nat)
    ensures Saturate(Saturate(total + Saturate(x)) + y) == Saturate(total + x + y)
  {
  }

  /** The same for a list of items, on top of a running total. */
  ghost predicate IsShortestAll(items: seq<Hir>, total: nat, r: Option<nat>) {
    match r
    case None => forall word :: !SpellsAll(items, word)
    case Some(n) => (forall word :: SpellsAll(items, word) ==> Saturate(total + |word|) >= n)
                    && exists word :: SpellsAll(items, word) && Saturate(total + |word|) == n
  }

  lemma {:induction false} AllShortest(items: seq<Hir>, total: nat)
    requires (forall i :: i in items ==> WellFormed(i)) && total <= USIZE_MAX
    ensures IsShortestAll(items, total, MinimumOfAll(items, total))
    decreases items, 0
  {
    if items == [] {
      assert SpellsAll(items, []);
      SaturateBounds(total);
    } else {
      hide IsShortest, IsShortestAll, Spells, SpellsAll, Saturate;
      MinimumIsExact(items[0]);
      var first := MinimumConsumed(items[0]);
      if first.Some? {
        var total' := Saturate(total + first.value);
        SaturateBounds(total + first.value);
        AllShortest(items[1..], total');
        OneMoreShortest(items, total, first.value, MinimumOfAll(items[1..], total'));
      } else {
        FirstImpossible(items, total);
      }
    }
  }

  lemma FirstImpossible(items: seq<Hir>, total: nat)
    requires items != [] && IsShortest(items[0], None)
    ensures IsShortestAll(items, total, None)
  {
    forall word ensures !SpellsAll(items, word) {
      if SpellsAll(items, word) {
        var k := SpellsAllSplit(items, word);
      }
    }
  }

  lemma OneMoreShortest(items: seq<Hir>, total: nat, first: nat, r: Option<nat>)
    requires items != [] && IsShortest(items[0], Some(first)) && IsShortestAll(items[1..], Saturate(total + first), r)
    ensures IsShortestAll(items, total, r)
  {
    hide Spells, SpellsAll, Saturate;
    forall word | SpellsAll(items, word) ensures r.Some? && Saturate(total + |word|) >= r.value {
      var k := SpellsAllSplit(items, word);
      var head, rest := word[..k], word[k..];
      SumAtLeast(total, first, |head|, |rest|, r.value);
      assert total + |head| + |rest| == total + |word|;
    }
    if r.Some? {
      var a :| Spells(items[0], a) && Saturate(|a|) == first;
      var b :| SpellsAll(items[1..], b) && Saturate(Saturate(total + first) + |b|) == r.value;
      SpellsAllJoin(items, a, b);
      SumIs(total, |a|, |b|);
      assert total + |a| + |b| == total + |a + b|;
    }
  }

  lemma {:induction false} MinimumAny(h: Hir, branches: seq<Hir>)
    requires h == Alternation(branches) && WellFormed(h)
    ensures IsShortest(h, MinimumConsumed(h))
    decreases branches, 1
  {
    AnyShortest(branches);
  }

  lemma {:induction false} AnyShortest(branches: seq<Hir>)
    requires forall b :: b in branches ==> WellFormed(b)
    ensures IsShortest(Alternation(branches), MinimumOfAny(branches))
    decreases branches, 0
  {
    if branches != [] {
      MinimumIsExact(branches[0]);
      AnyShortest(branches[1..]);
      forall word ensures Spells(Alternation(branches), word) <==>
                          Spells(branches[0], word) || Spells(Alternation(branches[1..]), word) {
        FirstOrRest(branches, word);
      }
    }
  }

  lemma FirstOrRest(branches: seq<Hir>, word: seq<U16>)
    requires branches != []
    ensures Spells(Alternation(branches), word) <==>
            Spells(branches[0], word) || Spells(Alternation(branches[1..]), word)
  {
    assert branches == [branches[0]] + branches[1..];
  }

  // ---- Consuming words -----------------------------------------------------------------

  predicate CanConsume(h: Hir) {
    match h
    case Never => false
    case Epsilon => false
    case Assert(_) => false
    case Symbol(_) => true
    case Predicate(p) => !p.IsEmpty()
    case Sequence(items) => MinimumConsumed(h).Some? && exists i :: i in items && CanConsume(i)
    case Alternation(branches) => exists b :: b in branches && CanConsume(b)
    case Repeat(body, _, max) => max != Some(0) && CanConsume(body)
  }

  /** Some non-empty word is spelled. */
  ghost predicate Consuming(h: Hir) {
    exists word :: word != [] && Spells(h, word)
  }

  lemma ConsumingBy(h: Hir, word: seq<U16>)
    requires word != [] && Spells(h, word)
    ensures Consuming(h)
  {
  }

  lemma ConsumingWord(h: Hir) returns (word: seq<U16>)
    requires Consuming(h)
    ensures word != [] && Spells(h, word)
  {
    word :| word != [] && Spells(h, word);
  }

  /** `can_consume` decides whether some non-empty word is spelled. */
  lemma {:induction false} CanConsumeIsExact(h: Hir)
    requires WellFormed(h)
    ensures CanConsume(h) <==> Consuming(h)
    decreases h, 0
  {
    match h
    case Symbol(u) => ConsumingBy(h, [u]);
    case Predicate(p) =>
      EmptyMeansNothing(p);
      if !p.IsEmpty() {
        var u: U16 :| p.Contains(u);
        ConsumingBy(h, [u]);
      }
    case Sequence(items) => ConsumingSequence(h, items);
    case Alternation(branches) => ConsumingAlternation(h, branches);
    case Repeat(body, min, max) =>
      CanConsumeIsExact(body);
      ConsumingRepeat(body, min, max);
    case _ =>
  }

  lemma ConsumingAlternation(h: Hir, branches: seq<Hir>)
    requires h == Alternation(branches) && WellFormed(h)
    ensures CanConsume(h) <==> Consuming(h)
    decreases branches, 2
  {
    if CanConsume(h) {
      var b :| b in branches && CanConsume(b);
      CanConsumeIsExact(b);
      var word := ConsumingWord(b);
      ConsumingBy(h, word);
    }
    if Consuming(h) {
      var word := ConsumingWord(h);
      var b :| b in branches && Spells(b, word);
      ConsumingBy(b, word);
      CanConsumeIsExact(b);
    }
  }

  lemma AtLeast(length: nat, n: nat)
    requires length > 0
    ensures length * n >= n
  {
  }

  lemma ConsumingRepeat(body: Hir, min: U16, max: Option<U16>)
    requires max.Some? ==> min <= max.value
    ensures Consuming(Repeat(body, min, max)) <==> max != Some(0) && Consuming(body)
  {
    hide Consuming, Spells, SpellsTimes;
    var h := Repeat(body, min, max);
    if max != Some(0) && Consuming(body) {
      var word := ConsumingWord(body);
      var n := if min == 0 then 1 else min;
      var all := TimesWord(body, word, n);
      AtLeast(|word|, n);
      SpellsRepeat(body, min, max, n, all);
      ConsumingBy(h, all);
    }
    if Consuming(h) {
      var word := ConsumingWord(h);
      var n := SpellsCount(body, min, max, word);
      var part := TimesHasPart(body, n, word);
      ConsumingBy(body, part);
    }
  }

  lemma {:induction false} TimesHasPart(body: Hir, n: nat, word: seq<U16>) returns (part: seq<U16>)
    requires SpellsTimes(body, n, word) && word != []
    ensures n > 0 && part != [] && Spells(body, part)
  {
    var k := SpellsTimesSplit(body, n, word);
    if k > 0 {
      part := word[..k];
    } else {
      part := TimesHasPart(body, n - 1, word[k..]);
    }
  }

  lemma ConsumingSequence(h: Hir, items: seq<Hir>)
    requires h == Sequence(items) && WellFormed(h)
    ensures CanConsume(h) <==> Consuming(h)
    decreases items, 2
  {
    MinimumIsExact(h);
    if CanConsume(h) {
      var i :| i in items && CanConsume(i);
      var k :| 0 <= k < |items| && items[k] == i;
      CanConsumeIsExact(i);
      var part := ConsumingWord(i);
      var some :| Spells(h, some);
      var word := ReplacePart(items, k, part, some);
      ConsumingBy(h, word);
    }
    if Consuming(h) {
      var word := ConsumingWord(h);
      var k, part := AllHasPart(items, word);
      ConsumingBy(items[k], part);
      CanConsumeIsExact(items[k]);
      assert items[k] in items && CanConsume(items[k]);
      assert Spells(h, word) && MinimumConsumed(h).Some?;
    }
  }

  lemma {:induction false} ReplacePart(items: seq<Hir>, k: nat, part: seq<U16>, some: seq<U16>) returns (word: seq<U16>)
    requires k < |items| && part != [] && Spells(items[k], part) && SpellsAll(items, some)
    ensures word != [] && SpellsAll(items, word)
    decreases k
  {
    var j := SpellsAllSplit(items, some);
    if k == 0 {
      SpellsAllJoin(items, part, some[j..]);
      word := part + some[j..];
    } else {
      var rest := ReplacePart(items[1..], k - 1, part, some[j..]);
      SpellsAllJoin(items, some[..j], rest);
      word := some[..j] + rest;
    }
  }

  lemma {:induction false} AllHasPart(items: seq<Hir>, word: seq<U16>) returns (k: nat, part: seq<U16>)
    requires SpellsAll(items, word) && word != []
    ensures k < |items| && part != [] && Spells(items[k], part)
    decreases |items|
  {
    var j := SpellsAllSplit(items, word);
    if j > 0 {
      k, part := 0, word[..j];
    } else {
      k, part := AllHasPart(items[1..], word[j..]);
      k := k + 1;
    }
  }

  /** The test the parser makes before it rejects a pattern as zero-width (rustmatch/src/parser.rs:31-36). */
  predicate ZeroWidthOnly(h: Hir) {
    Nullable(h) && MinimumConsumed(h) == Some(0) && !CanConsume(h)
  }

  /** It rejects exactly the patterns whose only word is the empty one. */
  lemma ZeroWidthIsExact(h: Hir)
    requires WellFormed(h)
    ensures ZeroWidthOnly(h) <==> Spells(h, []) && !Consuming(h)
  {
    hide Consuming, Spells, CanConsume;
    NullableIsExact(h);
    MinimumIsExact(h);
    CanConsumeIsExact(h);
    if Spells(h, []) {
      EmptyIsShortest(h, MinimumConsumed(h));
    }
  }

  lemma EmptyIsShortest(h: Hir, r: Option<nat>)
    requires Spells(h, []) && IsShortest(h, r)
    ensures r == Some(0)
  {
  }
}
