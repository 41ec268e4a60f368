/**
 One database with two roots: assertion-free patterns under root 0, assertion-bearing ones
 under root 1 (rustmatch/src/nfa.rs:268-404), with an optional specialisation when all
 assertion-bearing patterns begin with the same five ASCII units.
 */
module Cohorts {
  import opened Base
  import opened Assertions
  import opened HirSyntax
  import opened Graph
  import opened CompiledMeaning
  import opened Emission
  import opened NfaCompiler
  import opened Layout
  import opened Database
  import opened Prefix

  const ASSERTION_FREE_ROOT: nat := 0
  const ASSERTION_BEARING_ROOT: nat := 1
  const NO_PREFIX: seq<U16> := [0, 0, 0, 0, 0]

  function CohortRoots(patterns: seq<HirPattern>): (roots: seq<nat>)
    ensures |roots| == |patterns|
    ensures forall k :: 0 <= k < |roots| ==>
                          roots[k] == if UsesAssertions(patterns[k].expression) then ASSERTION_BEARING_ROOT
                          else ASSERTION_FREE_ROOT
  {
    seq(|patterns|, k requires 0 <= k < |patterns| =>
      if UsesAssertions(patterns[k].expression) then ASSERTION_BEARING_ROOT else ASSERTION_FREE_ROOT)
  }

  // ---- The strict five-unit prefix -----------------------------------------------------

  predicate IsPrefixUnit(h: Hir) {
    h.Symbol? && 1 <= h.unit < 128
  }

  /** What is left to do once `got` units and possibly an assertion have been seen. */
  function StrictRest(items: seq<Hir>, got: seq<U16>, saw: bool): Option<seq<U16>>
    requires |got| < 5
  {
    if items == [] then None
    else if got == [] && items[0].Assert? then StrictRest(items[1..], got, true)
    else if got == [] && items[0].Epsilon? then StrictRest(items[1..], got, saw)
    else if !IsPrefixUnit(items[0]) then None
    else if |got| == 4 then (if saw then Some(got + [items[0].unit]) else None)
    else StrictRest(items[1..], got + [items[0].unit], saw)
  }

  function StrictFive(h: Hir): Option<seq<U16>> {
    if h.Sequence? then StrictRest(h.items, [], false) else None
  }

  method StrictAssertionAsciiFive(h: Hir) returns (r: Option<seq<U16>>)
    ensures r == StrictFive(h)
  {
    if !h.Sequence? {
      return None;
    }
    var got: seq<U16> := [];
    var saw := false;
    var k := 0;
    while k < |h.items|
      invariant k <= |h.items| && |got| < 5
      invariant StrictRest(h.items[k..], got, saw) == StrictFive(h)
    {
      var item := h.items[k];
      assert h.items[k..][0] == item && h.items[k..][1..] == h.items[k + 1..];
      k := k + 1;
      if got == [] && item.Assert? {
        saw := true;
        continue;
      }
      if got == [] && item.Epsilon? {
        continue;
      }
      if !IsPrefixUnit(item) {
        return None;
      }
      got := got + [item.unit];
      if |got| == 5 {
        return if saw then Some(got) else None;
      }
    }
    return None;
  }

  lemma {:induction false} StrictShape(items: seq<Hir>, got: seq<U16>, saw: bool)
    requires |got| < 5 && StrictRest(items, got, saw).Some? && forall k :: 0 <= k < |got| ==> 1 <= got[k] < 128
    ensures var p := StrictRest(items, got, saw).value; |p| == 5 && forall k :: 0 <= k < 5 ==> 1 <= p[k] < 128
    decreases |items|
  {
    if got == [] && items[0].Assert? {
      StrictShape(items[1..], got, true);
    } else if got == [] && items[0].Epsilon? {
      StrictShape(items[1..], got, saw);
    } else if |got| < 4 {
      StrictShape(items[1..], got + [items[0].unit], saw);
    }
  }

  /** Leading assertions consume nothing, so every match begins with the five units. */
  lemma {:induction false} StrictRestSound(items: seq<Hir>, got: seq<U16>, saw: bool, w: Text, c: Cursor, m: Cursor,
                                           d: Cursor)
    requires |got| < 5 && StrictRest(items, got, saw).Some?
    requires Forward(w, c, m) && Consumed(w, c, m) == got && ExitsAll(items, w, m, d)
    ensures Forward(w, c, d) && StrictRest(items, got, saw).value <= Consumed(w, c, d)
    decreases |items|
  {
    hide ExitsAll;
    var x := ExitsAllWitness(items, w, m, d);
    ExitsForward(items[0], w, m, x);
    ExitsAllForward(items[1..], w, x, d);
    ConsumedJoin(w, c, m, x);
    ConsumedJoin(w, c, x, d);
    if got == [] && items[0].Assert? {
      StrictRestSound(items[1..], got, true, w, c, x, d);
    } else if got == [] && items[0].Epsilon? {
      StrictRestSound(items[1..], got, saw, w, c, x, d);
    } else {
      assert Exits(items[0], w, m, x);
      assert Consumed(w, m, x) == [items[0].unit];
      if |got| < 4 {
        StrictRestSound(items[1..], got + [items[0].unit], saw, w, c, x, d);
      }
    }
  }

  lemma StrictFiveSound(h: Hir, w: Text, c: Cursor, d: Cursor)
    requires StrictFive(h).Some? && Exits(h, w, c, d)
    ensures Forward(w, c, d) && StrictFive(h).value <= Consumed(w, c, d)
  {
    hide StrictRest;
    assert ExitsAll(h.items, w, c, d);
    assert Consumed(w, c, c) == [];
    StrictRestSound(h.items, [], false, w, c, c, d);
  }

  lemma StrictFiveShape(h: Hir)
    requires StrictFive(h).Some?
    ensures |StrictFive(h).value| == 5 && forall k :: 0 <= k < 5 ==> 1 <= StrictFive(h).value[k] < 128
  {
    StrictShape(h.items, [], false);
  }

  /** `k` assertions and empty expressions, then the five units `p`. */
  ghost predicate FormAt(items: seq<Hir>, k: nat, p: seq<U16>) {
    && |p| == 5 && k + 5 <= |items|
    && (forall i :: 0 <= i < k ==> items[i].Assert? || items[i].Epsilon?)
    && forall j :: 0 <= j < 5 ==> items[k + j] == Symbol(p[j]) && 1 <= p[j] < 128
  }

  ghost predicate AssertsBefore(items: seq<Hir>, k: nat) {
    exists i :: 0 <= i < k && i < |items| && items[i].Assert?
  }

  /** The five units follow `got`, which was read already. */
  ghost predicate UnitsFollow(items: seq<Hir>, got: seq<U16>, p: seq<U16>) {
    && |got| < |p| == 5 && got <= p && 5 - |got| <= |items|
    && forall j :: |got| <= j < 5 ==> items[j - |got|] == Symbol(p[j]) && 1 <= p[j] < 128
  }

  lemma {:induction false} UnitsExactly(items: seq<Hir>, got: seq<U16>, saw: bool, p: seq<U16>)
    requires 0 < |got| < 5
    ensures StrictRest(items, got, saw) == Some(p) <==> saw && UnitsFollow(items, got, p)
    decreases |items|
  {
    if items != [] && IsPrefixUnit(items[0]) {
      var more := got + [items[0].unit];
      if |got| < 4 {
        UnitsExactly(items[1..], more, saw, p);
      }
      UnitsShift(items, got, p);
    } else if UnitsFollow(items, got, p) {
      NextUnit(items, got, p);
    }
  }

  lemma NextUnit(items: seq<Hir>, got: seq<U16>, p: seq<U16>)
    requires UnitsFollow(items, got, p)
    ensures IsPrefixUnit(items[0])
  {
    assert items[|got| - |got|] == Symbol(p[|got|]);
  }

  lemma UnitsShift(items: seq<Hir>, got: seq<U16>, p: seq<U16>)
    requires |got| < 5 && items != [] && IsPrefixUnit(items[0])
    ensures var more := got + [items[0].unit];
            UnitsFollow(items, got, p) <==> if |got| == 4 then p == more else UnitsFollow(items[1..], more, p)
  {
    var more := got + [items[0].unit];
    if UnitsFollow(items, got, p) {
      assert items[|got| - |got|] == Symbol(p[|got|]);
      assert more == p[..|got| + 1];
      forall j | |more| <= j < 5 ensures items[1..][j - |more|] == Symbol(p[j]) && 1 <= p[j] < 128 {
        assert items[j - |got|] == Symbol(p[j]);
      }
    }
    if |got| < 4 && UnitsFollow(items[1..], more, p) {
      forall j | |got| <= j < 5 ensures items[j - |got|] == Symbol(p[j]) && 1 <= p[j] < 128 {
        if j > |got| { assert items[1..][j - |more|] == Symbol(p[j]); } else { assert p[j] == more[j]; }
      }
    }
    if |got| == 4 && p == more {
      assert items[4 - |got|] == Symbol(p[4]);
    }
  }

  ghost predicate HasForm(items: seq<Hir>, saw: bool, p: seq<U16>) {
    exists k: nat :: FormAt(items, k, p) && (saw || AssertsBefore(items, k))
  }

  lemma {:induction false} LeadExactly(items: seq<Hir>, saw: bool, p: seq<U16>)
    ensures StrictRest(items, [], saw) == Some(p) <==> HasForm(items, saw, p)
    decreases |items|
  {
    hide FormAt, AssertsBefore;
    if items == [] {
      NoForm(items, p);
    } else if items[0].Assert? || items[0].Epsilon? {
      var now := saw || items[0].Assert?;
      LeadExactly(items[1..], now, p);
      if HasForm(items[1..], now, p) {
        var k: nat :| FormAt(items[1..], k, p) && (now || AssertsBefore(items[1..], k));
        LeadShift(items, k, p);
        assert FormAt(items, k + 1, p) && (saw || AssertsBefore(items, k + 1));
      }
      if HasForm(items, saw, p) {
        var k: nat :| FormAt(items, k, p) && (saw || AssertsBefore(items, k));
        FirstItem(items, k, p);
        LeadShift(items, k - 1, p);
      }
    } else {
      FormHere(items, saw, p);
      if IsPrefixUnit(items[0]) {
        UnitsExactly(items[1..], [items[0].unit], saw, p);
        UnitsShift(items, [], p);
        assert [] + [items[0].unit] == [items[0].unit];
      }
    }
  }

  lemma NoForm(items: seq<Hir>, p: seq<U16>)
    requires items == []
    ensures forall k: nat :: !FormAt(items, k, p)
  {
  }

  lemma FirstItem(items: seq<Hir>, k: nat, p: seq<U16>)
    requires FormAt(items, k, p)
    ensures items != [] && (k == 0 <==> !items[0].Assert? && !items[0].Epsilon?) && (k == 0 ==> IsPrefixUnit(items[0]))
  {
    if k == 0 {
      assert items[0 + 0] == Symbol(p[0]);
    }
  }

  lemma FormHere(items: seq<Hir>, saw: bool, p: seq<U16>)
    requires items != [] && !items[0].Assert? && !items[0].Epsilon?
    ensures HasForm(items, saw, p) <==> saw && UnitsFollow(items, [], p)
    ensures UnitsFollow(items, [], p) ==> IsPrefixUnit(items[0])
  {
    if HasForm(items, saw, p) {
      var k: nat :| FormAt(items, k, p) && (saw || AssertsBefore(items, k));
      FirstItem(items, k, p);
      forall j | 0 <= j < 5 ensures items[j - 0] == Symbol(p[j]) { assert items[k + j] == Symbol(p[j]); }
    }
    if UnitsFollow(items, [], p) {
      NextUnit(items, [], p);
      forall j | 0 <= j < 5 ensures items[0 + j] == Symbol(p[j]) { assert items[j - 0] == Symbol(p[j]); }
      assert FormAt(items, 0, p);
    }
  }

  lemma LeadShift(items: seq<Hir>, k: nat, p: seq<U16>)
    requires items != [] && (items[0].Assert? || items[0].Epsilon?)
    ensures FormAt(items, k + 1, p) <==> FormAt(items[1..], k, p)
    ensures AssertsBefore(items, k + 1) <==> items[0].Assert? || AssertsBefore(items[1..], k)
  {
    if FormAt(items, k + 1, p) {
      forall j | 0 <= j < 5 ensures items[1..][k + j] == Symbol(p[j]) { assert items[(k + 1) + j] == Symbol(p[j]); }
      forall i | 0 <= i < k ensures items[1..][i].Assert?
                                    || items[1..][i].Epsilon? { assert items[i + 1] == items[1..][i]; }
    }
    if FormAt(items[1..], k, p) {
      forall j | 0 <= j < 5 ensures items[(k + 1) + j] == Symbol(p[j]) { assert items[1..][k + j] == Symbol(p[j]); }
      forall i | 0 <= i < k + 1 ensures items[i].Assert?
                                        || items[i].Epsilon? { if i > 0 { assert items[i] == items[1..][i - 1]; } }
    }
    if AssertsBefore(items[1..], k) {
      var i :| 0 <= i < k && i < |items[1..]| && items[1..][i].Assert?;
      assert items[i + 1].Assert?;
    }
    if AssertsBefore(items, k + 1) && !items[0].Assert? {
      var i :| 0 <= i < k + 1 && i < |items| && items[i].Assert?;
      assert items[1..][i - 1].Assert?;
    }
  }

  /**
   The analysis finds exactly the sequences of assertions and empty expressions before five
   ASCII units other than zero.
   */
  lemma StrictFiveExactly(h: Hir, p: seq<U16>)
    ensures StrictFive(h) == Some(p) <==> h.Sequence? && HasForm(h.items, false, p)
  {
    hide StrictRest, HasForm;
    if h.Sequence? {
      LeadExactly(h.items, false, p);
    }
  }

  // ---- The classification loop ---------------------------------------------------------

  function Bearing(patterns: seq<HirPattern>): nat {
    if patterns == [] then 0
    else Bearing(patterns[..|patterns| - 1]) + if UsesAssertions(patterns[|patterns| - 1].expression) then 1 else 0
  }

  /** Every assertion-bearing pattern has exactly this strict prefix. */
  ghost predicate AllBegin(patterns: seq<HirPattern>, five: seq<U16>) {
    forall k :: 0 <= k < |patterns| && UsesAssertions(patterns[k].expression) ==>
                  StrictFive(patterns[k].expression) == Some(five)
  }

  /** The loop's two variables mean: the common prefix so far, and whether one is still possible. */
  ghost predicate Classified(patterns: seq<HirPattern>, five: Option<seq<U16>>, possible: bool) {
    && (five.Some? ==> possible && Bearing(patterns) > 0 && AllBegin(patterns, five.value))
    && (five.None? && possible ==> Bearing(patterns) == 0)
    && (!possible ==> forall p :: !AllBegin(patterns, p))
  }

  lemma {:induction false} BearingSome(patterns: seq<HirPattern>)
    ensures Bearing(patterns) > 0 <==> exists k :: 0 <= k < |patterns| && UsesAssertions(patterns[k].expression)
  {
    if patterns != [] {
      var last := |patterns| - 1;
      BearingSome(patterns[..last]);
      if Bearing(patterns) > 0 && !UsesAssertions(patterns[last].expression) {
        var k :| 0 <= k < last && UsesAssertions(patterns[..last][k].expression);
        assert UsesAssertions(patterns[k].expression);
      }
      if k :| 0 <= k < |patterns| && UsesAssertions(patterns[k].expression) {
        if k < last {
          assert UsesAssertions(patterns[..last][k].expression);
        }
      }
    }
  }

  method Classify(h: Hir, five: Option<seq<U16>>, possible: bool, ghost patterns: seq<HirPattern>, ghost i: nat)
    returns (five': Option<seq<U16>>, possible': bool)
    requires i < |patterns| && patterns[i].expression == h && UsesAssertions(h)
             && Classified(patterns[..i], five, possible)
    ensures Classified(patterns[..i + 1], five', possible')
  {
    hide StrictFive, UsesAssertions;
    five', possible' := five, possible;
    if possible {
      var strict := StrictAssertionAsciiFive(h);
      if strict.Some? && (five.None? || five.value == strict.value) {
        five' := strict;
      } else {
        possible' := false;
        five' := None;
      }
    }
    OneMoreClassified(patterns, i, five, possible, five', possible');
  }

  lemma OneMoreClassified(patterns: seq<HirPattern>, i: nat, five: Option<seq<U16>>, possible: bool,
                          five': Option<seq<U16>>, possible': bool)
    requires i < |patterns| && UsesAssertions(patterns[i].expression) && Classified(patterns[..i], five, possible)
    requires var strict := StrictFive(patterns[i].expression);
             if possible && strict.Some? && (five.None? || five == strict) then five' == strict && possible'
             else five' == None && !possible'
    ensures Classified(patterns[..i + 1], five', possible')
  {
    hide StrictFive, UsesAssertions;
    var before, after := patterns[..i], patterns[..i + 1];
    assert after[..i] == before && after[i] == patterns[i];
    assert forall k :: 0 <= k < i ==> after[k] == before[k];
    BearingSome(before);
    forall p ensures AllBegin(after, p) <==> AllBegin(before, p) && StrictFive(patterns[i].expression) == Some(p) {
      if AllBegin(after, p) {
        assert StrictFive(after[i].expression) == Some(p);
        forall k | 0 <= k < i && UsesAssertions(before[k].expression)
          ensures StrictFive(before[k].expression) == Some(p) {
          assert UsesAssertions(after[k].expression);
        }
      }
    }
    if !possible' && possible && five.Some? {
      var k :| 0 <= k < i && UsesAssertions(before[k].expression);
      assert StrictFive(before[k].expression) == five;
      assert forall p :: !AllBegin(after, p);
    }
  }

  lemma FreeClassified(patterns: seq<HirPattern>, i: nat, five: Option<seq<U16>>, possible: bool)
    requires i < |patterns| && !UsesAssertions(patterns[i].expression) && Classified(patterns[..i], five, possible)
    ensures Classified(patterns[..i + 1], five, possible) && Bearing(patterns[..i + 1]) == Bearing(patterns[..i])
  {
    hide StrictFive, UsesAssertions;
    var before, after := patterns[..i], patterns[..i + 1];
    assert after[..i] == before && after[i] == patterns[i];
    assert forall k :: 0 <= k < i ==> after[k] == before[k];
    forall p ensures AllBegin(after, p) <==> AllBegin(before, p) {
      if AllBegin(after, p) {
        forall k | 0 <= k < i && UsesAssertions(before[k].expression)
          ensures StrictFive(before[k].expression) == Some(p) {
          assert UsesAssertions(after[k].expression);
        }
      }
    }
  }

  lemma BearingCounted(patterns: seq<HirPattern>, i: nat)
    requires i < |patterns|
    ensures Bearing(patterns[..i + 1]) == Bearing(patterns[..i]) + if UsesAssertions(patterns[i].expression) then 1
                                          else 0
  {
    assert patterns[..i + 1][..i] == patterns[..i];
  }

  // ---- Compiling both cohorts ----------------------------------------------------------

  datatype DatabaseView = DatabaseView(root: nat, usesAssertions: bool, patternCount: nat,
                                       assertionAsciiFive: seq<U16>) {
    function AssertionAsciiFive(): Option<seq<U16>> {
      if assertionAsciiFive != NO_PREFIX then Some(assertionAsciiFive) else None
    }
  }

  datatype SharedCohorts = SharedCohorts(database: PatternDatabase, free: DatabaseView, bearing: DatabaseView)

  ghost predicate CohortsFor(s: SharedCohorts, patterns: seq<HirPattern>) {
    && Represents(s.database, patterns, CohortRoots(patterns), 2) && s.database.root == ASSERTION_FREE_ROOT
    && !s.database.usesAssertions
    && s.free.root == ASSERTION_FREE_ROOT && !s.free.usesAssertions
    && s.free.patternCount + Bearing(patterns) == |patterns|
    && s.bearing.root == ASSERTION_BEARING_ROOT && s.bearing.usesAssertions
    && s.bearing.patternCount == Bearing(patterns)
    && (forall p :: s.bearing.AssertionAsciiFive() == Some(p) <==> Bearing(patterns) >= 256 && AllBegin(patterns, p))
  }

  method CompileSharedCohorts(patterns: seq<HirPattern>) returns (r: Option<SharedCohorts>)
    ensures r.Some? ==> CohortsFor(r.value, patterns)
    ensures r.None? <==> PatternsTooLarge(patterns, CohortRoots(patterns), 2)
  {
    hide Patterns, Rows, Emit, Appended, HoldsPrefix, Interned, TooLarge, PatternsTooLarge, Classified, UsesAssertions,
      Bearing, StrictFive,
      PatternDatabase.Valid;
    var compiler := new Compiler(2);
    var patternIds: seq<nat> := [];
    var freeCount, bearingCount := 0, 0;
    var five: Option<seq<U16>> := None;
    var possible := true;
    ghost var hs, roots := Expressions(patterns), CohortRoots(patterns);
    ghost var done: seq<Arc> := [];
    EmptyRows(compiler.edges, compiler.predicates);
    NothingInterned();
    HoldsNothing(compiler.Now().rows, compiler.terminals, hs, roots, 2);
    NothingClassified(patterns);
    for ordinal := 0 to |patterns|
      invariant fresh(compiler) && compiler.Valid() && 2 <= |compiler.edges|
      invariant HoldsPrefix(compiler.Now().rows, compiler.terminals, hs, roots, 2, done, ordinal)
      invariant compiler.predicates == Interned([], done) && patternIds == Ids(patterns)[..ordinal]
      invariant Classified(patterns[..ordinal], five, possible)
      invariant bearingCount == Bearing(patterns[..ordinal]) && freeCount + bearingCount == ordinal
    {
      var h := patterns[ordinal].expression;
      var root := ASSERTION_FREE_ROOT;
      BearingCounted(patterns, ordinal);
      if UsesAssertions(h) {
        bearingCount := bearingCount + 1;
        five, possible := Classify(h, five, possible, patterns, ordinal);
        root := ASSERTION_BEARING_ROOT;
      } else {
        FreeClassified(patterns, ordinal, five, possible);
        freeCount := freeCount + 1;
      }
      ghost var rows, terminals, known := compiler.Now().rows, compiler.terminals, compiler.predicates;
      RowCount(compiler.edges, compiler.predicates);
      var ok := AddPattern(compiler, root, ordinal, h);
      if !ok {
        PrefixTooLarge(rows, terminals, hs, roots, 2, done, ordinal);
        LayoutTooLarge(patterns, roots, 2);
        return None;
      }
      RowCount(compiler.edges, compiler.predicates);
      ghost var before := done;
      done := HoldsOneMore(rows, compiler.Now().rows, terminals, compiler.terminals, hs, roots, 2, before, ordinal);
      InternedConcat([], before, done[|before|..]);
      patternIds := patternIds + [patterns[ordinal].id];
    }
    assert patterns[..|patterns|] == patterns;
    AllFits(compiler, patterns, compiler.terminals, roots, 2, done);
    var states, edges, terminals := Flatten(compiler.edges, compiler.terminals);
    var db := PatternDatabase(ASSERTION_FREE_ROOT, states, edges, compiler.predicates, terminals, patternIds, false);
    FlattenedIsValid(compiler, db, hs, roots, 2, done);
    HoldsAll(db, patterns, roots, 2, compiler.edges, compiler.terminals, done);
    var prefix := if five.Some? && bearingCount >= 256 then five.value else NO_PREFIX;
    r := Some(SharedCohorts(db, DatabaseView(ASSERTION_FREE_ROOT, false, freeCount, NO_PREFIX),
                            DatabaseView(ASSERTION_BEARING_ROOT, true, bearingCount, prefix)));
    forall p ensures r.value.bearing.AssertionAsciiFive() == Some(p) <==>
                     Bearing(patterns) >= 256 && AllBegin(patterns, p) {
      PrefixDecided(patterns, five, possible, p);
    }
  }

  lemma NothingClassified(patterns: seq<HirPattern>)
    ensures Classified(patterns[..0], None, true) && Bearing(patterns[..0]) == 0
  {
  }

  lemma PrefixDecided(patterns: seq<HirPattern>, five: Option<seq<U16>>, possible: bool, p: seq<U16>)
    requires Classified(patterns, five, possible)
    ensures Bearing(patterns) > 0 && AllBegin(patterns, p) ==> five == Some(p)
    ensures five.Some? ==>
              five.value != NO_PREFIX && (AllBegin(patterns, p) ==> five == Some(p)) && AllBegin(patterns, five.value)
  {
    hide StrictFive, UsesAssertions;
    BearingSome(patterns);
    if Bearing(patterns) > 0 {
      var k :| 0 <= k < |patterns| && UsesAssertions(patterns[k].expression);
      if five.Some? {
        StrictFiveShape(patterns[k].expression);
        assert five.value[0] != 0;
      }
    }
  }
}
