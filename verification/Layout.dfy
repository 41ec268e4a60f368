/**
 How the patterns of one database are laid out as states and edges, and what each
 pattern's terminal state accepts.  One layout covers both compilers: `compile` gives
 every pattern root 0, `compile_shared_cohorts` gives assertion-free patterns root 0 and
 assertion-bearing patterns root 1 (rustmatch/src/nfa.rs:203-231, 268-337).
 */
module Layout {
  import opened Base
  import opened Assertions
  import opened HirSyntax
  import opened Graph
  import opened CompiledMeaning
  import opened Emission

  /** The first state of each pattern; its terminal state is the next one. */
  ghost function Firsts(hs: seq<Hir>, n: nat): (fs: seq<nat>)
    ensures |fs| == |hs|
  {
    if hs == [] then [] else [n] + Firsts(hs[1..], Emit(hs[0], n, n + 1, n + 2).next)
  }

  /** Everything pushed for the patterns `hs`, whose states are numbered from `n`. */
  ghost function Patterns(hs: seq<Hir>, roots: seq<nat>, n: nat): (r: Emission)
    requires |roots| == |hs|
    ensures r.next >= n
  {
    if hs == [] then Emission([], n)
    else
      var first := Emit(hs[0], n, n + 1, n + 2);
      var rest := Patterns(hs[1..], roots[1..], first.next);
      Emission([Arc(roots[0], Free, n)] + first.arcs + rest.arcs, rest.next)
  }

  /** The graph of all patterns. */
  ghost function PatternGraph(hs: seq<Hir>, roots: seq<nat>, n: nat): set<Arc>
    requires |roots| == |hs|
  {
    ArcSet(Patterns(hs, roots, n).arcs)
  }

  /** The part of the graph that belongs to pattern `i`, and its private states. */
  ghost function Part(hs: seq<Hir>, n: nat, i: nat): set<Arc>
    requires i < |hs|
  {
    var f := Firsts(hs, n)[i];
    ArcSet(Emit(hs[i], f, f + 1, f + 2).arcs)
  }

  ghost function Block(hs: seq<Hir>, n: nat, i: nat): set<nat>
    requires i < |hs|
  {
    var f := Firsts(hs, n)[i];
    Interval(f, Emit(hs[i], f, f + 1, f + 2).next)
  }

  ghost predicate IsRootArc(roots: seq<nat>, fs: seq<nat>, a: Arc) {
    exists i :: 0 <= i < |roots| == |fs| && a == Arc(roots[i], Free, fs[i])
  }

  ghost predicate IsPartArc(hs: seq<Hir>, n: nat, a: Arc) {
    exists i :: 0 <= i < |hs| && a in Part(hs, n, i)
  }

  lemma {:induction false} LayoutParts(hs: seq<Hir>, roots: seq<nat>, n: nat)
    requires |roots| == |hs|
    ensures forall a :: a in PatternGraph(hs, roots, n) <==> IsRootArc(roots, Firsts(hs, n), a) || IsPartArc(hs, n, a)
    ensures forall i :: 0 <= i < |hs| ==>
                          n <= Firsts(hs, n)[i] && Block(hs, n, i) <= Interval(n, Patterns(hs, roots, n).next)
    ensures forall i, j :: 0 <= i < j < |hs| ==> Block(hs, n, i) !! Block(hs, n, j)
    ensures forall i, j :: 0 <= i < j < |hs| ==> Firsts(hs, n)[i] + 1 < Firsts(hs, n)[j]
  {
    if hs != [] {
      var first := Emit(hs[0], n, n + 1, n + 2);
      var m := first.next;
      var fs, fs' := Firsts(hs, n), Firsts(hs[1..], m);
      LayoutParts(hs[1..], roots[1..], m);
      forall i | 0 < i < |hs| ensures fs[i] == fs'[i - 1] && Block(hs, n, i) == Block(hs[1..], m, i - 1)
                                      && Part(hs, n, i) == Part(hs[1..], m, i - 1) {
      }
      assert Part(hs, n, 0) == ArcSet(first.arcs) && Block(hs, n, 0) == Interval(n, m);
      forall a ensures a in PatternGraph(hs, roots, n) <==> IsRootArc(roots, fs, a) || IsPartArc(hs, n, a) {
        LayoutStep(hs, roots, n, a);
      }
    }
  }

  lemma LayoutStep(hs: seq<Hir>, roots: seq<nat>, n: nat, a: Arc)
    requires |roots| == |hs| && hs != []
    requires var m := Emit(hs[0], n, n + 1, n + 2).next;
             a in PatternGraph(hs[1..], roots[1..], m) <==>
                  IsRootArc(roots[1..], Firsts(hs[1..], m), a) || IsPartArc(hs[1..], m, a)
    ensures a in PatternGraph(hs, roots, n) <==> IsRootArc(roots, Firsts(hs, n), a) || IsPartArc(hs, n, a)
  {
    hide Emit;
    var first := Emit(hs[0], n, n + 1, n + 2);
    var m := first.next;
    var fs, fs' := Firsts(hs, n), Firsts(hs[1..], m);
    assert a in PatternGraph(hs, roots, n) <==>
           a == Arc(roots[0], Free, n) || a in first.arcs || a in PatternGraph(hs[1..], roots[1..], m);
    assert forall i :: 0 < i < |hs| ==> fs[i] == fs'[i - 1] && Part(hs, n, i) == Part(hs[1..], m, i - 1);
    assert Part(hs, n, 0) == ArcSet(first.arcs);
    if IsRootArc(roots[1..], fs', a) {
      var i :| 0 <= i < |fs'| && a == Arc(roots[1..][i], Free, fs'[i]);
      assert a == Arc(roots[i + 1], Free, fs[i + 1]);
    }
    if IsPartArc(hs[1..], m, a) {
      var i :| 0 <= i < |hs[1..]| && a in Part(hs[1..], m, i);
      assert a in Part(hs, n, i + 1);
    }
    if IsRootArc(roots, fs, a) {
      var i :| 0 <= i < |fs| && a == Arc(roots[i], Free, fs[i]);
      if i > 0 {
        assert a == Arc(roots[1..][i - 1], Free, fs'[i - 1]);
      }
    }
    if IsPartArc(hs, n, a) {
      var i :| 0 <= i < |hs| && a in Part(hs, n, i);
      if i > 0 {
        assert a in Part(hs[1..], m, i - 1);
      }
    }
  }

  lemma PartExact(hs: seq<Hir>, n: nat, i: nat, w: Text)
    requires i < |hs|
    ensures var f := Firsts(hs, n)[i];
            Realises(Part(hs, n, i), w, f, f + 1, Block(hs, n, i) - {f, f + 1}, hs[i])
  {
    var f := Firsts(hs, n)[i];
    EmitExact(hs[i], w, f, f + 1, f + 2);
    assert Block(hs, n, i) - {f, f + 1} == Interval(f + 2, Emit(hs[i], f, f + 1, f + 2).next);
  }

  /** A configuration reachable from root `r` is at the root or inside one of its patterns. */
  ghost predicate Located(hs: seq<Hir>, roots: seq<nat>, n: nat, w: Text, r: nat, c: Cursor, v: Config)
    requires |roots| == |hs|
  {
    v == Config(r, c) || exists i :: 0 <= i < |hs| && LocatedIn(hs, roots, n, w, r, c, v, i)
  }

  ghost predicate LocatedIn(hs: seq<Hir>, roots: seq<nat>, n: nat, w: Text, r: nat, c: Cursor, v: Config, i: nat)
    requires |roots| == |hs| && i < |hs|
  {
    roots[i] == r && v.state in Block(hs, n, i) && Reach(Part(hs, n, i), w, Config(Firsts(hs, n)[i], c), v)
  }

  lemma LocatedStep(hs: seq<Hir>, roots: seq<nat>, n: nat, w: Text, r: nat, c: Cursor, u: Config, v: Config, a: Arc)
    requires |roots| == |hs| && r < n && (forall k :: k in roots ==> k < n)
    requires Located(hs, roots, n, w, r, c, u)
    requires a in PatternGraph(hs, roots, n) && a.source == u.state && a.target == v.state && Fires(w, a.on, u.at, v.at)
    ensures Located(hs, roots, n, w, r, c, v)
    ensures a.on.Guard? ==> exists i :: 0 <= i < |hs| && roots[i] == r && a in Part(hs, n, i)
  {
    hide Emit, Firsts, Reach, PatternGraph;
    LayoutParts(hs, roots, n);
    var fs := Firsts(hs, n);
    if IsRootArc(roots, fs, a) {
      var i :| 0 <= i < |roots| && a == Arc(roots[i], Free, fs[i]);
      assert roots[i] in roots && u == Config(r, c);
      PartExact(hs, n, i, w);
      ReachRefl(Part(hs, n, i), w, v);
      assert LocatedIn(hs, roots, n, w, r, c, v, i);
    } else {
      var j :| 0 <= j < |hs| && a in Part(hs, n, j);
      PartExact(hs, n, j, w);
      assert a.source in Block(hs, n, j) && a.target in Block(hs, n, j);
      assert u != Config(r, c);
      var i :| 0 <= i < |hs| && LocatedIn(hs, roots, n, w, r, c, u, i);
      assert i == j;
      ReachStep(Part(hs, n, i), w, Config(fs[i], c), u, v);
      assert LocatedIn(hs, roots, n, w, r, c, v, i);
    }
  }

  lemma ReachLocated(hs: seq<Hir>, roots: seq<nat>, n: nat, w: Text, r: nat, c: Cursor, v: Config)
    requires |roots| == |hs| && r < n && (forall k :: k in roots ==> k < n)
    requires Reach(PatternGraph(hs, roots, n), w, Config(r, c), v)
    ensures Located(hs, roots, n, w, r, c, v)
  {
    var g := PatternGraph(hs, roots, n);
    var region := iset y: Config | Located(hs, roots, n, w, r, c, y);
    forall x, y | x in region && Step(g, w, x, y) ensures y in region {
      var a :| a in g && a.source == x.state && a.target == y.state && Fires(w, a.on, x.at, y.at);
      LocatedStep(hs, roots, n, w, r, c, x, y, a);
    }
    ReachStaysInside(g, w, region, Config(r, c), v);
  }

  /**
   Patterns do not interfere: pattern `i` is accepted from root `r` exactly when `r` is
   its root and its own expression, compiled alone, accepts.
   */
  lemma PatternsIndependent(hs: seq<Hir>, roots: seq<nat>, n: nat, w: Text, r: nat, i: nat, c: Cursor, d: Cursor)
    requires |roots| == |hs| && r < n && (forall k :: k in roots ==> k < n) && i < |hs|
    ensures Path(PatternGraph(hs, roots, n), w, r, Firsts(hs, n)[i] + 1, c, d) <==>
            roots[i] == r && Exits(hs[i], w, c, d)
  {
    hide Exits, Reach, Firsts, Emit, PatternGraph, LocatedIn;
    var g, fs := PatternGraph(hs, roots, n), Firsts(hs, n);
    PartExact(hs, n, i, w);
    if roots[i] == r && Exits(hs[i], w, c, d) {
      PartReached(hs, roots, n, w, i, c, d);
    }
    if Path(g, w, r, fs[i] + 1, c, d) {
      var v := Config(fs[i] + 1, d);
      assert fs[i] + 1 != r by { LayoutParts(hs, roots, n); }
      ReachLocated(hs, roots, n, w, r, c, v);
      var j :| 0 <= j < |hs| && LocatedIn(hs, roots, n, w, r, c, v, j);
      TerminalLocated(hs, roots, n, w, r, i, j, c, d);
    }
  }

  /** From its root, a pattern's own paths are paths of the whole graph. */
  lemma PartReached(hs: seq<Hir>, roots: seq<nat>, n: nat, w: Text, i: nat, c: Cursor, d: Cursor)
    requires |roots| == |hs| && i < |hs| && Path(Part(hs, n, i), w, Firsts(hs, n)[i], Firsts(hs, n)[i] + 1, c, d)
    ensures Path(PatternGraph(hs, roots, n), w, roots[i], Firsts(hs, n)[i] + 1, c, d)
  {
    hide Reach, Emit, PatternGraph;
    var g, f := PatternGraph(hs, roots, n), Firsts(hs, n)[i];
    LayoutParts(hs, roots, n);
    var enter := Arc(roots[i], Free, f);
    assert IsRootArc(roots, Firsts(hs, n), enter);
    ReachArc(g, w, enter, c, c);
    forall a | a in Part(hs, n, i) ensures a in g { assert IsPartArc(hs, n, a); }
    ReachMono(Part(hs, n, i), g, w, Config(f, c), Config(f + 1, d));
    ReachTrans(g, w, Config(roots[i], c), Config(f, c), Config(f + 1, d));
  }

  /** Only pattern `i` itself can be in its terminal state. */
  lemma TerminalLocated(hs: seq<Hir>, roots: seq<nat>, n: nat, w: Text, r: nat, i: nat, j: nat, c: Cursor, d: Cursor)
    requires |roots| == |hs| && i < |hs| && j < |hs|
             && LocatedIn(hs, roots, n, w, r, c, Config(Firsts(hs, n)[i] + 1, d), j)
    ensures roots[i] == r && Path(Part(hs, n, i), w, Firsts(hs, n)[i], Firsts(hs, n)[i] + 1, c, d)
  {
    hide Reach, Emit, PatternGraph;
    LayoutParts(hs, roots, n);
    assert Firsts(hs, n)[i] + 1 in Block(hs, n, i);
    assert i == j;
  }

  // ---- Assertion-free patterns ---------------------------------------------------------

  lemma {:induction false} NoGuards(h: Hir, s: nat, e: nat, n: nat)
    requires !UsesAssertions(h)
    ensures forall a :: a in Emit(h, s, e, n).arcs ==> !a.on.Guard?
    decreases h, 0
  {
    match h
    case Sequence(items) => NoGuardsChain(items, s, Some(e), n, h);
    case Alternation(branches) => NoGuardsBranches(branches, s, e, n, h);
    case Repeat(body, min, max) =>
      var required := EmitChain(Copies(body, min), s, if max == Some(min) then Some(e) else None, n, h);
      NoGuardsChain(Copies(body, min), s, if max == Some(min) then Some(e) else None, n, h);
      NoGuardsTail(body, min, max, required.last, e, required.next);
    case _ =>
  }

  lemma {:induction false} NoGuardsChain(hs: seq<Hir>, s: nat, final: Option<nat>, n: nat, top: Hir)
    requires Below(hs, top) && forall h :: h in hs ==> !UsesAssertions(h)
    ensures forall a :: a in EmitChain(hs, s, final, n, top).arcs ==> !a.on.Guard?
    decreases top, 0, |hs|
  {
    if hs != [] {
      if |hs| == 1 && final.Some? {
        NoGuards(hs[0], s, final.value, n);
      } else {
        NoGuards(hs[0], s, n, n + 1);
        NoGuardsChain(hs[1..], n, final, Emit(hs[0], s, n, n + 1).next, top);
      }
    }
  }

  lemma {:induction false} NoGuardsBranches(hs: seq<Hir>, s: nat, e: nat, n: nat, top: Hir)
    requires Below(hs, top) && forall h :: h in hs ==> !UsesAssertions(h)
    ensures forall a :: a in EmitBranches(hs, s, e, n, top).arcs ==> !a.on.Guard?
    decreases top, 0, |hs|
  {
    if hs != [] {
      NoGuards(hs[0], s, e, n);
      NoGuardsBranches(hs[1..], s, e, Emit(hs[0], s, e, n).next, top);
    }
  }

  lemma {:induction false} NoGuardsTail(body: Hir, min: nat, max: Option<U16>, s: nat, e: nat, n: nat)
    requires !UsesAssertions(body)
    ensures forall a :: a in EmitTail(body, min, max, s, e, n).arcs ==> !a.on.Guard?
    decreases body, 2
  {
    match max
    case None => NoGuards(body, s, n, n + 1);
    case Some(limit) => if limit > min { NoGuardsUpTo(body, limit - min, s, e, n); }
  }

  lemma {:induction false} NoGuardsUpTo(body: Hir, k: nat, s: nat, e: nat, n: nat)
    requires !UsesAssertions(body)
    ensures forall a :: a in EmitUpTo(body, k, s, e, n).arcs ==> !a.on.Guard?
    decreases body, 1, k
  {
    if k == 1 {
      NoGuards(body, s, e, n);
    } else if k > 1 {
      NoGuards(body, s, n, n + 1);
      NoGuardsUpTo(body, k - 1, n, e, Emit(body, s, n, n + 1).next);
    }
  }

  ghost predicate Guarded(arcs: seq<Arc>) {
    exists a :: a in arcs && a.on.Guard?
  }

  lemma GuardedJoin(a: seq<Arc>, b: seq<Arc>)
    ensures Guarded(a + b) <==> Guarded(a) || Guarded(b)
  {
    assert forall x :: x in a + b <==> x in a || x in b;
  }

  /** `uses_assertions` holds exactly of the parsed expressions that compile to an assertion edge. */
  lemma {:induction false} GuardsExactly(h: Hir, s: nat, e: nat, n: nat)
    requires Regular(h)
    ensures Guarded(Emit(h, s, e, n).arcs) <==> UsesAssertions(h)
    decreases h, 0
  {
    if !UsesAssertions(h) {
      NoGuards(h, s, e, n);
    } else {
      match h
      case Assert(a) => assert Arc(s, Guard(a), e) in Emit(h, s, e, n).arcs;
      case Sequence(items) => GuardedChain(items, s, Some(e), n, h);
      case Alternation(branches) => GuardedBranches(branches, s, e, n, h);
      case Repeat(body, min, max) => GuardedRepeat(body, min, max, s, e, n);
      case _ =>
    }
  }

  lemma {:induction false} GuardedChain(hs: seq<Hir>, s: nat, final: Option<nat>, n: nat, top: Hir)
    requires Below(hs, top) && (forall h :: h in hs ==> Regular(h)) && exists h :: h in hs && UsesAssertions(h)
    ensures Guarded(EmitChain(hs, s, final, n, top).arcs)
    decreases top, 0, |hs|
  {
    hide Regular, UsesAssertions, Emit, Guarded;
    assert forall h :: h in hs <==> h == hs[0] || h in hs[1..];
    if |hs| == 1 && final.Some? {
      GuardsExactly(hs[0], s, final.value, n);
    } else {
      var first := Emit(hs[0], s, n, n + 1);
      GuardsExactly(hs[0], s, n, n + 1);
      GuardedJoin(first.arcs, EmitChain(hs[1..], n, final, first.next, top).arcs);
      if !UsesAssertions(hs[0]) {
        GuardedChain(hs[1..], n, final, first.next, top);
      }
    }
  }

  lemma {:induction false} GuardedBranches(hs: seq<Hir>, s: nat, e: nat, n: nat, top: Hir)
    requires Below(hs, top) && (forall h :: h in hs ==> Regular(h)) && exists h :: h in hs && UsesAssertions(h)
    ensures Guarded(EmitBranches(hs, s, e, n, top).arcs)
    decreases top, 0, |hs|
  {
    hide Regular, UsesAssertions, Emit, Guarded;
    assert forall h :: h in hs <==> h == hs[0] || h in hs[1..];
    var first := Emit(hs[0], s, e, n);
    GuardsExactly(hs[0], s, e, n);
    GuardedJoin(first.arcs, EmitBranches(hs[1..], s, e, first.next, top).arcs);
    if !UsesAssertions(hs[0]) {
      GuardedBranches(hs[1..], s, e, first.next, top);
    }
  }

  /** Some copy of the body is compiled. */
  lemma {:induction false} GuardedRepeat(body: Hir, min: U16, max: Option<U16>, s: nat, e: nat, n: nat)
    requires Regular(Repeat(body, min, max)) && UsesAssertions(body)
    ensures Guarded(Emit(Repeat(body, min, max), s, e, n).arcs)
    decreases Repeat(body, min, max), 0, min + 1
  {
    hide UsesAssertions, Guarded;
    var h := Repeat(body, min, max);
    var required := EmitChain(Copies(body, min), s, if max == Some(min) then Some(e) else None, n, h);
    var tail := EmitTail(body, min, max, required.last, e, required.next);
    RepeatUnfold(body, min, max, s, e, n);
    GuardedJoin(required.arcs, tail.arcs);
    if min > 0 {
      assert Copies(body, min)[0] in Copies(body, min);
      GuardedChain(Copies(body, min), s, if max == Some(min) then Some(e) else None, n, h);
    } else {
      GuardedTail(body, max, required.last, e, required.next);
    }
  }

  lemma {:induction false} GuardedTail(body: Hir, max: Option<U16>, s: nat, e: nat, n: nat)
    requires Regular(body) && UsesAssertions(body) && max != Some(0)
    ensures Guarded(EmitTail(body, 0, max, s, e, n).arcs)
    decreases body, 2
  {
    hide UsesAssertions, Guarded, Regular, Emit;
    var leave := [Arc(s, Free, e)];
    if max.None? || max.value > 1 {
      var round := Emit(body, s, n, n + 1);
      GuardsExactly(body, s, n, n + 1);
      GuardedJoin(leave, round.arcs);
      if max.None? {
        GuardedJoin(leave + round.arcs, [Arc(n, Free, s)]);
      } else {
        GuardedJoin(leave + round.arcs, EmitUpTo(body, max.value - 1, n, e, round.next).arcs);
      }
    } else {
      GuardsExactly(body, s, e, n);
      GuardedJoin(leave, Emit(body, s, e, n).arcs);
    }
  }

  /** The graph a scanner sees when it follows no assertion edge. */
  ghost function Plain(g: set<Arc>): set<Arc> {
    set a | a in g && !a.on.Guard?
  }

  lemma AssertionFreeStep(hs: seq<Hir>, roots: seq<nat>, n: nat, w: Text, r: nat, c: Cursor, x: Config, y: Config)
    requires |roots| == |hs| && r < n && (forall k :: k in roots ==> k < n)
    requires forall i :: 0 <= i < |hs| && roots[i] == r ==> !UsesAssertions(hs[i])
    requires Reach(Plain(PatternGraph(hs, roots, n)), w, Config(r, c), x) && Step(PatternGraph(hs, roots, n), w, x, y)
    ensures Reach(Plain(PatternGraph(hs, roots, n)), w, Config(r, c), y)
  {
    hide Reach, Emit, Firsts, Located;
    var g, start := PatternGraph(hs, roots, n), Config(r, c);
    var a :| a in g && a.source == x.state && a.target == y.state && Fires(w, a.on, x.at, y.at);
    ReachMono(Plain(g), g, w, start, x);
    ReachLocated(hs, roots, n, w, r, c, x);
    LocatedStep(hs, roots, n, w, r, c, x, y, a);
    if a.on.Guard? {
      var i :| 0 <= i < |hs| && roots[i] == r && a in Part(hs, n, i);
      var f := Firsts(hs, n)[i];
      NoGuards(hs[i], f, f + 1, f + 2);
      assert false;
    }
    assert a in Plain(g);
    ReachStep(Plain(g), w, start, x, y);
  }

  /** No assertion edge can fire from a root whose patterns are all assertion-free. */
  lemma AssertionFreeRoot(hs: seq<Hir>, roots: seq<nat>, n: nat, w: Text, r: nat, c: Cursor, v: Config)
    requires |roots| == |hs| && r < n && (forall k :: k in roots ==> k < n)
    requires forall i :: 0 <= i < |hs| && roots[i] == r ==> !UsesAssertions(hs[i])
    ensures Reach(PatternGraph(hs, roots, n), w, Config(r, c), v) <==>
            Reach(Plain(PatternGraph(hs, roots, n)), w, Config(r, c), v)
  {
    var g, start := PatternGraph(hs, roots, n), Config(r, c);
    if Reach(Plain(g), w, start, v) {
      ReachMono(Plain(g), g, w, start, v);
    }
    if Reach(g, w, start, v) {
      var region := iset y: Config | Reach(Plain(g), w, start, y);
      forall x, y | x in region && Step(g, w, x, y) ensures y in region {
        AssertionFreeStep(hs, roots, n, w, r, c, x, y);
      }
      ReachRefl(Plain(g), w, start);
      ReachStaysInside(g, w, region, start, v);
    }
  }
}
