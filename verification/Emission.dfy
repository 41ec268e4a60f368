/**
 The edges `compile_expression` and `compile_repetition` push, in the order they push them
 (rustmatch/src/nfa.rs:406-572), and the proof of what those edges accept.
 */
module Emission {
  import opened Base
  import opened Assertions
  import opened HirSyntax
  import opened Graph
  import opened CompiledMeaning

  /** Edges in push order, and the number of the next fresh state. */
  datatype Emission = Emission(arcs: seq<Arc>, next: nat)

  /** An emission that also reports the state at which a chain of items stopped. */
  datatype Chain = Chain(arcs: seq<Arc>, next: nat, last: nat)

  ghost predicate Below(hs: seq<Hir>, top: Hir) {
    forall i :: 0 <= i < |hs| ==> hs[i] < top
  }

  ghost function Emit(h: Hir, start: nat, end: nat, next: nat): (r: Emission)
    ensures r.next >= next
    decreases h, 0
  {
    match h
    case Never => Emission([], next)
    case Epsilon => Emission([Arc(start, Free, end)], next)
    case Assert(a) => Emission([Arc(start, Guard(a), end)], next)
    case Symbol(u) => Emission([Arc(start, Unit(u), end)], next)
    case Predicate(p) => Emission([Arc(start, Class(p), end)], next)
    case Sequence(items) =>
      var chain := EmitChain(items, start, Some(end), next, h);
      Emission(chain.arcs, chain.next)
    case Alternation(branches) => EmitBranches(branches, start, end, next, h)
    case Repeat(body, min, max) =>
      var required := EmitChain(Copies(body, min), start, if max == Some(min) then Some(end) else None, next, h);
      var tail := EmitTail(body, min, max, required.last, end, required.next);
      Emission(required.arcs + tail.arcs, tail.next)
  }

  function Copies(h: Hir, n: nat): (hs: seq<Hir>)
    ensures |hs| == n && forall i :: 0 <= i < n ==> hs[i] == h
  {
    seq(n, _ => h)
  }

  /** Items in a row.  Each one ends in a fresh state; the last one ends in `final` if given. */
  ghost function EmitChain(hs: seq<Hir>, start: nat, final: Option<nat>, next: nat, top: Hir): (r: Chain)
    requires Below(hs, top)
    ensures r.next >= next
    decreases top, 0, |hs|
  {
    if hs == [] then Chain([], next, start)
    else if |hs| == 1 && final.Some? then
      var only := Emit(hs[0], start, final.value, next);
      Chain(only.arcs, only.next, final.value)
    else
      var first := Emit(hs[0], start, next, next + 1);
      var rest := EmitChain(hs[1..], next, final, first.next, top);
      Chain(first.arcs + rest.arcs, rest.next, rest.last)
  }

  ghost function EmitBranches(hs: seq<Hir>, start: nat, end: nat, next: nat, top: Hir): (r: Emission)
    requires Below(hs, top)
    ensures r.next >= next
    decreases top, 0, |hs|
  {
    if hs == [] then Emission([], next)
    else
      var first := Emit(hs[0], start, end, next);
      var rest := EmitBranches(hs[1..], start, end, first.next, top);
      Emission(first.arcs + rest.arcs, rest.next)
  }

  ghost function EmitTail(body: Hir, min: nat, max: Option<U16>, current: nat, end: nat, next: nat): (r: Emission)
    ensures r.next >= next
    decreases body, 2
  {
    match max
    case Some(limit) =>
      if limit == min then Emission(if min == 0 then [Arc(current, Free, end)] else [], next)
      else if limit < min then Emission([], next)
      else EmitUpTo(body, limit - min, current, end, next)
    case None =>
      var round := Emit(body, current, next, next + 1);
      Emission([Arc(current, Free, end)] + round.arcs + [Arc(next, Free, current)], round.next)
  }

  /** Optional copies: before each one the fragment may leave for `end`. */
  ghost function EmitUpTo(body: Hir, n: nat, current: nat, end: nat, next: nat): (r: Emission)
    ensures r.next >= next
    decreases body, 1, n
  {
    if n == 0 then Emission([], next)
    else if n == 1 then
      var only := Emit(body, current, end, next);
      Emission([Arc(current, Free, end)] + only.arcs, only.next)
    else
      var first := Emit(body, current, next, next + 1);
      var rest := EmitUpTo(body, n - 1, next, end, first.next);
      Emission([Arc(current, Free, end)] + first.arcs + rest.arcs, rest.next)
  }

  // ---- One-step unfoldings -------------------------------------------------------------

  lemma CopiesUnfold(body: Hir, k: nat, start: nat, final: Option<nat>, next: nat, top: Hir)
    requires body < top
    ensures EmitChain(Copies(body, k), start, final, next, top) ==
            if k == 0 then Chain([], next, start)
            else if k == 1 && final.Some? then
              var only := Emit(body, start, final.value, next);
              Chain(only.arcs, only.next, final.value)
            else
              var first := Emit(body, start, next, next + 1);
              var rest := EmitChain(Copies(body, k - 1), next, final, first.next, top);
              Chain(first.arcs + rest.arcs, rest.next, rest.last)
  {
    if k > 0 {
      assert Copies(body, k)[0] == body && Copies(body, k)[1..] == Copies(body, k - 1);
    }
  }

  lemma UpToUnfold(body: Hir, k: nat, current: nat, end: nat, next: nat)
    ensures EmitUpTo(body, k, current, end, next) ==
            if k == 0 then Emission([], next)
            else if k == 1 then
              var only := Emit(body, current, end, next);
              Emission([Arc(current, Free, end)] + only.arcs, only.next)
            else
              var first := Emit(body, current, next, next + 1);
              var rest := EmitUpTo(body, k - 1, next, end, first.next);
              Emission([Arc(current, Free, end)] + first.arcs + rest.arcs, rest.next)
  {
  }

  // ---- Exactness -----------------------------------------------------------------------

  ghost function ArcSet(arcs: seq<Arc>): set<Arc> {
    set a | a in arcs
  }

  predicate Within(lo: nat, i: nat, hi: nat) {
    lo <= i < hi
  }

  ghost function Interval(lo: nat, hi: nat): set<nat> {
    set i: nat | lo <= i < hi && Within(lo, i, hi)
  }

  /** The fragment `g` from `s` to `e` behaves exactly as `Exits` and `Returns` say. */
  ghost predicate Realises(g: set<Arc>, w: Text, s: nat, e: nat, inner: set<nat>, h: Hir) {
    && Fragment(g, s, e, inner)
    && (forall c, d :: Path(g, w, s, e, c, d) <==> Exits(h, w, c, d))
    && (forall c, d :: Path(g, w, s, s, c, d) <==> Returns(h, w, c, d))
  }

  lemma OneArc(w: Text, s: nat, on: Label, e: nat)
    requires s != e
    ensures Fragment({Arc(s, on, e)}, s, e, {})
    ensures forall c, d :: Path({Arc(s, on, e)}, w, s, e, c, d) <==> Fires(w, on, c, d)
    ensures forall c, d :: Path({Arc(s, on, e)}, w, s, s, c, d) <==> c == d
  {
    var g := {Arc(s, on, e)};
    forall c, d | Fires(w, on, c, d) ensures Path(g, w, s, e, c, d) {
      ReachArc(g, w, Arc(s, on, e), c, d);
    }
    forall c ensures Path(g, w, s, s, c, c) {
      ReachRefl(g, w, Config(s, c));
    }
    forall c, y | Reach(g, w, Config(s, c), y) ensures y == Config(s, c) || (y.state == e && Fires(w, on, c, y.at)) {
      var region := iset v: Config | v == Config(s, c) || (v.state == e && Fires(w, on, c, v.at));
      ReachStaysInside(g, w, region, Config(s, c), y);
    }
  }

  lemma NoArc(w: Text, s: nat, e: nat)
    requires s != e
    ensures Fragment({}, s, e, {})
    ensures forall c, d :: !Path({}, w, s, e, c, d)
    ensures forall c, d :: Path({}, w, s, s, c, d) <==> c == d
  {
    forall c ensures Path({}, w, s, s, c, c) {
      ReachRefl({}, w, Config(s, c));
    }
    forall c, y | Reach({}, w, Config(s, c), y) ensures y == Config(s, c) {
      ReachStaysInside({}, w, iset{Config(s, c)}, Config(s, c), y);
    }
  }

  /**
   The compiler theorem: for every expression whatsoever, the emitted edges accept exactly
   `Exits` from entry to exit, and come back to the entry exactly along `Returns`.
   */
  lemma {:induction false} EmitExact(h: Hir, w: Text, s: nat, e: nat, n: nat)
    requires s != e && s < n && e < n
    ensures Realises(ArcSet(Emit(h, s, e, n).arcs), w, s, e, Interval(n, Emit(h, s, e, n).next), h)
    decreases h, 0
  {
    var r := Emit(h, s, e, n);
    match h
    case Never =>
      NoArc(w, s, e);
      assert ArcSet(r.arcs) == {};
    case Sequence(items) =>
      if items == [] {
        NoArc(w, s, e);
        assert EmitChain(items, s, Some(e), n, h) == Chain([], n, s);
        assert ArcSet(r.arcs) == {};
      } else {
        ChainExact(items, w, s, Some(e), n, h);
        assert Interval(n, r.next) - {e} == Interval(n, r.next);
      }
    case Alternation(branches) => AlternationExact(branches, w, s, e, n);
    case Repeat(body, min, max) => RepeatExact(body, min, max, w, s, e, n);
    case _ =>
      OneArc(w, s, r.arcs[0].on, e);
      assert ArcSet(r.arcs) == {r.arcs[0]};
  }

  lemma {:induction false} ChainExact(hs: seq<Hir>, w: Text, s: nat, final: Option<nat>, n: nat, top: Hir)
    requires hs != [] && Below(hs, top)
    requires s < n && (final.Some? ==> final.value < n && final.value != s)
    ensures var r := EmitChain(hs, s, final, n, top);
            && (if final.Some? then r.last == final.value else n <= r.last < r.next)
            && Fragment(ArcSet(r.arcs), s, r.last, Interval(n, r.next) - {r.last})
            && (forall c, d :: Path(ArcSet(r.arcs), w, s, r.last, c, d) <==> ExitsAll(hs, w, c, d))
            && (forall c, d :: Path(ArcSet(r.arcs), w, s, s, c, d) <==> Returns(hs[0], w, c, d))
    decreases top, 0, |hs|
  {
    hide Path, Fragment, Exits, Returns, ExitsAll, Emit;
    var r := EmitChain(hs, s, final, n, top);
    if |hs| == 1 && final.Some? {
      EmitExact(hs[0], w, s, final.value, n);
      assert Interval(n, r.next) - {r.last} == Interval(n, r.next);
      forall c, d ensures ExitsAll(hs, w, c, d) <==> Exits(hs[0], w, c, d) { OneItem(hs, w, c, d); }
    } else {
      var first := Emit(hs[0], s, n, n + 1);
      EmitExact(hs[0], w, s, n, n + 1);
      if |hs| == 1 {
        assert EmitChain(hs[1..], n, final, first.next, top) == Chain([], first.next, n);
        assert r.arcs == first.arcs;
        assert Interval(n, r.next) - {r.last} == Interval(n + 1, r.next);
        forall c, d ensures ExitsAll(hs, w, c, d) <==> Exits(hs[0], w, c, d) { OneItem(hs, w, c, d); }
      } else {
        var rest := EmitChain(hs[1..], n, final, first.next, top);
        ChainExact(hs[1..], w, n, final, first.next, top);
        assert ArcSet(r.arcs) == ArcSet(first.arcs) + ArcSet(rest.arcs);
        Serial(ArcSet(first.arcs), ArcSet(rest.arcs), w, s, n, rest.last,
               Interval(n + 1, first.next), Interval(first.next, rest.next) - {rest.last});
        assert Interval(n, r.next) - {r.last} ==
               Interval(n + 1, first.next) + (Interval(first.next, rest.next) - {rest.last}) + {n};
        forall c, d ensures ExitsAll(hs, w, c, d) <==> exists x :: Exits(hs[0], w, c, x) && ExitsAll(hs[1..], w, x, d) {
          ExitsAllSplits(hs, w, c, d);
        }
      }
    }
  }

  lemma OneItem(hs: seq<Hir>, w: Text, c: Cursor, d: Cursor)
    requires |hs| == 1
    ensures ExitsAll(hs, w, c, d) <==> Exits(hs[0], w, c, d)
  {
    assert hs[1..] == [];
    assert ExitsAll([], w, d, d);
    if ExitsAll(hs, w, c, d) {
      var m := ExitsAllWitness(hs, w, c, d);
    }
  }

  // ---- Alternation ---------------------------------------------------------------------

  /** The edges of each branch, and the states each branch allocates. */
  ghost function BranchArcs(hs: seq<Hir>, s: nat, e: nat, n: nat): (gs: seq<set<Arc>>)
    ensures |gs| == |hs|
  {
    if hs == [] then []
    else [ArcSet(Emit(hs[0], s, e, n).arcs)] + BranchArcs(hs[1..], s, e, Emit(hs[0], s, e, n).next)
  }

  ghost function BranchStates(hs: seq<Hir>, s: nat, e: nat, n: nat): (inner: seq<set<nat>>)
    ensures |inner| == |hs|
  {
    if hs == [] then []
    else [Interval(n, Emit(hs[0], s, e, n).next)] + BranchStates(hs[1..], s, e, Emit(hs[0], s, e, n).next)
  }

  lemma {:induction false} BranchesUnion(hs: seq<Hir>, s: nat, e: nat, n: nat, top: Hir)
    requires Below(hs, top)
    ensures IsUnion(ArcSet(EmitBranches(hs, s, e, n, top).arcs), BranchArcs(hs, s, e, n))
    decreases |hs|
  {
    hide Emit;
    if hs != [] {
      var first := Emit(hs[0], s, e, n);
      var rest := EmitBranches(hs[1..], s, e, first.next, top);
      BranchesUnion(hs[1..], s, e, first.next, top);
      assert ArcSet(first.arcs + rest.arcs) == ArcSet(first.arcs) + ArcSet(rest.arcs);
      UnionOneMore(ArcSet(first.arcs), ArcSet(rest.arcs), BranchArcs(hs[1..], s, e, first.next));
    }
  }

  lemma UnionOneMore(first: set<Arc>, rest: set<Arc>, gs: seq<set<Arc>>)
    requires IsUnion(rest, gs)
    ensures IsUnion(first + rest, [first] + gs)
  {
    var all := [first] + gs;
    assert all[0] == first && forall i :: 0 <= i < |gs| ==> all[i + 1] == gs[i];
    forall i | 0 <= i < |all| ensures all[i] <= first + rest {
      if i > 0 {
        assert gs[i - 1] <= rest;
      }
    }
    forall a | a in first + rest ensures exists i :: 0 <= i < |all| && a in all[i] {
      if a in first {
        assert a in all[0];
      } else {
        var i :| 0 <= i < |gs| && a in gs[i];
        assert a in all[i + 1];
      }
    }
  }

  lemma {:induction false} BranchesApart(hs: seq<Hir>, s: nat, e: nat, n: nat, top: Hir)
    requires Below(hs, top)
    ensures forall i :: 0 <= i < |hs| ==>
                          BranchStates(hs, s, e, n)[i] <= Interval(n, EmitBranches(hs, s, e, n, top).next)
    ensures forall i, j :: 0 <= i < j < |hs| ==> BranchStates(hs, s, e, n)[i] !! BranchStates(hs, s, e, n)[j]
    decreases |hs|
  {
    hide Emit;
    if hs != [] {
      var m := Emit(hs[0], s, e, n).next;
      BranchesApart(hs[1..], s, e, m, top);
      var inner, inner' := BranchStates(hs, s, e, n), BranchStates(hs[1..], s, e, m);
      assert inner[0] == Interval(n, m) && forall i :: 0 < i < |hs| ==> inner[i] == inner'[i - 1];
    }
  }

  lemma {:induction false} BranchesRealise(hs: seq<Hir>, w: Text, s: nat, e: nat, n: nat, top: Hir)
    requires Below(hs, top) && s != e && s < n && e < n
    ensures forall i :: 0 <= i < |hs| ==>
                          Realises(BranchArcs(hs, s, e, n)[i], w, s, e, BranchStates(hs, s, e, n)[i], hs[i])
    decreases top, 0, |hs|
  {
    hide Emit, Realises;
    if hs != [] {
      var m := Emit(hs[0], s, e, n).next;
      EmitExact(hs[0], w, s, e, n);
      BranchesRealise(hs[1..], w, s, e, m, top);
      var gs, gs' := BranchArcs(hs, s, e, n), BranchArcs(hs[1..], s, e, m);
      var inner, inner' := BranchStates(hs, s, e, n), BranchStates(hs[1..], s, e, m);
      forall i | 0 <= i < |hs| ensures Realises(gs[i], w, s, e, inner[i], hs[i]) {
        if i > 0 {
          assert gs[i] == gs'[i - 1] && inner[i] == inner'[i - 1] && hs[i] == hs[1..][i - 1];
        }
      }
    }
  }

  lemma {:induction false} BranchesExact(hs: seq<Hir>, w: Text, s: nat, e: nat, n: nat, top: Hir)
    requires Below(hs, top) && s != e && s < n && e < n
    ensures var gs, inner, r := BranchArcs(hs, s, e, n), BranchStates(hs, s, e, n), EmitBranches(hs, s, e, n, top);
            && (forall i :: 0 <= i < |hs| ==>
                              Realises(gs[i], w, s, e, inner[i], hs[i]) && inner[i] <= Interval(n, r.next))
            && (forall i, j :: 0 <= i < j < |hs| ==> inner[i] !! inner[j])
            && IsUnion(ArcSet(r.arcs), gs)
    decreases top, 0, |hs| + 1
  {
    hide Emit, EmitBranches, BranchArcs, BranchStates, Realises;
    BranchesUnion(hs, s, e, n, top);
    BranchesApart(hs, s, e, n, top);
    BranchesRealise(hs, w, s, e, n, top);
  }

  lemma {:induction false} AlternationExact(hs: seq<Hir>, w: Text, s: nat, e: nat, n: nat)
    requires s != e && s < n && e < n
    ensures var r := EmitBranches(hs, s, e, n, Alternation(hs));
            Realises(ArcSet(r.arcs), w, s, e, Interval(n, r.next), Alternation(hs))
    decreases Alternation(hs), 0, |hs| + 2
  {
    var h := Alternation(hs);
    var r := EmitBranches(hs, s, e, n, h);
    var g, gs, inner := ArcSet(r.arcs), BranchArcs(hs, s, e, n), BranchStates(hs, s, e, n);
    BranchesExact(hs, w, s, e, n, h);
    Parallel(g, gs, w, s, e, inner);
    forall c, d ensures Path(g, w, s, s, c, d) <==> Returns(h, w, c, d) {
      if ManyLaps(gs, w, s, c, d) {
        var k: nat :| Laps(gs, w, s, k, c, d);
        LapsAreBranchLaps(hs, gs, w, s, k, c, d);
        assert ManyBranchLaps(hs, w, c, d);
      }
      if Returns(h, w, c, d) {
        assert ManyBranchLaps(hs, w, c, d);
        var k: nat :| BranchLaps(hs, k, w, c, d);
        LapsAreBranchLaps(hs, gs, w, s, k, c, d);
      }
    }
    forall c, d ensures Path(g, w, s, e, c, d) <==> Exits(h, w, c, d) {
      if Path(g, w, s, e, c, d) {
        var x, i :| 0 <= i < |gs| && ManyLaps(gs, w, s, c, x) && Path(gs[i], w, s, e, x, d);
        assert Returns(h, w, c, x) && hs[i] in hs && Exits(hs[i], w, x, d);
      }
      if Exits(h, w, c, d) {
        var x, b := AlternationWitness(hs, w, c, d);
        var i :| 0 <= i < |hs| && hs[i] == b;
        assert ManyLaps(gs, w, s, c, x) && Path(gs[i], w, s, e, x, d);
      }
    }
  }

  lemma {:induction false} LapsAreBranchLaps(hs: seq<Hir>, gs: seq<set<Arc>>, w: Text, s: nat, k: nat, c: Cursor,
                                             d: Cursor)
    requires |gs| == |hs|
    requires forall i :: 0 <= i < |hs| ==> forall x, y :: Path(gs[i], w, s, s, x, y) <==> Returns(hs[i], w, x, y)
    ensures Laps(gs, w, s, k, c, d) <==> BranchLaps(hs, k, w, c, d)
  {
    if k > 0 {
      if Laps(gs, w, s, k, c, d) {
        var x, i :| 0 <= i < |gs| && Laps(gs, w, s, k - 1, c, x) && Path(gs[i], w, s, s, x, d);
        LapsAreBranchLaps(hs, gs, w, s, k - 1, c, x);
        assert BranchLaps(hs, k - 1, w, c, x) && hs[i] in hs && Returns(hs[i], w, x, d);
      }
      if BranchLaps(hs, k, w, c, d) {
        var x, b := BranchLapsWitness(hs, k, w, c, d);
        LapsAreBranchLaps(hs, gs, w, s, k - 1, c, x);
        var i :| 0 <= i < |hs| && hs[i] == b;
        assert Path(gs[i], w, s, s, x, d);
      }
    }
  }

  // ---- Repetition ----------------------------------------------------------------------

  lemma {:induction false} UpToExact(body: Hir, k: nat, w: Text, s: nat, e: nat, n: nat)
    requires k > 0 && s != e && s < n && e < n
    ensures var r := EmitUpTo(body, k, s, e, n);
            && Fragment(ArcSet(r.arcs), s, e, Interval(n, r.next))
            && (forall c, d :: Path(ArcSet(r.arcs), w, s, e, c, d) <==> ExitsUpTo(body, k, w, c, d))
            && (forall c, d :: Path(ArcSet(r.arcs), w, s, s, c, d) <==> Returns(body, w, c, d))
    decreases body, 1, k
  {
    hide Path, Fragment, Exits, Returns, Emit;
    var r := EmitUpTo(body, k, s, e, n);
    if k == 1 {
      var only := Emit(body, s, e, n);
      EmitExact(body, w, s, e, n);
      Skip(ArcSet(only.arcs), w, s, e, Interval(n, only.next));
      assert ArcSet(r.arcs) == ArcSet(only.arcs) + {Arc(s, Free, e)};
      forall c, d ensures ExitsUpTo(body, k, w, c, d) <==> Returns(body, w, c, d) || Exits(body, w, c, d) {
        assert ExitsUpTo(body, 0, w, d, d);
      }
    } else {
      var first := Emit(body, s, n, n + 1);
      var rest := EmitUpTo(body, k - 1, n, e, first.next);
      EmitExact(body, w, s, n, n + 1);
      UpToExact(body, k - 1, w, n, e, first.next);
      var f, t := ArcSet(first.arcs), ArcSet(rest.arcs);
      Serial(f, t, w, s, n, e, Interval(n + 1, first.next), Interval(first.next, rest.next));
      assert Interval(n, r.next) == Interval(n + 1, first.next) + Interval(first.next, rest.next) + {n};
      Skip(f + t, w, s, e, Interval(n, r.next));
      assert ArcSet(r.arcs) == f + t + {Arc(s, Free, e)};
    }
  }

  lemma {:induction false} LoopExact(body: Hir, w: Text, s: nat, e: nat, n: nat)
    requires s != e && s < n && e < n
    ensures var r := EmitTail(body, 0, None, s, e, n);
            && Fragment(ArcSet(r.arcs), s, e, Interval(n, r.next))
            && (forall c, d :: Path(ArcSet(r.arcs), w, s, e, c, d) <==> ManyBodyRounds(body, w, c, d))
            && (forall c, d :: Path(ArcSet(r.arcs), w, s, s, c, d) <==> ManyBodyRounds(body, w, c, d))
    decreases body, 1
  {
    var r := EmitTail(body, 0, None, s, e, n);
    var round := Emit(body, s, n, n + 1);
    var g := ArcSet(round.arcs);
    EmitExact(body, w, s, n, n + 1);
    Loop(g, w, s, n, e, Interval(n + 1, round.next));
    assert ArcSet(r.arcs) == g + {Arc(s, Free, e), Arc(n, Free, s)};
    assert Interval(n, r.next) == Interval(n + 1, round.next) + {n};
    forall c, d ensures ManyRounds(g, w, s, n, c, d) <==> ManyBodyRounds(body, w, c, d) {
      if ManyRounds(g, w, s, n, c, d) {
        var k: nat :| Rounds(g, w, s, n, k, c, d);
        RoundsAreBodyRounds(body, g, w, s, n, k, c, d);
      }
      if ManyBodyRounds(body, w, c, d) {
        var k := ManyBodyRoundsWitness(body, w, c, d);
        RoundsAreBodyRounds(body, g, w, s, n, k, c, d);
      }
    }
  }

  lemma {:induction false} RoundsAreBodyRounds(body: Hir, g: set<Arc>, w: Text, s: nat, l: nat, k: nat, c: Cursor,
                                               d: Cursor)
    requires forall x, y :: Path(g, w, s, l, x, y) <==> Exits(body, w, x, y)
    requires forall x, y :: Path(g, w, s, s, x, y) <==> Returns(body, w, x, y)
    ensures Rounds(g, w, s, l, k, c, d) <==> BodyRounds(body, k, w, c, d)
  {
    if k > 0 {
      if Rounds(g, w, s, l, k, c, d) {
        var x :| Rounds(g, w, s, l, k - 1, c, x) && (Path(g, w, s, s, x, d) || Path(g, w, s, l, x, d));
        RoundsAreBodyRounds(body, g, w, s, l, k - 1, c, x);
      }
      if BodyRounds(body, k, w, c, d) {
        var x := BodyRoundsWitness(body, k, w, c, d);
        RoundsAreBodyRounds(body, g, w, s, l, k - 1, c, x);
      }
    }
  }

  lemma {:induction false} CopiesExit(body: Hir, k: nat, w: Text, c: Cursor, d: Cursor)
    ensures ExitsAll(Copies(body, k), w, c, d) <==> ExitsTimes(body, k, w, c, d)
    decreases k
  {
    if k > 0 {
      assert Copies(body, k)[1..] == Copies(body, k - 1);
      assert Copies(body, k)[0] == body;
      if ExitsAll(Copies(body, k), w, c, d) {
        var m := ExitsAllWitness(Copies(body, k), w, c, d);
        CopiesExit(body, k - 1, w, m, d);
      }
      if m :| Exits(body, w, c, m) && ExitsTimes(body, k - 1, w, m, d) {
        CopiesExit(body, k - 1, w, m, d);
        ExitsAllFrom(Copies(body, k), w, c, m, d);
      }
    }
  }

  /** The part of a repeat after its required copies, as a fragment of its own. */
  lemma {:induction false} TailExact(body: Hir, min: nat, max: Option<U16>, w: Text, s: nat, e: nat, n: nat)
    requires s != e && s < n && e < n && (max == Some(min) ==> min == 0)
    ensures var r := EmitTail(body, min, max, s, e, n);
            && Fragment(ArcSet(r.arcs), s, e, Interval(n, r.next))
            && (forall c, d :: Path(ArcSet(r.arcs), w, s, e, c, d) <==> ExitsTail(body, min, max, w, c, d))
            && (min == 0 ==> forall c, d :: Path(ArcSet(r.arcs), w, s, s, c, d) <==>
                                            Returns(Repeat(body, 0, max), w, c, d))
    decreases body, 2
  {
    hide Path, Emit, Exits, EmitUpTo, ExitsUpTo, BodyRounds;
    var r := EmitTail(body, min, max, s, e, n);
    if max.None? {
      assert r == EmitTail(body, 0, None, s, e, n);
      LoopExact(body, w, s, e, n);
    } else if max.value == min {
      assert ArcSet(r.arcs) == {Arc(s, Free, e)};
      OneArc(w, s, Free, e);
    } else if max.value < min {
      assert ArcSet(r.arcs) == {};
      NoArc(w, s, e);
    } else {
      UpToExact(body, max.value - min, w, s, e, n);
    }
  }

  lemma {:induction false} RepeatExact(body: Hir, min: U16, max: Option<U16>, w: Text, s: nat, e: nat, n: nat)
    requires s != e && s < n && e < n
    ensures var h := Repeat(body, min, max);
            Realises(ArcSet(Emit(h, s, e, n).arcs), w, s, e, Interval(n, Emit(h, s, e, n).next), h)
    decreases Repeat(body, min, max), 0, min + 2
  {
    hide Path, Fragment, Exits, Emit, EmitChain, EmitTail, ExitsTimes, ExitsTail, Copies, Returns;
    var h := Repeat(body, min, max);
    var r := Emit(h, s, e, n);
    var final := if max == Some(min) then Some(e) else None;
    assert Below(Copies(body, min), h) by { CopiesBelow(body, min, h); }
    var required := EmitChain(Copies(body, min), s, final, n, h);
    var tail := EmitTail(body, min, max, required.last, e, required.next);
    RepeatUnfold(body, min, max, s, e, n);
    var f, t := ArcSet(required.arcs), ArcSet(tail.arcs);
    assert ArcSet(r.arcs) == f + t;
    if min == 0 {
      CopiesUnfold(body, 0, s, final, n, h);
      TailExact(body, 0, max, w, s, e, n);
      assert f + t == t;
      forall c, d ensures Exits(h, w, c, d) <==> ExitsTail(body, 0, max, w, c, d) {
        NoneRequired(body, max, w, c, d);
      }
    } else {
      RequiredExact(body, min, final, w, s, n, h);
      forall c, d ensures Exits(h, w, c, d) <==>
                          exists x :: ExitsTimes(body, min, w, c, x) && ExitsTail(body, min, max, w, x, d) {
        RepeatSplits(body, min, max, w, c, d);
      }
      forall c, d ensures Returns(h, w, c, d) <==> Returns(body, w, c, d) {
        RepeatReturns(body, min, max, w, c, d);
      }
      if max == Some(min) {
        NoTail(body, min, w, s, e, required.next);
        assert f + t == f && Interval(n, r.next) - {e} == Interval(n, r.next);
      } else {
        TailExact(body, min, max, w, required.last, e, required.next);
        var fi := Interval(n, required.next) - {required.last};
        Serial(f, t, w, s, required.last, e, fi, Interval(required.next, tail.next));
        assert Interval(n, r.next) == fi + Interval(required.next, tail.next) + {required.last};
      }
    }
  }

  lemma CopiesBelow(body: Hir, k: nat, top: Hir)
    requires body < top
    ensures Below(Copies(body, k), top)
  {
  }

  lemma RepeatUnfold(body: Hir, min: U16, max: Option<U16>, s: nat, e: nat, n: nat)
    ensures var h := Repeat(body, min, max);
            var required := EmitChain(Copies(body, min), s, if max == Some(min) then Some(e) else None, n, h);
            var tail := EmitTail(body, min, max, required.last, e, required.next);
            Emit(h, s, e, n) == Emission(required.arcs + tail.arcs, tail.next)
  {
  }

  lemma RepeatReturns(body: Hir, min: U16, max: Option<U16>, w: Text, c: Cursor, d: Cursor)
    requires min > 0
    ensures Returns(Repeat(body, min, max), w, c, d) <==> Returns(body, w, c, d)
  {
  }

  lemma NoTail(body: Hir, min: U16, w: Text, s: nat, e: nat, n: nat)
    requires min > 0
    ensures forall last: nat :: EmitTail(body, min, Some(min), last, e, n) == Emission([], n)
    ensures forall c, d :: ExitsTail(body, min, Some(min), w, c, d) <==> c == d
  {
  }

  lemma {:induction false} RequiredExact(body: Hir, k: nat, final: Option<nat>, w: Text, s: nat, n: nat, top: Hir)
    requires k > 0 && body < top
    requires s < n && (final.Some? ==> final.value < n && final.value != s)
    ensures var r := EmitChain(Copies(body, k), s, final, n, top);
            && (if final.Some? then r.last == final.value else n <= r.last < r.next)
            && Fragment(ArcSet(r.arcs), s, r.last, Interval(n, r.next) - {r.last})
            && (forall c, d :: Path(ArcSet(r.arcs), w, s, r.last, c, d) <==> ExitsTimes(body, k, w, c, d))
            && (forall c, d :: Path(ArcSet(r.arcs), w, s, s, c, d) <==> Returns(body, w, c, d))
    decreases top, 0, k + 1
  {
    ChainExact(Copies(body, k), w, s, final, n, top);
    forall c, d ensures ExitsAll(Copies(body, k), w, c, d) <==> ExitsTimes(body, k, w, c, d) {
      CopiesExit(body, k, w, c, d);
    }
  }
}
