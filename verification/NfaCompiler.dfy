/**
 The imperative compiler: growable edge and terminal tables, and interned predicates
 (rustmatch/src/nfa.rs:406-597).  Its effect on the tables is exactly the emission of
 module Emission, appended in order.
 */
module NfaCompiler {
  import opened Base
  import opened Assertions
  import opened Predicates
  import opened HirSyntax
  import opened Graph
  import opened Emission

  /** Dense ids are 32-bit: index 2^32 and beyond cannot be named. */
  const ID_LIMIT: nat := 0x1_0000_0000

  datatype EdgeKind =
    | EpsilonEdge
    | AssertionEdge(assertion: Assertion)
    | SymbolEdge(unit: U16)
    | PredicateEdge(id: nat)

  datatype Edge = Edge(kind: EdgeKind, target: nat)

  // ---- Tables as graphs ----------------------------------------------------------------

  function LabelOf(kind: EdgeKind, predicates: seq<CanonicalPredicate>): Label {
    match kind
    case EpsilonEdge => Free
    case AssertionEdge(a) => Guard(a)
    case SymbolEdge(u) => Unit(u)
    case PredicateEdge(id) => if id < |predicates| then Class(predicates[id]) else Free
  }

  /** The edges stored for state `q`, in order, as labelled arcs. */
  function Row(q: nat, edges: seq<Edge>, predicates: seq<CanonicalPredicate>): (r: seq<Arc>)
    ensures |r| == |edges|
    ensures forall k :: 0 <= k < |r| ==> r[k] == Arc(q, LabelOf(edges[k].kind, predicates), edges[k].target)
  {
    seq(|edges|, k requires 0 <= k < |edges| => Arc(q, LabelOf(edges[k].kind, predicates), edges[k].target))
  }

  function Rows(edges: seq<seq<Edge>>, predicates: seq<CanonicalPredicate>): (r: seq<seq<Arc>>)
    ensures |r| == |edges|
    ensures forall q :: 0 <= q < |r| ==> r[q] == Row(q, edges[q], predicates)
  {
    seq(|edges|, q requires 0 <= q < |edges| => Row(q, edges[q], predicates))
  }

  /** The arcs that leave `q`, in the order they were pushed. */
  ghost function From(q: nat, arcs: seq<Arc>): seq<Arc> {
    if arcs == [] then []
    else (if arcs[0].source == q then [arcs[0]] else []) + From(q, arcs[1..])
  }

  lemma {:induction false} FromConcat(q: nat, a: seq<Arc>, b: seq<Arc>)
    ensures From(q, a + b) == From(q, a) + From(q, b)
  {
    if a == [] {
      assert a + b == b;
    } else {
      assert (a + b)[1..] == a[1..] + b && (a + b)[0] == a[0];
      FromConcat(q, a[1..], b);
      var head := if a[0].source == q then [a[0]] else [];
      assert From(q, a + b) == head + From(q, a[1..] + b);
      assert head + (From(q, a[1..]) + From(q, b)) == (head + From(q, a[1..])) + From(q, b);
    }
  }

  lemma {:induction false} FromMember(q: nat, arcs: seq<Arc>, a: Arc)
    ensures a in From(q, arcs) <==> a in arcs && a.source == q
  {
    if arcs != [] {
      FromMember(q, arcs[1..], a);
    }
  }

  /** `after` is `before`, grown to `next` states, with `arcs` pushed in order. */
  ghost predicate Appended(before: seq<seq<Arc>>, after: seq<seq<Arc>>, arcs: seq<Arc>) {
    && |before| <= |after|
    && (forall a :: a in arcs ==> a.source < |after|)
    && (forall q :: 0 <= q < |after| ==> after[q] == (if q < |before| then before[q] else []) + From(q, arcs))
  }

  lemma {:induction false} FromElsewhere(q: nat, arcs: seq<Arc>)
    requires forall a :: a in arcs ==> a.source != q
    ensures From(q, arcs) == []
  {
    if arcs != [] {
      assert arcs[0] in arcs;
      FromElsewhere(q, arcs[1..]);
    }
  }

  lemma AppendedRow(a: seq<seq<Arc>>, b: seq<seq<Arc>>, c: seq<seq<Arc>>, first: seq<Arc>, second: seq<Arc>, q: nat)
    requires Appended(a, b, first) && Appended(b, c, second) && q < |c|
    ensures c[q] == (if q < |a| then a[q] else []) + From(q, first + second)
  {
    hide From;
    FromConcat(q, first, second);
    var start := if q < |a| then a[q] else [];
    if q < |b| {
      assert (start + From(q, first)) + From(q, second) == start + (From(q, first) + From(q, second));
    } else {
      FromElsewhere(q, first);
      assert start + From(q, second) == start + ([] + From(q, second));
    }
  }

  lemma AppendedTrans(a: seq<seq<Arc>>, b: seq<seq<Arc>>, c: seq<seq<Arc>>, first: seq<Arc>, second: seq<Arc>)
    requires Appended(a, b, first) && Appended(b, c, second)
    ensures Appended(a, c, first + second)
  {
    forall q | 0 <= q < |c| ensures c[q] == (if q < |a| then a[q] else []) + From(q, first + second) {
      AppendedRow(a, b, c, first, second, q);
    }
    forall x | x in first + second ensures x.source < |c| {
      assert x in first || x in second;
    }
  }

  // ---- Interned predicates -------------------------------------------------------------

  ghost function WithLabel(known: seq<CanonicalPredicate>, on: Label): (r: seq<CanonicalPredicate>)
    ensures known <= r
  {
    if on.Class? && on.allowed !in known then known + [on.allowed] else known
  }

  /** The `known` predicates, then those of the arcs in the order they first occur. */
  ghost function Interned(known: seq<CanonicalPredicate>, arcs: seq<Arc>): (r: seq<CanonicalPredicate>)
    ensures known <= r
    decreases |arcs|
  {
    if arcs == [] then known else Interned(WithLabel(known, arcs[0].on), arcs[1..])
  }

  lemma {:induction false} InternedConcat(known: seq<CanonicalPredicate>, a: seq<Arc>, b: seq<Arc>)
    ensures Interned(known, a + b) == Interned(Interned(known, a), b)
    decreases |a|
  {
    if a == [] {
      assert a + b == b;
    } else {
      assert (a + b)[1..] == a[1..] + b && (a + b)[0] == a[0];
      InternedConcat(WithLabel(known, a[0].on), a[1..], b);
    }
  }

  lemma InternedOne(known: seq<CanonicalPredicate>, a: Arc)
    ensures Interned(known, [a]) == WithLabel(known, a.on)
  {
    assert [a][1..] == [];
  }

  lemma NothingKnown(known: seq<CanonicalPredicate>)
    ensures Interned(known, []) == known
  {
  }

  lemma NothingInterned()
    ensures Interned([], []) == []
  {
  }

  ghost function ClassesIn(arcs: seq<Arc>): set<CanonicalPredicate> {
    set a | a in arcs && a.on.Class? :: a.on.allowed
  }

  lemma ClassesOfFirst(arcs: seq<Arc>)
    requires arcs != []
    ensures ClassesIn(arcs) == (if arcs[0].on.Class? then {arcs[0].on.allowed} else {}) + ClassesIn(arcs[1..])
  {
    forall p ensures p in ClassesIn(arcs) <==>
                     p in (if arcs[0].on.Class? then {arcs[0].on.allowed} else {}) + ClassesIn(arcs[1..]) {
      if p in ClassesIn(arcs) {
        var a :| a in arcs && a.on.Class? && a.on.allowed == p;
        assert a == arcs[0] || a in arcs[1..];
      }
    }
  }

  /** Interning keeps one copy of each predicate, so ids are needed for the distinct ones only. */
  lemma {:induction false} InternedMembers(known: seq<CanonicalPredicate>, arcs: seq<Arc>)
    requires forall i, j :: 0 <= i < j < |known| ==> known[i] != known[j]
    ensures |Interned(known, arcs)| == |(set p | p in known) + ClassesIn(arcs)|
    decreases |arcs|
  {
    var held := set p | p in known;
    if arcs == [] {
      assert ClassesIn(arcs) == {};
      assert held + {} == held;
      DistinctCount(known);
    } else {
      ClassesOfFirst(arcs);
      var more := WithLabel(known, arcs[0].on);
      InternedMembers(more, arcs[1..]);
      assert (set p | p in more) + ClassesIn(arcs[1..]) == held + ClassesIn(arcs);
    }
  }

  lemma {:induction false} DistinctCount(s: seq<CanonicalPredicate>)
    requires forall i, j :: 0 <= i < j < |s| ==> s[i] != s[j]
    ensures |set p | p in s| == |s|
  {
    if s != [] {
      var last := |s| - 1;
      DistinctCount(s[..last]);
      assert s == s[..last] + [s[last]];
      assert (set p | p in s) == (set p | p in s[..last]) + {s[last]};
      assert s[last] !in s[..last];
    }
  }

  /** A snapshot of the compiler's tables. */
  datatype Tables = Tables(rows: seq<seq<Arc>>, terminals: seq<seq<nat>>, predicates: seq<CanonicalPredicate>)

  /** Pushing `arcs` turns `a` into `b`; new states start without terminals. */
  ghost predicate Grew(a: Tables, b: Tables, arcs: seq<Arc>) {
    && Appended(a.rows, b.rows, arcs)
    && |a.terminals| <= |b.terminals|
    && (forall q :: 0 <= q < |b.terminals| ==> b.terminals[q] == if q < |a.terminals| then a.terminals[q] else [])
    && b.predicates == Interned(a.predicates, arcs)
  }

  /**
   Exactly when the compiler gives up (`Error::PatternSetTooLarge`): the states, or the
   `known` predicates and those the edges need beside them, do not fit in 32-bit ids.
   */
  ghost predicate TooLarge(known: seq<CanonicalPredicate>, next: nat, arcs: seq<Arc>) {
    next > ID_LIMIT || |Interned(known, arcs)| > ID_LIMIT
  }

  /** What failed after `done` would have to be part of `total`. */
  lemma StillTooLarge(known: seq<CanonicalPredicate>, done: seq<Arc>, next: nat, arcs: seq<Arc>, totalNext: nat,
                      total: seq<Arc>)
    requires TooLarge(Interned(known, done), next, arcs) && next <= totalNext && done + arcs <= total
    ensures TooLarge(known, totalNext, total)
  {
    hide Interned;
    var rest := total[|done + arcs|..];
    assert (done + arcs) + rest == total;
    InternedConcat(known, done, arcs);
    InternedConcat(known, done + arcs, rest);
    assert |Interned(known, done + arcs)| <= |Interned(Interned(known, done + arcs), rest)|;
  }

  lemma GrewFits(a: Tables, b: Tables, arcs: seq<Arc>, next: nat)
    requires Grew(a, b, arcs) && |b.predicates| <= ID_LIMIT && next <= ID_LIMIT
    ensures !TooLarge(a.predicates, next, arcs)
  {
  }

  lemma GrewNothing(a: Tables)
    ensures Grew(a, a, [])
  {
  }

  lemma GrewTrans(a: Tables, b: Tables, c: Tables, first: seq<Arc>, second: seq<Arc>)
    requires Grew(a, b, first) && Grew(b, c, second)
    ensures Grew(a, c, first + second)
  {
    AppendedTrans(a.rows, b.rows, c.rows, first, second);
    InternedConcat(a.predicates, first, second);
  }

  lemma GrewInterned(a: Tables, b: Tables, arcs: seq<Arc>)
    requires Grew(a, b, arcs)
    ensures b.predicates == Interned(a.predicates, arcs)
  {
  }

  lemma GrewRows(a: Tables, b: Tables, arcs: seq<Arc>)
    requires Grew(a, b, arcs)
    ensures Appended(a.rows, b.rows, arcs) && |a.terminals| <= |b.terminals|
    ensures forall q :: 0 <= q < |b.terminals| ==> b.terminals[q] == if q < |a.terminals| then a.terminals[q] else []
  {
  }

  lemma GrewByInterning(a: Tables, b: Tables, c: Tables, arc: Arc)
    requires b == a.(predicates := WithLabel(a.predicates, arc.on))
    requires Grew(b, c, [arc]) && c.predicates == b.predicates
    ensures Grew(a, c, [arc])
  {
    InternedOne(a.predicates, arc);
  }

  // ---- Emissions in progress -----------------------------------------------------------

  /** After `done`, exactly the emission of `k` more copies completes `total`. */
  ghost predicate TowardChain(total: Chain, done: seq<Arc>, body: Hir, k: nat, current: nat, final: Option<nat>,
                              n: nat, top: Hir)
    requires body < top
  {
    var rest := EmitChain(Copies(body, k), current, final, n, top);
    total == Chain(done + rest.arcs, rest.next, rest.last)
  }

  lemma ChainStarts(body: Hir, k: nat, current: nat, final: Option<nat>, n: nat, top: Hir)
    requires body < top
    ensures TowardChain(EmitChain(Copies(body, k), current, final, n, top), [], body, k, current, final, n, top)
  {
    var rest := EmitChain(Copies(body, k), current, final, n, top);
    assert [] + rest.arcs == rest.arcs;
  }

  lemma ChainAdvances(total: Chain, done: seq<Arc>, body: Hir, k: nat, current: nat, final: Option<nat>, n: nat,
                      top: Hir)
    requires body < top && k > 0 && TowardChain(total, done, body, k, current, final, n, top)
    ensures var target := if k == 1 && final.Some? then final.value else n;
            var first := Emit(body, current, target, if k == 1 && final.Some? then n else n + 1);
            && TowardChain(total, done + first.arcs, body, k - 1, target, final, first.next, top)
            && total.next >= first.next && done + first.arcs <= total.arcs
  {
    hide Emit, EmitChain, Copies;
    assert Below(Copies(body, k), top)
           && Below(Copies(body, k - 1), top) by { CopiesBelow(body, k, top); CopiesBelow(body, k - 1, top); }
    CopiesUnfold(body, k, current, final, n, top);
    if k == 1 {
      var target := if final.Some? then final.value else n;
      var first := Emit(body, current, target, if final.Some? then n else n + 1);
      CopiesUnfold(body, 0, target, final, first.next, top);
      assert done + first.arcs == done + (first.arcs + []) == (done + first.arcs) + [];
    } else {
      var first := Emit(body, current, n, n + 1);
      var rest := EmitChain(Copies(body, k - 1), n, final, first.next, top);
      assert done + (first.arcs + rest.arcs) == (done + first.arcs) + rest.arcs;
    }
  }

  lemma ChainEnds(total: Chain, done: seq<Arc>, body: Hir, current: nat, final: Option<nat>, n: nat, top: Hir)
    requires body < top && TowardChain(total, done, body, 0, current, final, n, top)
    ensures total == Chain(done, n, current)
  {
    CopiesUnfold(body, 0, current, final, n, top);
    assert done + [] == done;
  }

  ghost predicate TowardUpTo(total: Emission, done: seq<Arc>, body: Hir, k: nat, current: nat, end: nat, n: nat) {
    var rest := EmitUpTo(body, k, current, end, n);
    total == Emission(done + rest.arcs, rest.next)
  }

  lemma UpToStarts(body: Hir, k: nat, current: nat, end: nat, n: nat)
    ensures TowardUpTo(EmitUpTo(body, k, current, end, n), [], body, k, current, end, n)
  {
    var rest := EmitUpTo(body, k, current, end, n);
    assert [] + rest.arcs == rest.arcs;
  }

  lemma UpToAdvances(total: Emission, done: seq<Arc>, body: Hir, k: nat, current: nat, end: nat, n: nat)
    requires k > 0 && TowardUpTo(total, done, body, k, current, end, n)
    ensures var target := if k == 1 then end else n;
            var first := Emit(body, current, target, if k == 1 then n else n + 1);
            var added := [Arc(current, Free, end)] + first.arcs;
            && TowardUpTo(total, done + added, body, k - 1, target, end, first.next)
            && total.next >= first.next && done + added <= total.arcs
  {
    hide Emit;
    UpToUnfold(body, k, current, end, n);
    var target := if k == 1 then end else n;
    var first := Emit(body, current, target, if k == 1 then n else n + 1);
    var added := [Arc(current, Free, end)] + first.arcs;
    var rest := EmitUpTo(body, k - 1, target, end, first.next);
    assert done + (added + rest.arcs) == (done + added) + rest.arcs;
    if k == 1 {
      UpToUnfold(body, 0, target, end, first.next);
      assert added + [] == added;
    }
  }

  lemma UpToEnds(total: Emission, done: seq<Arc>, body: Hir, current: nat, end: nat, n: nat)
    requires TowardUpTo(total, done, body, 0, current, end, n)
    ensures total == Emission(done, n)
  {
    UpToUnfold(body, 0, current, end, n);
    assert done + [] == done;
  }

  /** After `done`, exactly the emission of the branches `rest` completes `total`. */
  ghost predicate TowardBranches(total: Emission, done: seq<Arc>, rest: seq<Hir>, start: nat, end: nat, n: nat,
                                 top: Hir)
    requires Below(rest, top)
  {
    var r := EmitBranches(rest, start, end, n, top);
    total == Emission(done + r.arcs, r.next)
  }

  lemma BranchesStart(hs: seq<Hir>, start: nat, end: nat, n: nat, top: Hir)
    requires Below(hs, top)
    ensures TowardBranches(EmitBranches(hs, start, end, n, top), [], hs, start, end, n, top)
  {
    var r := EmitBranches(hs, start, end, n, top);
    assert [] + r.arcs == r.arcs;
  }

  lemma BranchesAdvance(total: Emission, done: seq<Arc>, hs: seq<Hir>, index: nat, start: nat, end: nat, n: nat,
                        top: Hir)
    requires Below(hs, top) && index < |hs| && TowardBranches(total, done, hs[index..], start, end, n, top)
    ensures var first := Emit(hs[index], start, end, n);
            && TowardBranches(total, done + first.arcs, hs[index + 1..], start, end, first.next, top)
            && total.next >= first.next && done + first.arcs <= total.arcs
  {
    hide Emit;
    var first := Emit(hs[index], start, end, n);
    assert hs[index..][0] == hs[index] && hs[index..][1..] == hs[index + 1..];
    var rest := EmitBranches(hs[index + 1..], start, end, first.next, top);
    assert done + (first.arcs + rest.arcs) == (done + first.arcs) + rest.arcs;
  }

  lemma BranchesEnd(total: Emission, done: seq<Arc>, hs: seq<Hir>, start: nat, end: nat, n: nat, top: Hir)
    requires Below(hs, top) && TowardBranches(total, done, hs[|hs|..], start, end, n, top)
    ensures total == Emission(done, n)
  {
    assert hs[|hs|..] == [] && done + [] == done;
  }

  // ---- The compiler --------------------------------------------------------------------

  class Compiler {
    var edges: seq<seq<Edge>>
    var terminals: seq<seq<nat>>
    var predicates: seq<CanonicalPredicate>
    var predicateIds: map<CanonicalPredicate, nat>

    ghost predicate Valid()
      reads this
    {
      && |edges| == |terminals| <= ID_LIMIT
      && |predicates| <= ID_LIMIT
      && (forall q, k :: 0 <= q < |edges| && 0 <= k < |edges[q]| ==> EdgeInRange(edges[q][k]))
      && (forall i :: 0 <= i < |predicates| ==> predicates[i] in predicateIds && predicateIds[predicates[i]] == i)
      && (forall p :: p in predicateIds ==> predicateIds[p] < |predicates| && predicates[predicateIds[p]] == p)
    }

    ghost predicate EdgeInRange(e: Edge)
      reads this
    {
      e.target < |edges| && (e.kind.PredicateEdge? ==> e.kind.id < |predicates|)
    }

    ghost function Now(): Tables
      reads this
    {
      Tables(Rows(edges, predicates), terminals, predicates)
    }

    constructor (roots: nat)
      requires 0 < roots <= ID_LIMIT
      ensures Valid() && |edges| == roots && predicates == []
      ensures forall q :: 0 <= q < roots ==> edges[q] == [] && terminals[q] == []
    {
      edges := seq(roots, _ => []);
      terminals := seq(roots, _ => []);
      predicates := [];
      predicateIds := map[];
    }

    method AddState() returns (id: Option<nat>)
      requires Valid()
      modifies this
      ensures Valid() && Grew(old(Now()), Now(), [])
      ensures id == if old(|edges|) < ID_LIMIT then Some(old(|edges|)) else None
      ensures |edges| == old(|edges|) + if id.Some? then 1 else 0
    {
      if |edges| >= ID_LIMIT {
        return None;
      }
      id := Some(|edges|);
      edges := edges + [[]];
      terminals := terminals + [[]];
    }

    method Push(source: nat, kind: EdgeKind, target: nat)
      requires Valid() && source < |edges| && target < |edges|
      requires kind.PredicateEdge? ==> kind.id < |predicates|
      modifies this`edges
      ensures Valid() && |edges| == old(|edges|)
      ensures Grew(old(Now()), Now(), [Arc(source, LabelOf(kind, predicates), target)])
    {
      edges := edges[source := edges[source] + [Edge(kind, target)]];
      ghost var arc := Arc(source, LabelOf(kind, predicates), target);
      forall q | 0 <= q < |edges| ensures Now().rows[q] == old(Now()).rows[q] + From(q, [arc]) {
        assert [arc][1..] == [];
        assert From(q, [arc]) == if q == source then [arc] else [];
      }
    }

    method InternPredicate(p: CanonicalPredicate) returns (id: Option<nat>)
      requires Valid()
      modifies this`predicates, this`predicateIds
      ensures Valid() && Rows(edges, predicates) == old(Rows(edges, predicates))
      ensures id.Some? ==> id.value < |predicates| && predicates[id.value] == p
      ensures predicates == if id.Some? && p !in old(predicates) then old(predicates) + [p] else old(predicates)
      ensures id.None? <==> p !in old(predicates) && |old(predicates)| == ID_LIMIT
      ensures Now() == old(Now()).(predicates := predicates)
    {
      if p in predicateIds {
        id := Some(predicateIds[p]);
      } else if |predicates| >= ID_LIMIT {
        id := None;
      } else {
        id := Some(|predicates|);
        predicateIds := predicateIds[p := |predicates|];
        predicates := predicates + [p];
      }
      forall q | 0 <= q < |edges| ensures Rows(edges, predicates)[q] == old(Rows(edges, predicates))[q] {
        assert forall k :: 0 <= k < |edges[q]| ==> EdgeInRange(edges[q][k]);
      }
    }

    method CompileExpression(h: Hir, start: nat, end: nat) returns (ok: bool)
      requires Valid() && start < |edges| && end < |edges|
      modifies this
      ensures Valid()
      ensures ok ==>
                Grew(old(Now()), Now(), Emit(h, start, end, old(|edges|)).arcs)
                && |edges| == Emit(h, start, end, old(|edges|)).next
      ensures var r := Emit(h, start, end, old(|edges|)); ok <==> !TooLarge(old(predicates), r.next, r.arcs)
      decreases h, 0
    {
      hide Grew, Rows, Interned, TooLarge;
      ok := true;
      match h {
        case Never => GrewNothing(Now());
        case Epsilon => Push(start, EpsilonEdge, end);
        case Assert(a) => Push(start, AssertionEdge(a), end);
        case Symbol(u) => Push(start, SymbolEdge(u), end);
        case Predicate(p) => ok := CompileClass(p, start, end);
        case Sequence(items) => ok := CompileSequence(h, items, start, end);
        case Alternation(branches) => ok := CompileBranches(h, branches, start, end);
        case Repeat(body, min, max) => ok := CompileRepetition(body, min, max, start, end);
      }
      if ok {
        GrewFits(old(Now()), Now(), Emit(h, start, end, old(|edges|)).arcs, |edges|);
      }
    }

    method CompileClass(p: CanonicalPredicate, start: nat, end: nat) returns (ok: bool)
      requires Valid() && start < |edges| && end < |edges|
      modifies this
      ensures Valid() && |edges| == old(|edges|)
      ensures ok ==> Grew(old(Now()), Now(), [Arc(start, Class(p), end)])
      ensures !ok ==> TooLarge(old(predicates), |edges|, [Arc(start, Class(p), end)])
    {
      hide Grew, Rows, Compiler.Valid, Interned;
      var id := InternPredicate(p);
      if id.None? {
        InternedOne(predicates, Arc(start, Class(p), end));
        return false;
      }
      ghost var interned := Now();
      Push(start, PredicateEdge(id.value), end);
      GrewByInterning(old(Now()), interned, Now(), Arc(start, Class(p), end));
      ok := true;
    }

    method CompileSequence(ghost h: Hir, items: seq<Hir>, start: nat, end: nat) returns (ok: bool)
      requires Valid() && start < |edges| && end < |edges| && h == Sequence(items)
      modifies this
      ensures Valid()
      ensures ok ==>
                Grew(old(Now()), Now(), EmitChain(items, start, Some(end), old(|edges|), h).arcs)
                && |edges| == EmitChain(items, start, Some(end), old(|edges|), h).next
      ensures !ok ==> var r := EmitChain(items, start, Some(end), old(|edges|), h);
                      TooLarge(old(predicates), r.next, r.arcs)
      decreases h, 0, 0
    {
      hide Grew, Rows, Emit, Interned, TooLarge;
      ghost var total := EmitChain(items, start, Some(end), |edges|, h);
      ghost var done: seq<Arc> := [];
      var current: nat := start;
      GrewNothing(Now());
      for index := 0 to |items|
        invariant Valid() && current < |edges| && end < |edges| && Grew(old(Now()), Now(), done)
        invariant index == |items| ==> total == Chain(done, |edges|, current)
        invariant index < |items| ==>
            var rest := EmitChain(items[index..], current, Some(end), |edges|, h);
            total == Chain(done + rest.arcs, rest.next, rest.last)
      {
        ghost var n := |edges|;
        ghost var before := Now();
        GrewInterned(old(Now()), before, done);
        ghost var first;
        assert items[index..][0] == items[index] && items[index..][1..] == items[index + 1..];
        assert |items[index..]| == |items| - index;
        if index + 1 == |items| {
          first := Emit(items[index], current, end, n);
          ok := CompileExpression(items[index], current, end);
          current := end;
        } else {
          first := Emit(items[index], current, n, n + 1);
          ok, current := CompileCopy(items[index], current);
        }
        if !ok {
          StillTooLarge(old(predicates), done, first.next, first.arcs, total.next, total.arcs);
          return;
        }
        GrewTrans(old(Now()), before, Now(), done, first.arcs);
        done := done + first.arcs;
      }
      ok := true;
    }

    method CompileBranches(ghost h: Hir, branches: seq<Hir>, start: nat, end: nat) returns (ok: bool)
      requires Valid() && start < |edges| && end < |edges| && h == Alternation(branches)
      modifies this
      ensures Valid()
      ensures ok ==>
                Grew(old(Now()), Now(), EmitBranches(branches, start, end, old(|edges|), h).arcs)
                && |edges| == EmitBranches(branches, start, end, old(|edges|), h).next
      ensures !ok ==> var r := EmitBranches(branches, start, end, old(|edges|), h);
                      TooLarge(old(predicates), r.next, r.arcs)
      decreases h, 0, 0
    {
      hide Grew, Rows, Emit, EmitBranches, TowardBranches, Interned, TooLarge;
      ghost var total := EmitBranches(branches, start, end, |edges|, h);
      ghost var done: seq<Arc> := [];
      GrewNothing(Now());
      BranchesStart(branches, start, end, |edges|, h);
      assert branches[0..] == branches;
      for index := 0 to |branches|
        invariant Valid() && start < |edges| && end < |edges| && Grew(old(Now()), Now(), done)
        invariant TowardBranches(total, done, branches[index..], start, end, |edges|, h)
      {
        ghost var before := Now();
        GrewInterned(old(Now()), before, done);
        BranchesAdvance(total, done, branches, index, start, end, |edges|, h);
        ghost var first := Emit(branches[index], start, end, |edges|);
        ok := CompileExpression(branches[index], start, end);
        if !ok {
          StillTooLarge(old(predicates), done, first.next, first.arcs, total.next, total.arcs);
          return;
        }
        GrewTrans(old(Now()), before, Now(), done, first.arcs);
        done := done + first.arcs;
      }
      BranchesEnd(total, done, branches, start, end, |edges|, h);
      ok := true;
    }

    /** One item or copy, preceded by the allocation of the state it ends in. */
    method CompileCopy(body: Hir, current: nat) returns (ok: bool, next: nat)
      requires Valid() && current < |edges|
      modifies this
      ensures Valid()
      ensures ok ==> var r := Emit(body, current, old(|edges|), old(|edges|) + 1);
                     Grew(old(Now()), Now(), r.arcs) && |edges| == r.next && next == old(|edges|) < |edges|
      ensures !ok ==> var r := Emit(body, current, old(|edges|), old(|edges|) + 1);
                      TooLarge(old(predicates), r.next, r.arcs)
      decreases body, 1
    {
      hide Grew, Rows, Emit, Interned;
      next := 0;
      var added := AddState();
      if added.None? {
        return false, next;
      }
      next := added.value;
      ghost var grown := Now();
      ghost var r := Emit(body, current, next, next + 1);
      ok := CompileExpression(body, current, next);
      if !ok {
        GrewInterned(old(Now()), grown, []);
        assert [] + r.arcs == r.arcs;
        StillTooLarge(old(predicates), [], r.next, r.arcs, r.next, r.arcs);
      } else {
        GrewTrans(old(Now()), grown, Now(), [], r.arcs);
        assert [] + r.arcs == r.arcs;
      }
    }

    method CompileRepetition(body: Hir, min: U16, max: Option<U16>, start: nat, end: nat) returns (ok: bool)
      requires Valid() && start < |edges| && end < |edges|
      modifies this
      ensures Valid()
      ensures ok ==> var r := Emit(Repeat(body, min, max), start, end, old(|edges|));
                     Grew(old(Now()), Now(), r.arcs) && |edges| == r.next
      ensures var r := Emit(Repeat(body, min, max), start, end, old(|edges|));
              ok <==> !TooLarge(old(predicates), r.next, r.arcs)
      decreases Repeat(body, min, max), 0, 1
    {
      hide Grew, Rows, Interned, TooLarge;
      var final := if max == Some(min) then Some(end) else None;
      ghost var h := Repeat(body, min, max);
      ghost var required := EmitChain(Copies(body, min), start, final, |edges|, h);
      ghost var tail := EmitTail(body, min, max, required.last, end, required.next);
      assert Emit(h, start, end, |edges|) == Emission(required.arcs + tail.arcs, tail.next);
      var current;
      ok, current := CompileRequired(h, body, min, start, final);
      if !ok {
        NothingKnown(old(predicates));
        StillTooLarge(old(predicates), [], required.next, required.arcs, tail.next, required.arcs + tail.arcs);
        return;
      }
      ghost var before := Now();
      GrewInterned(old(Now()), before, required.arcs);
      ok := CompileTail(body, min, max, current, end);
      if ok {
        GrewTrans(old(Now()), before, Now(), required.arcs, tail.arcs);
        GrewFits(old(Now()), Now(), required.arcs + tail.arcs, |edges|);
      } else {
        StillTooLarge(old(predicates), required.arcs, tail.next, tail.arcs, tail.next, required.arcs + tail.arcs);
      }
    }

    /** The required copies; the last one ends in `final` when that is given. */
    method CompileRequired(ghost h: Hir, body: Hir, min: U16, start: nat, final: Option<nat>)
      returns (ok: bool, current: nat)
      requires Valid() && start < |edges| && (final.Some? ==> final.value < |edges|) && body < h
      modifies this
      ensures Valid()
      ensures ok ==> var r := EmitChain(Copies(body, min), start, final, old(|edges|), h);
                     Grew(old(Now()), Now(), r.arcs) && |edges| == r.next && current == r.last < |edges|
      ensures !ok ==> var r := EmitChain(Copies(body, min), start, final, old(|edges|), h);
                      TooLarge(old(predicates), r.next, r.arcs)
      decreases h, 0, 0
    {
      hide Grew, Rows, Emit, EmitChain, Copies, TowardChain, Interned, TooLarge;
      assert forall k: nat :: Below(Copies(body, k), h);
      ghost var total := EmitChain(Copies(body, min), start, final, |edges|, h);
      ghost var done: seq<Arc> := [];
      ok, current := true, start;
      GrewNothing(Now());
      ChainStarts(body, min, start, final, |edges|, h);
      for copy := 0 to min
        invariant Valid() && current < |edges| && |edges| >= old(|edges|) && Grew(old(Now()), Now(), done)
        invariant TowardChain(total, done, body, min - copy, current, final, |edges|, h)
      {
        ghost var before := Now();
        GrewInterned(old(Now()), before, done);
        ChainAdvances(total, done, body, min - copy, current, final, |edges|, h);
        ghost var first;
        if copy + 1 == min && final.Some? {
          first := Emit(body, current, final.value, |edges|);
          ok := CompileExpression(body, current, final.value);
          current := final.value;
        } else {
          first := Emit(body, current, |edges|, |edges| + 1);
          ok, current := CompileCopy(body, current);
        }
        if !ok {
          StillTooLarge(old(predicates), done, first.next, first.arcs, total.next, total.arcs);
          return;
        }
        GrewTrans(old(Now()), before, Now(), done, first.arcs);
        done := done + first.arcs;
      }
      ChainEnds(total, done, body, current, final, |edges|, h);
    }

    method CompileTail(body: Hir, min: U16, max: Option<U16>, start: nat, end: nat) returns (ok: bool)
      requires Valid() && start < |edges| && end < |edges|
      modifies this
      ensures Valid()
      ensures ok ==> var r := EmitTail(body, min, max, start, end, old(|edges|));
                     Grew(old(Now()), Now(), r.arcs) && |edges| == r.next
      ensures !ok ==> var r := EmitTail(body, min, max, start, end, old(|edges|));
                      TooLarge(old(predicates), r.next, r.arcs)
      decreases body, 3
    {
      hide Grew, Rows, Emit, Interned, TooLarge;
      ok := true;
      GrewNothing(Now());
      match max
      case Some(limit) =>
        if limit == min {
          if min == 0 {
            Push(start, EpsilonEdge, end);
          }
        } else {
          ok := CompileOptional(body, min, limit, start, end);
        }
      case None =>
        Push(start, EpsilonEdge, end);
        ghost var first := Now();
        var loopEnd;
        ok, loopEnd := CompileCopy(body, start);
        if !ok {
          ghost var n := old(|edges|);
          ghost var r := Emit(body, start, n, n + 1);
          GrewInterned(old(Now()), first, [Arc(start, Free, end)]);
          StillTooLarge(old(predicates), [Arc(start, Free, end)], r.next, r.arcs, r.next,
                        ([Arc(start, Free, end)] + r.arcs) + [Arc(n, Free, start)]);
        } else {
          ghost var second := Now();
          ghost var r := Emit(body, start, loopEnd, loopEnd + 1);
          Push(loopEnd, EpsilonEdge, start);
          GrewTrans(old(Now()), first, second, [Arc(start, Free, end)], r.arcs);
          GrewTrans(old(Now()), second, Now(), [Arc(start, Free, end)] + r.arcs, [Arc(loopEnd, Free, start)]);
        }
    }

    method CompileOptional(body: Hir, min: U16, limit: U16, start: nat, end: nat) returns (ok: bool)
      requires Valid() && start < |edges| && end < |edges| && limit != min
      modifies this
      ensures Valid()
      ensures ok ==> var r := EmitTail(body, min, Some(limit), start, end, old(|edges|));
                     Grew(old(Now()), Now(), r.arcs) && |edges| == r.next
      ensures !ok ==> var r := EmitTail(body, min, Some(limit), start, end, old(|edges|));
                      TooLarge(old(predicates), r.next, r.arcs)
      decreases body, 2
    {
      hide Grew, Rows, Emit, EmitUpTo, TowardUpTo, Interned, TooLarge;
      ok := true;
      ghost var total := EmitTail(body, min, Some(limit), start, end, |edges|);
      ghost var done: seq<Arc> := [];
      GrewNothing(Now());
      var optional: nat, current: nat := min, start;
      if limit > min {
        UpToStarts(body, limit - min, start, end, |edges|);
      }
      while optional < limit
        invariant Valid() && current < |edges| && end < |edges| && Grew(old(Now()), Now(), done)
        invariant min <= optional && (limit > min ==> optional <= limit)
        invariant limit < min ==> optional == min && total == Emission(done, |edges|)
        invariant limit > min ==> TowardUpTo(total, done, body, limit - optional, current, end, |edges|)
      {
        ghost var before := Now();
        GrewInterned(old(Now()), before, done);
        UpToAdvances(total, done, body, limit - optional, current, end, |edges|);
        ghost var n := |edges|;
        Push(current, EpsilonEdge, end);
        ghost var leave := [Arc(current, Free, end)];
        ghost var pushed := Now();
        ghost var first;
        if optional + 1 == limit {
          first := Emit(body, current, end, n);
          ok := CompileExpression(body, current, end);
          current := end;
        } else {
          first := Emit(body, current, n, n + 1);
          ok, current := CompileCopy(body, current);
        }
        if !ok {
          GrewInterned(before, pushed, leave);
          StillTooLarge(before.predicates, leave, first.next, first.arcs, first.next, leave + first.arcs);
          StillTooLarge(old(predicates), done, first.next, leave + first.arcs, total.next, total.arcs);
          return;
        }
        GrewTrans(before, pushed, Now(), leave, first.arcs);
        GrewTrans(old(Now()), before, Now(), done, leave + first.arcs);
        done := done + (leave + first.arcs);
        optional := optional + 1;
      }
      if limit > min {
        UpToEnds(total, done, body, current, end, |edges|);
      }
    }
  }
}
