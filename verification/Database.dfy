/**
 The immutable pattern database and the two compilers that build it
 (rustmatch/src/nfa.rs:55-75, 112-151, 203-370).
 */
module Database {
  import opened Base
  import opened Predicates
  import opened HirSyntax
  import opened Graph
  import opened Emission
  import opened NfaCompiler
  import opened Layout

  datatype HirPattern = HirPattern(id: nat, expression: Hir)

  function Expressions(patterns: seq<HirPattern>): (hs: seq<Hir>)
    ensures |hs| == |patterns| && forall i :: 0 <= i < |hs| ==> hs[i] == patterns[i].expression
  {
    seq(|patterns|, i requires 0 <= i < |patterns| => patterns[i].expression)
  }

  function Ids(patterns: seq<HirPattern>): (ids: seq<nat>)
    ensures |ids| == |patterns| && forall i :: 0 <= i < |ids| ==> ids[i] == patterns[i].id
  {
    seq(|patterns|, i requires 0 <= i < |patterns| => patterns[i].id)
  }

  /** One state's slices of the flat edge and terminal arrays. */
  datatype StateRow = StateRow(edgeStart: nat, edgeLen: nat, terminalStart: nat, terminalLen: nat)

  datatype PatternDatabase = PatternDatabase(
    root: nat,
    states: seq<StateRow>,
    edges: seq<Edge>,
    predicates: seq<CanonicalPredicate>,
    terminalOrdinals: seq<nat>,
    patternIds: seq<nat>,
    usesAssertions: bool)
  {
    predicate RowInBounds(row: StateRow) {
      row.edgeStart + row.edgeLen <= |edges| && row.terminalStart + row.terminalLen <= |terminalOrdinals|
    }

    predicate EdgeInBounds(e: Edge) {
      e.target < |states| && (e.kind.PredicateEdge? ==> e.kind.id < |predicates|)
    }

    ghost predicate Valid() {
      && root < |states|
      && (forall q :: 0 <= q < |states| ==> RowInBounds(states[q]))
      && (forall k :: 0 <= k < |edges| ==> EdgeInBounds(edges[k]))
      && (forall k :: 0 <= k < |terminalOrdinals| ==> terminalOrdinals[k] < |patternIds|)
    }

    function EdgesFrom(state: nat): (r: seq<Edge>)
      requires Valid() && state < |states|
      ensures forall k :: 0 <= k < |r| ==> EdgeInBounds(r[k])
    {
      var row := states[state];
      assert RowInBounds(row);
      edges[row.edgeStart..row.edgeStart + row.edgeLen]
    }

    function TerminalsAt(state: nat): (r: seq<nat>)
      requires Valid() && state < |states|
      ensures forall k :: 0 <= k < |r| ==> r[k] < |patternIds|
    {
      var row := states[state];
      assert RowInBounds(row);
      terminalOrdinals[row.terminalStart..row.terminalStart + row.terminalLen]
    }

    /** What `matches_predicate` decides (module Scanner). */
    ghost predicate EdgeMatches(kind: EdgeKind, u: U16) {
      match kind
      case EpsilonEdge => false
      case AssertionEdge(_) => false
      case SymbolEdge(expected) => expected == u
      case PredicateEdge(id) => id < |predicates| && predicates[id].Contains(u)
    }

    /** The stored edges, read as labelled arcs. */
    ghost predicate HasArc(a: Arc)
      requires Valid()
    {
      a.source < |states| && a in Row(a.source, EdgesFrom(a.source), predicates)
    }

    ghost function Graph(): (g: set<Arc>)
      requires Valid()
      ensures IsGraph(g)
    {
      var g := set q, k | 0 <= q < |states| && 0 <= k < |EdgesFrom(q)| :: Row(q, EdgesFrom(q), predicates)[k];
      assert forall a | HasArc(a) :: exists k :: 0 <= k < |EdgesFrom(a.source)|
                                                 && Row(a.source, EdgesFrom(a.source), predicates)[k] == a;
      g
    }

    ghost predicate IsGraph(g: set<Arc>)
      requires Valid()
    {
      forall a :: a in g <==> HasArc(a)
    }
  }

  /** `edge_matches`: classes are decided by mask and bisection. */
  method Takes(db: PatternDatabase, kind: EdgeKind, u: U16) returns (r: bool)
    requires kind.PredicateEdge? ==> kind.id < |db.predicates|
    ensures r == db.EdgeMatches(kind, u)
    ensures r == LabelTakes(LabelOf(kind, db.predicates), u)
  {
    hide SymbolPredicate.Contains;
    match kind
    case EpsilonEdge => r := false;
    case AssertionEdge(_) => r := false;
    case SymbolEdge(expected) => r := expected == u;
    case PredicateEdge(id) => r := MatchesUnit(db.predicates[id], u);
  }

  /** The database holds exactly the layout of `patterns`, each under its own root. */
  ghost predicate Represents(db: PatternDatabase, patterns: seq<HirPattern>, roots: seq<nat>, n: nat)
    requires |roots| == |patterns|
  {
    var hs := Expressions(patterns);
    && db.Valid()
    && db.patternIds == Ids(patterns)
    && |db.states| == Patterns(hs, roots, n).next
    && db.IsGraph(PatternGraph(hs, roots, n))
    && (forall q, i :: 0 <= q < |db.states| && 0 <= i < |hs| ==>
                         (i in db.TerminalsAt(q) <==> q == Firsts(hs, n)[i] + 1))
  }

  predicate AnyUsesAssertions(patterns: seq<HirPattern>) {
    exists p :: p in patterns && UsesAssertions(p.expression)
  }

  // ---- Flattening ----------------------------------------------------------------------

  ghost predicate IsSlice<T>(flat: seq<T>, start: nat, len: nat, part: seq<T>) {
    start + len <= |flat| && flat[start..start + len] == part
  }

  ghost predicate DrawnFrom<T>(flat: seq<T>, parts: seq<seq<T>>) {
    forall x :: x in flat ==> exists q :: 0 <= q < |parts| && x in parts[q]
  }

  lemma SliceOfPrefix<T>(flat: seq<T>, more: seq<T>, start: nat, len: nat, part: seq<T>)
    requires IsSlice(flat, start, len, part)
    ensures IsSlice(flat + more, start, len, part)
  {
  }

  ghost predicate IsFlattened(states: seq<StateRow>, edges: seq<Edge>, terminals: seq<nat>,
                              pendingEdges: seq<seq<Edge>>, pendingTerminals: seq<seq<nat>>) {
    && |states| <= |pendingEdges| == |pendingTerminals|
    && forall q :: 0 <= q < |states| ==>
                     && IsSlice(edges, states[q].edgeStart, states[q].edgeLen, pendingEdges[q])
                     && IsSlice(terminals, states[q].terminalStart, states[q].terminalLen, pendingTerminals[q])
  }

  /** The growable tables become two flat arrays, with one row of slices per state. */
  method Flatten(pendingEdges: seq<seq<Edge>>, pendingTerminals: seq<seq<nat>>)
    returns (states: seq<StateRow>, edges: seq<Edge>, terminals: seq<nat>)
    requires |pendingEdges| == |pendingTerminals|
    ensures |states| == |pendingEdges| && IsFlattened(states, edges, terminals, pendingEdges, pendingTerminals)
    ensures DrawnFrom(edges, pendingEdges) && DrawnFrom(terminals, pendingTerminals)
  {
    states, edges, terminals := [], [], [];
    for q := 0 to |pendingEdges|
      invariant |states| == q && IsFlattened(states, edges, terminals, pendingEdges, pendingTerminals)
      invariant DrawnFrom(edges, pendingEdges) && DrawnFrom(terminals, pendingTerminals)
    {
      var row := StateRow(|edges|, |pendingEdges[q]|, |terminals|, |pendingTerminals[q]|);
      forall p | 0 <= p < q
        ensures IsSlice(edges + pendingEdges[q], states[p].edgeStart, states[p].edgeLen, pendingEdges[p])
        ensures IsSlice(terminals + pendingTerminals[q], states[p].terminalStart, states[p].terminalLen,
                        pendingTerminals[p])
      {
        SliceOfPrefix(edges, pendingEdges[q], states[p].edgeStart, states[p].edgeLen, pendingEdges[p]);
        SliceOfPrefix(terminals, pendingTerminals[q], states[p].terminalStart, states[p].terminalLen,
                      pendingTerminals[p]);
      }
      edges := edges + pendingEdges[q];
      terminals := terminals + pendingTerminals[q];
      states := states + [row];
    }
  }

  // ---- Compiling patterns --------------------------------------------------------------

  /** Allocates a pattern's two outer states, links its root, and compiles its expression. */
  method AddPattern(compiler: Compiler, root: nat, ordinal: nat, h: Hir) returns (ok: bool)
    requires compiler.Valid() && root < |compiler.edges|
    modifies compiler
    ensures compiler.Valid()
    ensures ok ==>
              var n, r := old(|compiler.edges|),
                          Emit(h, old(|compiler.edges|), old(|compiler.edges|) + 1, old(|compiler.edges|) + 2);
              && |compiler.edges| == r.next
              && Appended(old(compiler.Now()).rows, compiler.Now().rows, [Arc(root, Free, n)] + r.arcs)
              && compiler.predicates == Interned(old(compiler.predicates), [Arc(root, Free, n)] + r.arcs)
              && (forall q :: 0 <= q < |compiler.edges| ==>
                                compiler.terminals[q] == if q < n then old(compiler.terminals)[q]
                                else if q == n + 1 then [ordinal]
                                else [])
    ensures var n, r := old(|compiler.edges|),
                        Emit(h, old(|compiler.edges|), old(|compiler.edges|) + 1, old(|compiler.edges|) + 2);
            ok <==> !TooLarge(old(compiler.predicates), r.next, [Arc(root, Free, n)] + r.arcs)
  {
    hide Rows, Appended, Emit, Interned, Grew;
    ghost var start, known, n := compiler.Now(), compiler.predicates, |compiler.edges|;
    ghost var r := Emit(h, n, n + 1, n + 2);
    var first := compiler.AddState();
    if first.None? {
      return false;
    }
    ghost var t1 := compiler.Now();
    var terminal := compiler.AddState();
    if terminal.None? {
      return false;
    }
    ghost var t2 := compiler.Now();
    compiler.Push(root, EpsilonEdge, first.value);
    ghost var t3 := compiler.Now();
    ghost var link := [Arc(root, Free, first.value)];
    ghost var none: seq<Arc> := [];
    assert none + none == none;
    GrewTrans(start, t1, t2, none, none);
    GrewTrans(start, t2, t3, [], link);
    assert [] + link == link;
    GrewInterned(start, t3, link);
    ok := compiler.CompileExpression(h, first.value, terminal.value);
    if !ok {
      StillTooLarge(known, link, r.next, r.arcs, r.next, link + r.arcs);
      return;
    }
    ghost var t4 := compiler.Now();
    GrewTrans(start, t3, t4, link, r.arcs);
    GrewFits(start, t4, link + r.arcs, r.next);
    GrewInterned(start, t4, link + r.arcs);
    GrewRows(start, t4, link + r.arcs);
    compiler.terminals := compiler.terminals[terminal.value := compiler.terminals[terminal.value] + [ordinal]];
    assert compiler.Now().rows == t4.rows;
  }

  /** The tables hold exactly the first patterns of the layout; `rest` is still to be pushed. */
  ghost predicate HoldsPrefix(rows: seq<seq<Arc>>, terminals: seq<seq<nat>>, hs: seq<Hir>, roots: seq<nat>, n: nat,
                              done: seq<Arc>, i: nat)
    requires |roots| == |hs| && i <= |hs|
  {
    var rest := Patterns(hs[i..], roots[i..], |rows|);
    && n <= |rows| == |terminals|
    && (forall a :: a in done ==> a.source < |rows|)
    && (forall q :: 0 <= q < |rows| ==> rows[q] == From(q, done))
    && Patterns(hs, roots, n) == Emission(done + rest.arcs, rest.next)
    && Firsts(hs, n)[i..] == Firsts(hs[i..], |rows|)
    && (forall k :: 0 <= k < i ==> Firsts(hs, n)[k] + 1 < |rows|)
    && (forall q, k: nat :: 0 <= q < |terminals| ==> (k in terminals[q] <==> EndsAt(hs, n, i, q, k)))
  }

  /** State `q` is the terminal state of pattern `k`, one of the first `i`. */
  ghost predicate EndsAt(hs: seq<Hir>, n: nat, i: nat, q: int, k: nat)
    requires i <= |hs|
  {
    k < i && q == Firsts(hs, n)[k] + 1
  }

  lemma HoldsNothing(rows: seq<seq<Arc>>, terminals: seq<seq<nat>>, hs: seq<Hir>, roots: seq<nat>, n: nat)
    requires |roots| == |hs| && |rows| == |terminals| == n
    requires forall q :: 0 <= q < n ==> rows[q] == [] && terminals[q] == []
    ensures HoldsPrefix(rows, terminals, hs, roots, n, [], 0)
  {
    assert hs[0..] == hs && roots[0..] == roots;
    assert [] + Patterns(hs, roots, n).arcs == Patterns(hs, roots, n).arcs;
  }

  lemma HoldsOneMore(rows: seq<seq<Arc>>, rows': seq<seq<Arc>>, terminals: seq<seq<nat>>, terminals': seq<seq<nat>>,
                     hs: seq<Hir>, roots: seq<nat>, n: nat, done: seq<Arc>, i: nat)
    returns (done': seq<Arc>)
    requires |roots| == |hs| && i < |hs| && HoldsPrefix(rows, terminals, hs, roots, n, done, i)
    requires var m, r := |rows|, Emit(hs[i], |rows|, |rows| + 1, |rows| + 2);
             && |rows'| == |terminals'| == r.next
             && Appended(rows, rows', [Arc(roots[i], Free, m)] + r.arcs)
             && (forall q :: 0 <= q < r.next ==>
                               terminals'[q] == if q < m then terminals[q] else if q == m + 1 then [i] else [])
    ensures HoldsPrefix(rows', terminals', hs, roots, n, done', i + 1)
    ensures done' == done + ([Arc(roots[i], Free, |rows|)] + Emit(hs[i], |rows|, |rows| + 1, |rows| + 2).arcs)
  {
    var m, r := |rows|, Emit(hs[i], |rows|, |rows| + 1, |rows| + 2);
    var added := [Arc(roots[i], Free, m)] + r.arcs;
    var rest := Patterns(hs[i + 1..], roots[i + 1..], r.next);
    done' := done + added;
    assert hs[i..][0] == hs[i] && hs[i..][1..] == hs[i + 1..];
    assert roots[i..][0] == roots[i] && roots[i..][1..] == roots[i + 1..];
    assert done + Patterns(hs[i..], roots[i..], m).arcs == done' + rest.arcs;
    var fs := Firsts(hs, n);
    assert fs[i] == fs[i..][0] == m;
    assert fs[i + 1..] == fs[i..][1..] == Firsts(hs[i + 1..], r.next);
    forall q | 0 <= q < |rows'| ensures rows'[q] == From(q, done') {
      FromConcat(q, done, added);
      if q >= m {
        FromElsewhere(q, done);
      }
    }
  }

  lemma HoldsAll(db: PatternDatabase, patterns: seq<HirPattern>, roots: seq<nat>, n: nat, pending: seq<seq<Edge>>,
                 terminals: seq<seq<nat>>, done: seq<Arc>)
    requires |roots| == |patterns| && db.Valid() && db.patternIds == Ids(patterns) && |db.states| == |pending|
    requires HoldsPrefix(Rows(pending, db.predicates), terminals, Expressions(patterns), roots, n, done, |patterns|)
    requires IsFlattened(db.states, db.edges, db.terminalOrdinals, pending, terminals)
    ensures Represents(db, patterns, roots, n)
  {
    var hs := Expressions(patterns);
    var g := PatternGraph(hs, roots, n);
    assert done + [] == done;
    forall a ensures a in g <==> db.HasArc(a) {
      if a.source < |db.states| {
        assert db.EdgesFrom(a.source) == pending[a.source];
        FromMember(a.source, done, a);
      }
    }
  }

  /** The states, or the distinct predicates, of the layout do not fit in 32-bit ids. */
  ghost predicate PatternsTooLarge(patterns: seq<HirPattern>, roots: seq<nat>, n: nat)
    requires |roots| == |patterns|
  {
    var r := Patterns(Expressions(patterns), roots, n);
    r.next > ID_LIMIT || |ClassesIn(r.arcs)| > ID_LIMIT
  }

  lemma LayoutTooLarge(patterns: seq<HirPattern>, roots: seq<nat>, n: nat)
    requires |roots| == |patterns|
    ensures var r := Patterns(Expressions(patterns), roots, n);
            PatternsTooLarge(patterns, roots, n) <==> TooLarge([], r.next, r.arcs)
  {
    hide Patterns, Interned;
    var r := Patterns(Expressions(patterns), roots, n);
    InternedMembers([], r.arcs);
    assert (set p: CanonicalPredicate | p in []) + ClassesIn(r.arcs) == ClassesIn(r.arcs);
  }

  lemma PrefixTooLarge(rows: seq<seq<Arc>>, terminals: seq<seq<nat>>, hs: seq<Hir>, roots: seq<nat>, n: nat,
                       done: seq<Arc>, i: nat)
    requires |roots| == |hs| && i < |hs| && HoldsPrefix(rows, terminals, hs, roots, n, done, i)
    requires var r := Emit(hs[i], |rows|, |rows| + 1, |rows| + 2);
             TooLarge(Interned([], done), r.next, [Arc(roots[i], Free, |rows|)] + r.arcs)
    ensures var r := Patterns(hs, roots, n); TooLarge([], r.next, r.arcs)
  {
    hide Emit, From, Firsts, Interned, TooLarge;
    var r, all := Emit(hs[i], |rows|, |rows| + 1, |rows| + 2), Patterns(hs, roots, n);
    var added := [Arc(roots[i], Free, |rows|)] + r.arcs;
    assert hs[i..][0] == hs[i] && roots[i..][0] == roots[i];
    var more := Patterns(hs[i..][1..], roots[i..][1..], r.next);
    assert all.arcs == done + (added + more.arcs) == (done + added) + more.arcs;
    StillTooLarge([], done, r.next, added, all.next, all.arcs);
  }

  lemma AllFits(compiler: Compiler, patterns: seq<HirPattern>, terminals: seq<seq<nat>>, roots: seq<nat>, n: nat,
                done: seq<Arc>)
    requires compiler.Valid() && |roots| == |patterns| && compiler.predicates == Interned([], done)
    requires HoldsPrefix(compiler.Now().rows, terminals, Expressions(patterns), roots, n, done, |patterns|)
    ensures !PatternsTooLarge(patterns, roots, n)
  {
    hide Emit, From, Firsts, Interned;
    LayoutTooLarge(patterns, roots, n);
    assert done + [] == done;
  }

  function Zeros(count: nat): (r: seq<nat>)
    ensures |r| == count && forall k :: k in r ==> k == 0
  {
    seq(count, _ => 0)
  }

  method Compile(patterns: seq<HirPattern>) returns (r: Option<PatternDatabase>)
    ensures r.Some? ==>
              && Represents(r.value, patterns, Zeros(|patterns|), 1)
              && r.value.root == 0
              && (r.value.usesAssertions <==> AnyUsesAssertions(patterns))
    ensures r.None? <==> PatternsTooLarge(patterns, Zeros(|patterns|), 1)
  {
    hide Patterns, Rows, Emit, Appended, HoldsPrefix, Interned, TooLarge, PatternsTooLarge;
    var compiler := new Compiler(1);
    var patternIds: seq<nat> := [];
    var usesAssertions := false;
    ghost var hs, roots := Expressions(patterns), Zeros(|patterns|);
    ghost var done: seq<Arc> := [];
    EmptyRows(compiler.edges, compiler.predicates);
    NothingInterned();
    HoldsNothing(compiler.Now().rows, compiler.terminals, hs, roots, 1);
    for ordinal := 0 to |patterns|
      invariant fresh(compiler) && compiler.Valid() && 1 <= |compiler.edges|
      invariant HoldsPrefix(compiler.Now().rows, compiler.terminals, hs, roots, 1, done, ordinal)
      invariant compiler.predicates == Interned([], done)
      invariant patternIds == Ids(patterns)[..ordinal]
      invariant usesAssertions <==> AnyUsesAssertions(patterns[..ordinal])
    {
      ghost var rows, terminals, known := compiler.Now().rows, compiler.terminals, compiler.predicates;
      RowCount(compiler.edges, compiler.predicates);
      var ok := AddPattern(compiler, 0, ordinal, patterns[ordinal].expression);
      if !ok {
        PrefixTooLarge(rows, terminals, hs, roots, 1, done, ordinal);
        LayoutTooLarge(patterns, roots, 1);
        return None;
      }
      RowCount(compiler.edges, compiler.predicates);
      ghost var before := done;
      done := HoldsOneMore(rows, compiler.Now().rows, terminals, compiler.terminals, hs, roots, 1, before, ordinal);
      InternedConcat([], before, done[|before|..]);
      patternIds := patternIds + [patterns[ordinal].id];
      usesAssertions := usesAssertions || UsesAssertions(patterns[ordinal].expression);
      assert patterns[..ordinal + 1] == patterns[..ordinal] + [patterns[ordinal]];
    }
    assert patterns[..|patterns|] == patterns;
    AllFits(compiler, patterns, compiler.terminals, roots, 1, done);
    var states, edges, terminals := Flatten(compiler.edges, compiler.terminals);
    var db := PatternDatabase(0, states, edges, compiler.predicates, terminals, patternIds, usesAssertions);
    FlattenedIsValid(compiler, db, hs, roots, 1, done);
    HoldsAll(db, patterns, roots, 1, compiler.edges, compiler.terminals, done);
    r := Some(db);
  }

  lemma EmptyRows(edges: seq<seq<Edge>>, predicates: seq<CanonicalPredicate>)
    requires forall q :: 0 <= q < |edges| ==> edges[q] == []
    ensures forall q :: 0 <= q < |edges| ==> Rows(edges, predicates)[q] == []
  {
  }

  lemma RowCount(edges: seq<seq<Edge>>, predicates: seq<CanonicalPredicate>)
    ensures |Rows(edges, predicates)| == |edges|
  {
  }

  lemma HoldsOrdinal(rows: seq<seq<Arc>>, terminals: seq<seq<nat>>, hs: seq<Hir>, roots: seq<nat>, n: nat,
                     done: seq<Arc>, i: nat, q: nat, k: nat)
    requires |roots| == |hs| && i <= |hs| && HoldsPrefix(rows, terminals, hs, roots, n, done, i)
    requires q < |terminals| && k in terminals[q]
    ensures k < i
  {
  }

  lemma FlattenedIsValid(compiler: Compiler, db: PatternDatabase, hs: seq<Hir>, roots: seq<nat>, n: nat, done: seq<Arc>)
    requires compiler.Valid() && 0 < n && |roots| == |hs|
    requires HoldsPrefix(Rows(compiler.edges, compiler.predicates), compiler.terminals, hs, roots, n, done, |hs|)
    requires db.root < |db.states| == |compiler.edges| && db.predicates == compiler.predicates
             && |db.patternIds| == |hs|
    requires IsFlattened(db.states, db.edges, db.terminalOrdinals, compiler.edges, compiler.terminals)
    requires DrawnFrom(db.edges, compiler.edges) && DrawnFrom(db.terminalOrdinals, compiler.terminals)
    ensures db.Valid()
  {
    hide HoldsPrefix, Rows;
    forall q | 0 <= q < |db.states| ensures db.RowInBounds(db.states[q]) {
      assert IsSlice(db.edges, db.states[q].edgeStart, db.states[q].edgeLen, compiler.edges[q]);
    }
    forall k | 0 <= k < |db.edges| ensures db.EdgeInBounds(db.edges[k]) {
      assert db.edges[k] in db.edges;
      var q :| 0 <= q < |compiler.edges| && db.edges[k] in compiler.edges[q];
      var j :| 0 <= j < |compiler.edges[q]| && compiler.edges[q][j] == db.edges[k];
      assert compiler.EdgeInRange(compiler.edges[q][j]);
    }
    forall k | 0 <= k < |db.terminalOrdinals| ensures db.terminalOrdinals[k] < |db.patternIds| {
      assert db.terminalOrdinals[k] in db.terminalOrdinals;
      var ordinal := db.terminalOrdinals[k];
      var q :| 0 <= q < |compiler.terminals| && ordinal in compiler.terminals[q];
      HoldsOrdinal(Rows(compiler.edges, compiler.predicates), compiler.terminals, hs, roots, n, done, |hs|, q, ordinal);
    }
  }
}
