/**
 The one- and two-symbol start table (rustmatch/src/prefilter.rs:443-616): compiled with its
 own generation-stamped worklist, and proven to drop only starts that produce no event.
 */
module StartTable {
  import opened Base
  import opened Graph
  import opened NfaCompiler
  import opened Database
  import opened Fronts
  import opened ScanSpec
  import opened Sorting
  import opened Closure
  import opened Scanner
  import opened Cache
  import opened Bits
  import opened LiteralFilter
  import opened PatternEvents

  // ---- States after no, one and two symbols --------------------------------------------

  ghost predicate InRoot(job: Job, q: nat)
    requires job.Valid()
  {
    Glides(job.Graph(), [], NOWHERE, job.root, q)
  }

  ghost predicate InFirst(job: Job, u: U16, q: nat)
    requires job.Valid()
  {
    exists p: nat :: InRoot(job, p) && Leads(job, [p], u, q)
  }

  ghost predicate InSecond(job: Job, u: U16, v: U16, q: nat)
    requires job.Valid()
  {
    exists p: nat :: InFirst(job, u, p) && Leads(job, [p], v, q)
  }

  ghost predicate Alive(job: Job, u: U16)
    requires job.Valid()
  {
    exists q: nat :: InFirst(job, u, q)
  }

  /** After `u`, either some pattern has already ended or `v` still leads somewhere. */
  ghost predicate AliveAfter(job: Job, u: U16, v: U16)
    requires job.Valid()
  {
    || (exists q: nat :: InFirst(job, u, q) && q < |job.db.states| && job.db.TerminalsAt(q) != [])
    || (exists q: nat :: InSecond(job, u, v, q))
  }

  lemma LeadsFromSome(job: Job, states: seq<nat>, u: U16, q: nat)
    requires job.Valid()
    ensures Leads(job, states, u, q) <==> exists p :: p in states && Leads(job, [p], u, q)
  {
    hide PatternDatabase.Valid, Job.Graph, Glides;
    var g := job.Graph();
    if Leads(job, states, u, q) {
      var a :| a in g && a.source in states && LabelTakes(a.on, u) && Glides(g, [], NOWHERE, a.target, q);
      assert Leads(job, [a.source], u, q);
    }
    if p :| p in states && Leads(job, [p], u, q) {
      var a :| a in g && a.source in [p] && LabelTakes(a.on, u) && Glides(g, [], NOWHERE, a.target, q);
      assert a.source in states;
    }
  }

  lemma FirstStates(job: Job, root: seq<nat>, u: U16, first: seq<nat>)
    requires job.Valid() && IsRootClosure(job, root) && IsSuccessor(job, root, u, first)
    ensures forall q: nat :: q in first <==> InFirst(job, u, q)
  {
    hide PatternDatabase.Valid, Job.Graph, Glides, Leads;
    forall q: nat ensures q in first <==> InFirst(job, u, q) {
      LeadsFromSome(job, root, u, q);
    }
  }

  lemma SecondStates(job: Job, u: U16, v: U16, first: seq<nat>, second: seq<nat>)
    requires job.Valid() && (forall q: nat :: q in first <==> InFirst(job, u, q)) && IsSuccessor(job, first, v, second)
    ensures forall q: nat :: q in second <==> InSecond(job, u, v, q)
  {
    hide PatternDatabase.Valid, Job.Graph, InFirst, Leads;
    forall q: nat ensures q in second <==> InSecond(job, u, v, q) {
      LeadsFromSome(job, first, v, q);
    }
  }

  // ---- The worklist --------------------------------------------------------------------

  ghost predicate GlidesFrom(job: Job, seeds: seq<nat>, q: nat)
    requires job.Valid()
  {
    exists s :: s in seeds && Glides(job.Graph(), [], NOWHERE, s, q)
  }

  /** A state pushed twice is skipped at its second pop. */
  ghost predicate Draining(job: Job, seeds: seq<nat>, output: seq<nat>, stack: seq<nat>)
    requires job.Valid()
  {
    && (forall s :: s in seeds ==> s in output || s in stack)
    && (forall q: nat :: q in output || q in stack ==> GlidesFrom(job, seeds, q))
    && (forall p, q: nat :: p in output && Link(job.Graph(), [], NOWHERE, p, q) ==> q in output || q in stack)
  }

  class ClosureScratch {
    const seen: array<nat>
    var generation: nat

    ghost predicate Valid()
      reads this, seen
    {
      generation < GENERATION_LIMIT && forall q :: 0 <= q < seen.Length ==> seen[q] <= generation
    }

    constructor (stateCount: nat)
      ensures Valid() && fresh(seen) && seen.Length == stateCount
    {
      seen := new nat[stateCount](_ => 0);
      generation := 0;
    }

    method NextGeneration()
      requires Valid()
      modifies this, seen
      ensures Valid() && Marks(seen.Length, Fresh(seen[..], generation), [])
    {
      generation := if generation + 1 == GENERATION_LIMIT then 0 else generation + 1;
      if generation == 0 {
        forall q | 0 <= q < seen.Length {
          seen[q] := 0;
        }
        generation := 1;
      }
    }

    method Drain(job: Job, seeds: seq<nat>) returns (output: seq<nat>)
      requires job.Valid() && !job.contextual && job.text == [] && Valid() && seen.Length == |job.db.states|
      requires AllBelow(seeds, |job.db.states|) && Marks(seen.Length, Fresh(seen[..], generation), [])
      modifies seen
      ensures Valid() && Distinct(output) && AllBelow(output, |job.db.states|)
      ensures forall q: nat :: q in output <==> GlidesFrom(job, seeds, q)
    {
      hide PatternDatabase.Valid, Job.Graph, GlidesFrom;
      output := [];
      var stack := seeds;
      SeedsGlide(job, seeds);
      while stack != []
        invariant Valid() && AllBelow(stack, seen.Length) && Marks(seen.Length, Fresh(seen[..], generation), output)
        invariant Draining(job, seeds, output, stack)
        decreases seen.Length - |output|, |stack|
      {
        var state := stack[|stack| - 1];
        var rest := stack[..|stack| - 1];
        assert stack == rest + [state];
        if seen[state] == generation {
          stack := rest;
        } else {
          DistinctBound(output + [state], seen.Length);
          seen[state] := generation;
          ghost var pushed;
          stack, pushed := PushEpsilon(job, state, rest);
          DrainStep(job, seeds, output, rest, state, pushed);
          output := output + [state];
        }
      }
      DrainEnds(job, seeds, output);
    }
  }

  method PushEpsilon(job: Job, state: nat, rest: seq<nat>) returns (stack: seq<nat>, ghost pushed: seq<nat>)
    requires job.Valid() && !job.contextual && job.text == [] && state < |job.db.states|
             && AllBelow(rest, |job.db.states|)
    ensures stack == rest + pushed && AllBelow(stack, |job.db.states|)
    ensures forall q: nat :: q in pushed <==> Link(job.Graph(), [], NOWHERE, state, q)
  {
    hide PatternDatabase.Valid, Job.Graph, Link;
    var edges := job.db.EdgesFrom(state);
    stack, pushed := rest, [];
    for k := 0 to |edges|
      invariant stack == rest + pushed && AllBelow(stack, |job.db.states|)
      invariant forall q: nat :: q in pushed <==>
                                 exists j :: 0 <= j < k && edges[j].target == q && job.Follows(edges[j].kind, NOWHERE)
    {
      assert job.db.EdgeInBounds(edges[k]);
      if edges[k].kind == EpsilonEdge {
        stack := stack + [edges[k].target];
        pushed := pushed + [edges[k].target];
      }
    }
    forall q: nat ensures q in pushed <==> Link(job.Graph(), [], NOWHERE, state, q) {
      LinkIsFollow(job, NOWHERE, state, q);
    }
  }

  lemma SeedsGlide(job: Job, seeds: seq<nat>)
    requires job.Valid()
    ensures Draining(job, seeds, [], seeds)
  {
    forall s: nat | s in seeds ensures GlidesFrom(job, seeds, s) {
      GlidesRefl(job.Graph(), [], NOWHERE, s);
    }
  }

  lemma DrainStep(job: Job, seeds: seq<nat>, output: seq<nat>, rest: seq<nat>, state: nat, pushed: seq<nat>)
    requires job.Valid() && Draining(job, seeds, output, rest + [state])
    requires forall q: nat :: q in pushed <==> Link(job.Graph(), [], NOWHERE, state, q)
    ensures Draining(job, seeds, output + [state], rest + pushed)
  {
    hide PatternDatabase.Valid, Job.Graph, Glides, Link;
    assert state in rest + [state];
    forall q: nat | q in pushed ensures GlidesFrom(job, seeds, q) {
      var s :| s in seeds && Glides(job.Graph(), [], NOWHERE, s, state);
      GlidesLink(job.Graph(), [], NOWHERE, s, state, q);
    }
  }

  lemma DrainEnds(job: Job, seeds: seq<nat>, output: seq<nat>)
    requires job.Valid() && Draining(job, seeds, output, [])
    ensures forall q: nat :: q in output <==> GlidesFrom(job, seeds, q)
  {
    hide PatternDatabase.Valid, Job.Graph, Glides, Link;
    forall q: nat | GlidesFrom(job, seeds, q) ensures q in output {
      var s :| s in seeds && Glides(job.Graph(), [], NOWHERE, s, q);
      GlidesStaysInside(job.Graph(), [], NOWHERE, output, s, q);
    }
  }

  /** Every state the root reaches without consuming. */
  method EpsilonClosureInto(job: Job, scratch: ClosureScratch) returns (output: seq<nat>)
    requires job.Valid() && !job.contextual && job.text == [] && scratch.Valid()
             && scratch.seen.Length == |job.db.states|
    modifies scratch, scratch.seen
    ensures scratch.Valid() && Ascending(output) && AllBelow(output, |job.db.states|) && IsRootClosure(job, output)
  {
    hide PatternDatabase.Valid, Job.Graph;
    scratch.NextGeneration();
    assert job.root < |job.db.states| by { RootInBounds(job); }
    var found := scratch.Drain(job, [job.root]);
    SortedAscending(found);
    output := Sorted(found);
    forall k | 0 <= k < |output| ensures output[k] < |job.db.states| {
      assert output[k] in found;
    }
    assert forall q: nat :: q in output <==> q in found;
  }

  lemma RootInBounds(job: Job)
    requires job.Valid()
    ensures job.root < |job.db.states|
  {
  }

  /** Every state one symbol leads to. */
  method TransitionInto(job: Job, source: seq<nat>, u: U16, scratch: ClosureScratch) returns (output: seq<nat>)
    requires job.Valid() && !job.contextual && job.text == [] && scratch.Valid()
             && scratch.seen.Length == |job.db.states|
    requires AllBelow(source, |job.db.states|)
    modifies scratch, scratch.seen
    ensures scratch.Valid() && Ascending(output) && AllBelow(output, |job.db.states|)
            && IsSuccessor(job, source, u, output)
  {
    hide PatternDatabase.Valid, Job.Graph, GlidesFrom, Leads;
    scratch.NextGeneration();
    var stack: seq<nat> := [];
    for i := 0 to |source|
      invariant AllBelow(stack, |job.db.states|) && scratch.Valid()
                && Marks(scratch.seen.Length, Fresh(scratch.seen[..], scratch.generation), [])
      invariant forall t: nat :: t in stack <==> exists j :: 0 <= j < i && Targets(job, source[j], u, t)
    {
      var targets := TakenTargets(job, source[i], u);
      stack := stack + targets;
    }
    var found := scratch.Drain(job, stack);
    SortedAscending(found);
    output := Sorted(found);
    forall k | 0 <= k < |output| ensures output[k] < |job.db.states| {
      assert output[k] in found;
    }
    forall q: nat ensures q in output <==> Leads(job, source, u, q) {
      LeadsIsGlide(job, source, u, stack, q);
    }
  }

  ghost predicate Targets(job: Job, p: nat, u: U16, t: nat)
    requires job.Valid() && p < |job.db.states|
  {
    exists k :: 0 <= k < |job.db.EdgesFrom(p)| && job.db.EdgesFrom(p)[k].target == t
                && job.db.EdgeMatches(job.db.EdgesFrom(p)[k].kind, u)
  }

  method TakenTargets(job: Job, p: nat, u: U16) returns (targets: seq<nat>)
    requires job.Valid() && p < |job.db.states|
    ensures AllBelow(targets, |job.db.states|) && forall t: nat :: t in targets <==> Targets(job, p, u, t)
  {
    hide PatternDatabase.Valid, PatternDatabase.EdgeMatches, PatternDatabase.EdgesFrom;
    var edges := job.db.EdgesFrom(p);
    targets := [];
    for k := 0 to |edges|
      invariant AllBelow(targets, |job.db.states|)
      invariant forall t: nat :: t in targets <==>
                                 exists j :: 0 <= j < k && edges[j].target == t && job.db.EdgeMatches(edges[j].kind, u)
    {
      assert job.db.EdgeInBounds(edges[k]);
      var takes := Takes(job.db, edges[k].kind, u);
      if takes {
        targets := targets + [edges[k].target];
      }
    }
  }

  lemma LeadsIsGlide(job: Job, source: seq<nat>, u: U16, stack: seq<nat>, q: nat)
    requires job.Valid() && AllBelow(source, |job.db.states|)
    requires forall t: nat :: t in stack <==> exists j :: 0 <= j < |source| && Targets(job, source[j], u, t)
    ensures GlidesFrom(job, stack, q) <==> Leads(job, source, u, q)
  {
    hide PatternDatabase.Valid, Job.Graph, Glides;
    var g := job.Graph();
    if GlidesFrom(job, stack, q) {
      var t :| t in stack && Glides(g, [], NOWHERE, t, q);
      var j :| 0 <= j < |source| && Targets(job, source[j], u, t);
      TakesIsEdgeMatch(job, source[j], u, t);
    }
    if Leads(job, source, u, q) {
      var a :| a in g && a.source in source && LabelTakes(a.on, u) && Glides(g, [], NOWHERE, a.target, q);
      var j :| 0 <= j < |source| && source[j] == a.source;
      TakesIsEdgeMatch(job, source[j], u, a.target);
      assert Targets(job, source[j], u, a.target);
    }
  }

  // ---- The table -----------------------------------------------------------------------

  datatype StartTable = StartTable(firstAscii: seq<bv64>, pairAscii: seq<bv64>) {
    predicate Valid() {
      |firstAscii| == 2 && |pairAscii| == 256
    }

    predicate Allows(input: Text, start: nat)
      requires Valid() && start < |input|
    {
      var first := input[start];
      if first >= 128 then true
      else if !ContainsBit(firstAscii, first) then false
      else if start + 1 >= |input| then true
      else if input[start + 1] >= 128 then true
      else ContainsBit(pairAscii, first * 128 + input[start + 1])
    }
  }

  ghost predicate Right(t: StartTable, job: Job)
    requires job.Valid()
  {
    && t.Valid()
    && (forall u: U16 :: u < 128 ==> (HasBit(t.firstAscii, u) <==> Alive(job, u)))
    && (forall u: U16, v: U16 :: u < 128 && v < 128 ==> (HasBit(t.pairAscii, PairBit(u, v)) <==> AliveAfter(job, u, v)))
  }

  function PairBit(u: U16, v: U16): nat {
    u * 128 + v
  }

  method AnyTerminal(job: Job, states: seq<nat>) returns (found: bool)
    requires job.Valid() && AllBelow(states, |job.db.states|)
    ensures found <==> exists q :: q in states && q < |job.db.states| && job.db.TerminalsAt(q) != []
  {
    hide PatternDatabase.Valid, PatternDatabase.TerminalsAt;
    found := false;
    for k := 0 to |states|
      invariant found <==> exists j :: 0 <= j < k && job.db.TerminalsAt(states[j]) != []
    {
      if job.db.TerminalsAt(states[k]) != [] {
        found := true;
      }
    }
  }

  /** The bits of the rows before `first`, and of row `first` before column `second`. */
  ghost predicate PairsUpTo(job: Job, pairs: seq<bv64>, first: nat, second: nat)
    requires job.Valid()
  {
    forall u: U16, v: U16 :: u < 128 && v < 128 ==>
                               (HasBit(pairs, PairBit(u, v)) <==>
                                AliveAfter(job, u, v) && (u < first || (u == first && v < second)))
  }

  ghost predicate FirstsUpTo(job: Job, firsts: seq<bv64>, first: nat)
    requires job.Valid()
  {
    forall u: U16 :: u < 128 ==> (HasBit(firsts, u) <==> Alive(job, u) && u < first)
  }

  lemma PairBitInjective(u: U16, v: U16, u': U16, v': U16)
    requires v < 128 && v' < 128 && PairBit(u, v) == PairBit(u', v')
    ensures u == u' && v == v'
  {
  }

  method CompileTable(db: PatternDatabase) returns (table: Option<StartTable>, ghost job: Job)
    requires db.Valid()
    ensures job == Job(db, db.root, [], false) && job.Valid()
    ensures table.None? <==> db.usesAssertions
    ensures table.Some? ==> Right(table.value, job)
  {
    hide PatternDatabase.Valid, Job.Graph, Alive, AliveAfter, PairsUpTo, FirstsUpTo, HasBit;
    job := Job(db, db.root, [], false);
    var plain := Job(db, db.root, [], false);
    assert job.Valid() by { ValidJob(db); }
    if db.usesAssertions {
      return None, job;
    }
    var scratch := new ClosureScratch(|db.states|);
    var root := EpsilonClosureInto(plain, scratch);
    var firstAscii := new bv64[2](_ => 0);
    var pairAscii := new bv64[256](_ => 0);
    TablesStart(plain, firstAscii[..], pairAscii[..]);
    for first := 0 to 128
      invariant fresh(scratch) && fresh(scratch.seen) && scratch.Valid() && scratch.seen.Length == |db.states|
      invariant FirstsUpTo(plain, firstAscii[..], first) && PairsUpTo(plain, pairAscii[..], first, 0)
    {
      var firstStates := TransitionInto(plain, root, first, scratch);
      FirstStates(plain, root, first, firstStates);
      if firstStates != [] {
        assert Alive(plain, first) by { SomeFirst(plain, first, firstStates); }
        ghost var before := firstAscii[..];
        SetBit(firstAscii, first);
        FirstSet(plain, before, firstAscii[..], first);
        FillRow(plain, first, firstStates, pairAscii, scratch);
      } else {
        DeadRow(plain, first, firstStates, firstAscii[..], pairAscii[..]);
      }
    }
    table := Some(StartTable(firstAscii[..], pairAscii[..]));
    TablesEnd(plain, firstAscii[..], pairAscii[..]);
  }

  method FillRow(job: Job, first: U16, firstStates: seq<nat>, pairs: array<bv64>, scratch: ClosureScratch)
    requires job.Valid() && !job.contextual && job.text == [] && first < 128 && pairs.Length == 256
    requires scratch.Valid() && scratch.seen.Length == |job.db.states| && AllBelow(firstStates, |job.db.states|)
    requires forall q: nat :: q in firstStates <==> InFirst(job, first, q)
    requires PairsUpTo(job, pairs[..], first, 0) && {pairs as object} !! {scratch, scratch.seen}
    modifies pairs, scratch, scratch.seen
    ensures scratch.Valid() && PairsUpTo(job, pairs[..], first + 1, 0)
  {
    hide PatternDatabase.Valid, Job.Graph, InFirst, InSecond, AliveAfter, HasBit, PairsUpTo;
    var acceptsAfterFirst := AnyTerminal(job, firstStates);
    for second := 0 to 128
      invariant scratch.Valid() && PairsUpTo(job, pairs[..], first, second)
    {
      var alive := acceptsAfterFirst;
      if !alive {
        var secondStates := TransitionInto(job, firstStates, second, scratch);
        SecondStates(job, first, second, firstStates, secondStates);
        alive := secondStates != [];
        AliveBySecond(job, first, second, firstStates, secondStates);
      } else {
        assert AliveAfter(job, first, second) by { AliveByTerminal(job, first, second, firstStates); }
      }
      ghost var before := pairs[..];
      if alive {
        SetBit(pairs, PairBit(first, second));
      }
      PairSet(job, before, pairs[..], first, second, alive);
    }
    RowDone(job, pairs[..], first);
  }

  lemma ValidJob(db: PatternDatabase)
    requires db.Valid()
    ensures Job(db, db.root, [], false).Valid()
  {
  }

  lemma SomeFirst(job: Job, first: U16, states: seq<nat>)
    requires job.Valid() && states != [] && forall q: nat :: q in states <==> InFirst(job, first, q)
    ensures Alive(job, first)
  {
    assert states[0] in states;
  }

  lemma AliveByTerminal(job: Job, u: U16, v: U16, states: seq<nat>)
    requires job.Valid() && (forall q: nat :: q in states <==> InFirst(job, u, q))
    requires exists q :: q in states && q < |job.db.states| && job.db.TerminalsAt(q) != []
    ensures AliveAfter(job, u, v)
  {
  }

  lemma AliveBySecond(job: Job, u: U16, v: U16, states: seq<nat>, second: seq<nat>)
    requires job.Valid() && (forall q: nat :: q in states <==> InFirst(job, u, q))
    requires !exists q :: q in states && q < |job.db.states| && job.db.TerminalsAt(q) != []
    requires forall q: nat :: q in second <==> InSecond(job, u, v, q)
    ensures AliveAfter(job, u, v) <==> second != []
  {
    hide PatternDatabase.Valid, InFirst, InSecond;
    if second != [] {
      assert second[0] in second;
    }
  }

  lemma TablesStart(job: Job, firsts: seq<bv64>, pairs: seq<bv64>)
    requires job.Valid() && (forall k :: 0 <= k < |firsts| ==> firsts[k] == 0)
             && (forall k :: 0 <= k < |pairs| ==> pairs[k] == 0)
    ensures FirstsUpTo(job, firsts, 0) && PairsUpTo(job, pairs, 0, 0)
  {
    hide PatternDatabase.Valid, HasBit, Alive, AliveAfter;
    forall bit: nat ensures !HasBit(firsts, bit) && !HasBit(pairs, bit) {
      ZerosHaveNoBit(firsts, bit);
      ZerosHaveNoBit(pairs, bit);
    }
  }

  lemma FirstSet(job: Job, before: seq<bv64>, after: seq<bv64>, first: U16)
    requires job.Valid() && FirstsUpTo(job, before, first) && Alive(job, first)
    requires forall other: nat :: HasBit(after, other) <==> other == first || HasBit(before, other)
    ensures FirstsUpTo(job, after, first + 1)
  {
    hide PatternDatabase.Valid, HasBit, Alive;
  }

  lemma PairSet(job: Job, before: seq<bv64>, after: seq<bv64>, first: U16, second: U16, alive: bool)
    requires job.Valid() && first < 128 && second < 128 && PairsUpTo(job, before, first, second)
    requires alive <==> AliveAfter(job, first, second)
    requires if alive then forall other: nat :: HasBit(after, other) <==>
                                                other == PairBit(first, second) || HasBit(before, other)
             else after == before
    ensures PairsUpTo(job, after, first, second + 1)
  {
    hide PatternDatabase.Valid, HasBit, AliveAfter, PairBit;
    forall u: U16, v: U16 | u < 128 && v < 128
      ensures HasBit(after, PairBit(u, v)) <==> AliveAfter(job, u, v) && (u < first || (u == first && v < second + 1))
    {
      if PairBit(u, v) == PairBit(first, second) {
        PairBitInjective(u, v, first, second);
      }
    }
  }

  lemma RowDone(job: Job, pairs: seq<bv64>, first: U16)
    requires job.Valid() && PairsUpTo(job, pairs, first, 128)
    ensures PairsUpTo(job, pairs, first + 1, 0)
  {
    hide PatternDatabase.Valid, HasBit, AliveAfter, PairBit;
  }

  lemma DeadRow(job: Job, first: U16, states: seq<nat>, firsts: seq<bv64>, pairs: seq<bv64>)
    requires job.Valid() && states == [] && (forall q: nat :: q in states <==> InFirst(job, first, q))
    requires FirstsUpTo(job, firsts, first) && PairsUpTo(job, pairs, first, 0)
    ensures FirstsUpTo(job, firsts, first + 1) && PairsUpTo(job, pairs, first + 1, 0)
  {
    hide PatternDatabase.Valid, HasBit, PairBit, InFirst, Leads;
    assert forall q: nat :: !InFirst(job, first, q);
    assert forall v: U16 :: !AliveAfter(job, first, v);
  }

  lemma TablesEnd(job: Job, firsts: seq<bv64>, pairs: seq<bv64>)
    requires job.Valid() && |firsts| == 2 && |pairs| == 256 && FirstsUpTo(job, firsts, 128)
             && PairsUpTo(job, pairs, 128, 0)
    ensures Right(StartTable(firsts, pairs), job)
  {
    hide PatternDatabase.Valid, HasBit, Alive, AliveAfter, PairBit;
  }

  // ---- Rejected starts are silent ------------------------------------------------------

  lemma {:induction false} Listed(s: set<nat>) returns (t: seq<nat>)
    ensures forall q: nat :: q in t <==> q in s
    decreases |s|
  {
    if s == {} {
      t := [];
    } else {
      var q :| q in s;
      t := Listed(s - {q});
      t := [q] + t;
    }
  }

  /** Everything the scanner can enter is a state of the database. */
  lemma GlidesBound(job: Job, p: nat, q: nat)
    requires job.Valid() && p < |job.db.states| && Glides(job.Graph(), [], NOWHERE, p, q)
    ensures q < |job.db.states|
  {
    var all := Range(|job.db.states|);
    forall x, y: nat | x in all && Link(job.Graph(), [], NOWHERE, x, y) ensures y in all {
      var a :| a in job.Graph() && a.source == x && a.target == y && Passes([], a.on, NOWHERE);
      ArcBound(job, a);
      assert all[y] == y;
    }
    assert all[p] == p;
    GlidesStaysInside(job.Graph(), [], NOWHERE, all, p, q);
  }

  lemma ArcBound(job: Job, a: Arc)
    requires job.Valid() && a in job.Graph()
    ensures a.target < |job.db.states|
  {
    assert job.db.HasArc(a);
    var k :| 0 <= k < |job.db.EdgesFrom(a.source)|
             && a == Row(a.source, job.db.EdgesFrom(a.source), job.db.predicates)[k];
    assert job.db.EdgeInBounds(job.db.EdgesFrom(a.source)[k]);
  }

  lemma FrontsExist(job: Job, u: U16) returns (root: seq<nat>, first: seq<nat>)
    requires job.Valid()
    ensures IsRootClosure(job, root) && IsSuccessor(job, root, u, first)
  {
    hide PatternDatabase.Valid, Job.Graph, Glides;
    var n := |job.db.states|;
    RootInBounds(job);
    root := Listed(set q: nat | q < n && InRoot(job, q));
    forall q: nat ensures q in root <==> Glides(job.Graph(), [], NOWHERE, job.root, q) {
      if InRoot(job, q) {
        GlidesBound(job, job.root, q);
      }
    }
    first := SuccessorExists(job, root, u);
  }

  lemma SuccessorExists(job: Job, states: seq<nat>, u: U16) returns (next: seq<nat>)
    requires job.Valid()
    ensures IsSuccessor(job, states, u, next)
  {
    hide PatternDatabase.Valid, Job.Graph, Glides;
    var n := |job.db.states|;
    next := Listed(set q: nat | q < n && Leads(job, states, u, q));
    forall q: nat | Leads(job, states, u, q) ensures q < n {
      var a :| a in job.Graph() && a.source in states && LabelTakes(a.on, u)
               && Glides(job.Graph(), [], NOWHERE, a.target, q);
      ArcBound(job, a);
      GlidesBound(job, a.target, q);
    }
  }

  lemma DeadAfterOne(job: Job, start: nat, i: nat, end: nat)
    requires job.Valid() && !job.contextual && start < |job.text| && !Alive(job, job.text[start])
    ensures !job.Hits(i, start, end)
  {
    hide PatternDatabase.Valid, Job.Graph, IsFront, InFront, IsSuccessor;
    var u := job.text[start];
    var root, first := FrontsExist(job, u);
    RootIsFront(job, start, root);
    SuccessorIsFront(job, start, start, root, first);
    FirstStates(job, root, u, first);
    if first != [] {
      SomeFirst(job, u, first);
    }
    if end > start {
      NoneInEmptyFront(job, start, start + 1, i, end);
    }
  }

  lemma DeadAfterTwo(job: Job, start: nat, i: nat, end: nat)
    requires job.Valid() && !job.contextual && start + 1 < |job.text|
             && !AliveAfter(job, job.text[start], job.text[start + 1])
    ensures !job.Hits(i, start, end)
  {
    hide PatternDatabase.Valid, Job.Graph, IsFront, InFront, IsSuccessor;
    var u, v := job.text[start], job.text[start + 1];
    var root, first := FrontsExist(job, u);
    var second := SuccessorExists(job, first, v);
    RootIsFront(job, start, root);
    SuccessorIsFront(job, start, start, root, first);
    FirstStates(job, root, u, first);
    SuccessorIsFront(job, start, start + 1, first, second);
    SecondStates(job, u, v, first, second);
    SecondEmpty(job, u, v, second);
    if end > start + 1 {
      NoneInEmptyFront(job, start, start + 2, i, end);
    } else if end == start + 1 {
      NoneTerminal(job, start, u, v, first, i);
    }
  }

  lemma SecondEmpty(job: Job, u: U16, v: U16, second: seq<nat>)
    requires job.Valid() && !AliveAfter(job, u, v) && forall q: nat :: q in second <==> InSecond(job, u, v, q)
    ensures second == []
  {
    hide PatternDatabase.Valid, InSecond, InFirst;
    EmptyOrMember(second);
  }

  lemma HitIsAlive(job: Job, start: nat, u: U16, v: U16, first: seq<nat>, i: nat)
    requires job.Valid() && (forall q: nat :: q in first <==> InFirst(job, u, q))
    requires IsFront(job.Graph(), job.text, job.root, start, start + 1, first) && job.Hits(i, start, start + 1)
    ensures AliveAfter(job, u, v)
  {
    hide PatternDatabase.Valid, Job.Graph, InFront, InSecond, InFirst;
    var q: nat :| q < |job.db.states| && i in job.db.TerminalsAt(q)
                  && InFront(job.Graph(), job.text, job.root, start, start + 1, q);
    assert q in first;
  }

  lemma NoneTerminal(job: Job, start: nat, u: U16, v: U16, first: seq<nat>, i: nat)
    requires job.Valid() && !AliveAfter(job, u, v) && (forall q: nat :: q in first <==> InFirst(job, u, q))
    requires IsFront(job.Graph(), job.text, job.root, start, start + 1, first)
    ensures !job.Hits(i, start, start + 1)
  {
    hide PatternDatabase.Valid, Job.Graph, Job.Hits, AliveAfter, IsFront;
    if job.Hits(i, start, start + 1) {
      HitIsAlive(job, start, u, v, first, i);
    }
  }

  lemma NoneInEmptyFront(job: Job, start: nat, k: nat, i: nat, end: nat)
    requires job.Valid() && start <= k <= end && IsFront(job.Graph(), job.text, job.root, start, k, [])
    ensures !job.Hits(i, start, end)
  {
    hide PatternDatabase.Valid, Job.Graph, InFront;
    if job.Hits(i, start, end) {
      var q: nat :| q < |job.db.states| && i in job.db.TerminalsAt(q)
                    && InFront(job.Graph(), job.text, job.root, start, end, q);
      EmptyFrontStays(job.Graph(), job.text, job.root, start, k, end, q);
    }
  }

  lemma {:induction false} NoHitsNoEvents(job: Job, start: nat, count: nat)
    requires job.Valid() && count <= |job.db.patternIds|
             && forall i: nat, end: nat :: i < |job.db.patternIds| ==> !job.Hits(i, start, end)
    ensures job.OrdinalEvents(start, count) == []
  {
    hide PatternDatabase.Valid, Job.Hits;
    if count > 0 {
      NoHitsNoEvents(job, start, count - 1);
      job.LongestIsGreatest(count - 1, start, |job.text|);
    }
  }

  /** What the tables know is independent of the text that is scanned. */
  lemma AliveAnywhere(job: Job, w: Text, u: U16, v: U16)
    requires job.Valid()
    ensures job.(text := w).Valid() && (Alive(job.(text := w), u) <==> Alive(job, u))
            && (AliveAfter(job.(text := w), u, v) <==> AliveAfter(job, u, v))
  {
    var scan := job.(text := w);
    assert scan.Graph() == job.Graph();
    forall states: seq<nat>, x: U16, q: nat ensures Leads(scan, states, x, q) <==> Leads(job, states, x, q) {
    }
    assert forall q: nat :: InRoot(scan, q) <==> InRoot(job, q);
    assert forall x: U16, q: nat :: InFirst(scan, x, q) <==> InFirst(job, x, q);
    assert forall q: nat :: InSecond(scan, u, v, q) <==> InSecond(job, u, v, q);
  }

  /**
   Exactly which starts pass: one whose unit is not ASCII, or whose unit can begin a match
   and is the last, or is followed by a unit that is not ASCII or that can go on after it.
   */
  lemma AllowsExactly(t: StartTable, job: Job, input: Text, start: nat)
    requires job.Valid() && Right(t, job) && start < |input|
    ensures t.Allows(input, start) <==>
            || input[start] >= 128
            || (Alive(job, input[start])
                && (start + 1 == |input| || input[start + 1] >= 128 || AliveAfter(job, input[start], input[start + 1])))
  {
    hide Alive, AliveAfter, HasBit, ContainsBit, PatternDatabase.Valid;
    var first := input[start];
    if first < 128 {
      BitIsHit(t.firstAscii, first);
      if start + 1 < |input| && input[start + 1] < 128 {
        BitIsHit(t.pairAscii, PairBit(first, input[start + 1]));
      }
    }
  }

  /** A start the table rejects produces no event, at the last unit too. */
  lemma RejectedIsSilent(t: StartTable, job: Job, w: Text, start: nat)
    requires job.Valid() && !job.contextual && Right(t, job) && start < |w| && !t.Allows(w, start)
    ensures job.(text := w).Valid() && job.(text := w).StartEvents(start) == []
  {
    hide PatternDatabase.Valid, Job.Graph, Alive, AliveAfter, Job.OrdinalEvents, ContainsBit;
    var scan := job.(text := w);
    var u := w[start];
    AliveAnywhere(job, w, u, if start + 1 < |w| then w[start + 1] else 0);
    forall i: nat, end: nat ensures !scan.Hits(i, start, end) {
      BitIsHit(t.firstAscii, u);
      if !Alive(scan, u) {
        DeadAfterOne(scan, start, i, end);
      } else {
        var v := w[start + 1];
        BitIsHit(t.pairAscii, PairBit(u, v));
        DeadAfterTwo(scan, start, i, end);
      }
    }
    NoHitsNoEvents(scan, start, |scan.db.patternIds|);
  }
}
