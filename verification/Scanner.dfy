/**
 The forward scan (rustmatch/src/engine.rs:220-287, 685-750, 769-836) with its reusable
 scratch storage (rustmatch/src/engine.rs:980-1056).  The ordinary loop and the two
 assertion-aware loops are one method here; `Job.contextual` selects the closure they use.
 */
module Scanner {
  import opened Base
  import opened Assertions
  import opened Graph
  import opened Database
  import opened Fronts
  import opened ScanSpec
  import opened Sorting
  import opened Closure

  const GENERATION_LIMIT: nat := 0x1_0000_0000

  /** `touched` lists, once each, the ordinals that have an end recorded. */
  ghost predicate Touched(bestEnd: seq<Option<nat>>, touched: seq<nat>) {
    AllBelow(touched, |bestEnd|) && Distinct(touched)
    && forall i: nat :: i < |bestEnd| ==> (i in touched <==> bestEnd[i].Some?)
  }

  class Scratch {
    var active: seq<nat>
    var next: seq<nat>
    var touched: seq<nat>
    var activeSeen: array<bool>
    var nextSeen: array<bool>
    const cacheSeen: array<nat>
    const bestEnd: array<Option<nat>>
    var cacheGeneration: nat
    ghost const stateCount: nat
    ghost const patternCount: nat

    ghost function Repr(): set<object>
      reads this
    {
      {this, activeSeen, nextSeen, cacheSeen, bestEnd}
    }

    ghost predicate Valid()
      reads this, Repr()
    {
      && activeSeen != nextSeen
      && activeSeen.Length == nextSeen.Length == cacheSeen.Length == stateCount
      && bestEnd.Length == patternCount
      && cacheGeneration < GENERATION_LIMIT
      && (forall q :: 0 <= q < cacheSeen.Length ==> cacheSeen[q] <= cacheGeneration)
      && Touched(bestEnd[..], touched)
    }

    ghost predicate Fits(job: Job)
      reads this
    {
      job.Valid() && stateCount == |job.db.states| && patternCount == |job.db.patternIds|
    }

    constructor (db: PatternDatabase)
      requires db.Valid()
      ensures Valid() && fresh(Repr()) && stateCount == |db.states| && patternCount == |db.patternIds|
    {
      active, next, touched := [], [], [];
      activeSeen := new bool[|db.states|](_ => false);
      nextSeen := new bool[|db.states|](_ => false);
      cacheSeen := new nat[|db.states|](_ => 0);
      bestEnd := new Option<nat>[|db.patternIds|](_ => None);
      cacheGeneration := 0;
      stateCount, patternCount := |db.states|, |db.patternIds|;
    }

    /** Forgets the ends of the previous start, visiting only the ordinals it touched. */
    method ResetTerminals()
      requires Valid()
      modifies this`touched, bestEnd
      ensures Valid() && touched == [] && forall i :: 0 <= i < bestEnd.Length ==> bestEnd[i] == None
    {
      for k := 0 to |touched|
        invariant touched == old(touched)
        invariant forall i: nat :: i < bestEnd.Length ==> (bestEnd[i].Some? ==> i in touched[k..])
      {
        bestEnd[touched[k]] := None;
        assert touched[k..] == [touched[k]] + touched[k + 1..];
      }
      touched := [];
    }

    method ResetStart()
      requires Valid()
      modifies this`active, this`touched, activeSeen, bestEnd
      ensures Valid() && active == [] && Marks(stateCount, activeSeen[..], [])
      ensures touched == [] && forall i :: 0 <= i < bestEnd.Length ==> bestEnd[i] == None
    {
      active := [];
      forall q | 0 <= q < activeSeen.Length {
        activeSeen[q] := false;
      }
      ResetTerminals();
    }

    method ResetNext()
      requires Valid()
      modifies this`next, nextSeen
      ensures Valid() && next == [] && Marks(stateCount, nextSeen[..], [])
    {
      next := [];
      forall q | 0 <= q < nextSeen.Length {
        nextSeen[q] := false;
      }
    }

    method ResetCachedStart()
      requires Valid()
      modifies this`active, this`next, this`touched, bestEnd
      ensures Valid() && active == [] && next == []
      ensures touched == [] && forall i :: 0 <= i < bestEnd.Length ==> bestEnd[i] == None
    {
      active, next := [], [];
      ResetTerminals();
    }

    /**
     Starts a new generation.  Whatever the history of stamps, including the wrap of the
     32-bit counter, the stamped array then reads as if every mark had been cleared.
     */
    method ResetCachedTransition() returns (generation: nat)
      requires Valid()
      modifies this`next, this`cacheGeneration, cacheSeen
      ensures Valid() && next == [] && generation == cacheGeneration
      ensures Marks(stateCount, Fresh(cacheSeen[..], generation), [])
    {
      next := [];
      cacheGeneration := if cacheGeneration + 1 == GENERATION_LIMIT then 0 else cacheGeneration + 1;
      if cacheGeneration == 0 {
        forall q | 0 <= q < cacheSeen.Length {
          cacheSeen[q] := 0;
        }
        cacheGeneration := 1;
      }
      generation := cacheGeneration;
    }
  }

  // ---- One symbol ----------------------------------------------------------------------

  /** The edges seen so far, out of `active[..i]` and the first `k` edges of `active[i]`, are accounted for. */
  ghost predicate Stepped(job: Job, c: Cursor, active: seq<nat>, u: U16, i: nat, next: seq<nat>)
    requires job.Valid() && AllBelow(active, |job.db.states|) && i <= |active|
  {
    && (forall q: nat :: q in next ==> Entered(job.Graph(), job.text, c, active, u, q))
    && (forall j :: 0 <= j < i ==> EdgesEntered(job, active[j], u, |job.db.EdgesFrom(active[j])|, next))
  }

  ghost predicate EdgesEntered(job: Job, p: nat, u: U16, count: nat, next: seq<nat>)
    requires job.Valid() && p < |job.db.states| && count <= |job.db.EdgesFrom(p)|
  {
    forall k :: 0 <= k < count && job.db.EdgeMatches(job.db.EdgesFrom(p)[k].kind, u) ==>
                  job.db.EdgesFrom(p)[k].target in next
  }

  lemma EdgeEnters(job: Job, c: Cursor, active: seq<nat>, u: U16, p: nat, k: nat, q: nat)
    requires job.Valid() && p in active && p < |job.db.states| && k < |job.db.EdgesFrom(p)|
    requires job.db.EdgeMatches(job.db.EdgesFrom(p)[k].kind, u)
    requires Glides(job.Graph(), job.text, c, job.db.EdgesFrom(p)[k].target, q)
    ensures Entered(job.Graph(), job.text, c, active, u, q)
  {
    hide PatternDatabase.Valid, Job.Graph, Glides;
    TakesIsEdgeMatch(job, p, u, job.db.EdgesFrom(p)[k].target);
  }

  lemma SteppedAll(job: Job, c: Cursor, active: seq<nat>, u: U16, next: seq<nat>)
    requires job.Valid() && AllBelow(active, |job.db.states|) && Stepped(job, c, active, u, |active|, next)
    requires LinkClosed(job.Graph(), job.text, c, next)
    ensures forall q: nat :: q in next <==> Entered(job.Graph(), job.text, c, active, u, q)
  {
    hide PatternDatabase.Valid, Job.Graph, Glides, LinkClosed;
    forall q: nat | Entered(job.Graph(), job.text, c, active, u, q) ensures q in next {
      var a :| a in job.Graph() && a.source in active && LabelTakes(a.on, u)
               && Glides(job.Graph(), job.text, c, a.target, q);
      TakesIsEdgeMatch(job, a.source, u, a.target);
      var j :| 0 <= j < |active| && active[j] == a.source;
      assert EdgesEntered(job, active[j], u, |job.db.EdgesFrom(active[j])|, next);
      assert a.target in next;
      GlidesStaysInside(job.Graph(), job.text, c, next, a.target, q);
    }
  }

  /** The states one symbol leads to, with boolean marks. */
  method StepFront(job: Job, c: Cursor, active: seq<nat>, u: U16, visited: array<bool>) returns (next: seq<nat>)
    requires job.Valid() && AllBelow(active, |job.db.states|) && Marks(|job.db.states|, visited[..], [])
    modifies visited
    ensures Marks(|job.db.states|, visited[..], next)
    ensures forall q: nat :: q in next <==> Entered(job.Graph(), job.text, c, active, u, q)
  {
    hide PatternDatabase.Valid, Job.Graph, Glides, Entered, PatternDatabase.EdgesFrom;
    next := [];
    for i := 0 to |active|
      invariant Marks(|job.db.states|, visited[..], next) && LinkClosed(job.Graph(), job.text, c, next)
      invariant Stepped(job, c, active, u, i, next)
    {
      var state := active[i];
      var edges := job.db.EdgesFrom(state);
      for k := 0 to |edges|
        invariant Marks(|job.db.states|, visited[..], next) && LinkClosed(job.Graph(), job.text, c, next)
        invariant Stepped(job, c, active, u, i, next) && EdgesEntered(job, state, u, k, next)
      {
        assert job.db.EdgeInBounds(edges[k]);
        var takes := Takes(job.db, edges[k].kind, u);
        if takes {
          var before := next;
          next := ExtendClosure(job, c, edges[k].target, before, visited);
          GlidesRefl(job.Graph(), job.text, c, edges[k].target);
          forall q: nat | q in next ensures Entered(job.Graph(), job.text, c, active, u, q) {
            if q !in before {
              EdgeEnters(job, c, active, u, state, k, q);
            }
          }
        }
      }
    }
    SteppedAll(job, c, active, u, next);
  }

  /** The same step with stamped marks, sorted so that equal sets become equal lists. */
  method ComputeTransition(job: Job, ghost c: Cursor, source: seq<nat>, u: U16, stamps: array<nat>, generation: nat)
    returns (output: seq<nat>)
    requires job.Valid() && !job.contextual && AllBelow(source, |job.db.states|)
    requires Marks(|job.db.states|, Fresh(stamps[..], generation), [])
    modifies stamps
    ensures Ascending(output) && AllBelow(output, |job.db.states|)
    ensures forall q: nat :: q in output <==> Entered(job.Graph(), job.text, c, source, u, q)
    ensures forall q :: 0 <= q < stamps.Length ==> stamps[q] == old(stamps[q]) || stamps[q] == generation
  {
    hide PatternDatabase.Valid, Job.Graph, Glides, Entered, PatternDatabase.EdgesFrom;
    var next: seq<nat> := [];
    for i := 0 to |source|
      invariant Marks(|job.db.states|, Fresh(stamps[..], generation), next)
                && LinkClosed(job.Graph(), job.text, c, next)
      invariant Stepped(job, c, source, u, i, next)
      invariant forall q :: 0 <= q < stamps.Length ==> stamps[q] == old(stamps[q]) || stamps[q] == generation
    {
      var state := source[i];
      var edges := job.db.EdgesFrom(state);
      for k := 0 to |edges|
        invariant Marks(|job.db.states|, Fresh(stamps[..], generation), next)
                  && LinkClosed(job.Graph(), job.text, c, next)
        invariant Stepped(job, c, source, u, i, next) && EdgesEntered(job, state, u, k, next)
        invariant forall q :: 0 <= q < stamps.Length ==> stamps[q] == old(stamps[q]) || stamps[q] == generation
      {
        assert job.db.EdgeInBounds(edges[k]);
        var takes := Takes(job.db, edges[k].kind, u);
        if takes {
          var before := next;
          next := ExtendClosureStamped(job, c, edges[k].target, before, stamps, generation);
          GlidesRefl(job.Graph(), job.text, c, edges[k].target);
          forall q: nat | q in next ensures Entered(job.Graph(), job.text, c, source, u, q) {
            if q !in before {
              EdgeEnters(job, c, source, u, state, k, q);
            }
          }
        }
      }
    }
    SteppedAll(job, c, source, u, next);
    SortedAscending(next);
    output := Sorted(next);
    forall i | 0 <= i < |output| ensures output[i] < |job.db.states| {
      assert output[i] in next;
    }
  }

  // ---- Recording ends ------------------------------------------------------------------

  /** For every ordinal, the longest match of `start` seen up to position `k`. */
  ghost predicate BestUpTo(job: Job, start: nat, k: nat, bestEnd: seq<Option<nat>>)
    requires job.Valid()
  {
    |bestEnd| == |job.db.patternIds| && forall i: nat :: i < |bestEnd| ==> bestEnd[i] == job.Longest(i, start, k)
  }

  ghost predicate TerminalIn(job: Job, states: seq<nat>, i: nat)
    requires job.Valid() && AllBelow(states, |job.db.states|)
  {
    exists j :: 0 <= j < |states| && i in job.db.TerminalsAt(states[j])
  }

  /** The patterns that end in the front at `k` are those that hit at `k`. */
  lemma TerminalsHit(job: Job, start: nat, k: nat, states: seq<nat>, i: nat)
    requires job.Valid() && AllBelow(states, |job.db.states|) && start < k
    requires IsFront(job.Graph(), job.text, job.root, start, k, states)
    ensures TerminalIn(job, states, i) <==> job.Hits(i, start, k)
  {
    hide PatternDatabase.Valid, Job.Graph, InFront;
    if TerminalIn(job, states, i) {
      var j :| 0 <= j < |states| && i in job.db.TerminalsAt(states[j]);
      assert states[j] in states;
    }
    if job.Hits(i, start, k) {
      var q: nat :| q < |job.db.states| && i in job.db.TerminalsAt(q)
                    && InFront(job.Graph(), job.text, job.root, start, k, q);
      var j :| 0 <= j < |states| && states[j] == q;
    }
  }

  method RecordTerminal(scratch: Scratch, ordinal: nat, end: nat)
    requires scratch.Valid() && ordinal < scratch.bestEnd.Length
    modifies scratch`touched, scratch.bestEnd
    ensures scratch.Valid()
    ensures scratch.bestEnd[..] == old(scratch.bestEnd[..])[ordinal := Some(end)]
  {
    if scratch.bestEnd[ordinal].None? {
      scratch.touched := scratch.touched + [ordinal];
    }
    scratch.bestEnd[ordinal] := Some(end);
  }

  method RecordAll(scratch: Scratch, ordinals: seq<nat>, end: nat)
    requires scratch.Valid() && AllBelow(ordinals, scratch.patternCount)
    modifies scratch`touched, scratch.bestEnd
    ensures scratch.Valid()
    ensures forall i: nat :: i < scratch.patternCount ==>
                               scratch.bestEnd[i] == if i in ordinals then Some(end) else old(scratch.bestEnd[i])
  {
    for k := 0 to |ordinals|
      invariant scratch.Valid()
      invariant forall i: nat :: i < scratch.patternCount ==>
                                   scratch.bestEnd[i] == if i in ordinals[..k] then Some(end)
                                   else old(scratch.bestEnd[i])
    {
      RecordTerminal(scratch, ordinals[k], end);
      assert ordinals[..k + 1] == ordinals[..k] + [ordinals[k]];
    }
    assert ordinals[..|ordinals|] == ordinals;
  }

  /** Records every pattern that ends in `states`. */
  method RecordStates(job: Job, scratch: Scratch, states: seq<nat>, end: nat)
    requires scratch.Valid() && scratch.Fits(job) && AllBelow(states, |job.db.states|)
    modifies scratch`touched, scratch.bestEnd
    ensures scratch.Valid()
    ensures forall i: nat :: i < scratch.patternCount ==>
                               scratch.bestEnd[i] == if TerminalIn(job, states, i) then Some(end)
                               else old(scratch.bestEnd[i])
  {
    hide PatternDatabase.Valid, PatternDatabase.TerminalsAt;
    for j := 0 to |states|
      invariant scratch.Valid()
      invariant forall i: nat :: i < scratch.patternCount ==>
                                   scratch.bestEnd[i] == if TerminalIn(job, states[..j], i) then Some(end)
                                   else old(scratch.bestEnd[i])
    {
      RecordAll(scratch, job.db.TerminalsAt(states[j]), end);
      forall i: nat ensures TerminalIn(job, states[..j + 1], i) <==>
                            TerminalIn(job, states[..j], i) || i in job.db.TerminalsAt(states[j]) {
        TerminalInSnoc(job, states, j, i);
      }
    }
    assert states[..|states|] == states;
  }

  lemma TerminalInSnoc(job: Job, states: seq<nat>, j: nat, i: nat)
    requires job.Valid() && AllBelow(states, |job.db.states|) && j < |states|
    ensures TerminalIn(job, states[..j + 1], i) <==>
            TerminalIn(job, states[..j], i) || i in job.db.TerminalsAt(states[j])
  {
    var s, t := states[..j + 1], states[..j];
    assert s[j] == states[j] && forall k :: 0 <= k < j ==> s[k] == t[k] == states[k];
  }

  lemma BestAdvances(job: Job, start: nat, k: nat, states: seq<nat>, before: seq<Option<nat>>, after: seq<Option<nat>>)
    requires job.Valid() && AllBelow(states, |job.db.states|) && start <= k
    requires IsFront(job.Graph(), job.text, job.root, start, k + 1, states) && BestUpTo(job, start, k, before)
    requires |after| == |before|
    requires forall i: nat :: i < |after| ==> after[i] == if TerminalIn(job, states, i) then Some(k + 1) else before[i]
    ensures BestUpTo(job, start, k + 1, after)
  {
    hide PatternDatabase.Valid, TerminalIn, IsFront, Job.Hits;
    forall i: nat | i < |after| ensures after[i] == job.Longest(i, start, k + 1) {
      TerminalsHit(job, start, k + 1, states, i);
    }
  }

  // ---- Events of one start -------------------------------------------------------------

  /** Emitting the sorted touched ordinals is emitting every ordinal that has an end. */
  lemma {:induction false} OrdinalsInOrder(job: Job, start: nat, bestEnd: seq<Option<nat>>, ordinals: seq<nat>,
                                           count: nat)
    requires job.Valid() && BestUpTo(job, start, |job.text|, bestEnd) && count <= |bestEnd|
    requires Ascending(ordinals) && AllBelow(ordinals, count)
    requires forall i: nat :: i < count ==> (i in ordinals <==> bestEnd[i].Some?)
    ensures EventsOf(job, start, bestEnd, ordinals) == job.OrdinalEvents(start, count)
  {
    hide PatternDatabase.Valid, Job.Longest;
    if count == 0 {
      assert ordinals == [] by { DistinctBound(ordinals, 0); }
    } else {
      AscendingSplits(ordinals, count);
      if count - 1 in ordinals {
        var rest := ordinals[..|ordinals| - 1];
        forall i: nat | i < count - 1 ensures i in rest <==> bestEnd[i].Some? {
          assert i in ordinals <==> i in rest;
        }
        OrdinalsInOrder(job, start, bestEnd, rest, count - 1);
      } else {
        OrdinalsInOrder(job, start, bestEnd, ordinals, count - 1);
        assert job.OneEvent(start, count - 1) == [];
      }
    }
  }

  ghost function EventsOf(job: Job, start: nat, bestEnd: seq<Option<nat>>, ordinals: seq<nat>): seq<Event>
    requires job.Valid() && |bestEnd| == |job.db.patternIds| && AllBelow(ordinals, |bestEnd|)
    requires forall j :: 0 <= j < |ordinals| ==> bestEnd[ordinals[j]].Some?
  {
    if ordinals == [] then []
    else
      var i := ordinals[|ordinals| - 1];
      EventsOf(job, start, bestEnd, ordinals[..|ordinals| - 1]) + [Event(job.db.patternIds[i], start, bestEnd[i].value)]
  }

  method EmitStart(job: Job, start: nat, scratch: Scratch) returns (events: seq<Event>)
    requires scratch.Valid() && scratch.Fits(job) && BestUpTo(job, start, |job.text|, scratch.bestEnd[..])
    modifies scratch`touched
    ensures scratch.Valid() && events == job.StartEvents(start)
  {
    hide PatternDatabase.Valid, Job.Longest, Job.OrdinalEvents, Sorted;
    ghost var bestEnd := scratch.bestEnd[..];
    SortedTouched(bestEnd, scratch.touched);
    scratch.touched := Sorted(scratch.touched);
    var ordinals := scratch.touched;
    events := [];
    for k := 0 to |ordinals|
      invariant events == EventsOf(job, start, bestEnd, ordinals[..k])
    {
      assert ordinals[..k + 1][..k] == ordinals[..k];
      events := events + [Event(job.db.patternIds[ordinals[k]], start, scratch.bestEnd[ordinals[k]].value)];
    }
    assert ordinals[..|ordinals|] == ordinals;
    OrdinalsInOrder(job, start, bestEnd, ordinals, |bestEnd|);
  }

  lemma SortedTouched(bestEnd: seq<Option<nat>>, touched: seq<nat>)
    requires Touched(bestEnd, touched)
    ensures Touched(bestEnd, Sorted(touched)) && Ascending(Sorted(touched))
    ensures forall j :: 0 <= j < |Sorted(touched)| ==> bestEnd[Sorted(touched)[j]].Some?
  {
    SortedAscending(touched);
    forall j | 0 <= j < |Sorted(touched)| ensures Sorted(touched)[j] < |bestEnd| && bestEnd[Sorted(touched)[j]].Some? {
      assert Sorted(touched)[j] in touched;
    }
  }

  // ---- The scan ------------------------------------------------------------------------

  /** All matches that begin at one start. */
  method ScanStart(job: Job, start: nat, scratch: Scratch) returns (events: seq<Event>)
    requires scratch.Valid() && scratch.Fits(job)
    modifies scratch.Repr()
    ensures scratch.Valid() && scratch.Repr() == old(scratch.Repr()) && events == job.StartEvents(start)
  {
    hide PatternDatabase.Valid, Job.Graph, InFront, TerminalIn, Job.StartEvents, Job.Longest, Glides, Entered;
    scratch.ResetStart();
    BestStarts(job, start, scratch.bestEnd[..]);
    scratch.active := ExtendClosure(job, At(start, start), job.root, [], scratch.activeSeen);
    FirstFront(job.Graph(), job.text, job.root, start, scratch.active);
    var position := start;
    while position < |job.text|
      invariant scratch.Valid() && scratch.Fits(job) && scratch.Repr() == old(scratch.Repr())
      invariant start <= position && (position > |job.text| ==> position == start)
                && AllBelow(scratch.active, scratch.stateCount)
      invariant IsFront(job.Graph(), job.text, job.root, start, position, scratch.active)
      invariant BestUpTo(job, start, position, scratch.bestEnd[..])
    {
      AdvanceFront(job, start, position, scratch);
      position := position + 1;
      if scratch.active == [] {
        break;
      }
    }
    BestIsFinal(job, start, position, scratch.active, scratch.bestEnd[..]);
    events := EmitStart(job, start, scratch);
  }

  /** One position of the scan: step the front, record the patterns that end, swap the buffers. */
  method AdvanceFront(job: Job, start: nat, position: nat, scratch: Scratch)
    requires scratch.Valid() && scratch.Fits(job) && start <= position < |job.text|
             && AllBelow(scratch.active, scratch.stateCount)
    requires IsFront(job.Graph(), job.text, job.root, start, position, scratch.active)
    requires BestUpTo(job, start, position, scratch.bestEnd[..])
    modifies scratch.Repr()
    ensures scratch.Valid() && scratch.Fits(job) && scratch.Repr() == old(scratch.Repr())
            && AllBelow(scratch.active, scratch.stateCount)
    ensures IsFront(job.Graph(), job.text, job.root, start, position + 1, scratch.active)
    ensures BestUpTo(job, start, position + 1, scratch.bestEnd[..])
  {
    hide PatternDatabase.Valid, Job.Graph, InFront, Job.Longest, TerminalIn, Glides, Entered, IsFront, BestUpTo;
    scratch.ResetNext();
    var end := position + 1;
    scratch.next := StepFront(job, At(start, end), scratch.active, job.text[position], scratch.nextSeen);
    NextFront(job.Graph(), job.text, job.root, start, position, scratch.active, scratch.next);
    ghost var before := scratch.bestEnd[..];
    RecordStates(job, scratch, scratch.next, end);
    BestAdvances(job, start, position, scratch.next, before, scratch.bestEnd[..]);
    scratch.active, scratch.next := scratch.next, scratch.active;
    scratch.activeSeen, scratch.nextSeen := scratch.nextSeen, scratch.activeSeen;
  }

  lemma BestStarts(job: Job, start: nat, bestEnd: seq<Option<nat>>)
    requires job.Valid() && |bestEnd| == |job.db.patternIds| && forall i :: 0 <= i < |bestEnd| ==> bestEnd[i] == None
    ensures BestUpTo(job, start, start, bestEnd)
  {
  }

  /** Whether the text ran out or the front died, later positions hold no further match. */
  lemma BestIsFinal(job: Job, start: nat, k: nat, states: seq<nat>, bestEnd: seq<Option<nat>>)
    requires job.Valid() && start <= k && (k >= |job.text| ==> k == start || k == |job.text|)
             && (k < |job.text| ==> states == [])
    requires IsFront(job.Graph(), job.text, job.root, start, k, states) && BestUpTo(job, start, k, bestEnd)
    ensures BestUpTo(job, start, |job.text|, bestEnd)
  {
    hide PatternDatabase.Valid, Job.Graph, InFront, Job.Longest;
    forall i: nat | i < |bestEnd| ensures bestEnd[i] == job.Longest(i, start, |job.text|) {
      if k < |job.text| {
        LongestStops(job, start, k, |job.text|, i);
      } else {
        LongestOfPastEnd(job, start, k, i);
      }
    }
  }

  lemma {:induction false} LongestStops(job: Job, start: nat, k: nat, later: nat, i: nat)
    requires job.Valid() && start <= k <= later && IsFront(job.Graph(), job.text, job.root, start, k, [])
    ensures job.Longest(i, start, later) == job.Longest(i, start, k)
    decreases later - k
  {
    hide PatternDatabase.Valid, Job.Graph;
    if later > k {
      if job.Hits(i, start, later) {
        var q: nat :| q < |job.db.states| && i in job.db.TerminalsAt(q)
                      && InFront(job.Graph(), job.text, job.root, start, later, q);
        EmptyFrontStays(job.Graph(), job.text, job.root, start, k, later, q);
      }
      LongestStops(job, start, k, later - 1, i);
    }
  }

  lemma LongestOfPastEnd(job: Job, start: nat, k: nat, i: nat)
    requires job.Valid() && start <= k && k >= |job.text| && (k == start || k == |job.text|)
    ensures job.Longest(i, start, |job.text|) == job.Longest(i, start, k)
  {
  }

  /** The scan over any list of starts, in the order given. */
  method ScanNfa(job: Job, starts: seq<nat>) returns (events: seq<Event>)
    requires job.Valid()
    ensures events == job.Events(starts)
  {
    hide PatternDatabase.Valid, Job.StartEvents;
    var scratch := new Scratch(job.db);
    events := [];
    for k := 0 to |starts|
      invariant scratch.Valid() && scratch.Fits(job) && fresh(scratch.Repr())
      invariant events == job.Events(starts[..k])
    {
      var found := ScanStart(job, starts[k], scratch);
      assert starts[..k + 1][..k] == starts[..k];
      events := events + found;
    }
    assert starts[..|starts|] == starts;
  }
}
