/**
 The worklists that follow non-consuming edges, marking visited states in a boolean array
 or in a generation-stamped array (rustmatch/src/engine.rs:867-946), and the set-of-states
 step built on them (rustmatch/src/engine.rs:239-253, 382-406).
 */
module Closure {
  import opened Assertions
  import opened NfaCompiler
  import opened Database
  import opened Fronts
  import opened ScanSpec
  import opened Sorting

  /** The marks are exactly the members of `states`, which are distinct database states. */
  ghost predicate Marks(n: nat, marked: seq<bool>, states: seq<nat>) {
    |marked| == n && AllBelow(states, n) && Distinct(states) && forall q: nat :: q < n ==> (marked[q] <==> q in states)
  }

  /** A worklist between two pops: `output` is done, `stack` is marked but not expanded. */
  ghost predicate Pending(job: Job, c: Cursor, seed: nat, before: seq<nat>, output: seq<nat>, stack: seq<nat>)
    requires job.Valid()
  {
    var all := output + stack;
    && before <= output && seed in all
    && (forall q: nat :: q in all ==> q in before || Glides(job.Graph(), job.text, c, seed, q))
    && (forall p, q: nat :: p in output && Link(job.Graph(), job.text, c, p, q) ==> q in all)
  }

  lemma PendingStarts(job: Job, c: Cursor, seed: nat, before: seq<nat>)
    requires job.Valid() && LinkClosed(job.Graph(), job.text, c, before)
    ensures Pending(job, c, seed, before, before, [seed])
  {
    GlidesRefl(job.Graph(), job.text, c, seed);
  }

  lemma PendingAdvances(job: Job, c: Cursor, seed: nat, before: seq<nat>, output: seq<nat>, stack: seq<nat>,
                        state: nat, pushed: seq<nat>)
    requires job.Valid() && Pending(job, c, seed, before, output, stack + [state])
             && LinkClosed(job.Graph(), job.text, c, before)
    requires state !in before
    requires forall q: nat :: q in pushed ==> Link(job.Graph(), job.text, c, state, q)
    requires forall q: nat :: Link(job.Graph(), job.text, c, state, q) ==> q in output + stack + [state] + pushed
    ensures Pending(job, c, seed, before, output + [state], stack + pushed)
  {
    var all, all' := output + (stack + [state]), (output + [state]) + (stack + pushed);
    assert forall q :: q in all' <==> q in all || q in pushed;
    assert state in all;
    forall q: nat | q in all' ensures q in before || Glides(job.Graph(), job.text, c, seed, q) {
      if q !in all {
        GlidesLink(job.Graph(), job.text, c, seed, state, q);
      }
    }
  }

  lemma PendingEnds(job: Job, c: Cursor, seed: nat, before: seq<nat>, output: seq<nat>)
    requires job.Valid() && Pending(job, c, seed, before, output, [])
    ensures LinkClosed(job.Graph(), job.text, c, output)
    ensures forall q: nat :: q in output <==> q in before || Glides(job.Graph(), job.text, c, seed, q)
  {
    assert output + [] == output;
    forall q: nat | Glides(job.Graph(), job.text, c, seed, q) ensures q in output {
      GlidesStaysInside(job.Graph(), job.text, c, output, seed, q);
    }
  }

  // ---- Boolean marks -------------------------------------------------------------------

  /** One pop: mark and push every unmarked state the popped state links to. */
  method PushLinked(job: Job, c: Cursor, state: nat, stack: seq<nat>, visited: array<bool>, ghost seen: seq<nat>)
    returns (stack': seq<nat>, ghost pushed: seq<nat>)
    requires job.Valid() && state < |job.db.states| && Marks(|job.db.states|, visited[..], seen)
    modifies visited
    ensures stack' == stack + pushed && Marks(|job.db.states|, visited[..], seen + pushed)
    ensures forall q: nat :: q in pushed ==> Link(job.Graph(), job.text, c, state, q)
    ensures forall q: nat :: Link(job.Graph(), job.text, c, state, q) ==> q in seen + pushed
  {
    hide PatternDatabase.Valid, Job.Graph;
    var edges := job.db.EdgesFrom(state);
    stack', pushed := stack, [];
    for k := 0 to |edges|
      invariant stack' == stack + pushed && Marks(|job.db.states|, visited[..], seen + pushed)
      invariant forall q: nat :: q in pushed ==> Link(job.Graph(), job.text, c, state, q)
      invariant forall j :: 0 <= j < k && job.Follows(edges[j].kind, c) ==> edges[j].target in seen + pushed
    {
      var target := edges[k].target;
      assert job.db.EdgeInBounds(edges[k]);
      if job.Follows(edges[k].kind, c) && !visited[target] {
        LinkIsFollow(job, c, state, target);
        visited[target] := true;
        stack' := stack' + [target];
        assert seen + (pushed + [target]) == (seen + pushed) + [target];
        pushed := pushed + [target];
      }
    }
    forall q: nat | Link(job.Graph(), job.text, c, state, q) ensures q in seen + pushed {
      LinkIsFollow(job, c, state, q);
    }
  }

  method ExtendClosure(job: Job, c: Cursor, seed: nat, before: seq<nat>, visited: array<bool>)
    returns (output: seq<nat>)
    requires job.Valid() && seed < |job.db.states| && Marks(|job.db.states|, visited[..], before)
    requires LinkClosed(job.Graph(), job.text, c, before)
    modifies visited
    ensures Marks(|job.db.states|, visited[..], output) && LinkClosed(job.Graph(), job.text, c, output)
    ensures forall q: nat :: q in output <==> q in before || Glides(job.Graph(), job.text, c, seed, q)
  {
    hide PatternDatabase.Valid, Job.Graph, Pending, LinkClosed;
    output := before;
    if visited[seed] {
      forall q: nat | Glides(job.Graph(), job.text, c, seed, q) ensures q in output {
        GlidesStaysInside(job.Graph(), job.text, c, output, seed, q);
      }
      return;
    }
    visited[seed] := true;
    var stack := [seed];
    PendingStarts(job, c, seed, before);
    while stack != []
      invariant Marks(|job.db.states|, visited[..], output + stack) && before <= output
      invariant Pending(job, c, seed, before, output, stack)
      decreases |job.db.states| - |output|
    {
      var state := stack[|stack| - 1];
      var rest := stack[..|stack| - 1];
      assert stack == rest + [state];
      ghost var seen := output + stack;
      assert seen[|seen| - 1] == state && state in seen;
      DistinctBound(seen, |job.db.states|);
      forall i | 0 <= i < |before| ensures before[i] != state {
        assert before[i] == seen[i];
      }
      ghost var pushed;
      stack, pushed := PushLinked(job, c, state, rest, visited, seen);
      assert seen == output + rest + [state];
      PendingAdvances(job, c, seed, before, output, rest, state, pushed);
      MarksReorder(|job.db.states|, visited[..], output, rest, state, pushed);
      output := output + [state];
    }
    assert output + [] == output;
    PendingEnds(job, c, seed, before, output);
  }

  lemma MarksReorder(n: nat, marked: seq<bool>, output: seq<nat>, rest: seq<nat>, state: nat, pushed: seq<nat>)
    requires Marks(n, marked, (output + (rest + [state])) + pushed)
    ensures Marks(n, marked, (output + [state]) + (rest + pushed))
  {
    var s, t := (output + (rest + [state])) + pushed, (output + [state]) + (rest + pushed);
    var o, r := |output|, |rest|;
    assert forall x :: x in t <==> x in s;
    forall i | 0 <= i < |t| ensures t[i] < n {
      assert t[i] in s;
    }
    forall i, j | 0 <= i < j < |t| ensures t[i] != t[j] {
      var i' := if i < o then i else if i == o then o + r else if i <= o + r then i - 1 else i;
      var j' := if j < o then j else if j == o then o + r else if j <= o + r then j - 1 else j;
      assert t[i] == s[i'] && t[j] == s[j'] && i' != j';
    }
  }

  // ---- Generation-stamped marks --------------------------------------------------------

  /** A stamp equal to the current generation is a mark; every other stamp is stale. */
  function Fresh(stamps: seq<nat>, generation: nat): (marked: seq<bool>)
    ensures |marked| == |stamps| && forall q :: 0 <= q < |marked| ==> marked[q] == (stamps[q] == generation)
  {
    seq(|stamps|, q requires 0 <= q < |stamps| => stamps[q] == generation)
  }

  method PushLinkedStamped(job: Job, ghost c: Cursor, state: nat, stack: seq<nat>, stamps: array<nat>,
                           generation: nat, ghost seen: seq<nat>)
    returns (stack': seq<nat>, ghost pushed: seq<nat>)
    requires job.Valid() && state < |job.db.states| && Marks(|job.db.states|, Fresh(stamps[..], generation), seen)
    requires !job.contextual
    modifies stamps
    ensures stack' == stack + pushed && Marks(|job.db.states|, Fresh(stamps[..], generation), seen + pushed)
    ensures forall q: nat :: q in pushed ==> Link(job.Graph(), job.text, c, state, q)
    ensures forall q: nat :: Link(job.Graph(), job.text, c, state, q) ==> q in seen + pushed
    ensures forall q :: 0 <= q < stamps.Length ==> stamps[q] == old(stamps[q]) || stamps[q] == generation
  {
    hide PatternDatabase.Valid, Job.Graph;
    var edges := job.db.EdgesFrom(state);
    stack', pushed := stack, [];
    for k := 0 to |edges|
      invariant stack' == stack + pushed && Marks(|job.db.states|, Fresh(stamps[..], generation), seen + pushed)
      invariant forall q: nat :: q in pushed ==> Link(job.Graph(), job.text, c, state, q)
      invariant forall j :: 0 <= j < k && job.Follows(edges[j].kind, c) ==> edges[j].target in seen + pushed
      invariant forall q :: 0 <= q < stamps.Length ==> stamps[q] == old(stamps[q]) || stamps[q] == generation
    {
      var target := edges[k].target;
      assert job.db.EdgeInBounds(edges[k]);
      if edges[k].kind == EpsilonEdge && stamps[target] != generation {
        LinkIsFollow(job, c, state, target);
        stamps[target] := generation;
        stack' := stack' + [target];
        assert seen + (pushed + [target]) == (seen + pushed) + [target];
        pushed := pushed + [target];
      }
    }
    forall q: nat | Link(job.Graph(), job.text, c, state, q) ensures q in seen + pushed {
      LinkIsFollow(job, c, state, q);
    }
  }

  method ExtendClosureStamped(job: Job, ghost c: Cursor, seed: nat, before: seq<nat>, stamps: array<nat>,
                              generation: nat)
    returns (output: seq<nat>)
    requires job.Valid() && seed < |job.db.states| && Marks(|job.db.states|, Fresh(stamps[..], generation), before)
    requires !job.contextual && LinkClosed(job.Graph(), job.text, c, before)
    modifies stamps
    ensures Marks(|job.db.states|, Fresh(stamps[..], generation), output)
            && LinkClosed(job.Graph(), job.text, c, output)
    ensures forall q: nat :: q in output <==> q in before || Glides(job.Graph(), job.text, c, seed, q)
    ensures forall q :: 0 <= q < stamps.Length ==> stamps[q] == old(stamps[q]) || stamps[q] == generation
  {
    hide PatternDatabase.Valid, Job.Graph, Pending, LinkClosed;
    output := before;
    if stamps[seed] == generation {
      forall q: nat | Glides(job.Graph(), job.text, c, seed, q) ensures q in output {
        GlidesStaysInside(job.Graph(), job.text, c, output, seed, q);
      }
      return;
    }
    stamps[seed] := generation;
    var stack := [seed];
    PendingStarts(job, c, seed, before);
    while stack != []
      invariant Marks(|job.db.states|, Fresh(stamps[..], generation), output + stack) && before <= output
      invariant Pending(job, c, seed, before, output, stack)
      invariant forall q :: 0 <= q < stamps.Length ==> stamps[q] == old(stamps[q]) || stamps[q] == generation
      decreases |job.db.states| - |output|
    {
      var state := stack[|stack| - 1];
      var rest := stack[..|stack| - 1];
      assert stack == rest + [state];
      ghost var seen := output + stack;
      assert seen[|seen| - 1] == state && state in seen;
      DistinctBound(seen, |job.db.states|);
      forall i | 0 <= i < |before| ensures before[i] != state {
        assert before[i] == seen[i];
      }
      ghost var pushed;
      stack, pushed := PushLinkedStamped(job, c, state, rest, stamps, generation, seen);
      assert seen == output + rest + [state];
      PendingAdvances(job, c, seed, before, output, rest, state, pushed);
      MarksReorder(|job.db.states|, Fresh(stamps[..], generation), output, rest, state, pushed);
      output := output + [state];
    }
    assert output + [] == output;
    PendingEnds(job, c, seed, before, output);
  }
}
