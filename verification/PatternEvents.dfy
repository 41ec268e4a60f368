/**
 The events of one pattern, independently of any database it is compiled into, and the
 proof that scanning a database yields exactly its patterns' events.
 */
module PatternEvents {
  import opened Base
  import opened HirSyntax
  import opened Graph
  import opened CompiledMeaning
  import opened Layout
  import opened Database
  import opened Fronts
  import opened ScanSpec

  /** The compiled pattern has a consuming match from `start` to `end`. */
  ghost predicate Accepts(h: Hir, w: Text, start: nat, end: nat) {
    end > start && Exits(h, w, At(start, start), At(start, end))
  }

  ghost function LongestMatch(h: Hir, w: Text, start: nat, upto: nat): Option<nat> {
    if upto <= start then None
    else if Accepts(h, w, start, upto) then Some(upto)
    else LongestMatch(h, w, start, upto - 1)
  }

  ghost function PatternStart(p: HirPattern, w: Text, start: nat): seq<Event> {
    var best := LongestMatch(p.expression, w, start, |w|);
    if best.Some? then [Event(p.id, start, best.value)] else []
  }

  // ---- Bags of events ------------------------------------------------------------------

  ghost function StartBag(patterns: seq<HirPattern>, w: Text, start: nat): multiset<Event> {
    if patterns == [] then multiset{}
    else StartBag(patterns[..|patterns| - 1], w, start) + multiset(PatternStart(patterns[|patterns| - 1], w, start))
  }

  /** The event multiset of a set of patterns over the first `n` starts of a text. */
  ghost function ScanBag(patterns: seq<HirPattern>, w: Text, n: nat): multiset<Event> {
    if n == 0 then multiset{} else ScanBag(patterns, w, n - 1) + StartBag(patterns, w, n - 1)
  }

  lemma {:induction false} StartBagSplits(ps: seq<HirPattern>, qs: seq<HirPattern>, w: Text, start: nat)
    ensures StartBag(ps + qs, w, start) == StartBag(ps, w, start) + StartBag(qs, w, start)
  {
    if qs == [] {
      assert ps + qs == ps;
    } else {
      var init := qs[..|qs| - 1];
      assert (ps + qs)[..|ps + qs| - 1] == ps + init;
      StartBagSplits(ps, init, w, start);
    }
  }

  /** Patterns contribute independently: splitting the pattern list splits the bag. */
  lemma {:induction false} ScanBagSplits(ps: seq<HirPattern>, qs: seq<HirPattern>, w: Text, n: nat)
    ensures ScanBag(ps + qs, w, n) == ScanBag(ps, w, n) + ScanBag(qs, w, n)
  {
    hide StartBag;
    if n > 0 {
      ScanBagSplits(ps, qs, w, n - 1);
      StartBagSplits(ps, qs, w, n - 1);
    }
  }

  lemma {:induction false} EmptyScanBag(w: Text, n: nat)
    ensures ScanBag([], w, n) == multiset{}
  {
    if n > 0 {
      EmptyScanBag(w, n - 1);
    }
  }

  /** The patterns compiled under root `r`. */
  ghost function Under(patterns: seq<HirPattern>, roots: seq<nat>, r: nat): seq<HirPattern>
    requires |roots| == |patterns|
  {
    if patterns == [] then []
    else
      var last := |patterns| - 1;
      Under(patterns[..last], roots[..last], r) + if roots[last] == r then [patterns[last]] else []
  }

  lemma UnderOneMore(patterns: seq<HirPattern>, roots: seq<nat>, r: nat, i: nat)
    requires |roots| == |patterns| && i < |patterns|
    ensures Under(patterns[..i + 1], roots[..i + 1], r) ==
            Under(patterns[..i], roots[..i], r) + if roots[i] == r then [patterns[i]] else []
  {
    assert patterns[..i + 1][..i] == patterns[..i] && roots[..i + 1][..i] == roots[..i];
  }

  lemma StartBagOneMore(ps: seq<HirPattern>, p: HirPattern, w: Text, start: nat)
    ensures StartBag(ps + [p], w, start) == StartBag(ps, w, start) + multiset(PatternStart(p, w, start))
    ensures ps + [] == ps
  {
    assert (ps + [p])[..|ps|] == ps;
  }

  // ---- From database to patterns -------------------------------------------------------

  /** The job scans root `job.root` of a layout, in a mode that can follow its assertions. */
  ghost predicate Serves(job: Job, patterns: seq<HirPattern>, roots: seq<nat>, n: nat) {
    && |roots| == |patterns| && Represents(job.db, patterns, roots, n)
    && job.root < n && n <= |job.db.states| && (forall k :: k in roots ==> k < n)
    && (!job.contextual ==> forall i :: 0 <= i < |patterns| && roots[i] == job.root ==>
                                          !UsesAssertions(patterns[i].expression))
  }

  lemma HitsAreAccepts(job: Job, patterns: seq<HirPattern>, roots: seq<nat>, n: nat, i: nat, start: nat, end: nat)
    requires Serves(job, patterns, roots, n) && i < |patterns|
    ensures job.Valid()
    ensures job.Hits(i, start, end) <==> roots[i] == job.root && Accepts(patterns[i].expression, job.text, start, end)
  {
    hide PatternDatabase.Valid, Exits, Path, Firsts, Patterns, PatternGraph, Reach;
    var hs := Expressions(patterns);
    var g, terminal := PatternGraph(hs, roots, n), Firsts(hs, n)[i] + 1;
    assert job.db.Graph() == g;
    PatternsIndependent(hs, roots, n, job.text, job.root, i, At(start, start), At(start, end));
    InFrontIsPath(job, hs, roots, n, start, end, terminal);
    if end > start {
      TerminalState(job.db, patterns, roots, n, i);
      assert job.Hits(i, start, end) <==> InFront(job.Graph(), job.text, job.root, start, end, terminal);
    }
  }

  lemma TerminalState(db: PatternDatabase, patterns: seq<HirPattern>, roots: seq<nat>, n: nat, i: nat)
    requires |roots| == |patterns| && Represents(db, patterns, roots, n) && i < |patterns|
    ensures var terminal := Firsts(Expressions(patterns), n)[i] + 1;
            terminal < |db.states| && forall q: nat :: q < |db.states| ==> (i in db.TerminalsAt(q) <==> q == terminal)
  {
    var hs := Expressions(patterns);
    LayoutParts(hs, roots, n);
    var f := Firsts(hs, n)[i];
    assert f + 1 in Block(hs, n, i);
  }

  lemma InFrontIsPath(job: Job, hs: seq<Hir>, roots: seq<nat>, n: nat, start: nat, end: nat, q: nat)
    requires job.Valid() && |roots| == |hs| && job.db.Graph() == PatternGraph(hs, roots, n)
    requires job.root < n && (forall k :: k in roots ==> k < n)
    requires !job.contextual ==> forall i :: 0 <= i < |hs| && roots[i] == job.root ==> !UsesAssertions(hs[i])
    ensures InFront(job.Graph(), job.text, job.root, start, end, q) <==>
            Path(PatternGraph(hs, roots, n), job.text, job.root, q, At(start, start), At(start, end))
  {
    if !job.contextual {
      AssertionFreeRoot(hs, roots, n, job.text, job.root, At(start, start), Config(q, At(start, end)));
    }
  }

  lemma {:induction false} LongestIsLongestMatch(job: Job, patterns: seq<HirPattern>, roots: seq<nat>, n: nat, i: nat,
                                                 start: nat, upto: nat)
    requires Serves(job, patterns, roots, n) && i < |patterns| && job.Valid()
    ensures job.Longest(i, start, upto) == if roots[i] == job.root
                                           then LongestMatch(patterns[i].expression, job.text, start, upto) else None
  {
    hide Serves, Job.Hits, Accepts, PatternDatabase.Valid;
    if upto > start {
      HitsAreAccepts(job, patterns, roots, n, i, start, upto);
      LongestIsLongestMatch(job, patterns, roots, n, i, start, upto - 1);
    }
  }

  lemma OneEventIsPatternStart(job: Job, patterns: seq<HirPattern>, roots: seq<nat>, n: nat, start: nat, i: nat)
    requires Serves(job, patterns, roots, n) && job.Valid() && i < |patterns| == |job.db.patternIds|
    requires job.db.patternIds[i] == patterns[i].id
    ensures job.OneEvent(start, i) == if roots[i] == job.root then PatternStart(patterns[i], job.text, start) else []
  {
    hide Serves, Job.Longest, LongestMatch, PatternDatabase.Valid;
    LongestIsLongestMatch(job, patterns, roots, n, i, start, |job.text|);
  }

  /** The events of one start are those of the root's patterns, in registration order. */
  lemma {:induction false} StartEventsBag(job: Job, patterns: seq<HirPattern>, roots: seq<nat>, n: nat, start: nat,
                                          count: nat)
    requires Serves(job, patterns, roots, n) && job.Valid() && count <= |patterns| == |job.db.patternIds|
             && |roots| == |patterns|
    requires forall i :: 0 <= i < |patterns| ==> job.db.patternIds[i] == patterns[i].id
    ensures multiset(job.OrdinalEvents(start, count))
         == StartBag(Under(patterns[..count], roots[..count], job.root), job.text, start)
  {
    hide Serves, Job.OneEvent, PatternStart, PatternDatabase.Valid;
    if count > 0 {
      var i := count - 1;
      StartEventsBag(job, patterns, roots, n, start, i);
      OneEventIsPatternStart(job, patterns, roots, n, start, i);
      UnderOneMore(patterns, roots, job.root, i);
      var before := Under(patterns[..i], roots[..i], job.root);
      StartBagOneMore(before, patterns[i], job.text, start);
      assert job.OrdinalEvents(start, count) == job.OrdinalEvents(start, i) + job.OneEvent(start, i);
    }
  }

  function Range(n: nat): (r: seq<nat>)
    ensures |r| == n && forall k :: 0 <= k < n ==> r[k] == k
  {
    seq(n, k => k)
  }

  /** A full scan of a database yields, as a multiset, exactly its root's patterns' events. */
  lemma {:induction false} EventsBag(job: Job, patterns: seq<HirPattern>, roots: seq<nat>, n: nat, count: nat)
    requires Serves(job, patterns, roots, n) && job.Valid()
    ensures multiset(job.Events(Range(count))) == ScanBag(Under(patterns, roots, job.root), job.text, count)
  {
    hide PatternDatabase.Valid, StartBag, Under, Job.OrdinalEvents;
    if count > 0 {
      EventsBag(job, patterns, roots, n, count - 1);
      assert Range(count)[..count - 1] == Range(count - 1);
      StartEventsBag(job, patterns, roots, n, count - 1, |patterns|);
      assert patterns[..|patterns|] == patterns && roots[..|roots|] == roots;
    }
  }
}
