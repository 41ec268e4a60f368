/**
 Scanning both views of a two-root database (rustmatch/src/prefilter.rs:161-215, 328-349;
 rustmatch/src/engine.rs:117-201; rustmatch/src/api/cohort_view_runtime.rs:264-372).
 */
module CohortScan {
  import opened Base
  import opened Assertions
  import opened HirSyntax
  import opened Graph
  import opened CompiledMeaning
  import opened Emission
  import opened Layout
  import opened Database
  import opened Fronts
  import opened ScanSpec
  import opened PatternEvents
  import opened Contract
  import opened Scanner
  import opened Bitmap
  import opened StartTable
  import opened Engine
  import opened Prefix
  import opened Cohorts

  // ---- Facts about the two-root automaton ----------------------------------------------

  lemma RootsBelowTwo(patterns: seq<HirPattern>)
    ensures forall k :: k in CohortRoots(patterns) ==> k < 2
  {
    forall k | k in CohortRoots(patterns) ensures k < 2 {
      var i :| 0 <= i < |patterns| && CohortRoots(patterns)[i] == k;
    }
  }

  /** No assertion edge leaves any state the assertion-free root can reach. */
  lemma NoAssertionReachable(patterns: seq<HirPattern>, w: Text, c: Cursor, v: Config, a: Arc)
    requires Reach(PatternGraph(Expressions(patterns), CohortRoots(patterns), 2), w, Config(ASSERTION_FREE_ROOT, c), v)
    requires a in PatternGraph(Expressions(patterns), CohortRoots(patterns), 2) && a.source == v.state
    ensures !a.on.Guard?
  {
    hide Reach, Emit, UsesAssertions;
    var hs, roots := Expressions(patterns), CohortRoots(patterns);
    RootsBelowTwo(patterns);
    ReachLocated(hs, roots, 2, w, ASSERTION_FREE_ROOT, c, v);
    LayoutParts(hs, roots, 2);
    if IsPartArc(hs, 2, a) {
      var j :| 0 <= j < |hs| && a in Part(hs, 2, j);
      PartExact(hs, 2, j, w);
      var i :| 0 <= i < |hs| && LocatedIn(hs, roots, 2, w, ASSERTION_FREE_ROOT, c, v, i);
      assert a.source in Block(hs, 2, j) && i == j;
      var f := Firsts(hs, 2)[i];
      NoGuards(hs[i], f, f + 1, f + 2);
    }
  }

  /** The two views split the patterns: each terminal is accepted from exactly its own root. */
  lemma TerminalsPartition(patterns: seq<HirPattern>, w: Text, i: nat, c: Cursor, d: Cursor)
    requires i < |patterns|
    ensures var g, terminal := PatternGraph(Expressions(patterns), CohortRoots(patterns), 2),
                               Firsts(Expressions(patterns), 2)[i] + 1;
            && !(Path(g, w, ASSERTION_FREE_ROOT, terminal, c, d) && Path(g, w, ASSERTION_BEARING_ROOT, terminal, c, d))
            && (Exits(patterns[i].expression, w, c, d) <==>
                Path(g, w, ASSERTION_FREE_ROOT, terminal, c, d) || Path(g, w, ASSERTION_BEARING_ROOT, terminal, c, d))
  {
    hide Exits, Path;
    var hs, roots := Expressions(patterns), CohortRoots(patterns);
    RootsBelowTwo(patterns);
    PatternsIndependent(hs, roots, 2, w, ASSERTION_FREE_ROOT, i, c, d);
    PatternsIndependent(hs, roots, 2, w, ASSERTION_BEARING_ROOT, i, c, d);
  }

  // ---- Bags of the two views -----------------------------------------------------------

  lemma ViewOneMore(patterns: seq<HirPattern>, r: nat)
    requires patterns != []
    ensures var last := |patterns| - 1;
            Under(patterns, CohortRoots(patterns), r) ==
            Under(patterns[..last], CohortRoots(patterns[..last]), r) + if CohortRoots(patterns)[last] == r
            then [patterns[last]] else []
  {
    var last := |patterns| - 1;
    assert CohortRoots(patterns)[..last] == CohortRoots(patterns[..last]);
  }

  lemma {:induction false} StartBagViews(patterns: seq<HirPattern>, w: Text, start: nat)
    ensures StartBag(patterns, w, start) ==
            StartBag(Under(patterns, CohortRoots(patterns), 0), w, start)
            + StartBag(Under(patterns, CohortRoots(patterns), 1), w, start)
  {
    hide PatternStart, UsesAssertions;
    if patterns != [] {
      var last := |patterns| - 1;
      var init, roots := patterns[..last], CohortRoots(patterns);
      StartBagViews(init, w, start);
      ViewOneMore(patterns, 0);
      ViewOneMore(patterns, 1);
      StartBagOneMore(Under(init, CohortRoots(init), 0), patterns[last], w, start);
      StartBagOneMore(Under(init, CohortRoots(init), 1), patterns[last], w, start);
    }
  }

  /** Scanning the two views separately loses and duplicates nothing. */
  lemma {:induction false} ScanBagViews(patterns: seq<HirPattern>, w: Text, n: nat)
    ensures ScanBag(patterns, w, n) ==
            ScanBag(Under(patterns, CohortRoots(patterns), 0), w, n)
            + ScanBag(Under(patterns, CohortRoots(patterns), 1), w, n)
  {
    hide StartBag, Under;
    if n > 0 {
      ScanBagViews(patterns, w, n - 1);
      StartBagViews(patterns, w, n - 1);
    }
  }

  lemma {:induction false} EmptyView(patterns: seq<HirPattern>)
    ensures Bearing(patterns) == 0 ==> Under(patterns, CohortRoots(patterns), 1) == []
    ensures Bearing(patterns) == |patterns| ==> Under(patterns, CohortRoots(patterns), 0) == []
    ensures Bearing(patterns) <= |patterns|
  {
    if patterns != [] {
      var last := |patterns| - 1;
      assert CohortRoots(patterns)[..last] == CohortRoots(patterns[..last]);
      EmptyView(patterns[..last]);
    }
  }

  // ---- The assertion-prefix plan -------------------------------------------------------

  predicate CarriesFive(prefix: seq<U16>, input: Text, start: nat) {
    |prefix| == 5 && start + 5 <= |input| && input[start..start + 5] == prefix
  }

  ghost function Carrying(prefix: seq<U16>, input: Text, n: nat): set<nat> {
    set i: nat | i < n && CarriesFive(prefix, input, i)
  }

  method ScanAssertionPrefix(prefix: seq<U16>, input: Text, lo: nat, hi: nat, candidates: CandidateBitmap)
    requires lo <= hi <= candidates.bitLen && candidates.Valid()
    modifies candidates`startCount, candidates.words
    ensures candidates.Valid() && candidates.words == old(candidates.words)
    ensures forall i: nat :: i in Members(candidates.words[..]) <==>
                             i in old(Members(candidates.words[..]))
                             || (lo <= i < hi && CarriesFive(prefix, input, i))
  {
    hide CarriesFive, Members;
    for start := lo to hi
      invariant candidates.Valid() && candidates.words == old(candidates.words)
      invariant forall i: nat :: i in Members(candidates.words[..]) <==>
                                 i in old(Members(candidates.words[..]))
                                 || (lo <= i < start && CarriesFive(prefix, input, i))
    {
      if CarriesFive(prefix, input, start) {
        candidates.Insert(start);
      }
    }
  }

  datatype PrefixDecision = Disabled | LiteralDisabled | InputSize | DenseSample | Activated

  /** Why the prefix is not used, in the order the source checks. */
  ghost function Decision(prefix: seq<U16>, input: Text, enabled: bool, literalEnabled: bool): PrefixDecision {
    var sample := if |input| < DENSITY_SAMPLE_UNITS then |input| else DENSITY_SAMPLE_UNITS;
    if !enabled then PrefixDecision.Disabled
    else if !literalEnabled then PrefixDecision.LiteralDisabled
    else if |input| < MIN_LITERAL_INPUT_UNITS then PrefixDecision.InputSize
    else if 2 * |Carrying(prefix, input, sample)| >= sample then PrefixDecision.DenseSample
    else Activated
  }

  /** `plan_assertion_prefix`: the starts carrying the prefix, or the reason for no plan. */
  method PlanAssertionPrefix(prefix: seq<U16>, input: Text, enabled: bool, literalEnabled: bool)
    returns (plan: Option<seq<bv64>>, decision: PrefixDecision)
    ensures decision == Decision(prefix, input, enabled, literalEnabled) && (plan.Some? <==> decision == Activated)
    ensures plan.Some? ==> Members(plan.value) == Carrying(prefix, input, |input|)
  {
    hide CarriesFive, Members;
    if !enabled {
      return None, PrefixDecision.Disabled;
    }
    if !literalEnabled {
      return None, PrefixDecision.LiteralDisabled;
    }
    if |input| < MIN_LITERAL_INPUT_UNITS {
      return None, PrefixDecision.InputSize;
    }
    var sampleLen := if |input| < DENSITY_SAMPLE_UNITS then |input| else DENSITY_SAMPLE_UNITS;
    var sample := new CandidateBitmap(sampleLen);
    ScanAssertionPrefix(prefix, input, 0, sampleLen, sample);
    assert Members(sample.words[..]) == Carrying(prefix, input, sampleLen);
    if sample.startCount * 2 >= sampleLen {
      return None, PrefixDecision.DenseSample;
    }
    var candidates := new CandidateBitmap(|input|);
    candidates.CopyPrefix(sample);
    ScanAssertionPrefix(prefix, input, sampleLen, |input|, candidates);
    assert Members(candidates.words[..]) == Carrying(prefix, input, |input|);
    plan, decision := Some(candidates.words[..]), Activated;
  }

  lemma AcceptedCarriesFive(h: Hir, prefix: seq<U16>, w: Text, start: nat, end: nat)
    requires StrictFive(h) == Some(prefix) && Accepts(h, w, start, end)
    ensures CarriesFive(prefix, w, start)
  {
    hide StrictFive, Exits;
    StrictFiveSound(h, w, At(start, start), At(start, end));
    StrictFiveShape(h);
    var text := w[start..end];
    assert prefix <= text && text[..5] == prefix;
    SliceOfSlice(w, start, end, 5);
  }

  /** A start without the common prefix has no event in the assertion-bearing view. */
  lemma PrefixlessIsSilent(job: Job, patterns: seq<HirPattern>, prefix: seq<U16>, start: nat)
    requires Serves(job, patterns, CohortRoots(patterns), 2) && job.Valid() && job.root == ASSERTION_BEARING_ROOT
    requires AllBegin(patterns, prefix) && !CarriesFive(prefix, job.text, start)
    ensures job.StartEvents(start) == []
  {
    PatternCountIs(job, patterns, CohortRoots(patterns), 2);
    hide PatternDatabase.Valid, Serves, Job.Hits, Accepts, Job.OrdinalEvents, StrictFive, UsesAssertions, CarriesFive;
    forall i: nat, end: nat | i < |job.db.patternIds| ensures !job.Hits(i, start, end) {
      var h := patterns[i].expression;
      HitsAreAccepts(job, patterns, CohortRoots(patterns), 2, i, start, end);
      if UsesAssertions(h) && Accepts(h, job.text, start, end) {
        AcceptedCarriesFive(h, prefix, job.text, start, end);
      }
    }
    NoHitsNoEvents(job, start, |job.db.patternIds|);
  }

  /** `scan_assertion_prefix_view_with_stats`: the shortcut reports what the full view reports. */
  method ScanPrefixView(job: Job, prefix: seq<U16>, enabled: bool, literalEnabled: bool,
                        ghost patterns: seq<HirPattern>)
    returns (events: seq<Event>, scanned: nat, skipped: nat)
    requires Serves(job, patterns, CohortRoots(patterns), 2) && job.Valid() && job.contextual
             && job.root == ASSERTION_BEARING_ROOT
    requires AllBegin(patterns, prefix)
    ensures events == job.Events(Range(|job.text|)) && scanned + skipped == |job.text|
    ensures scanned == if Decision(prefix, job.text, enabled, literalEnabled) == Activated
                       then |Carrying(prefix, job.text, |job.text|)| else |job.text|
  {
    hide PatternDatabase.Valid, Serves, Job.StartEvents, Members, Job.Events, AllBegin, CarriesFive;
    var plan, decision := PlanAssertionPrefix(prefix, job.text, enabled, literalEnabled);
    if plan.None? {
      events := ScanNfa(job, Range(|job.text|));
      scanned := |job.text|;
    } else {
      var starts := CandidateStarts(plan.value, |job.text|);
      events := ScanNfa(job, starts);
      forall s: nat | s < |job.text| && s !in starts ensures job.StartEvents(s) == [] {
        PrefixlessIsSilent(job, patterns, prefix, s);
      }
      SkippingSilentStarts(job, starts, |job.text|);
      AscendingAreFew(starts, |job.text|);
      scanned := |starts|;
    }
    skipped := |job.text| - scanned;
  }

  // ---- The matcher over both views -----------------------------------------------------

  datatype SharedCohortMatcher = SharedCohortMatcher(
    cohorts: SharedCohorts, freeBudget: nat, bearingBudget: nat,
    prefilterEnabled: bool, literalEnabled: bool, specialized: bool)

  function CohortCount(cohorts: SharedCohorts): nat {
    (if cohorts.free.patternCount > 0 then 1 else 0) + (if cohorts.bearing.patternCount > 0 then 1 else 0)
  }

  ghost predicate CohortMatcherFor(m: SharedCohortMatcher, patterns: seq<HirPattern>) {
    patterns != [] && CohortsFor(m.cohorts, patterns)
  }

  method BuildCohortMatcher(patterns: seq<HirPattern>, budget: nat, prefilterEnabled: bool, literalEnabled: bool,
                            specialized: bool)
    returns (r: Option<SharedCohortMatcher>)
    requires patterns != []
    ensures r.None? <==> PatternsTooLarge(patterns, CohortRoots(patterns), 2)
    ensures r.Some? ==>
              var m, cohorts := r.value, r.value.cohorts;
              && CohortMatcherFor(m, patterns)
              && m.prefilterEnabled == prefilterEnabled && m.literalEnabled == literalEnabled
              && m.specialized == specialized
              && m.bearingBudget == (if cohorts.bearing.patternCount == 0 then 0
                                     else if cohorts.free.patternCount == 0 then budget else budget / 2)
              && m.freeBudget + m.bearingBudget == budget
  {
    hide CohortsFor, PatternsTooLarge, Bearing;
    var compiled := CompileSharedCohorts(patterns);
    if compiled.None? {
      return None;
    }
    var cohorts := compiled.value;
    var count := CohortCount(cohorts);
    ViewCounts(cohorts, patterns);
    var freeBudget := if cohorts.free.patternCount == 0 then 0 else budget / count + budget % count;
    var bearingBudget := if cohorts.bearing.patternCount == 0 then 0 else budget / count;
    r := Some(SharedCohortMatcher(cohorts, freeBudget, bearingBudget, prefilterEnabled, literalEnabled, specialized));
  }

  lemma ViewCounts(cohorts: SharedCohorts, patterns: seq<HirPattern>)
    requires CohortsFor(cohorts, patterns) && patterns != []
    ensures CohortCount(cohorts) > 0 && cohorts.free.patternCount + cohorts.bearing.patternCount == |patterns|
    ensures cohorts.bearing.patternCount == Bearing(patterns)
  {
  }

  function FreeJob(cohorts: SharedCohorts, input: Text): Job {
    FullJob(cohorts.database, input)
  }

  function BearingJob(cohorts: SharedCohorts, input: Text): Job {
    Job(cohorts.database, cohorts.bearing.root, input, true)
  }

  lemma ViewsServe(cohorts: SharedCohorts, patterns: seq<HirPattern>, input: Text)
    requires CohortsFor(cohorts, patterns)
    ensures Serves(FreeJob(cohorts, input), patterns, CohortRoots(patterns), 2) && FreeJob(cohorts, input).Valid()
    ensures Serves(BearingJob(cohorts, input), patterns, CohortRoots(patterns), 2) && BearingJob(cohorts, input).Valid()
    ensures FreeJob(cohorts, input).root == 0 && BearingJob(cohorts, input).root == 1
    ensures FilterFor(DISABLED_PREFILTER, patterns, cohorts.database)
  {
    hide UsesAssertions;
    RootsBelowTwo(patterns);
    assert 2 <= |cohorts.database.states| by { TwoStates(patterns); }
  }

  lemma TwoStates(patterns: seq<HirPattern>)
    ensures Patterns(Expressions(patterns), CohortRoots(patterns), 2).next >= 2
  {
  }

  lemma ViewBags(cohorts: SharedCohorts, patterns: seq<HirPattern>, input: Text)
    requires CohortsFor(cohorts, patterns)
    ensures FreeJob(cohorts, input).Valid() && BearingJob(cohorts, input).Valid()
    ensures multiset(FreeJob(cohorts, input).Events(Range(|input|)))
            + multiset(BearingJob(cohorts, input).Events(Range(|input|)))
         == ScanBag(patterns, input, |input|)
    ensures cohorts.free.patternCount == 0 ==> multiset(FreeJob(cohorts, input).Events(Range(|input|))) == multiset{}
    ensures cohorts.bearing.patternCount == 0 ==>
              multiset(BearingJob(cohorts, input).Events(Range(|input|))) == multiset{}
  {
    ViewsServe(cohorts, patterns, input);
    ViewPatternCounts(cohorts, patterns);
    hide CohortsFor, Serves, PatternDatabase.Valid, Job.Events, ScanBag, FreeJob, BearingJob, Bearing, Under;
    EventsBag(FreeJob(cohorts, input), patterns, CohortRoots(patterns), 2, |input|);
    EventsBag(BearingJob(cohorts, input), patterns, CohortRoots(patterns), 2, |input|);
    JobTexts(cohorts, input);
    ScanBagViews(patterns, input, |input|);
    EmptyView(patterns);
    EmptyScanBag(input, |input|);
  }

  lemma JobTexts(cohorts: SharedCohorts, input: Text)
    ensures FreeJob(cohorts, input).text == input && BearingJob(cohorts, input).text == input
  {
  }

  lemma ViewPatternCounts(cohorts: SharedCohorts, patterns: seq<HirPattern>)
    requires CohortsFor(cohorts, patterns)
    ensures cohorts.bearing.patternCount == Bearing(patterns)
            && cohorts.free.patternCount + Bearing(patterns) == |patterns|
    ensures cohorts.bearing.AssertionAsciiFive().Some? ==>
              AllBegin(patterns, cohorts.bearing.AssertionAsciiFive().value)
  {
  }

  method ScanFreeView(m: SharedCohortMatcher, input: Text, ghost patterns: seq<HirPattern>) returns (events: seq<Event>)
    requires CohortsFor(m.cohorts, patterns)
    ensures FreeJob(m.cohorts, input).Valid()
    ensures multiset(events) == multiset(FreeJob(m.cohorts, input).Events(Range(|input|)))
  {
    ViewsServe(m.cohorts, patterns, input);
    ViewBags(m.cohorts, patterns, input);
    hide CohortsFor, Serves, PatternDatabase.Valid, Job.Events, FilterFor, ScanBag;
    events := [];
    if m.cohorts.free.patternCount != 0 {
      var scanned, skipped;
      events, scanned, skipped :=
        ScanWithStats(m.cohorts.database, DISABLED_PREFILTER, input, m.freeBudget, m.prefilterEnabled, m.literalEnabled,
                      patterns, CohortRoots(patterns), 2);
    }
  }

  method ScanBearingView(m: SharedCohortMatcher, input: Text, ghost patterns: seq<HirPattern>)
    returns (events: seq<Event>)
    requires CohortsFor(m.cohorts, patterns)
    ensures BearingJob(m.cohorts, input).Valid()
    ensures multiset(events) == multiset(BearingJob(m.cohorts, input).Events(Range(|input|)))
  {
    ViewsServe(m.cohorts, patterns, input);
    ViewBags(m.cohorts, patterns, input);
    ViewPatternCounts(m.cohorts, patterns);
    hide CohortsFor, Serves, PatternDatabase.Valid, Job.Events, AllBegin, FilterFor, ScanBag,
      DatabaseView.AssertionAsciiFive;
    events := [];
    if m.cohorts.bearing.patternCount != 0 {
      var job := BearingJob(m.cohorts, input);
      var five := m.cohorts.bearing.AssertionAsciiFive();
      if m.specialized && five.Some? {
        var scanned, skipped;
        events, scanned, skipped := ScanPrefixView(job, five.value, m.prefilterEnabled, m.literalEnabled, patterns);
      } else {
        events := ScanNfa(job, Range(|input|));
      }
    }
  }

  /** `scan_buffered`: both views, whatever the budgets, switches and specialisation. */
  method ScanBuffered(m: SharedCohortMatcher, input: Text, ghost patterns: seq<HirPattern>) returns (events: seq<Event>)
    requires CohortMatcherFor(m, patterns)
    ensures multiset(events) == ScanBag(patterns, input, |input|)
    ensures AllExact(patterns) ==>
              forall e :: multiset(events)[e] == if e.start < |input| then Owed(patterns, input, e) else 0
  {
    ViewBags(m.cohorts, patterns, input);
    hide CohortsFor, Job.Events, ScanBag, AllExact, Owed, FreeJob, BearingJob, Job.Valid;
    var free := ScanFreeView(m, input, patterns);
    var bearing := ScanBearingView(m, input, patterns);
    events := free + bearing;
    if AllExact(patterns) {
      forall e ensures multiset(events)[e] == if e.start < |input| then Owed(patterns, input, e) else 0 {
        ScanBagIsContract(patterns, input, |input|, e);
      }
    }
  }
}
