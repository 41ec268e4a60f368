/**
 Choosing which starts to scan, and scanning them (rustmatch/src/prefilter.rs:118-159,
 245-303; rustmatch/src/engine.rs:24-115, 203-218): whatever the plan, the events are those
 of the full scan, in the same order.
 */
module Engine {
  import opened Base
  import opened Database
  import opened ScanSpec
  import opened PatternEvents
  import opened Sorting
  import opened Scanner
  import opened Cache
  import opened Bits
  import opened Bitmap
  import opened LiteralFilter
  import opened StartTable

  const MIN_LITERAL_PATTERN_COUNT: nat := 256
  const MIN_LITERAL_INPUT_UNITS: nat := 1024 * 1024
  const DENSITY_SAMPLE_UNITS: nat := 64 * 1024

  datatype Bypass =
    Disabled | LiteralDisabled | Assertions | PatternCount | InputSize | Unfilterable | DenseSample | NoBypass

  datatype Prefilter = Prefilter(startTable: Option<StartTable>, literal: Option<LiteralPrefilter>, unavailable: Bypass)

  const DISABLED_PREFILTER := Prefilter(None, None, Disabled)

  /** Both filters were compiled from this database and these patterns. */
  ghost predicate FilterFor(filter: Prefilter, patterns: seq<HirPattern>, db: PatternDatabase) {
    && db.Valid()
    && (filter.startTable.Some? ==> Right(filter.startTable.value, Job(db, db.root, [], false)))
    && (filter.literal.Some? ==> HintsFrom(patterns).Some? && Built(filter.literal.value, HintsFrom(patterns).value))
    && (db.usesAssertions ==> filter.startTable.None? && filter.literal.None?)
  }

  method CompilePrefilter(patterns: seq<HirPattern>, db: PatternDatabase) returns (filter: Prefilter)
    requires db.Valid()
    ensures FilterFor(filter, patterns, db)
    ensures filter.startTable.Some? <==> !db.usesAssertions
    ensures filter.literal.Some? <==> filter.unavailable == NoBypass
    ensures filter.unavailable == if db.usesAssertions then Assertions
                                  else if |patterns| < MIN_LITERAL_PATTERN_COUNT then PatternCount
                                  else if HintsFrom(patterns).None? then Unfilterable
                                  else NoBypass
  {
    hide PatternDatabase.Valid, Right, Built, HintsFrom, FromPattern;
    if db.usesAssertions {
      return Prefilter(None, None, Assertions);
    }
    ghost var job;
    var table;
    table, job := CompileTable(db);
    if |patterns| < MIN_LITERAL_PATTERN_COUNT {
      filter := Prefilter(table, None, PatternCount);
    } else {
      var hints := HintsFrom(patterns);
      if hints.Some? {
        HintsLongEnough(patterns);
        var literal := LiteralFilter.Compile(hints.value);
        filter := Prefilter(table, Some(literal), NoBypass);
      } else {
        filter := Prefilter(table, None, Unfilterable);
      }
    }
  }

  // ---- Plans ---------------------------------------------------------------------------

  datatype ScanPlan = AllStarts(bypass: Bypass) | ByTable(table: StartTable,
                                                          bypass: Bypass) | Candidates(words: seq<bv64>, count: nat)

  function StartOrAll(filter: Prefilter, bypass: Bypass): ScanPlan {
    if filter.startTable.Some? then ByTable(filter.startTable.value, bypass) else AllStarts(bypass)
  }

  ghost function Admitted(f: LiteralPrefilter, input: Text, n: nat): set<nat>
    requires f.Valid()
  {
    set i: nat | i < n && f.Admits(input, i)
  }

  /** At least half of the first 64 Ki starts are admitted. */
  ghost predicate Dense(f: LiteralPrefilter, input: Text)
    requires f.Valid()
  {
    var sample := if |input| < DENSITY_SAMPLE_UNITS then |input| else DENSITY_SAMPLE_UNITS;
    2 * |Admitted(f, input, sample)| >= sample
  }

  /** Why the literal filter is not used, in the order the source checks. */
  ghost function Refusal(filter: Prefilter, input: Text, enabled: bool, literalEnabled: bool): Option<Bypass>
    requires filter.literal.Some? ==> filter.literal.value.Valid()
  {
    if !enabled then Some(Disabled)
    else if !literalEnabled then Some(LiteralDisabled)
    else if filter.literal.None? then Some(filter.unavailable)
    else if |input| < MIN_LITERAL_INPUT_UNITS then Some(InputSize)
    else if Dense(filter.literal.value, input) then Some(DenseSample)
    else None
  }

  /** Sample plus remainder is exactly the set of admitted starts. */
  method Plan(filter: Prefilter, input: Text, enabled: bool, literalEnabled: bool) returns (plan: ScanPlan)
    requires filter.literal.Some? ==> filter.literal.value.Valid()
    ensures match Refusal(filter, input, enabled, literalEnabled)
            case Some(bypass) => plan == if !enabled then AllStarts(bypass) else StartOrAll(filter, bypass)
            case None =>
              && plan.Candidates? && filter.literal.Some?
              && Members(plan.words) == Admitted(filter.literal.value, input, |input|)
              && plan.count == |Members(plan.words)| && |plan.words| == (|input| + 63) / 64
  {
    hide LiteralPrefilter.Admits, Members, StartOrAll;
    if !enabled {
      return AllStarts(Disabled);
    }
    if !literalEnabled {
      return StartOrAll(filter, LiteralDisabled);
    }
    if filter.literal.None? {
      return StartOrAll(filter, filter.unavailable);
    }
    if |input| < MIN_LITERAL_INPUT_UNITS {
      return StartOrAll(filter, InputSize);
    }
    var f := filter.literal.value;
    var sampleLen := if |input| < DENSITY_SAMPLE_UNITS then |input| else DENSITY_SAMPLE_UNITS;
    var sample := new CandidateBitmap(sampleLen);
    ScanStarts(f, input, 0, sampleLen, sample);
    assert Members(sample.words[..]) == Admitted(f, input, sampleLen);
    if sample.startCount * 2 >= sampleLen {
      return StartOrAll(filter, DenseSample);
    }
    var candidates := new CandidateBitmap(|input|);
    candidates.CopyPrefix(sample);
    ScanStarts(f, input, sampleLen, |input|, candidates);
    assert Members(candidates.words[..]) == Admitted(f, input, |input|);
    plan := Candidates(candidates.words[..], candidates.startCount);
  }

  // ---- Skipping silent starts ----------------------------------------------------------

  /** Leaving out starts that have no event leaves the event sequence unchanged. */
  lemma {:induction false} SkippingSilentStarts(job: Job, starts: seq<nat>, n: nat)
    requires job.Valid() && Ascending(starts) && AllBelow(starts, n)
    requires forall s: nat :: s < n && s !in starts ==> job.StartEvents(s) == []
    ensures job.Events(starts) == job.Events(Range(n))
  {
    hide PatternDatabase.Valid, Job.StartEvents, Job.Events;
    if n == 0 {
      assert starts == [] by { DistinctBound(starts, 0); }
      assert Range(0) == [];
    } else {
      assert Range(n)[..n - 1] == Range(n - 1);
      AscendingSplits(starts, n);
      var kept := if n - 1 in starts then starts[..|starts| - 1] else starts;
      forall s: nat | s < n - 1 && s !in kept ensures job.StartEvents(s) == [] {
        assert s !in starts;
      }
      SkippingSilentStarts(job, kept, n - 1);
      LastStart(job, Range(n));
      if n - 1 in starts {
        LastStart(job, starts);
      } else {
        assert job.StartEvents(n - 1) == [];
      }
    }
  }

  lemma LastStart(job: Job, starts: seq<nat>)
    requires job.Valid() && starts != []
    ensures job.Events(starts) == job.Events(starts[..|starts| - 1]) + job.StartEvents(starts[|starts| - 1])
  {
  }

  /** A start that carries no pattern's hint produces no event. */
  lemma HintlessIsSilent(job: Job, patterns: seq<HirPattern>, roots: seq<nat>, n: nat, start: nat)
    requires Serves(job, patterns, roots, n) && job.Valid()
    requires HintsFrom(patterns).Some? && NoHintAt(HintsFrom(patterns).value, job.text, start)
    ensures job.StartEvents(start) == []
  {
    PatternCountIs(job, patterns, roots, n);
    hide PatternDatabase.Valid, Serves, HintsFrom, Job.Hits, Accepts, Carries, Job.OrdinalEvents;
    forall i: nat, end: nat | i < |job.db.patternIds| ensures !job.Hits(i, start, end) {
      HitsAreAccepts(job, patterns, roots, n, i, start, end);
      if Accepts(patterns[i].expression, job.text, start, end) {
        MatchCarriesHint(patterns, i, job.text, start, end);
      }
    }
    NoHitsNoEvents(job, start, |job.db.patternIds|);
  }

  lemma UnadmittedIsSilent(job: Job, patterns: seq<HirPattern>, roots: seq<nat>, n: nat, f: LiteralPrefilter,
                           start: nat)
    requires Serves(job, patterns, roots, n) && job.Valid()
    requires HintsFrom(patterns).Some? && Built(f, HintsFrom(patterns).value) && !f.Admits(job.text, start)
    ensures job.StartEvents(start) == []
  {
    hide PatternDatabase.Valid, Serves, Built, HintsFrom, LiteralPrefilter.Admits, Job.StartEvents;
    HintsLongEnough(patterns);
    RejectedCarriesNone(f, HintsFrom(patterns).value, job.text, start);
    HintlessIsSilent(job, patterns, roots, n, start);
  }

  lemma PatternCountIs(job: Job, patterns: seq<HirPattern>, roots: seq<nat>, n: nat)
    requires Serves(job, patterns, roots, n)
    ensures |job.db.patternIds| == |patterns|
  {
  }

  // ---- One scan ------------------------------------------------------------------------

  ghost function Allowed(table: StartTable, input: Text): set<nat>
    requires table.Valid()
  {
    set s: nat | s < |input| && table.Allows(input, s)
  }

  ghost predicate FilterValid(filter: Prefilter) {
    && (filter.startTable.Some? ==> filter.startTable.value.Valid())
    && (filter.literal.Some? ==> filter.literal.value.Valid())
  }

  /** How many starts a scan visits: those of the one plan that applies. */
  ghost function StartsVisited(filter: Prefilter, usesAssertions: bool, input: Text, enabled: bool,
                               literalEnabled: bool): nat
    requires FilterValid(filter)
  {
    if usesAssertions then |input|
    else if Refusal(filter, input, enabled, literalEnabled).None? then |Admitted(filter.literal.value, input, |input|)|
    else if enabled && filter.startTable.Some? then |Allowed(filter.startTable.value, input)|
    else |input|
  }

  method TableStarts(table: StartTable, input: Text) returns (starts: seq<nat>)
    requires table.Valid()
    ensures Ascending(starts) && AllBelow(starts, |input|)
    ensures forall s: nat :: s in starts <==> s < |input| && table.Allows(input, s)
  {
    hide StartTable.Allows;
    starts := [];
    for start := 0 to |input|
      invariant Ascending(starts) && AllBelow(starts, start)
      invariant forall s: nat :: s in starts <==> s < start && table.Allows(input, s)
    {
      if table.Allows(input, start) {
        starts := starts + [start];
      }
    }
  }

  method CandidateStarts(words: seq<bv64>, ghost bound: nat) returns (starts: seq<nat>)
    requires forall i :: i in Members(words) ==> i < bound
    ensures Ascending(starts) && AllBelow(starts, bound) && |starts| == |Members(words)|
    ensures forall s: nat :: s in starts <==> s in Members(words)
  {
    hide HasBit;
    starts := Collect(words);
    HasBitBound(words);
    assert forall s: nat :: s in starts <==> s in Members(words);
    forall k | 0 <= k < |starts| ensures starts[k] < bound {
      assert starts[k] in starts;
    }
    AscendingCount(starts, Members(words));
  }

  lemma {:induction false} AscendingCount(starts: seq<nat>, members: set<nat>)
    requires Ascending(starts) && forall s: nat :: s in starts <==> s in members
    ensures |starts| == |members|
  {
    if starts == [] {
      assert members == {};
    } else {
      var last := |starts| - 1;
      var init := starts[..last];
      assert starts == init + [starts[last]];
      assert starts[last] in members;
      AscendingCount(init, members - {starts[last]});
    }
  }

  /** One full scan job of a database: contextual exactly when the database uses assertions. */
  function FullJob(db: PatternDatabase, input: Text): Job {
    Job(db, db.root, input, db.usesAssertions)
  }

  /**
   `scan_with_stats`: the plan, the cache budget and both switches change which starts are
   visited and what is cached, and never the events.
   */
  method ScanWithStats(db: PatternDatabase, filter: Prefilter, input: Text, budget: nat, enabled: bool,
                       literalEnabled: bool, ghost patterns: seq<HirPattern>, ghost roots: seq<nat>, ghost n: nat)
    returns (events: seq<Event>, scanned: nat, skipped: nat)
    requires FilterFor(filter, patterns, db) && Serves(FullJob(db, input), patterns, roots, n)
    ensures FullJob(db, input).Valid() && events == FullJob(db, input).Events(Range(|input|))
    ensures FilterValid(filter) && scanned + skipped == |input|
    ensures scanned == StartsVisited(filter, db.usesAssertions, input, enabled, literalEnabled)
  {
    var job := FullJob(db, input);
    ValidScan(job, filter, patterns);
    hide PatternDatabase.Valid, Serves, Job.StartEvents, HintsFrom, Built, Right, Members, LiteralPrefilter.Admits,
      StartTable.Allows, Job.Events;
    var plan := Plan(filter, input, enabled, literalEnabled);
    if db.usesAssertions {
      events := ScanNfa(job, Range(|input|));
      scanned := |input|;
    } else {
      match plan
      case AllStarts(_) =>
        events := ScanPlain(job, budget, Range(|input|));
        scanned := |input|;
      case ByTable(table, _) =>
        var starts := TableStarts(table, input);
        events := ScanPlain(job, budget, starts);
        forall s: nat | s < |input| && s !in starts ensures job.StartEvents(s) == [] {
          RejectedIsSilent(table, Job(db, db.root, [], false), input, s);
        }
        SkippingSilentStarts(job, starts, |input|);
        AscendingAreFew(starts, |input|);
        AscendingCount(starts, Allowed(table, input));
        scanned := |starts|;
      case Candidates(words, count) =>
        var starts := CandidateStarts(words, |input|);
        events := ScanPlain(job, budget, starts);
        forall s: nat | s < |input| && s !in starts ensures job.StartEvents(s) == [] {
          UnadmittedIsSilent(job, patterns, roots, n, filter.literal.value, s);
        }
        SkippingSilentStarts(job, starts, |input|);
        AscendingAreFew(starts, |input|);
        scanned := count;
    }
    skipped := |input| - scanned;
  }

  lemma AscendingAreFew(starts: seq<nat>, n: nat)
    requires Ascending(starts) && AllBelow(starts, n)
    ensures |starts| <= n
  {
    DistinctBound(starts, n);
  }

  lemma ValidScan(job: Job, filter: Prefilter, patterns: seq<HirPattern>)
    requires FilterFor(filter, patterns, job.db) && job.root == job.db.root
    ensures job.Valid() && Job(job.db, job.db.root, [], false).Valid()
    ensures FilterValid(filter)
  {
  }
}
