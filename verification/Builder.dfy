/**
 Registering patterns (rustmatch/src/api.rs:36-74, 91-94, 218-276) and the whole chain: from
 the sources handed to the builder, read as syntax trees, to the events a scan delivers.
 */
module Builder {
  import opened Base
  import opened HirSyntax
  import opened Meaning
  import opened PatternSyntax
  import opened PatternFault
  import opened PatternVerdict
  import opened PatternParser
  import opened Database
  import Fronts
  import opened ScanSpec
  import opened PatternEvents
  import opened Contract
  import opened MatcherApi

  const DEFAULT_STATE_CACHE_BUDGET: nat := 8192

  /** What the caller has registered: an identifier and the tree that was written. */
  datatype Registered = Registered(id: nat, mode: Mode, tree: Pattern)

  datatype Registration = Added | DuplicatePatternId | Refused(error: ParseError)

  ghost predicate DistinctIds(patterns: seq<HirPattern>) {
    forall j, k :: 0 <= j < k < |patterns| ==> patterns[j].id != patterns[k].id
  }

  /** Every pattern is what the parser made of the tree registered under its identifier. */
  ghost predicate Registry(registered: seq<Registered>, patterns: seq<HirPattern>) {
    && |registered| == |patterns| && DistinctIds(patterns)
    && forall k :: 0 <= k < |patterns| ==> Stands(registered[k], patterns[k])
  }

  ghost predicate AreIds(ids: set<nat>, patterns: seq<HirPattern>) {
    forall id :: id in ids <==> exists k :: 0 <= k < |patterns| && patterns[k].id == id
  }

  ghost predicate Stands(r: Registered, p: HirPattern) {
    r.id == p.id && Regular(p.expression) && MeansPattern(r.mode, p.expression, r.tree)
  }

  class MatcherBuilder {
    /** The Java lower and upper mappings of a unit. */
    const fold: U16 -> (U16, U16)
    var patternIds: set<nat>
    var patterns: seq<HirPattern>
    var stateCacheBudget: nat
    var workerCount: nat
    var prefilterEnabled: bool
    var literalPrefilterEnabled: bool
    ghost var registered: seq<Registered>

    ghost predicate Valid()
      reads this
    {
      Registry(registered, patterns) && AreIds(patternIds, patterns)
    }

    constructor (fold: U16 -> (U16, U16))
      ensures Valid() && this.fold == fold && registered == [] && patterns == []
      ensures stateCacheBudget == DEFAULT_STATE_CACHE_BUDGET && workerCount == 1 && prefilterEnabled
              && literalPrefilterEnabled
    {
      this.fold := fold;
      patternIds, patterns, registered := {}, [], [];
      stateCacheBudget, workerCount := DEFAULT_STATE_CACHE_BUDGET, 1;
      prefilterEnabled, literalPrefilterEnabled := true, true;
    }

    method StateCacheBudget(budget: nat)
      requires Valid()
      modifies this`stateCacheBudget
      ensures Valid() && stateCacheBudget == budget
    {
      stateCacheBudget := budget;
    }

    method WorkerCount(count: nat)
      requires Valid()
      modifies this`workerCount
      ensures Valid() && workerCount == count
    {
      workerCount := count;
    }

    /** What is registered under a new identifier is the tree that the source is the writing of. */
    method AddWithFlags(id: nat, source: Text, caseInsensitive: bool) returns (r: Registration)
      requires Valid()
      modifies this`patternIds, this`patterns, this`registered
      ensures Valid()
      ensures r.DuplicatePatternId? <==> exists k :: 0 <= k < |old(patterns)| && old(patterns)[k].id == id
      ensures !r.Added? ==> patternIds == old(patternIds) && patterns == old(patterns) && registered == old(registered)
      ensures r.Added? ==>
                && patternIds == old(patternIds) + {id}
                && |patterns| == |old(patterns)| + 1 && patterns[..|old(patterns)|] == old(patterns)
                && |registered| == |old(registered)| + 1 && registered[..|old(registered)|] == old(registered)
                && var last := registered[|old(registered)|];
                && last.id == id && last.mode == Mode(caseInsensitive, fold) && Writes(last.mode, last.tree, source)
      ensures !r.DuplicatePatternId? ==> Deserved(r, Mode(caseInsensitive, fold), source)
    {
      hide Regular, Writes, MeansPattern, FitsPattern, OnlyEmpty, Registry, IsBroken, SourceError, PatternWeightless;
      if id in patternIds {
        return DuplicatePatternId;
      }
      ghost var mode := Mode(caseInsensitive, fold);
      var parsed := ParseWithFlags(source, caseInsensitive, fold);
      if parsed.Rejected? {
        return Refused(parsed.error);
      }
      ghost var tree :| Writes(mode, tree, source);
      assert Judges(parsed, mode, tree, source);
      var pattern := HirPattern(id, parsed.value);
      OneMoreRegistered(patternIds, registered, patterns, Registered(id, mode, tree), pattern);
      patternIds := patternIds + {id};
      patterns := patterns + [pattern];
      registered := registered + [Registered(id, mode, tree)];
      r := Added;
    }

    method Add(id: nat, source: Text) returns (r: Registration)
      requires Valid()
      modifies this`patternIds, this`patterns, this`registered
      ensures Valid()
      ensures r.DuplicatePatternId? <==> exists k :: 0 <= k < |old(patterns)| && old(patterns)[k].id == id
      ensures !r.Added? ==> patternIds == old(patternIds) && patterns == old(patterns) && registered == old(registered)
      ensures r.Added? ==>
                && patternIds == old(patternIds) + {id}
                && |patterns| == |old(patterns)| + 1 && patterns[..|old(patterns)|] == old(patterns)
                && |registered| == |old(registered)| + 1 && registered[..|old(registered)|] == old(registered)
                && var last := registered[|old(registered)|];
                && last.id == id && last.mode == Mode(false, fold) && Writes(last.mode, last.tree, source)
      ensures !r.DuplicatePatternId? ==> Deserved(r, Mode(false, fold), source)
    {
      hide Writes, Deserved;
      r := AddWithFlags(id, source, false);
    }

    method Build() returns (r: BuildResult)
      requires Valid()
      ensures if patterns == [] then r == Failed(NoPatterns)
              else if workerCount == 0 then r == Failed(InvalidWorkerCount)
              else if SomeSliceTooLarge(patterns, if workerCount < |patterns| then workerCount else |patterns|)
              then r == Failed(PatternSetTooLarge)
              else
                && r.Success? && MatcherFor(r.matcher, patterns, stateCacheBudget)
                && r.matcher.prefilterEnabled == prefilterEnabled && r.matcher.literalEnabled == literalPrefilterEnabled
    {
      hide MatcherFor, SomeSliceTooLarge;
      r := MatcherApi.Build(patterns, workerCount, stateCacheBudget, prefilterEnabled, literalPrefilterEnabled);
    }
  }

  /** What a source deserves whose identifier is new: its tree decides, or what is broken in it. */
  ghost predicate Deserved(r: Registration, mode: Mode, source: Text) {
    if source == [] then r == Refused(EmptyPattern)
    else
      && (r.Added? ==> WellFormedSource(mode, source))
      && (forall p :: Writes(mode, p, source) ==>
                        r == if !FitsPattern(p) then Refused(NestingTooDeep)
                        else if PatternWeightless(mode, p) then Refused(InvalidPattern(0, |source|))
                        else Added)
      && (forall flags, b :: IsBroken(mode, source, flags, b) ==> r == Refused(SourceError(source, flags, b)))
  }

  lemma OneMoreRegistered(ids: set<nat>, registered: seq<Registered>, patterns: seq<HirPattern>, r: Registered,
                          p: HirPattern)
    requires Registry(registered, patterns) && Stands(r, p) && AreIds(ids, patterns) && p.id !in ids
    ensures Registry(registered + [r], patterns + [p]) && AreIds(ids + {p.id}, patterns + [p])
  {
    hide Stands;
    var longer := patterns + [p];
    forall id ensures id in ids + {p.id} <==> exists k :: 0 <= k < |longer| && longer[k].id == id {
      assert longer[|patterns|] == p;
      if id in ids {
        var k :| 0 <= k < |patterns| && patterns[k].id == id;
        assert longer[k].id == id;
      }
    }
  }

  // ---- Events by identifier --------------------------------------------------------------

  /** What a pattern list with at most one pattern of an identifier reports under it. */
  ghost function Reported(patterns: seq<HirPattern>, w: Text, start: nat, e: Event): nat {
    if patterns == [] then 0
    else if patterns[|patterns| - 1].id == e.id then multiset(PatternStart(patterns[|patterns| - 1], w, start))[e]
    else Reported(patterns[..|patterns| - 1], w, start, e)
  }

  lemma {:induction false} ReportedBy(patterns: seq<HirPattern>, k: nat, w: Text, start: nat, e: Event)
    requires DistinctIds(patterns) && k < |patterns| && patterns[k].id == e.id
    ensures Reported(patterns, w, start, e) == multiset(PatternStart(patterns[k], w, start))[e]
    decreases |patterns|
  {
    hide PatternStart;
    if k < |patterns| - 1 {
      ReportedBy(patterns[..|patterns| - 1], k, w, start, e);
    }
  }

  lemma {:induction false} ReportedByNone(patterns: seq<HirPattern>, w: Text, start: nat, e: Event)
    requires forall k :: 0 <= k < |patterns| ==> patterns[k].id != e.id
    ensures Reported(patterns, w, start, e) == 0 && StartBag(patterns, w, start)[e] == 0
  {
    hide LongestMatch;
    if patterns != [] {
      ReportedByNone(patterns[..|patterns| - 1], w, start, e);
    }
  }

  lemma {:induction false} StartBagOf(patterns: seq<HirPattern>, w: Text, start: nat, e: Event)
    requires DistinctIds(patterns)
    ensures StartBag(patterns, w, start)[e] == Reported(patterns, w, start, e)
  {
    if patterns != [] {
      var last := |patterns| - 1;
      if patterns[last].id == e.id {
        ReportedByNone(patterns[..last], w, start, e);
      } else {
        StartBagOf(patterns[..last], w, start, e);
        OtherId(patterns[last], w, start, e);
      }
    }
  }

  lemma OtherId(p: HirPattern, w: Text, start: nat, e: Event)
    ensures p.id != e.id || e.start != start ==> multiset(PatternStart(p, w, start))[e] == 0
    ensures multiset(PatternStart(p, w, start))[e] <= 1
  {
    hide LongestMatch;
  }

  lemma {:induction false} OtherStart(patterns: seq<HirPattern>, w: Text, start: nat, e: Event)
    requires e.start != start
    ensures Reported(patterns, w, start, e) == 0
  {
    hide PatternStart;
    if patterns != [] {
      OtherId(patterns[|patterns| - 1], w, start, e);
      OtherStart(patterns[..|patterns| - 1], w, start, e);
    }
  }

  /** An event is decided by the one pattern that has its identifier, whatever the others are. */
  lemma {:induction false} ScanBagOf(patterns: seq<HirPattern>, w: Text, n: nat, e: Event)
    requires DistinctIds(patterns)
    ensures ScanBag(patterns, w, n)[e] == if e.start < n then Reported(patterns, w, e.start, e) else 0
  {
    hide StartBag, Reported, DistinctIds;
    if n > 0 {
      ScanBagOf(patterns, w, n - 1, e);
      StartBagOf(patterns, w, n - 1, e);
      if e.start != n - 1 {
        OtherStart(patterns, w, n - 1, e);
      }
    }
  }

  // ---- From trees to events --------------------------------------------------------------

  /** The tree has a consuming match from `start` to `end`. */
  ghost predicate TreeMatches(r: Registered, w: Text, start: nat, end: nat) {
    end > start && DenotesPattern(r.mode, r.tree, w, Fronts.At(start, start), Fronts.At(start, end))
  }

  /** The longest one, inside the text. */
  ghost predicate TreeLongest(r: Registered, w: Text, start: nat, end: nat) {
    end <= |w| && TreeMatches(r, w, start, end)
    && forall later :: end < later <= |w| ==> !TreeMatches(r, w, start, later)
  }

  lemma TreeIsExpression(r: Registered, p: HirPattern, w: Text, start: nat, end: nat)
    requires Stands(r, p)
    ensures TreeMatches(r, w, start, end) <==> MatchesFrom(p.expression, w, start, end)
  {
    hide Matches, DenotesPattern, Regular;
  }

  lemma TreeLongestIs(r: Registered, p: HirPattern, w: Text, start: nat, end: nat)
    requires Stands(r, p)
    ensures TreeLongest(r, w, start, end) <==> LongestEnd(p.expression, w, start, end)
  {
    hide TreeMatches, MatchesFrom, Stands;
    TreeIsExpression(r, p, w, start, end);
    forall later ensures TreeMatches(r, w, start, later) <==> MatchesFrom(p.expression, w, start, later) {
      TreeIsExpression(r, p, w, start, later);
    }
  }

  /** The tree decides the shape of its expression. */
  lemma ShapelyIsWellShaped(r: Registered, p: HirPattern)
    requires Stands(r, p)
    ensures WellShaped(p.expression) <==> PatternShapely(r.tree)
  {
    hide BranchesShapely, WellShaped, Matches, DenotesPattern, Regular;
  }

  /**
   A registered tree in which no choice and nothing optional can begin with an unbounded loop
   has exactly one event for every start with a consuming match: the longest.  What else is
   registered does not matter.
   */
  lemma ExactlyTheLongest(registered: seq<Registered>, patterns: seq<HirPattern>, k: nat, w: Text, start: nat, end: nat)
    requires Registry(registered, patterns) && k < |patterns| && PatternShapely(registered[k].tree)
    ensures ScanBag(patterns, w, |w|)[Event(registered[k].id, start, end)]
         == if start < |w| && TreeLongest(registered[k], w, start, end) then 1 else 0
  {
    hide ScanBag, WellShaped, PatternShapely, MeansPattern, TreeLongest, LongestEnd, Regular, PatternStart;
    var e := Event(registered[k].id, start, end);
    assert Stands(registered[k], patterns[k]);
    ShapelyIsWellShaped(registered[k], patterns[k]);
    RegularIsExact(patterns[k].expression);
    ScanBagOf(patterns, w, |w|, e);
    ReportedBy(patterns, k, w, start, e);
    PatternStartOwed(patterns[k], w, start, e);
    TreeLongestIs(registered[k], patterns[k], w, start, end);
  }

  /** Whatever its shape, no registered tree that has a match from a start goes unreported there. */
  lemma NoTreeUnreported(registered: seq<Registered>, patterns: seq<HirPattern>, k: nat, w: Text, start: nat, end: nat)
    requires Registry(registered, patterns) && k < |patterns| && TreeMatches(registered[k], w, start, end) && end <= |w|
    ensures exists last :: end <= last <= |w| && ScanBag(patterns, w, |w|)[Event(registered[k].id, start, last)] == 1
  {
    hide ScanBag, MeansPattern, DenotesPattern, Regular, PatternStart, Matches, NoEmptySequence;
    assert Stands(registered[k], patterns[k]);
    RegularIsExact(patterns[k].expression);
    TreeIsExpression(registered[k], patterns[k], w, start, end);
    NothingUnreported(patterns[k], w, start, end);
    var last :| end <= last <= |w| && PatternStart(patterns[k], w, start) == [Event(patterns[k].id, start, last)];
    ScanBagOf(patterns, w, |w|, Event(patterns[k].id, start, last));
    ReportedBy(patterns, k, w, start, Event(patterns[k].id, start, last));
  }

  /** No event comes twice, and none under an identifier that is not registered. */
  lemma OnlyRegistered(patterns: seq<HirPattern>, w: Text, e: Event)
    requires DistinctIds(patterns)
    ensures ScanBag(patterns, w, |w|)[e] <= if exists k :: 0 <= k < |patterns| && patterns[k].id == e.id then 1 else 0
  {
    hide ScanBag, PatternStart;
    ScanBagOf(patterns, w, |w|, e);
    if k :| 0 <= k < |patterns| && patterns[k].id == e.id {
      ReportedBy(patterns, k, w, e.start, e);
      OtherId(patterns[k], w, e.start, e);
    } else {
      ReportedByNone(patterns, w, e.start, e);
    }
  }

  /** An event of the identifier ends at `end` or later. */
  ghost predicate HasLater(events: seq<Event>, id: nat, start: nat, end: nat) {
    exists last: nat :: end <= last && Event(id, start, last) in events
  }

  /**
   The whole chain.  The matcher was built from what is registered; whatever the workers, the
   budget, the switches and the processor, a scan delivers the longest consuming match of
   every tree at every start, exactly once, and nothing more under the identifier of a
   shapely tree.
   */
  method Deliver(m: Matcher, input: Text, avx2: bool, fault: Option<nat>, ghost registered: seq<Registered>,
                 ghost patterns: seq<HirPattern>, ghost budget: nat)
    returns (delivered: Option<seq<Event>>)
    requires MatcherFor(m, patterns, budget) && Registry(registered, patterns)
    ensures delivered.None? ==> fault.Some? && |m.partitions| > 1
    ensures delivered.Some? ==> forall e :: multiset(delivered.value)[e] <= 1
    ensures delivered.Some? ==>
              forall e :: e in delivered.value ==>
                            exists k :: 0 <= k < |registered| && registered[k].id == e.id
    ensures delivered.Some? ==>
              forall k, start: nat, end: nat ::
                0 <= k < |registered| && PatternShapely(registered[k].tree) ==>
                  (Event(registered[k].id, start, end) in delivered.value <==>
                   start < |input| && TreeLongest(registered[k], input, start, end))
    ensures delivered.Some? ==>
              forall k, start: nat, end: nat ::
                0 <= k < |registered| && end <= |input| && TreeMatches(registered[k], input, start, end) ==>
                  HasLater(delivered.value, registered[k].id, start, end)
  {
    hide MatcherFor, AllExact, Owed, ScanBag, TreeLongest, TreeMatches, PatternShapely, Stands;
    delivered := Scan(m, input, avx2, fault, patterns, budget);
    if delivered.Some? {
      DeliveredIsWritten(registered, patterns, input, delivered.value);
    }
  }

  lemma DeliveredIsWritten(registered: seq<Registered>, patterns: seq<HirPattern>, w: Text, events: seq<Event>)
    requires Registry(registered, patterns) && multiset(events) == ScanBag(patterns, w, |w|)
    ensures forall e :: multiset(events)[e] <= 1
    ensures forall e :: e in events ==> exists k :: 0 <= k < |registered| && registered[k].id == e.id
    ensures forall k, start: nat, end: nat ::
              0 <= k < |registered| && PatternShapely(registered[k].tree) ==>
                (Event(registered[k].id, start, end) in events <==>
                 start < |w| && TreeLongest(registered[k], w, start, end))
    ensures forall k, start: nat, end: nat ::
              0 <= k < |registered| && end <= |w| && TreeMatches(registered[k], w, start, end) ==>
                HasLater(events, registered[k].id, start, end)
  {
    hide ScanBag, TreeLongest, TreeMatches, PatternShapely, MeansPattern, Regular, PatternStart;
    forall e ensures multiset(events)[e] <= 1 {
      OnlyRegistered(patterns, w, e);
    }
    forall e | e in events ensures exists k :: 0 <= k < |registered| && registered[k].id == e.id {
      OnlyRegistered(patterns, w, e);
      assert multiset(events)[e] > 0;
      var k :| 0 <= k < |patterns| && patterns[k].id == e.id;
      assert Stands(registered[k], patterns[k]);
    }
    forall k, start: nat, end: nat | 0 <= k < |registered| && PatternShapely(registered[k].tree)
      ensures Event(registered[k].id, start, end) in events <==>
              start < |w| && TreeLongest(registered[k], w, start, end)
    {
      ExactlyTheLongest(registered, patterns, k, w, start, end);
      assert multiset(events)[Event(registered[k].id, start, end)] > 0 <==>
             Event(registered[k].id, start, end) in events;
    }
    forall k, start: nat, end: nat | 0 <= k < |registered| && end <= |w| && TreeMatches(registered[k], w, start, end)
      ensures HasLater(events, registered[k].id, start, end)
    {
      NoTreeUnreported(registered, patterns, k, w, start, end);
      var last :| end <= last <= |w| && ScanBag(patterns, w, |w|)[Event(registered[k].id, start, last)] == 1;
      assert multiset(events)[Event(registered[k].id, start, last)] > 0;
    }
  }
}
