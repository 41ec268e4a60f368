/**
 Building a matcher and scanning with it (rustmatch/src/api.rs:253-316, 691-722, 856-880,
 983-989): for every worker count, cache budget, switch and processor, the event multiset is
 that of the registered patterns.
 */
module MatcherApi {
  import opened Base
  import opened Database
  import opened ScanSpec
  import opened PatternEvents
  import opened Contract
  import opened Bits
  import opened LiteralFilter
  import opened StartTable
  import opened Engine
  import opened SharedCandidate

  datatype MatcherPartition = MatcherPartition(database: PatternDatabase, prefilter: Prefilter, budget: nat)

  datatype Matcher = Matcher(partitions: seq<MatcherPartition>, prefilterEnabled: bool, literalEnabled: bool)

  datatype BuildError = NoPatterns | InvalidWorkerCount | PatternSetTooLarge

  datatype BuildResult = Success(matcher: Matcher) | Failed(error: BuildError)

  // ---- Contiguous, balanced shares -----------------------------------------------------

  /** The size of share `k` when `total` things are dealt to `count` partitions. */
  function Share(total: nat, count: nat, k: nat): nat
    requires count > 0
  {
    total / count + if k < total % count then 1 else 0
  }

  /** `k` shares of `each`, the first `extra` of them one larger. */
  function Dealt(each: nat, extra: nat, k: nat): nat {
    if k == 0 then 0 else Dealt(each, extra, k - 1) + each + if k - 1 < extra then 1 else 0
  }

  function ShareStart(total: nat, count: nat, k: nat): nat
    requires count > 0
  {
    Dealt(total / count, total % count, k)
  }

  lemma NextShare(total: nat, count: nat, k: nat)
    requires count > 0
    ensures ShareStart(total, count, 0) == 0
    ensures ShareStart(total, count, k + 1) == ShareStart(total, count, k) + Share(total, count, k)
  {
  }

  lemma {:induction false} DealtIs(each: nat, extra: nat, k: nat)
    ensures Dealt(each, extra, k) == each * k + if k < extra then k else extra
  {
    if k > 0 {
      DealtIs(each, extra, k - 1);
      assert each * k == each * (k - 1) + each;
    }
  }

  /** The shares cover everything, and no two differ by more than one. */
  lemma SharesCover(total: nat, count: nat)
    requires count > 0
    ensures ShareStart(total, count, count) == total
    ensures forall j, k :: 0 <= j < k < count ==>
                             Share(total, count, k) <= Share(total, count, j) <= Share(total, count, k) + 1
  {
    DealtIs(total / count, total % count, count);
    assert total == (total / count) * count + total % count;
  }

  lemma {:induction false} ShareStartsAscend(total: nat, count: nat, k: nat)
    requires 0 < count && k <= count
    ensures ShareStart(total, count, k) <= total
    decreases count - k
  {
    if k == count {
      SharesCover(total, count);
    } else {
      NextShare(total, count, k);
      ShareStartsAscend(total, count, k + 1);
    }
  }

  ghost function Slice(patterns: seq<HirPattern>, count: nat, k: nat): seq<HirPattern>
    requires k < count
  {
    var start := ShareStart(|patterns|, count, k);
    var end := ShareStart(|patterns|, count, k + 1);
    if start <= end <= |patterns| then patterns[start..end] else []
  }

  lemma SliceBounds(patterns: seq<HirPattern>, count: nat, k: nat)
    requires k < count
    ensures var start, end := ShareStart(|patterns|, count, k), ShareStart(|patterns|, count, k + 1);
            && start <= end <= |patterns| && Slice(patterns, count, k) == patterns[start..end]
            && end == start + Share(|patterns|, count, k)
            && patterns[..end] == patterns[..start] + Slice(patterns, count, k)
  {
    ShareStartsAscend(|patterns|, count, k + 1);
    NextShare(|patterns|, count, k);
  }

  function SumBudgets(partitions: seq<MatcherPartition>): nat {
    if partitions == [] then 0
    else SumBudgets(partitions[..|partitions| - 1]) + partitions[|partitions| - 1].budget
  }

  // ---- Building ------------------------------------------------------------------------

  /** The partition is the compiled form of these patterns. */
  ghost predicate PartitionFor(p: MatcherPartition, patterns: seq<HirPattern>) {
    && Represents(p.database, patterns, Zeros(|patterns|), 1) && p.database.root == 0
    && (p.database.usesAssertions <==> AnyUsesAssertions(patterns))
    && FilterFor(p.prefilter, patterns, p.database)
  }

  ghost predicate PartitionsFor(partitions: seq<MatcherPartition>, patterns: seq<HirPattern>, count: nat, budget: nat) {
    && |partitions| <= count
    && forall k :: 0 <= k < |partitions| ==>
                     PartitionFor(partitions[k], Slice(patterns, count, k))
                     && partitions[k].budget == Share(budget, count, k)
  }

  ghost predicate SliceTooLarge(patterns: seq<HirPattern>, count: nat, k: nat)
    requires k < count
  {
    PatternsTooLarge(Slice(patterns, count, k), Zeros(|Slice(patterns, count, k)|), 1)
  }

  ghost predicate SomeSliceTooLarge(patterns: seq<HirPattern>, count: nat) {
    exists k :: 0 <= k < count && SliceTooLarge(patterns, count, k)
  }

  method CompilePartition(patterns: seq<HirPattern>, budget: nat) returns (p: Option<MatcherPartition>)
    ensures p.Some? ==> PartitionFor(p.value, patterns) && p.value.budget == budget
    ensures p.None? <==> PatternsTooLarge(patterns, Zeros(|patterns|), 1)
  {
    hide Represents, FilterFor, PatternsTooLarge, PatternDatabase.Valid;
    var db := Database.Compile(patterns);
    if db.None? {
      return None;
    }
    assert db.value.Valid() by { RepresentedIsValid(db.value, patterns, Zeros(|patterns|), 1); }
    var filter := CompilePrefilter(patterns, db.value);
    p := Some(MatcherPartition(db.value, filter, budget));
  }

  lemma RepresentedIsValid(db: PatternDatabase, patterns: seq<HirPattern>, roots: seq<nat>, n: nat)
    requires |roots| == |patterns| && Represents(db, patterns, roots, n)
    ensures db.Valid()
  {
  }

  method CompilePartitions(patterns: seq<HirPattern>, workers: nat, budget: nat)
    returns (r: Option<seq<MatcherPartition>>)
    requires patterns != [] && workers > 0
    ensures var count := if workers < |patterns| then workers else |patterns|;
            match r
            case Some(partitions) =>
              && |partitions| == count && PartitionsFor(partitions, patterns, count, budget)
              && !SomeSliceTooLarge(patterns, count)
            case None => SomeSliceTooLarge(patterns, count)
  {
    hide PartitionFor, PatternsTooLarge, ShareStart, Slice, PartitionsFor;
    var count := if workers < |patterns| then workers else |patterns|;
    var partitions: seq<MatcherPartition> := [];
    var start := 0;
    NextShare(|patterns|, count, 0);
    NoPartitions(patterns, count, budget);
    for k := 0 to count
      invariant |partitions| == k && start == ShareStart(|patterns|, count, k)
      invariant PartitionsFor(partitions, patterns, count, budget)
      invariant forall j :: 0 <= j < k ==> !SliceTooLarge(patterns, count, j)
    {
      var end := start + Share(|patterns|, count, k);
      SliceBounds(patterns, count, k);
      var partition := CompilePartition(patterns[start..end], Share(budget, count, k));
      if partition.None? {
        assert SliceTooLarge(patterns, count, k);
        return None;
      }
      OneMorePartition(partitions, patterns, count, budget, partition.value);
      partitions := partitions + [partition.value];
      start := end;
    }
    r := Some(partitions);
  }

  lemma NoPartitions(patterns: seq<HirPattern>, count: nat, budget: nat)
    requires count > 0
    ensures PartitionsFor([], patterns, count, budget)
  {
  }

  lemma OneMorePartition(partitions: seq<MatcherPartition>, patterns: seq<HirPattern>, count: nat, budget: nat,
                         p: MatcherPartition)
    requires |partitions| < count && PartitionsFor(partitions, patterns, count, budget)
    requires PartitionFor(p, Slice(patterns, count, |partitions|)) && p.budget == Share(budget, count, |partitions|)
    ensures PartitionsFor(partitions + [p], patterns, count, budget)
  {
    hide PartitionFor, Slice;
  }

  lemma {:induction false} BudgetsAdd(partitions: seq<MatcherPartition>, patterns: seq<HirPattern>, count: nat,
                                      budget: nat)
    requires count > 0 && PartitionsFor(partitions, patterns, count, budget)
    ensures SumBudgets(partitions) == ShareStart(budget, count, |partitions|)
  {
    hide PartitionFor, Slice, ShareStart;
    NextShare(budget, count, |partitions|);
    if partitions != [] {
      BudgetsAdd(partitions[..|partitions| - 1], patterns, count, budget);
      NextShare(budget, count, |partitions| - 1);
    }
  }

  /** No cache state is lost or invented by partitioning. */
  lemma BudgetsSumToTotal(partitions: seq<MatcherPartition>, patterns: seq<HirPattern>, budget: nat)
    requires |partitions| > 0 && PartitionsFor(partitions, patterns, |partitions|, budget)
    ensures SumBudgets(partitions) == budget
  {
    BudgetsAdd(partitions, patterns, |partitions|, budget);
    SharesCover(budget, |partitions|);
  }

  ghost predicate MatcherFor(m: Matcher, patterns: seq<HirPattern>, budget: nat) {
    0 < |m.partitions| && PartitionsFor(m.partitions, patterns, |m.partitions|, budget)
  }

  method Build(patterns: seq<HirPattern>, workers: nat, budget: nat, prefilterEnabled: bool, literalEnabled: bool)
    returns (r: BuildResult)
    ensures if patterns == [] then r == Failed(NoPatterns)
            else if workers == 0 then r == Failed(InvalidWorkerCount)
            else if SomeSliceTooLarge(patterns, if workers < |patterns| then workers else |patterns|)
            then r == Failed(PatternSetTooLarge)
            else r.Success? && MatcherFor(r.matcher, patterns, budget)
                 && |r.matcher.partitions| == (if workers < |patterns| then workers else |patterns|)
                 && r.matcher.prefilterEnabled == prefilterEnabled && r.matcher.literalEnabled == literalEnabled
  {
    hide PartitionsFor, SomeSliceTooLarge;
    if patterns == [] {
      return Failed(NoPatterns);
    }
    if workers == 0 {
      return Failed(InvalidWorkerCount);
    }
    var partitions := CompilePartitions(patterns, workers, budget);
    if partitions.None? {
      return Failed(PatternSetTooLarge);
    }
    r := Success(Matcher(partitions.value, prefilterEnabled, literalEnabled));
  }

  // ---- Scanning ------------------------------------------------------------------------

  lemma {:induction false} UnderZeros(patterns: seq<HirPattern>)
    ensures Under(patterns, Zeros(|patterns|), 0) == patterns
  {
    if patterns != [] {
      var last := |patterns| - 1;
      assert Zeros(|patterns|)[..last] == Zeros(last);
      UnderZeros(patterns[..last]);
    }
  }

  lemma PartitionServes(p: MatcherPartition, patterns: seq<HirPattern>, input: Text)
    requires PartitionFor(p, patterns)
    ensures Serves(FullJob(p.database, input), patterns, Zeros(|patterns|), 1) && FullJob(p.database, input).Valid()
  {
  }

  /** The events of one partition are those of its own patterns. */
  lemma PartitionBag(p: MatcherPartition, patterns: seq<HirPattern>, input: Text)
    requires PartitionFor(p, patterns)
    ensures FullJob(p.database, input).Valid()
    ensures multiset(FullJob(p.database, input).Events(Range(|input|))) == ScanBag(patterns, input, |input|)
  {
    PartitionServes(p, patterns, input);
    hide Serves, PartitionFor, Job.Events, ScanBag, PatternDatabase.Valid;
    var job := FullJob(p.database, input);
    EventsBag(job, patterns, Zeros(|patterns|), 1, |input|);
    assert job.root == 0 by { PartitionRoot(p, patterns); }
    UnderZeros(patterns);
  }

  lemma PartitionRoot(p: MatcherPartition, patterns: seq<HirPattern>)
    requires PartitionFor(p, patterns)
    ensures p.database.root == 0
  {
  }

  method ScanPartition(p: MatcherPartition, input: Text, enabled: bool, literalEnabled: bool,
                       shared: Option<seq<bv64>>, ghost patterns: seq<HirPattern>)
    returns (events: seq<Event>)
    requires PartitionFor(p, patterns)
    requires shared.Some? ==>
               p.prefilter.literal.Some? && HintsFrom(patterns).Some?
               && Covers(shared.value, HintsFrom(patterns).value, input)
    ensures multiset(events) == ScanBag(patterns, input, |input|)
  {
    PartitionServes(p, patterns, input);
    PartitionBag(p, patterns, input);
    assert FilterFor(p.prefilter, patterns, p.database);
    hide Serves, PartitionFor, Covers, FilterFor, HintsFrom, Job.Events, ScanBag, PatternDatabase.Valid;
    var scanned, skipped;
    match shared
    case Some(words) =>
      events, scanned, skipped :=
        ScanWithSharedCandidates(p.database, p.prefilter, input, p.budget, words, patterns, Zeros(|patterns|), 1);
    case None =>
      events, scanned, skipped :=
        ScanWithStats(p.database, p.prefilter, input, p.budget, enabled, literalEnabled, patterns, Zeros(|patterns|),
                      1);
  }

  function Prefilters(partitions: seq<MatcherPartition>): (r: seq<Prefilter>)
    ensures |r| == |partitions| && forall k :: 0 <= k < |r| ==> r[k] == partitions[k].prefilter
  {
    seq(|partitions|, k requires 0 <= k < |partitions| => partitions[k].prefilter)
  }

  /** Whatever path the shared plan took, it left out no start any partition needs. */
  lemma SharedPlanCovers(m: Matcher, patterns: seq<HirPattern>, budget: nat, input: Text, words: seq<bv64>,
                         union: LiteralPrefilter, avx2: bool, k: nat)
    requires MatcherFor(m, patterns, budget) && k < |m.partitions|
    requires LiteralsOf(Prefilters(m.partitions)).Some? && IsUnion(union, LiteralsOf(Prefilters(m.partitions)).value)
    requires forall i: nat :: HasBit(words, i) <==> PathAdmits(union, avx2, input, i)
    ensures var slice := Slice(patterns, |m.partitions|, k);
            && m.partitions[k].prefilter.literal.Some? && HintsFrom(slice).Some?
            && Covers(words, HintsFrom(slice).value, input)
  {
    var filters := Prefilters(m.partitions);
    var slice := Slice(patterns, |m.partitions|, k);
    assert PartitionFor(m.partitions[k], slice);
    LiteralsAt(filters, k);
    hide LiteralsOf, IsUnion, Represents, PathAdmits, HasBit, Built, NoHintAt, HintsFrom, Slice;
    HintsLongEnough(slice);
    forall s: nat | s < |input| && !HasBit(words, s) ensures NoHintAt(HintsFrom(slice).value, input, s) {
      PathKeepsHints(union, LiteralsOf(filters).value, k, HintsFrom(slice).value, avx2, input, s);
    }
  }

  /**
   One scan.  `avx2` says whether the processor has the kernel, `fault` which thread of
   shared candidate discovery cannot be spawned, if any.  The partitions are visited one
   after another here; module Parallel shows that running them concurrently delivers the
   same events in the same order.
   */
  method Scan(m: Matcher, input: Text, avx2: bool, fault: Option<nat>, ghost patterns: seq<HirPattern>,
              ghost budget: nat)
    returns (delivered: Option<seq<Event>>)
    requires MatcherFor(m, patterns, budget)
    ensures delivered.None? ==> fault.Some? && |m.partitions| > 1
    ensures delivered.Some? ==> multiset(delivered.value) == ScanBag(patterns, input, |input|)
    ensures delivered.Some? && AllExact(patterns) ==>
              forall e :: multiset(delivered.value)[e] == if e.start < |input| then Owed(patterns, input, e) else 0
  {
    hide MatcherFor, AllExact, Owed, PartitionFor, ScanBag, Covers, HintsFrom, Slice, HasBit, PathAdmits, IsUnion,
      LiteralsOf, ShareStart;
    ghost var count := |m.partitions|;
    MatcherNotEmpty(m, patterns, budget);
    var shared: Option<seq<bv64>> := None;
    if |m.partitions| > 1 {
      ghost var union;
      LiteralsAreValid(m, patterns, budget);
      var plan;
      plan, union := PlanShared(Prefilters(m.partitions), input, m.prefilterEnabled, m.literalEnabled, avx2, fault);
      if plan.Unavailable? {
        return None;
      }
      if plan.Shared? {
        shared := Some(plan.words);
        forall k: nat | k < count
          ensures m.partitions[k].prefilter.literal.Some? && HintsFrom(Slice(patterns, count, k)).Some?
          ensures Covers(plan.words, HintsFrom(Slice(patterns, count, k)).value, input)
        {
          SharedPlanCovers(m, patterns, budget, input, plan.words, union, avx2, k);
        }
      }
    }
    var events: seq<Event> := [];
    NothingScanned(patterns, count, input);
    for k := 0 to |m.partitions|
      invariant ShareStart(|patterns|, count, k) <= |patterns|
      invariant multiset(events) == ScanBag(patterns[..ShareStart(|patterns|, count, k)], input, |input|)
    {
      MatcherPart(m, patterns, budget, k);
      var found := ScanPartition(m.partitions[k], input, m.prefilterEnabled, m.literalEnabled, shared,
                                 Slice(patterns, count, k));
      SliceBounds(patterns, count, k);
      ScanBagSplits(patterns[..ShareStart(|patterns|, count, k)], Slice(patterns, count, k), input, |input|);
      events := events + found;
    }
    SharesCover(|patterns|, count);
    assert patterns[..|patterns|] == patterns;
    if AllExact(patterns) {
      forall e ensures multiset(events)[e] == if e.start < |input| then Owed(patterns, input, e) else 0 {
        ScanBagIsContract(patterns, input, |input|, e);
      }
    }
    delivered := Some(events);
  }

  lemma MatcherPart(m: Matcher, patterns: seq<HirPattern>, budget: nat, k: nat)
    requires MatcherFor(m, patterns, budget) && k < |m.partitions|
    ensures PartitionFor(m.partitions[k], Slice(patterns, |m.partitions|, k))
  {
  }

  lemma MatcherNotEmpty(m: Matcher, patterns: seq<HirPattern>, budget: nat)
    requires MatcherFor(m, patterns, budget)
    ensures |m.partitions| > 0
  {
  }

  lemma LiteralsAreValid(m: Matcher, patterns: seq<HirPattern>, budget: nat)
    requires MatcherFor(m, patterns, budget)
    ensures forall k :: 0 <= k < |m.partitions| && m.partitions[k].prefilter.literal.Some? ==>
                          m.partitions[k].prefilter.literal.value.Valid()
  {
    hide Represents, Right, HintsFrom, Slice;
    forall k | 0 <= k < |m.partitions|
               && m.partitions[k].prefilter.literal.Some? ensures m.partitions[k].prefilter.literal.value.Valid() {
      assert PartitionFor(m.partitions[k], Slice(patterns, |m.partitions|, k));
    }
  }

  lemma NothingScanned(patterns: seq<HirPattern>, count: nat, input: Text)
    ensures count > 0 ==> ShareStart(|patterns|, count, 0) == 0
    ensures ScanBag(patterns[..0], input, |input|) == multiset{}
  {
    EmptyScanBag(input, |input|);
  }
}
