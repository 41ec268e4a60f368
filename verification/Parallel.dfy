/**
 The parallel scan protocol (rustmatch/src/api.rs:757-854, 983-989) as a state machine: the
 caller spawns workers, scans partition 0 itself, joins the workers in order, and delivers
 buffered events only when everything succeeded.  Workers finish at arbitrary moments.
 */
module Parallel {
  import opened Base
  import opened ScanSpec
  import opened Database
  import opened PatternEvents
  import opened MatcherApi

  /** How one partition's scan ends. */
  datatype Outcome = Completed(events: seq<Event>) | Errored(error: nat) | Panicked(payload: nat)

  /** What the environment decides: every partition's outcome, and the first spawn that fails. */
  datatype Env = Env(outcomes: seq<Outcome>, fault: Option<(nat, nat)>) {
    function Count(): nat {
      |outcomes|
    }

    predicate Valid() {
      |outcomes| > 1 && (fault.Some? ==> 1 <= fault.value.0 < |outcomes|)
    }

    /** Workers are spawned for the partitions `1 .. Spawned()`. */
    function Spawned(): nat
      requires Valid()
    {
      (if fault.Some? then fault.value.0 else |outcomes|) - 1
    }
  }

  datatype Worker = Idle | Running | Finished(outcome: Outcome) | Joined

  datatype Verdict = Delivered | Failure(error: nat) | Panic(payload: nat)

  datatype Phase =
    | Spawning(next: nat)
    | CallerScan
    | Joining(next: nat)
    | Unwinding(payload: nat)
    | Delivering(partition: nat, event: nat)
    | Done(verdict: Verdict)

  datatype State = State(
    phase: Phase, workers: seq<Worker>, outputs: seq<Option<seq<Event>>>,
    spawnError: Option<nat>, scanError: Option<nat>, workerPanic: Option<nat>, delivered: seq<Event>)

  /** The caller's own step, or worker `worker` finishing. */
  datatype Action = CallerStep | WorkerFinishes(worker: nat)

  function Init(env: Env): State {
    State(Spawning(1), seq(env.Count(), _ => Idle), seq(env.Count(), _ => None), None, None, None, [])
  }

  predicate AllFinished(workers: seq<Worker>) {
    forall k :: 0 <= k < |workers| ==> !workers[k].Running?
  }

  function JoinAll(workers: seq<Worker>): seq<Worker> {
    seq(|workers|, k requires 0 <= k < |workers| => if workers[k].Idle? then Idle else Joined)
  }

  function Or(first: Option<nat>, second: Option<nat>): Option<nat> {
    if first.Some? then first else second
  }

  // ---- Steps ---------------------------------------------------------------------------

  function Apply(env: Env, s: State, a: Action): Option<State>
    requires env.Valid() && |s.workers| == |s.outputs| == env.Count()
  {
    match a
    case WorkerFinishes(k) =>
      if k < env.Count() && s.workers[k].Running? then Some(s.(workers := s.workers[k := Finished(env.outcomes[k])]))
      else None
    case CallerStep =>
      match s.phase
      case Spawning(k) => Some(SpawnStep(env, s, k))
      case CallerScan => Some(CallerScanStep(env, s))
      case Joining(k) => if k <= env.Spawned() then JoinStep(s, k) else Some(Conclude(s))
      case Unwinding(payload) =>
        // Leaving the thread scope waits for every worker.
        if AllFinished(s.workers) then Some(s.(phase := Done(Panic(payload)), workers := JoinAll(s.workers))) else None
      case Delivering(p, e) => DeliverStep(s, p, e)
      case Done(_) => None
  }

  function SpawnStep(env: Env, s: State, k: nat): State
    requires env.Valid() && |s.workers| == env.Count()
  {
    if k >= env.Count() then s.(phase := CallerScan)
    else if env.fault.Some? && env.fault.value.0 == k
    then s.(phase := Joining(1), spawnError := Some(env.fault.value.1))
    else s.(phase := Spawning(k + 1), workers := s.workers[k := Running])
  }

  function CallerScanStep(env: Env, s: State): State
    requires env.Valid() && |s.outputs| == env.Count()
  {
    match env.outcomes[0]
    case Completed(events) => s.(phase := Joining(1), outputs := s.outputs[0 := Some(events)])
    case Errored(error) => s.(phase := Joining(1), scanError := Some(error))
    case Panicked(payload) => s.(phase := Unwinding(payload))
  }

  /** Joining blocks until the worker has finished. */
  function JoinStep(s: State, k: nat): Option<State>
    requires |s.workers| == |s.outputs|
  {
    if k < |s.workers| && s.workers[k].Finished? then
      var joined := s.(phase := Joining(k + 1), workers := s.workers[k := Joined]);
      Some(match s.workers[k].outcome
           case Completed(events) => joined.(outputs := s.outputs[k := Some(events)])
           case Errored(error) => joined.(scanError := Or(s.scanError, Some(error)))
           case Panicked(payload) => joined.(workerPanic := Or(s.workerPanic, Some(payload))))
    else None
  }

  function Conclude(s: State): State {
    if s.workerPanic.Some? then s.(phase := Done(Panic(s.workerPanic.value)))
    else if Or(s.spawnError, s.scanError).Some? then s.(phase := Done(Failure(Or(s.spawnError, s.scanError).value)))
    else s.(phase := Delivering(0, 0))
  }

  /** `None` in a slot to be delivered would be a missing output; no run gets there. */
  function DeliverStep(s: State, p: nat, e: nat): Option<State> {
    if p >= |s.outputs| then Some(s.(phase := Done(Delivered)))
    else if s.outputs[p].None? then None
    else if e < |s.outputs[p].value|
    then Some(s.(phase := Delivering(p, e + 1), delivered := s.delivered + [s.outputs[p].value[e]]))
    else Some(s.(phase := Delivering(p + 1, 0)))
  }

  // ---- What the run must amount to -----------------------------------------------------

  function FirstPanic(outcomes: seq<Outcome>, lo: nat, hi: nat): Option<nat>
    requires lo <= hi <= |outcomes|
  {
    if lo == hi then None
    else Or(FirstPanic(outcomes, lo, hi - 1), if outcomes[hi - 1].Panicked? then Some(outcomes[hi - 1].payload)
            else None)
  }

  function FirstError(outcomes: seq<Outcome>, lo: nat, hi: nat): Option<nat>
    requires lo <= hi <= |outcomes|
  {
    if lo == hi then None
    else Or(FirstError(outcomes, lo, hi - 1), if outcomes[hi - 1].Errored? then Some(outcomes[hi - 1].error) else None)
  }

  function Expected(env: Env): Verdict
    requires env.Valid()
  {
    if env.fault.None? && env.outcomes[0].Panicked? then Panic(env.outcomes[0].payload)
    else
      var panic := FirstPanic(env.outcomes, 1, env.Spawned() + 1);
      var error := if env.fault.Some? then Some(env.fault.value.1) else FirstError(env.outcomes, 0, env.Count());
      if panic.Some? then Panic(panic.value) else if error.Some? then Failure(error.value) else Delivered
  }

  function EventsOf(o: Outcome): seq<Event> {
    if o.Completed? then o.events else []
  }

  /** The partitions' events, in partition order. */
  function Flat(outcomes: seq<Outcome>): seq<Event> {
    if outcomes == [] then [] else Flat(outcomes[..|outcomes| - 1]) + EventsOf(outcomes[|outcomes| - 1])
  }

  // ---- The invariant -------------------------------------------------------------------

  predicate OutputIs(env: Env, outputs: seq<Option<seq<Event>>>, k: nat)
    requires |outputs| == env.Count() && k < env.Count()
  {
    outputs[k] == if env.outcomes[k].Completed? then Some(env.outcomes[k].events) else None
  }

  ghost predicate WorkersSpawned(env: Env, s: State, spawned: nat, joined: nat)
    requires |s.workers| == env.Count()
  {
    forall k :: 0 <= k < env.Count() ==>
                  if k == 0 || k > spawned then s.workers[k] == Idle
                  else if k <= joined then s.workers[k] == Joined
                  else s.workers[k].Running? || s.workers[k] == Finished(env.outcomes[k])
  }

  ghost predicate NothingYet(s: State) {
    s.spawnError.None? && s.scanError.None? && s.workerPanic.None?
    && (forall k :: 0 <= k < |s.outputs| ==> s.outputs[k].None?)
  }

  /** What joining the workers before `k` has collected. */
  ghost predicate Collected(env: Env, s: State, k: nat)
    requires env.Valid() && |s.outputs| == env.Count() && 1 <= k <= env.Count()
  {
    && (env.fault.None? ==> !env.outcomes[0].Panicked? && OutputIs(env, s.outputs, 0))
    && (env.fault.Some? ==> s.outputs[0].None?)
    && (forall j :: 1 <= j < k ==> OutputIs(env, s.outputs, j))
    && (forall j :: k <= j < env.Count() ==> s.outputs[j].None?)
    && s.spawnError == (if env.fault.Some? then Some(env.fault.value.1) else None)
    && s.scanError == FirstError(env.outcomes, if env.fault.Some? then 1 else 0, k)
    && s.workerPanic == FirstPanic(env.outcomes, 1, k)
  }

  ghost predicate Inv(env: Env, s: State)
    requires env.Valid()
  {
    var n := env.Count();
    && |s.workers| == |s.outputs| == n
    && match s.phase
       case Spawning(k) =>
         && 1 <= k <= n && WorkersSpawned(env, s, k - 1, 0) && NothingYet(s) && s.delivered == []
         && (env.fault.Some? ==> k <= env.fault.value.0)
       case CallerScan => env.fault.None? && WorkersSpawned(env, s, n - 1, 0) && NothingYet(s) && s.delivered == []
       case Joining(k) =>
         1 <= k <= env.Spawned() + 1 && WorkersSpawned(env, s, env.Spawned(), k - 1) && Collected(env, s, k)
         && s.delivered == []
       case Unwinding(payload) =>
         && env.fault.None? && env.outcomes[0] == Panicked(payload)
         && WorkersSpawned(env, s, n - 1, 0) && s.delivered == []
       case Delivering(p, e) =>
         && p <= n && WorkersSpawned(env, s, env.Spawned(), env.Spawned())
         && Expected(env) == Delivered && env.fault.None?
         && (forall k :: 0 <= k < n ==> env.outcomes[k].Completed? && OutputIs(env, s.outputs, k))
         && (if p == n then e == 0 && s.delivered == Flat(env.outcomes)
             else e <= |env.outcomes[p].events| && s.delivered == Flat(env.outcomes[..p]) + env.outcomes[p].events[..e])
       case Done(verdict) =>
         && WorkersSpawned(env, s, env.Spawned(), env.Spawned()) && verdict == Expected(env)
         && s.delivered == (if verdict == Delivered then Flat(env.outcomes) else [])
  }

  lemma InitHolds(env: Env)
    requires env.Valid()
    ensures Inv(env, Init(env))
  {
  }

  lemma {:induction false} NoPanicNoError(outcomes: seq<Outcome>, lo: nat, hi: nat)
    requires lo <= hi <= |outcomes|
    ensures FirstPanic(outcomes, lo, hi).None? <==> forall k :: lo <= k < hi ==> !outcomes[k].Panicked?
    ensures FirstError(outcomes, lo, hi).None? <==> forall k :: lo <= k < hi ==> !outcomes[k].Errored?
  {
    if lo < hi {
      NoPanicNoError(outcomes, lo, hi - 1);
    }
  }

  lemma WorkerStepKeeps(env: Env, s: State, k: nat)
    requires env.Valid() && Inv(env, s) && Apply(env, s, WorkerFinishes(k)).Some?
    ensures Inv(env, Apply(env, s, WorkerFinishes(k)).value)
  {
    hide FirstError, FirstPanic, Flat, Expected;
  }

  lemma SpawnKeeps(env: Env, s: State)
    requires env.Valid() && Inv(env, s) && (s.phase.Spawning? || s.phase.CallerScan?)
    ensures Apply(env, s, CallerStep).Some? && Inv(env, Apply(env, s, CallerStep).value)
  {
  }

  lemma JoinCollects(env: Env, s: State, k: nat)
    requires env.Valid() && |s.workers| == |s.outputs| == env.Count() && 1 <= k <= env.Spawned()
    requires Collected(env, s, k) && s.workers[k] == Finished(env.outcomes[k])
    ensures JoinStep(s, k).Some? && Collected(env, JoinStep(s, k).value, k + 1)
  {
    var after := JoinStep(s, k).value;
    forall j | 0 <= j < k ensures OutputIs(env, s.outputs, j) <==> OutputIs(env, after.outputs, j) {
    }
  }

  lemma JoinFrame(s: State, k: nat)
    requires |s.workers| == |s.outputs| && JoinStep(s, k).Some?
    ensures k < |s.workers| && s.workers[k].Finished?
    ensures var after := JoinStep(s, k).value;
            && after.phase == Joining(k + 1) && after.workers == s.workers[k := Joined]
            && after.delivered == s.delivered
            && |after.outputs| == |s.outputs|
  {
  }

  lemma JoinKeeps(env: Env, s: State)
    requires env.Valid() && Inv(env, s) && s.phase.Joining? && s.phase.next <= env.Spawned()
             && Apply(env, s, CallerStep).Some?
    ensures Inv(env, Apply(env, s, CallerStep).value)
  {
    hide Flat, Expected, Collected, JoinStep;
    var k := s.phase.next;
    JoinFrame(s, k);
    JoinCollects(env, s, k);
  }

  lemma ConcludeKeeps(env: Env, s: State)
    requires env.Valid() && Inv(env, s) && s.phase.Joining? && s.phase.next > env.Spawned()
    ensures Apply(env, s, CallerStep).Some? && Inv(env, Apply(env, s, CallerStep).value)
  {
    NoPanicNoError(env.outcomes, 1, s.phase.next);
    NoPanicNoError(env.outcomes, if env.fault.Some? then 1 else 0, s.phase.next);
    assert env.outcomes[..0] == [];
    if s.workerPanic.None? && s.spawnError.None? && s.scanError.None? {
      forall k | 0 <= k < env.Count() ensures env.outcomes[k].Completed? && OutputIs(env, s.outputs, k) {
        assert k == 0 || OutputIs(env, s.outputs, k);
      }
    }
  }

  lemma UnwindKeeps(env: Env, s: State)
    requires env.Valid() && Inv(env, s) && s.phase.Unwinding? && Apply(env, s, CallerStep).Some?
    ensures Inv(env, Apply(env, s, CallerStep).value)
  {
    hide Flat, FirstError, FirstPanic;
  }

  lemma DeliverKeeps(env: Env, s: State)
    requires env.Valid() && Inv(env, s) && s.phase.Delivering?
    ensures Apply(env, s, CallerStep).Some? && Inv(env, Apply(env, s, CallerStep).value)
  {
    hide Expected;
    var p, e := s.phase.partition, s.phase.event;
    if p < env.Count() {
      assert OutputIs(env, s.outputs, p);
      var events := env.outcomes[p].events;
      if e < |events| {
        assert events[..e + 1] == events[..e] + [events[e]];
      } else {
        assert events[..e] == events;
        assert env.outcomes[..p + 1][..p] == env.outcomes[..p];
        if p + 1 == env.Count() {
          assert env.outcomes[..p + 1] == env.outcomes;
        }
      }
    }
  }

  /** Every step, of the caller or of any worker, keeps the invariant. */
  lemma StepKeeps(env: Env, s: State, a: Action)
    requires env.Valid() && Inv(env, s) && Apply(env, s, a).Some?
    ensures Inv(env, Apply(env, s, a).value)
  {
    hide Inv, Apply;
    CallerPhases(env, s, a);
    match a
    case WorkerFinishes(k) => WorkerStepKeeps(env, s, k);
    case CallerStep =>
      match s.phase
      case Spawning(_) => SpawnKeeps(env, s);
      case CallerScan => SpawnKeeps(env, s);
      case Joining(k) => if k <= env.Spawned() { JoinKeeps(env, s); } else { ConcludeKeeps(env, s); }
      case Unwinding(_) => UnwindKeeps(env, s);
      case Delivering(_, _) => DeliverKeeps(env, s);
      case Done(_) =>
  }

  lemma CallerPhases(env: Env, s: State, a: Action)
    requires env.Valid() && Inv(env, s) && Apply(env, s, a).Some?
    ensures a.CallerStep? ==> !s.phase.Done?
    ensures |s.workers| == |s.outputs| == env.Count()
  {
  }

  // ---- Whole runs ----------------------------------------------------------------------

  /** The state after a schedule, if every step of it was possible. */
  ghost function Run(env: Env, schedule: seq<Action>): (s: Option<State>)
    requires env.Valid()
    ensures s.Some? ==> Inv(env, s.value)
  {
    if schedule == [] then
      InitHolds(env);
      Some(Init(env))
    else
      var before := Run(env, schedule[..|schedule| - 1]);
      if before.None? then None
      else
        var next := Apply(env, before.value, schedule[|schedule| - 1]);
        if next.Some? then StepKeeps(env, before.value, schedule[|schedule| - 1]); next else None
  }

  predicate AllCompleted(env: Env) {
    env.fault.None? && forall k :: 0 <= k < env.Count() ==> env.outcomes[k].Completed?
  }

  lemma SuccessIs(env: Env)
    requires env.Valid()
    ensures Expected(env) == Delivered <==> AllCompleted(env)
  {
    NoPanicNoError(env.outcomes, 1, env.Spawned() + 1);
    NoPanicNoError(env.outcomes, 0, env.Count());
    if AllCompleted(env) {
      assert env.outcomes[0].Completed?;
    }
  }

  /**
   Under every interleaving: until the run is over nothing but a prefix of the final
   delivery has been handed out, and only if every spawn and every partition succeeded;
   when it is over, every spawned worker has been joined, the verdict does not depend on
   the schedule, and the delivery is all partitions' events in order, or nothing.
   */
  lemma EveryRun(env: Env, schedule: seq<Action>)
    requires env.Valid() && Run(env, schedule).Some?
    ensures var s := Run(env, schedule).value;
            && s.delivered <= Flat(env.outcomes)
            && (s.delivered != [] ==> AllCompleted(env))
            && (s.phase.Done? ==>
                  && s.phase.verdict == Expected(env)
                  && s.delivered == (if AllCompleted(env) then Flat(env.outcomes) else [])
                  && |s.workers| == env.Count()
                  && forall k :: 0 <= k < env.Count() ==>
                                   s.workers[k] == if 1 <= k <= env.Spawned() then Joined else Idle)
  {
    SuccessIs(env);
    var s := Run(env, schedule).value;
    if s.phase.Delivering? && s.phase.partition < env.Count() {
      PrefixOfFlat(env.outcomes, s.phase.partition, s.phase.event);
    }
  }

  lemma {:induction false} PrefixOfFlat(outcomes: seq<Outcome>, p: nat, e: nat)
    requires p < |outcomes| && outcomes[p].Completed? && e <= |outcomes[p].events|
    ensures Flat(outcomes[..p]) + outcomes[p].events[..e] <= Flat(outcomes)
    decreases |outcomes|
  {
    var last := |outcomes| - 1;
    if p == last {
      assert outcomes[p].events == outcomes[p].events[..e] + outcomes[p].events[e..];
    } else {
      PrefixOfFlat(outcomes[..last], p, e);
      assert outcomes[..last][..p] == outcomes[..p];
    }
  }

  /** No deadlock: a run that is not over can always take another step. */
  lemma NeverStuck(env: Env, s: State)
    requires env.Valid() && Inv(env, s) && !s.phase.Done?
    ensures exists a :: Apply(env, s, a).Some?
  {
    match s.phase
    case Spawning(_) => assert Apply(env, s, CallerStep).Some?;
    case CallerScan => assert Apply(env, s, CallerStep).Some?;
    case Joining(k) =>
      if k <= env.Spawned() && s.workers[k].Running? {
        assert Apply(env, s, WorkerFinishes(k)).Some?;
      } else {
        assert Apply(env, s, CallerStep).Some?;
      }
    case Unwinding(_) =>
      if AllFinished(s.workers) {
        assert Apply(env, s, CallerStep).Some?;
      } else {
        var k :| 0 <= k < |s.workers| && s.workers[k].Running?;
        assert Apply(env, s, WorkerFinishes(k)).Some?;
      }
    case Delivering(p, _) =>
      assert p < env.Count() ==> OutputIs(env, s.outputs, p);
      assert Apply(env, s, CallerStep).Some?;
  }

  // ---- Every run ends ------------------------------------------------------------------

  function RunningSet(workers: seq<Worker>): set<nat> {
    set k: nat | k < |workers| && workers[k].Running?
  }

  function CallerRank(env: Env, s: State): int {
    var n, total := env.Count(), |Flat(env.outcomes)|;
    match s.phase
    case Spawning(k) => total + 2 * n + 4 + 2 * (n - k)
    case CallerScan => total + 2 * n + 3
    case Joining(k) => total + 2 * n + 3 - k
    case Unwinding(_) => 1
    case Delivering(p, _) => total - |s.delivered| + n - p + 1
    case Done(_) => 0
  }

  /** Steps left, at most. */
  function Rank(env: Env, s: State): int {
    CallerRank(env, s) + |RunningSet(s.workers)|
  }

  lemma RunningAfter(workers: seq<Worker>, k: nat, w: Worker)
    requires k < |workers|
    ensures w.Running? && !workers[k].Running? ==> |RunningSet(workers[k := w])| == |RunningSet(workers)| + 1
    ensures !w.Running? && workers[k].Running? ==> |RunningSet(workers[k := w])| == |RunningSet(workers)| - 1
    ensures !w.Running? && !workers[k].Running? ==> RunningSet(workers[k := w]) == RunningSet(workers)
  {
    if w.Running? {
      assert RunningSet(workers[k := w]) == RunningSet(workers) + {k};
    } else {
      assert RunningSet(workers[k := w]) == RunningSet(workers) - {k};
    }
  }

  lemma RankIsNatural(env: Env, s: State)
    requires env.Valid() && Inv(env, s)
    ensures Rank(env, s) >= 0
  {
    if s.phase.Delivering? && s.phase.partition < env.Count() {
      PrefixOfFlat(env.outcomes, s.phase.partition, s.phase.event);
    }
  }

  lemma CallerRankFalls(env: Env, s: State)
    requires env.Valid() && Inv(env, s) && Apply(env, s, CallerStep).Some?
    ensures Rank(env, Apply(env, s, CallerStep).value) < Rank(env, s)
  {
    hide FirstPanic, FirstError, Expected;
    match s.phase
    case Spawning(k) => if k < env.Count() { RunningAfter(s.workers, k, Running); }
    case Joining(k) => if k <= env.Spawned() { JoinFrame(s, k); RunningAfter(s.workers, k, Joined); }
    case Unwinding(_) => assert RunningSet(JoinAll(s.workers)) == {};
    case _ =>
  }

  /** No schedule goes on for ever: each step lowers a natural number. */
  lemma StepsRunOut(env: Env, s: State, a: Action)
    requires env.Valid() && Inv(env, s) && Apply(env, s, a).Some?
    ensures 0 <= Rank(env, Apply(env, s, a).value) < Rank(env, s)
  {
    StepKeeps(env, s, a);
    RankIsNatural(env, Apply(env, s, a).value);
    match a
    case CallerStep => CallerRankFalls(env, s);
    case WorkerFinishes(k) => RunningAfter(s.workers, k, Finished(env.outcomes[k]));
  }

  lemma {:induction false} RunsAreBounded(env: Env, schedule: seq<Action>)
    requires env.Valid() && Run(env, schedule).Some?
    ensures |schedule| + Rank(env, Run(env, schedule).value) <= Rank(env, Init(env))
  {
    hide Rank, Apply, Inv, Init;
    if schedule != [] {
      var init := schedule[..|schedule| - 1];
      RunsAreBounded(env, init);
      StepsRunOut(env, Run(env, init).value, schedule[|schedule| - 1]);
    }
  }

  // ---- What is delivered ---------------------------------------------------------------

  /** Each partition's scan found its own patterns' events. */
  ghost predicate ScansSlices(outcomes: seq<Outcome>, patterns: seq<HirPattern>, count: nat, w: Text) {
    && |outcomes| <= count
    && forall k :: 0 <= k < |outcomes| ==>
                     outcomes[k].Completed? && multiset(outcomes[k].events)
                                               == ScanBag(Slice(patterns, count, k), w, |w|)
  }

  lemma {:induction false} FlatBag(outcomes: seq<Outcome>, patterns: seq<HirPattern>, count: nat, w: Text)
    requires count > 0 && ScansSlices(outcomes, patterns, count, w)
    ensures ShareStart(|patterns|, count, |outcomes|) <= |patterns|
    ensures multiset(Flat(outcomes)) == ScanBag(patterns[..ShareStart(|patterns|, count, |outcomes|)], w, |w|)
  {
    hide ScanBag, Slice, ShareStart;
    if outcomes == [] {
      NextShare(|patterns|, count, 0);
      EmptyScanBag(w, |w|);
    } else {
      var last := |outcomes| - 1;
      FlatBag(outcomes[..last], patterns, count, w);
      SliceBounds(patterns, count, last);
      ScanBagSplits(patterns[..ShareStart(|patterns|, count, last)], Slice(patterns, count, last), w, |w|);
    }
  }

  /** A successful parallel scan delivers exactly the event multiset of the registered patterns. */
  lemma SuccessDeliversAll(env: Env, schedule: seq<Action>, patterns: seq<HirPattern>, w: Text)
    requires env.Valid() && Run(env, schedule).Some? && Run(env, schedule).value.phase.Done?
    requires env.fault.None? && ScansSlices(env.outcomes, patterns, env.Count(), w)
    ensures Run(env, schedule).value.phase.verdict == Delivered
    ensures multiset(Run(env, schedule).value.delivered) == ScanBag(patterns, w, |w|)
  {
    hide ScanBag, Slice, ShareStart, Expected, Flat, Run;
    EveryRun(env, schedule);
    SuccessIs(env);
    FlatBag(env.outcomes, patterns, env.Count(), w);
    SharesCover(|patterns|, env.Count());
    assert patterns[..|patterns|] == patterns;
  }
}
