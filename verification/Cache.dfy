/**
 The lazily built, budget-bounded deterministic cache and the scan that uses it
 (rustmatch/src/engine.rs:289-380, 408-612).
 */
module Cache {
  import opened Base
  import opened Assertions
  import opened Database
  import opened Fronts
  import opened ScanSpec
  import opened Sorting
  import opened Closure
  import opened Scanner

  /** The three reserved values of a transition slot. */
  const UNKNOWN: nat := 0xFFFF_FFFF
  const DEAD: nat := 0xFFFF_FFFE
  const FALLBACK: nat := 0xFFFF_FFFD

  // ---- Successor sets ------------------------------------------------------------------

  /** Without assertions, where a symbol leads does not depend on the text or the position. */
  ghost predicate Leads(job: Job, states: seq<nat>, u: U16, q: nat)
    requires job.Valid()
  {
    Entered(job.Graph(), [], NOWHERE, states, u, q)
  }

  ghost predicate IsSuccessor(job: Job, states: seq<nat>, u: U16, next: seq<nat>)
    requires job.Valid()
  {
    forall q: nat :: q in next <==> Leads(job, states, u, q)
  }

  lemma PlainGraphHasNoGuard(job: Job)
    requires job.Valid() && !job.contextual
    ensures forall a :: a in job.Graph() ==> !a.on.Guard?
  {
  }

  lemma EnteredAnywhere(job: Job, c: Cursor, states: seq<nat>, u: U16, q: nat)
    requires job.Valid() && !job.contextual
    ensures Entered(job.Graph(), job.text, c, states, u, q) <==> Leads(job, states, u, q)
  {
    hide PatternDatabase.Valid;
    PlainGraphHasNoGuard(job);
    PlainGlides(job.Graph(), job.text, c, [], NOWHERE);
  }

  // ---- Cached states -------------------------------------------------------------------

  datatype DetState = DetState(nfa: seq<nat>, terminals: seq<nat>, ascii: seq<nat>, nonAscii: seq<(U16, nat)>) {
    predicate WellFormed() {
      |ascii| == 128 && Filled(nonAscii)
    }

    function Transition(u: U16): nat
      requires WellFormed()
    {
      if u < 128 then ascii[u] else Find(nonAscii, u)
    }

    function SetTransition(u: U16, t: nat): (r: DetState)
      requires WellFormed() && Transition(u) == UNKNOWN && t != UNKNOWN
      ensures r.nfa == nfa && r.terminals == terminals && r.WellFormed()
      ensures forall v: U16 :: r.Transition(v) == if v == u then t else Transition(v)
    {
      if u < 128 then this.(ascii := ascii[u := t])
      else
        FindAppended(nonAscii, u, t);
        this.(nonAscii := nonAscii + [(u, t)])
    }
  }

  predicate Filled(entries: seq<(U16, nat)>) {
    forall k :: 0 <= k < |entries| ==> entries[k].1 != UNKNOWN
  }

  /** The first entry for `u` in an association list, or the unknown marker. */
  function Find(entries: seq<(U16, nat)>, u: U16): nat {
    if entries == [] then UNKNOWN
    else if entries[0].0 == u then entries[0].1
    else Find(entries[1..], u)
  }

  lemma {:induction false} FindAppended(entries: seq<(U16, nat)>, u: U16, t: nat)
    requires Filled(entries) && Find(entries, u) == UNKNOWN
    ensures forall v: U16 :: Find(entries + [(u, t)], v) == if v == u then t else Find(entries, v)
  {
    if entries == [] {
      assert entries + [(u, t)] == [(u, t)];
    } else {
      assert (entries + [(u, t)])[1..] == entries[1..] + [(u, t)];
      FindAppended(entries[1..], u, t);
    }
  }

  // ---- State-set hash ------------------------------------------------------------------

  /** FNV-1a over the eight little-endian bytes of each state index. */
  function StateSetHash(states: seq<nat>): nat {
    Number(HashStates(states))
  }

  function Number(hash: bv64): nat {
    hash as nat
  }

  function HashStates(states: seq<nat>): bv64 {
    if states == [] then 0xcbf2_9ce4_8422_2325
    else HashBytes(HashStates(states[..|states| - 1]), states[|states| - 1], 8)
  }

  function HashBytes(hash: bv64, rest: nat, bytes: nat): bv64
    decreases bytes
  {
    if bytes == 0 then hash
    else HashBytes(HashByte(hash, ByteOf(rest % 256)), rest / 256, bytes - 1)
  }

  function HashByte(hash: bv64, byte: bv8): bv64 {
    (hash ^ (byte as bv64)) * 0x0000_0100_0000_01b3
  }

  lemma ByteNext(b: bv8)
    requires b as nat < 255
    ensures (b + 1) as nat == b as nat + 1
  {
  }

  function ByteOf(n: nat): (r: bv8)
    requires n < 256
    ensures r as nat == n
  {
    if n == 0 then 0 else ByteNext(ByteOf(n - 1)); ByteOf(n - 1) + 1
  }

  /** The lowest byte of a hash. */
  function LowByte(hash: bv64): bv8 {
    (hash & 0xff) as bv8
  }

  function LowStep(low: bv8, byte: bv8): bv8 {
    (low ^ byte) * 0xb3
  }

  lemma LowByteOfStep(hash: bv64, byte: bv8)
    ensures LowByte(HashByte(hash, byte)) == LowStep(LowByte(hash), byte)
  {
  }

  /** The multiplier is odd, so a step loses nothing of the lowest byte. */
  lemma StepKeepsApart(x: bv8, y: bv8, byte: bv8, other: bv8)
    requires LowStep(x, byte) == LowStep(y, other)
    ensures byte == other ==> x == y
    ensures x == y ==> byte == other
  {
  }

  lemma {:induction false} BytesKeepApart(x: bv64, y: bv64, rest: nat, bytes: nat)
    requires LowByte(x) != LowByte(y)
    ensures LowByte(HashBytes(x, rest, bytes)) != LowByte(HashBytes(y, rest, bytes))
    decreases bytes
  {
    hide LowByte, HashByte, LowStep, ByteOf;
    if bytes > 0 {
      var byte := ByteOf(rest % 256);
      LowByteOfStep(x, byte);
      LowByteOfStep(y, byte);
      if LowByte(HashByte(x, byte)) == LowByte(HashByte(y, byte)) {
        StepKeepsApart(LowByte(x), LowByte(y), byte, byte);
      }
      BytesKeepApart(HashByte(x, byte), HashByte(y, byte), rest / 256, bytes - 1);
    }
  }

  lemma BytesApart(u: nat, v: nat)
    requires u < 256 && v < 256 && u != v
    ensures ByteOf(u) != ByteOf(v)
  {
    hide ByteOf;
    assert ByteOf(u) as nat == u && ByteOf(v) as nat == v;
  }

  lemma BytesUnfold(hash: bv64, rest: nat, bytes: nat)
    requires bytes > 0
    ensures HashBytes(hash, rest, bytes) == HashBytes(HashByte(hash, ByteOf(rest % 256)), rest / 256, bytes - 1)
  {
  }

  lemma OtherByte(hash: bv64, u: nat, v: nat)
    requires u != v && u / 256 == v / 256
    ensures LowByte(HashBytes(hash, u, 8)) != LowByte(HashBytes(hash, v, 8))
  {
    hide LowByte, HashByte, LowStep, HashBytes, ByteOf;
    var x, y := ByteOf(u % 256), ByteOf(v % 256);
    BytesApart(u % 256, v % 256);
    BytesUnfold(hash, u, 8);
    BytesUnfold(hash, v, 8);
    LowByteOfStep(hash, x);
    LowByteOfStep(hash, y);
    if LowByte(HashByte(hash, x)) == LowByte(HashByte(hash, y)) {
      StepKeepsApart(LowByte(hash), LowByte(hash), x, y);
    }
    BytesKeepApart(HashByte(hash, x), HashByte(hash, y), u / 256, 7);
  }

  /** State sets of one size that differ in the lowest byte of one state are never hashed alike. */
  lemma {:induction false} HashesDiffer(s: seq<nat>, t: seq<nat>, k: nat)
    requires |s| == |t| && k < |s| && s[k] != t[k] && s[k] / 256 == t[k] / 256
    requires forall j :: 0 <= j < |s| && j != k ==> s[j] == t[j]
    ensures LowByte(HashStates(s)) != LowByte(HashStates(t)) && StateSetHash(s) != StateSetHash(t)
    decreases |s|
  {
    hide LowByte, HashBytes, Number;
    var last := |s| - 1;
    if k == last {
      assert s[..last] == t[..last];
      OtherByte(HashStates(s[..last]), s[last], t[last]);
    } else {
      HashesDiffer(s[..last], t[..last], k);
      BytesKeepApart(HashStates(s[..last]), HashStates(t[..last]), s[last], 8);
    }
    if StateSetHash(s) == StateSetHash(t) {
      SameNumber(HashStates(s), HashStates(t));
    }
  }

  lemma SameNumber(x: bv64, y: bv64)
    requires Number(x) == Number(y)
    ensures x == y
  {
    hide Number, Back;
    NumberBack(x);
    NumberBack(y);
  }

  function Back(n: nat): bv64
    requires n < 0x1_0000_0000_0000_0000
  {
    n as bv64
  }

  lemma NumberBack(x: bv64)
    ensures Number(x) < 0x1_0000_0000_0000_0000 && Back(Number(x)) == x
  {
  }

  // ---- The cache -----------------------------------------------------------------------

  /** One cached state is right: its list is a canonical state set and its terminals are that set's. */
  ghost predicate StateRight(job: Job, s: DetState)
    requires job.Valid()
  {
    && s.WellFormed() && Ascending(s.nfa) && AllBelow(s.nfa, |job.db.states|)
    && AllBelow(s.terminals, |job.db.patternIds|)
    && (forall i: nat :: i in s.terminals <==> TerminalIn(job, s.nfa, i))
  }

  /** One transition slot is right: unknown, or exactly what recomputing it would give. */
  ghost predicate SlotRight(job: Job, states: seq<DetState>, nfa: seq<nat>, u: U16, t: nat)
    requires job.Valid()
  {
    || t == UNKNOWN
    || (t == DEAD && IsSuccessor(job, nfa, u, []))
    || (t == FALLBACK && !IsSuccessor(job, nfa, u, []))
    || (t < |states| && t < FALLBACK && states[t].nfa != [] && IsSuccessor(job, nfa, u, states[t].nfa))
  }

  ghost predicate RowRight(job: Job, states: seq<DetState>, s: DetState)
    requires job.Valid() && s.WellFormed()
  {
    forall u: U16 :: SlotRight(job, states, s.nfa, u, s.Transition(u))
  }

  ghost predicate IsRootClosure(job: Job, nfa: seq<nat>)
    requires job.Valid()
  {
    forall q: nat :: q in nfa <==> Glides(job.Graph(), [], NOWHERE, job.root, q)
  }

  /** The same state sets, possibly followed by new ones. */
  ghost predicate KeepsSets(before: seq<DetState>, after: seq<DetState>) {
    |before| <= |after| && forall i :: 0 <= i < |before| ==>
                                         after[i].nfa == before[i].nfa && after[i].terminals == before[i].terminals
  }

  lemma SlotStaysRight(job: Job, before: seq<DetState>, after: seq<DetState>, nfa: seq<nat>, u: U16, t: nat)
    requires job.Valid() && KeepsSets(before, after) && SlotRight(job, before, nfa, u, t)
    ensures SlotRight(job, after, nfa, u, t)
  {
  }

  lemma RowStaysRight(job: Job, before: seq<DetState>, after: seq<DetState>, s: DetState)
    requires job.Valid() && KeepsSets(before, after) && s.WellFormed() && RowRight(job, before, s)
    ensures RowRight(job, after, s)
  {
    forall u: U16 ensures SlotRight(job, after, s.nfa, u, s.Transition(u)) {
      SlotStaysRight(job, before, after, s.nfa, u, s.Transition(u));
    }
  }

  datatype Outcome = Dead | Cached(id: nat) | Uncached

  function SlotFor(outcome: Outcome): nat {
    match outcome
    case Dead => DEAD
    case Cached(id) => id
    case Uncached => FALLBACK
  }

  ghost predicate AllFormed(states: seq<DetState>) {
    forall i :: 0 <= i < |states| ==> states[i].WellFormed()
  }

  /**
   After a transition its slot holds the outcome.  If it was known, nothing else has changed; if
   not, no other slot has, and the state set found is interned unless there is no room for it.
   */
  ghost predicate Settled(before: seq<DetState>, after: seq<DetState>, id: nat, u: U16, outcome: Outcome, budget: nat,
                          next: seq<nat>)
    requires AllFormed(before) && AllFormed(after) && id < |before| <= |after|
  {
    && after[id].Transition(u) == SlotFor(outcome) != UNKNOWN
    && if before[id].Transition(u) != UNKNOWN then after == before
       else
         && SlotsKept(before, after, id, u) && |after| <= |before| + 1
         && (|after| > |before| ==> outcome == Cached(|before|))
         && (outcome.Uncached? ==> NoRoom(after, budget) && LacksSet(after, next))
  }

  ghost predicate SlotsKept(before: seq<DetState>, after: seq<DetState>, id: nat, u: U16)
    requires AllFormed(before) && AllFormed(after) && |before| <= |after|
  {
    forall i, v: U16 :: 0 <= i < |after| && (i != id || v != u) ==>
                          after[i].Transition(v) == if i < |before| then before[i].Transition(v) else UNKNOWN
  }

  predicate NoRoom(states: seq<DetState>, budget: nat) {
    |states| >= budget || |states| >= FALLBACK
  }

  ghost predicate LacksSet(states: seq<DetState>, nfa: seq<nat>) {
    forall i :: 0 <= i < |states| ==> states[i].nfa != nfa
  }

  class DeterministicCache {
    const budget: nat
    var states: seq<DetState>
    var buckets: map<nat, seq<nat>>

    ghost predicate Valid(job: Job)
      reads this
    {
      && job.Valid() && !job.contextual
      && 0 < |states| <= budget
      && Interned(job)
      && IsRootClosure(job, states[0].nfa)
      && (forall i :: 0 <= i < |states| ==> RowRight(job, states, states[i]))
    }

    /** Canonical, pairwise distinct state sets, all of them findable through their hash. */
    ghost predicate Interned(job: Job)
      requires job.Valid()
      reads this
    {
      && (forall i :: 0 <= i < |states| ==> StateRight(job, states[i]))
      && (forall i, j :: 0 <= i < j < |states| ==> states[i].nfa != states[j].nfa)
      && (forall i :: 0 <= i < |states| ==>
                        StateSetHash(states[i].nfa) in buckets && i in buckets[StateSetHash(states[i].nfa)])
      && (forall h :: h in buckets ==> AllBelow(buckets[h], |states|))
      && |states| <= FALLBACK
    }

    constructor (job: Job, budget: nat, scratch: Scratch)
      requires job.Valid() && !job.contextual && budget > 0 && scratch.Valid() && scratch.Fits(job)
      modifies scratch.Repr()
      ensures Valid(job) && this.budget == budget && scratch.Valid() && scratch.Repr() == old(scratch.Repr())
      ensures |states| == 1
    {
      this.budget := budget;
      states, buckets := [], map[];
      new;
      hide PatternDatabase.Valid, Job.Graph, Glides, StateSetHash;
      scratch.ResetStart();
      scratch.active := ExtendClosure(job, NOWHERE, job.root, [], scratch.activeSeen);
      SortedAscending(scratch.active);
      var root := Sorted(scratch.active);
      RootClosure(job, scratch.active, root);
      scratch.active := [];
      var id := Intern(job, root);
      RootRow(job, states);
    }

    method Lookup(job: Job, nfa: seq<nat>) returns (id: Option<nat>)
      requires job.Valid() && Interned(job)
      ensures id.Some? ==> id.value < |states| && states[id.value].nfa == nfa
      ensures id.None? ==> LacksSet(states, nfa)
    {
      hide PatternDatabase.Valid, StateSetHash;
      var hash := StateSetHash(nfa);
      if hash !in buckets {
        return None;
      }
      var candidates: seq<nat> := buckets[hash];
      for k := 0 to |candidates|
        invariant forall j :: 0 <= j < k ==> states[candidates[j]].nfa != nfa
      {
        if states[candidates[k]].nfa == nfa {
          return Some(candidates[k]);
        }
      }
      id := None;
    }

    /** Finds a state set or adds it; refuses only when the budget or the id space is used up. */
    method Intern(job: Job, nfa: seq<nat>) returns (id: Option<nat>)
      requires job.Valid() && Interned(job) && Ascending(nfa) && AllBelow(nfa, |job.db.states|) && |states| <= budget
      modifies this
      ensures Interned(job) && |states| <= budget
      ensures old(states) <= states
      ensures id.Some? ==> id.value < |states| && id.value < FALLBACK && states[id.value].nfa == nfa
      ensures id.None? ==> states == old(states) && NoRoom(states, budget) && LacksSet(states, nfa)
      ensures states == old(states) || id == Some(|old(states)|)
      ensures |states| <= |old(states)| + 1 && (|states| > |old(states)| ==>
                                                  |old(states)| < FALLBACK && forall u: U16 ::
                                                    states[|old(states)|].Transition(u) == UNKNOWN)
    {
      hide PatternDatabase.Valid, StateSetHash;
      id := Lookup(job, nfa);
      if id.Some? || |states| >= budget || |states| >= FALLBACK {
        return;
      }
      var state: nat := |states|;
      var terminals := TerminalsOf(job, nfa);
      states := states + [DetState(nfa, terminals, seq(128, _ => UNKNOWN), [])];
      var hash := StateSetHash(nfa);
      buckets := buckets[hash := (if hash in buckets then buckets[hash] else []) + [state]];
      assert forall i :: 0 <= i < state ==> states[i] == old(states)[i];
      id := Some(state);
    }

    /** One transition through the cache, filling its slot if it was unknown. */
    method Step(job: Job, id: nat, u: U16, scratch: Scratch) returns (outcome: Outcome)
      requires Valid(job) && id < |states| && scratch.Valid() && scratch.Fits(job)
      modifies this, scratch`next, scratch`cacheGeneration, scratch.cacheSeen
      ensures Valid(job) && scratch.Valid() && KeepsSets(old(states), states)
      ensures outcome.Dead? ==> IsSuccessor(job, old(states)[id].nfa, u, [])
      ensures outcome.Cached? ==> outcome.id < |states| && states[outcome.id].nfa != []
                                  && IsSuccessor(job, old(states)[id].nfa, u, states[outcome.id].nfa)
      ensures outcome.Uncached? ==>
                scratch.next != [] && Ascending(scratch.next) && AllBelow(scratch.next, |job.db.states|)
                && IsSuccessor(job, old(states)[id].nfa, u, scratch.next)
      ensures AllFormed(old(states)) && AllFormed(states)
      ensures Settled(old(states), states, id, u, outcome, budget, scratch.next)
    {
      hide PatternDatabase.Valid, Job.Graph, Leads, IsRootClosure, StateSetHash;
      var known := states[id].Transition(u);
      assert SlotRight(job, states, states[id].nfa, u, known);
      if known == UNKNOWN {
        outcome := Fill(job, id, u, scratch);
      } else if known == FALLBACK {
        Recompute(job, states[id].nfa, u, scratch);
        outcome := Uncached;
      } else {
        outcome := if known == DEAD then Dead else Cached(known);
      }
    }

    method Fill(job: Job, id: nat, u: U16, scratch: Scratch) returns (outcome: Outcome)
      requires Valid(job) && id < |states| && scratch.Valid() && scratch.Fits(job)
               && states[id].Transition(u) == UNKNOWN
      modifies this, scratch`next, scratch`cacheGeneration, scratch.cacheSeen
      ensures Valid(job) && scratch.Valid() && KeepsSets(old(states), states)
      ensures outcome.Dead? ==> IsSuccessor(job, old(states)[id].nfa, u, [])
      ensures outcome.Cached? ==> outcome.id < |states| && states[outcome.id].nfa != []
                                  && IsSuccessor(job, old(states)[id].nfa, u, states[outcome.id].nfa)
      ensures outcome.Uncached? ==>
                scratch.next != [] && Ascending(scratch.next) && AllBelow(scratch.next, |job.db.states|)
                && IsSuccessor(job, old(states)[id].nfa, u, scratch.next)
      ensures AllFormed(old(states)) && AllFormed(states)
      ensures Settled(old(states), states, id, u, outcome, budget, scratch.next)
    {
      hide PatternDatabase.Valid, Job.Graph, Leads, IsRootClosure, StateSetHash, RowRight, TerminalIn;
      Recompute(job, states[id].nfa, u, scratch);
      ghost var before := states;
      var transition := DEAD;
      if scratch.next != [] {
        var interned := Intern(job, scratch.next);
        transition := if interned.Some? then interned.value else FALLBACK;
      }
      RowsAfterIntern(job, before, states);
      SlotFilled(job, states, states[id].nfa, u, transition, scratch.next);
      ghost var grown := states;
      SetSlot(job, id, u, transition);
      RowsAfterFill(job, grown, states, id, u, transition);
      outcome := if transition == DEAD then Dead else if transition == FALLBACK then Uncached else Cached(transition);
      SlotSettles(before, grown, states, id, u, transition, outcome);
    }

    method SetSlot(job: Job, id: nat, u: U16, transition: nat)
      requires job.Valid() && Interned(job) && id < |states| && states[id].Transition(u) == UNKNOWN
               && transition != UNKNOWN
      modifies this`states
      ensures Interned(job) && states == old(states)[id := old(states)[id].SetTransition(u, transition)]
    {
      hide PatternDatabase.Valid, TerminalIn, StateSetHash, Filled, Find, DetState.Transition;
      states := states[id := states[id].SetTransition(u, transition)];
    }
  }

  /** Recomputes a transition from scratch, in a new generation of marks. */
  method Recompute(job: Job, nfa: seq<nat>, u: U16, scratch: Scratch)
    requires job.Valid() && !job.contextual && scratch.Valid() && scratch.Fits(job) && AllBelow(nfa, |job.db.states|)
    modifies scratch`next, scratch`cacheGeneration, scratch.cacheSeen
    ensures scratch.Valid() && Ascending(scratch.next) && AllBelow(scratch.next, |job.db.states|)
    ensures IsSuccessor(job, nfa, u, scratch.next)
  {
    hide PatternDatabase.Valid, Job.Graph, Leads, Entered;
    var generation := scratch.ResetCachedTransition();
    scratch.next := ComputeTransition(job, NOWHERE, nfa, u, scratch.cacheSeen, generation);
    forall q: nat ensures q in scratch.next <==> Leads(job, nfa, u, q) {
      EnteredAnywhere(job, NOWHERE, nfa, u, q);
    }
  }

  lemma SlotFilled(job: Job, states: seq<DetState>, nfa: seq<nat>, u: U16, t: nat, next: seq<nat>)
    requires job.Valid() && IsSuccessor(job, nfa, u, next)
    requires if next == [] then t == DEAD else t == FALLBACK || (t < |states| && t < FALLBACK && states[t].nfa == next)
    ensures SlotRight(job, states, nfa, u, t)
  {
    if next != [] {
      assert Leads(job, nfa, u, next[0]);
      assert next[0] !in [];
    }
  }

  lemma SlotSettles(before: seq<DetState>, grown: seq<DetState>, after: seq<DetState>, id: nat, u: U16, t: nat,
                    outcome: Outcome)
    requires AllFormed(before) && AllFormed(grown) && id < |before| && before <= grown && |grown| <= |before| + 1
    requires |grown| > |before| ==> forall v: U16 :: grown[|before|].Transition(v) == UNKNOWN
    requires before[id].Transition(u) == UNKNOWN && t == SlotFor(outcome) != UNKNOWN
    requires after == grown[id := grown[id].SetTransition(u, t)]
    ensures AllFormed(after) && after[id].Transition(u) == t && SlotsKept(before, after, id, u)
    ensures forall nfa :: LacksSet(grown, nfa) ==> LacksSet(after, nfa)
  {
    hide DetState.Transition, DetState.WellFormed, DetState.SetTransition;
    assert forall i :: 0 <= i < |after| ==> after[i].nfa == grown[i].nfa;
  }

  lemma RowsAfterIntern(job: Job, before: seq<DetState>, after: seq<DetState>)
    requires job.Valid() && before <= after && |after| <= |before| + 1
    requires forall i :: 0 <= i < |after| ==> after[i].WellFormed()
    requires forall i :: 0 <= i < |before| ==> RowRight(job, before, before[i])
    requires |after| > |before| ==> forall u: U16 :: after[|before|].Transition(u) == UNKNOWN
    ensures forall i :: 0 <= i < |after| ==> RowRight(job, after, after[i])
  {
    hide SlotRight;
    forall i | 0 <= i < |before| ensures RowRight(job, after, after[i]) {
      RowStaysRight(job, before, after, before[i]);
    }
    if |after| > |before| {
      forall u: U16 ensures SlotRight(job, after, after[|before|].nfa, u, after[|before|].Transition(u)) {
        UnknownIsRight(job, after, after[|before|].nfa, u);
      }
    }
  }

  lemma UnknownIsRight(job: Job, states: seq<DetState>, nfa: seq<nat>, u: U16)
    requires job.Valid()
    ensures SlotRight(job, states, nfa, u, UNKNOWN)
  {
  }

  lemma RowsAfterFill(job: Job, before: seq<DetState>, after: seq<DetState>, id: nat, u: U16, t: nat)
    requires job.Valid() && id < |before| && (forall i :: 0 <= i < |before| ==> before[i].WellFormed())
    requires forall i :: 0 <= i < |before| ==> RowRight(job, before, before[i])
    requires before[id].Transition(u) == UNKNOWN && t != UNKNOWN && SlotRight(job, before, before[id].nfa, u, t)
    requires after == before[id := before[id].SetTransition(u, t)]
    ensures KeepsSets(before, after)
    ensures forall i :: 0 <= i < |after| ==> RowRight(job, after, after[i])
  {
    hide SlotRight, DetState.Transition;
    forall i | 0 <= i < |after| ensures RowRight(job, after, after[i]) {
      RowStaysRight(job, before, after, before[i]);
      if i == id {
        forall v: U16 ensures SlotRight(job, after, after[i].nfa, v, after[i].Transition(v)) {
          if v == u {
            SlotStaysRight(job, before, after, before[id].nfa, u, t);
          }
        }
      }
    }
  }

  lemma RootClosure(job: Job, states: seq<nat>, sorted: seq<nat>)
    requires job.Valid() && !job.contextual && AllBelow(states, |job.db.states|)
    requires forall q: nat :: q in states <==> Glides(job.Graph(), job.text, NOWHERE, job.root, q)
    requires forall q :: q in sorted <==> q in states
    ensures IsRootClosure(job, sorted) && AllBelow(sorted, |job.db.states|)
  {
    PlainGraphHasNoGuard(job);
    PlainGlides(job.Graph(), job.text, NOWHERE, [], NOWHERE);
    forall k | 0 <= k < |sorted| ensures sorted[k] < |job.db.states| {
      assert sorted[k] in states;
    }
  }

  lemma RootRow(job: Job, states: seq<DetState>)
    requires job.Valid() && |states| == 1 && states[0].WellFormed()
             && forall u: U16 :: states[0].Transition(u) == UNKNOWN
    ensures RowRight(job, states, states[0])
  {
  }

  method TerminalsOf(job: Job, nfa: seq<nat>) returns (terminals: seq<nat>)
    requires job.Valid() && AllBelow(nfa, |job.db.states|)
    ensures AllBelow(terminals, |job.db.patternIds|) && forall i: nat :: i in terminals <==> TerminalIn(job, nfa, i)
  {
    hide PatternDatabase.Valid, PatternDatabase.TerminalsAt;
    terminals := [];
    for j := 0 to |nfa|
      invariant AllBelow(terminals, |job.db.patternIds|)
      invariant forall i: nat :: i in terminals <==> TerminalIn(job, nfa[..j], i)
    {
      forall i: nat ensures TerminalIn(job, nfa[..j + 1], i) <==>
                            TerminalIn(job, nfa[..j], i) || i in job.db.TerminalsAt(nfa[j]) {
        TerminalInSnoc(job, nfa, j, i);
      }
      terminals := terminals + job.db.TerminalsAt(nfa[j]);
    }
    assert nfa[..|nfa|] == nfa;
  }

  // ---- The cached scan -----------------------------------------------------------------

  datatype ScanCursor = AtCached(id: nat) | AtUncached

  lemma SuccessorIsFront(job: Job, start: nat, k: nat, states: seq<nat>, next: seq<nat>)
    requires job.Valid() && !job.contextual && start <= k < |job.text|
    requires IsFront(job.Graph(), job.text, job.root, start, k, states) && IsSuccessor(job, states, job.text[k], next)
    ensures IsFront(job.Graph(), job.text, job.root, start, k + 1, next)
  {
    hide PatternDatabase.Valid, Job.Graph, Entered, IsFront;
    forall q: nat ensures q in next <==> Entered(job.Graph(), job.text, At(start, k + 1), states, job.text[k], q) {
      EnteredAnywhere(job, At(start, k + 1), states, job.text[k], q);
    }
    NextFront(job.Graph(), job.text, job.root, start, k, states, next);
  }

  lemma RootIsFront(job: Job, start: nat, nfa: seq<nat>)
    requires job.Valid() && !job.contextual && IsRootClosure(job, nfa)
    ensures IsFront(job.Graph(), job.text, job.root, start, start, nfa)
  {
    PlainGraphHasNoGuard(job);
    PlainGlides(job.Graph(), job.text, At(start, start), [], NOWHERE);
    FirstFront(job.Graph(), job.text, job.root, start, nfa);
  }

  /** The state set a cursor stands for, whether it is cached or held in the scratch space. */
  ghost function CursorStates(cursor: ScanCursor, cached: seq<DetState>, active: seq<nat>): seq<nat>
    requires cursor.AtCached? ==> cursor.id < |cached|
  {
    match cursor
    case AtCached(id) => cached[id].nfa
    case AtUncached => active
  }

  method Advance(job: Job, u: U16, cursor: ScanCursor, cache: DeterministicCache, scratch: Scratch)
    returns (outcome: Outcome)
    requires cache.Valid(job) && scratch.Valid() && scratch.Fits(job)
    requires match cursor
             case AtCached(id) => id < |cache.states|
             case AtUncached => AllBelow(scratch.active, |job.db.states|)
    modifies cache, scratch`next, scratch`cacheGeneration, scratch.cacheSeen
    ensures cache.Valid(job) && scratch.Valid() && KeepsSets(old(cache.states), cache.states)
    ensures var from := old(CursorStates(cursor, cache.states, scratch.active));
            match outcome
            case Dead => IsSuccessor(job, from, u, [])
            case Cached(id) => id < |cache.states| && IsSuccessor(job, from, u, cache.states[id].nfa)
            case Uncached => AllBelow(scratch.next, |job.db.states|) && IsSuccessor(job, from, u, scratch.next)
    ensures AllFormed(old(cache.states)) && AllFormed(cache.states)
    ensures match cursor
            case AtCached(id) => Settled(old(cache.states), cache.states, id, u, outcome, cache.budget, scratch.next)
            case AtUncached =>
              && cache.states == old(cache.states)
              && (outcome.Uncached? ==> LacksSet(cache.states, scratch.next) && scratch.next != [])
  {
    hide PatternDatabase.Valid, Job.Graph, Leads, IsRootClosure, StateSetHash, RowRight, Settled, LacksSet;
    match cursor
    case AtCached(id) => outcome := cache.Step(job, id, u, scratch);
    case AtUncached =>
      Recompute(job, scratch.active, u, scratch);
      if scratch.next == [] {
        outcome := Dead;
      } else {
        var known := cache.Lookup(job, scratch.next);
        outcome := if known.Some? then Cached(known.value) else Uncached;
      }
  }

  method ScanStartCached(job: Job, start: nat, cache: DeterministicCache, scratch: Scratch) returns (events: seq<Event>)
    requires cache.Valid(job) && scratch.Valid() && scratch.Fits(job)
    modifies cache, scratch.Repr()
    ensures cache.Valid(job) && scratch.Valid() && scratch.Repr() == old(scratch.Repr())
    ensures events == job.StartEvents(start)
  {
    hide PatternDatabase.Valid, DeterministicCache.Valid, Job.Graph, Leads, Job.Longest, TerminalIn, Job.StartEvents,
      IsFront, IsSuccessor, Settled, AllFormed, LacksSet, BestUpTo;
    scratch.ResetCachedStart();
    BestStarts(job, start, scratch.bestEnd[..]);
    var cursor := AtCached(0);
    CachedRoot(job, cache);
    RootIsFront(job, start, cache.states[0].nfa);
    ghost var front := cache.states[0].nfa;
    var position := start;
    while position < |job.text|
      invariant cache.Valid(job) && scratch.Valid() && scratch.Fits(job) && scratch.Repr() == old(scratch.Repr())
      invariant start <= position && (position > |job.text| ==> position == start)
      invariant match cursor
                case AtCached(id) => id < |cache.states| && front == cache.states[id].nfa
                case AtUncached => AllBelow(scratch.active, |job.db.states|) && front == scratch.active
      invariant IsFront(job.Graph(), job.text, job.root, start, position, front)
      invariant BestUpTo(job, start, position, scratch.bestEnd[..])
    {
      var end := position + 1;
      ghost var before := scratch.bestEnd[..];
      var outcome := Advance(job, job.text[position], cursor, cache, scratch);
      match outcome {
        case Dead =>
          SuccessorIsFront(job, start, position, front, []);
          NoTerminals(job);
          BestAdvances(job, start, position, [], before, scratch.bestEnd[..]);
          front := [];
        case Cached(id) =>
          SuccessorIsFront(job, start, position, front, cache.states[id].nfa);
          CachedTerminals(job, cache, id);
          RecordAll(scratch, cache.states[id].terminals, end);
          BestAdvances(job, start, position, cache.states[id].nfa, before, scratch.bestEnd[..]);
          cursor := AtCached(id);
          front := cache.states[id].nfa;
        case Uncached =>
          SuccessorIsFront(job, start, position, front, scratch.next);
          RecordStates(job, scratch, scratch.next, end);
          BestAdvances(job, start, position, scratch.next, before, scratch.bestEnd[..]);
          scratch.active, scratch.next := scratch.next, scratch.active;
          cursor := AtUncached;
          front := scratch.active;
      }
      position := end;
      if outcome.Dead? {
        break;
      }
    }
    BestIsFinal(job, start, position, front, scratch.bestEnd[..]);
    events := EmitStart(job, start, scratch);
  }

  lemma NoTerminals(job: Job)
    requires job.Valid()
    ensures forall i: nat :: !TerminalIn(job, [], i)
  {
  }

  lemma CachedRoot(job: Job, cache: DeterministicCache)
    requires cache.Valid(job)
    ensures 0 < |cache.states| && IsRootClosure(job, cache.states[0].nfa)
    ensures job.Valid() && !job.contextual
  {
  }

  lemma CachedTerminals(job: Job, cache: DeterministicCache, id: nat)
    requires cache.Valid(job) && id < |cache.states|
    ensures AllBelow(cache.states[id].nfa, |job.db.states|) && AllBelow(cache.states[id].terminals, |job.db.patternIds|)
    ensures forall i: nat :: i in cache.states[id].terminals <==> TerminalIn(job, cache.states[id].nfa, i)
  {
    assert StateRight(job, cache.states[id]);
  }

  /**
   The cached scan reports, in the same order, exactly what `Scanner.ScanNfa` reports:
   the budget changes what is remembered and never what is found.
   */
  method ScanCached(job: Job, budget: nat, starts: seq<nat>) returns (events: seq<Event>)
    requires job.Valid() && !job.contextual && budget > 0
    ensures events == job.Events(starts)
  {
    hide PatternDatabase.Valid, Job.StartEvents, DeterministicCache.Valid;
    var scratch := new Scratch(job.db);
    var cache := new DeterministicCache(job, budget, scratch);
    events := [];
    for k := 0 to |starts|
      invariant cache.Valid(job) && scratch.Valid() && scratch.Fits(job) && fresh(scratch.Repr()) && fresh(cache)
      invariant events == job.Events(starts[..k])
    {
      var found := ScanStartCached(job, starts[k], cache, scratch);
      assert starts[..k + 1][..k] == starts[..k];
      events := events + found;
    }
    assert starts[..|starts|] == starts;
  }

  /** `scan_without_assertions_dispatch`: a zero budget selects the uncached scan. */
  method ScanPlain(job: Job, budget: nat, starts: seq<nat>) returns (events: seq<Event>)
    requires job.Valid() && !job.contextual
    ensures events == job.Events(starts)
  {
    if budget == 0 {
      events := ScanNfa(job, starts);
    } else {
      events := ScanCached(job, budget, starts);
    }
  }
}
