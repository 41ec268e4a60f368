/**
 The match contract of README.md:520-542, stated on the meaning of expressions: what a scan
 reports is what its patterns mean, and exactly where the compiled form departs from it.
 */
module Contract {
  import opened Base
  import opened HirSyntax
  import opened Meaning
  import opened CompiledMeaning
  import opened Database
  import opened Fronts
  import opened ScanSpec
  import opened PatternEvents

  /** A consuming match of the expression, as the reference interpreter defines it. */
  ghost predicate MatchesFrom(h: Hir, w: Text, start: nat, end: nat) {
    end > start && Matches(h, w, At(start, start), At(start, end))
  }

  lemma AcceptsIsMatch(h: Hir, w: Text, start: nat, end: nat)
    ensures NoEmptySequence(h) && MatchesFrom(h, w, start, end) ==> Accepts(h, w, start, end)
    ensures WellShaped(h) && Accepts(h, w, start, end) ==> MatchesFrom(h, w, start, end)
  {
    if NoEmptySequence(h) && MatchesFrom(h, w, start, end) {
      NoMatchLost(h, w, At(start, start), At(start, end));
    }
    if WellShaped(h) && Accepts(h, w, start, end) {
      NoMatchAdded(h, w, At(start, start), At(start, end));
    }
  }

  lemma {:induction false} LongestMatchIsGreatest(h: Hir, w: Text, start: nat, upto: nat)
    ensures match LongestMatch(h, w, start, upto)
            case Some(e) => e <= upto && Accepts(h, w, start, e)
                            && forall e' :: e < e' <= upto ==> !Accepts(h, w, start, e')
            case None => forall e' :: start < e' <= upto ==> !Accepts(h, w, start, e')
  {
    hide Exits;
    if upto > start && !Accepts(h, w, start, upto) {
      LongestMatchIsGreatest(h, w, start, upto - 1);
    }
  }

  /** `end` is the greatest end, inside the text, of a consuming match from `start`. */
  ghost predicate LongestEnd(h: Hir, w: Text, start: nat, end: nat) {
    end <= |w| && MatchesFrom(h, w, start, end)
    && forall later :: end < later <= |w| ==> !MatchesFrom(h, w, start, later)
  }

  /** How many of the patterns, counted with repetition, owe the event `e` to the contract. */
  ghost function Owed(patterns: seq<HirPattern>, w: Text, e: Event): nat {
    if patterns == [] then 0
    else
      var last := patterns[|patterns| - 1];
      Owed(patterns[..|patterns| - 1], w, e) + if last.id == e.id && LongestEnd(last.expression, w, e.start, e.end)
      then 1 else 0
  }

  ghost predicate Exact(h: Hir) {
    NoEmptySequence(h) && WellShaped(h)
  }

  ghost predicate AllExact(patterns: seq<HirPattern>) {
    forall k :: 0 <= k < |patterns| ==> Exact(patterns[k].expression)
  }

  /** Everything the parser builds is exact if it is well shaped. */
  lemma RegularIsExact(h: Hir)
    requires Regular(h)
    ensures NoEmptySequence(h) && (WellShaped(h) ==> Exact(h))
  {
    RegularHasNoEmptySequence(h);
  }

  lemma PatternStartOwed(p: HirPattern, w: Text, start: nat, e: Event)
    requires Exact(p.expression)
    ensures multiset(PatternStart(p, w, start))[e] ==
            if e.start == start && p.id == e.id && LongestEnd(p.expression, w, start, e.end) then 1 else 0
  {
    hide Exact, WellShaped, NoEmptySequence, Exits, Matches;
    var h := p.expression;
    LongestMatchIsGreatest(h, w, start, |w|);
    forall end ensures Accepts(h, w, start, end) <==> MatchesFrom(h, w, start, end) {
      ExactAccepts(h, w, start, end);
    }
  }

  lemma ExactAccepts(h: Hir, w: Text, start: nat, end: nat)
    requires Exact(h)
    ensures Accepts(h, w, start, end) <==> MatchesFrom(h, w, start, end)
  {
    AcceptsIsMatch(h, w, start, end);
  }

  lemma {:induction false} StartBagOwed(patterns: seq<HirPattern>, w: Text, start: nat, e: Event)
    requires AllExact(patterns)
    ensures StartBag(patterns, w, start)[e] == if e.start == start then Owed(patterns, w, e) else 0
  {
    hide Exact, LongestEnd;
    if patterns != [] {
      var k := |patterns| - 1;
      StartBagOwed(patterns[..k], w, start, e);
      PatternStartOwed(patterns[k], w, start, e);
    }
  }

  /**
   The event multiset is the contract's: every event occurs once for each pattern whose
   expression has it as its longest consuming match, and nothing else occurs.
   */
  lemma {:induction false} ScanBagIsContract(patterns: seq<HirPattern>, w: Text, n: nat, e: Event)
    requires AllExact(patterns)
    ensures ScanBag(patterns, w, n)[e] == if e.start < n then Owed(patterns, w, e) else 0
  {
    hide StartBag, Owed, AllExact;
    if n > 0 {
      ScanBagIsContract(patterns, w, n - 1, e);
      StartBagOwed(patterns, w, n - 1, e);
    }
  }

  /** Whatever its shape, no pattern that has a match from a start goes unreported there. */
  lemma NothingUnreported(p: HirPattern, w: Text, start: nat, end: nat)
    requires NoEmptySequence(p.expression) && MatchesFrom(p.expression, w, start, end) && end <= |w|
    ensures exists last :: end <= last <= |w| && PatternStart(p, w, start) == [Event(p.id, start, last)]
  {
    hide NoEmptySequence, Exits, Matches;
    AcceptsIsMatch(p.expression, w, start, end);
    LongestMatchIsGreatest(p.expression, w, start, |w|);
    var last := LongestMatch(p.expression, w, start, |w|).value;
    assert end <= last <= |w| && PatternStart(p, w, start) == [Event(p.id, start, last)];
  }
}
