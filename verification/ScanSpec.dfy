/**
 The event contract of a scan (README.md:520-542): for every pattern and every start, the
 longest consuming match that begins there.
 */
module ScanSpec {
  import opened Base
  import opened Assertions
  import opened Graph
  import opened NfaCompiler
  import opened Layout
  import opened Database
  import opened Fronts

  datatype Event = Event(id: nat, start: nat, end: nat)

  /**
   One scan: a database, the root to start from, the text, and whether the scanner follows
   assertion edges (`scan_with_assertions`) or skips them (the ordinary scanner).
   */
  datatype Job = Job(db: PatternDatabase, root: nat, text: Text, contextual: bool) {
    ghost predicate Valid() {
      db.Valid() && root < |db.states|
    }

    ghost function Graph(): set<Arc>
      requires db.Valid()
    {
      if contextual then db.Graph() else Plain(db.Graph())
    }

    /** `extend_epsilon_closure` and `extend_assertion_closure` differ only in this test. */
    predicate Follows(kind: EdgeKind, c: Cursor) {
      match kind
      case EpsilonEdge => true
      case AssertionEdge(a) => contextual && AssertionMatches(a, text, c)
      case SymbolEdge(_) => false
      case PredicateEdge(_) => false
    }

    /** Some path from `start` consumes up to `end` and stops where pattern `i` ends. */
    ghost predicate Hits(i: nat, start: nat, end: nat)
      requires Valid()
    {
      end > start && exists q: nat :: q < |db.states| && i in db.TerminalsAt(q)
                                      && InFront(Graph(), text, root, start, end, q)
    }

    ghost function Longest(i: nat, start: nat, upto: nat): Option<nat>
      requires Valid()
    {
      if upto <= start then None
      else if Hits(i, start, upto) then Some(upto)
      else Longest(i, start, upto - 1)
    }

    ghost function OrdinalEvents(start: nat, count: nat): seq<Event>
      requires Valid() && count <= |db.patternIds|
    {
      if count == 0 then []
      else OrdinalEvents(start, count - 1) + OneEvent(start, count - 1)
    }

    ghost function OneEvent(start: nat, i: nat): seq<Event>
      requires Valid() && i < |db.patternIds|
    {
      var best := Longest(i, start, |text|);
      if best.Some? then [Event(db.patternIds[i], start, best.value)] else []
    }

    ghost function StartEvents(start: nat): seq<Event>
      requires Valid()
    {
      OrdinalEvents(start, |db.patternIds|)
    }

    ghost function Events(starts: seq<nat>): seq<Event>
      requires Valid()
    {
      if starts == [] then []
      else Events(starts[..|starts| - 1]) + StartEvents(starts[|starts| - 1])
    }

    lemma {:induction false} LongestIsGreatest(i: nat, start: nat, upto: nat)
      requires Valid()
      ensures match Longest(i, start, upto)
              case Some(e) => start < e <= upto && Hits(i, start, e)
                              && forall e' :: e < e' <= upto ==> !Hits(i, start, e')
              case None => forall e' :: start < e' <= upto ==> !Hits(i, start, e')
    {
      hide Hits;
      if upto > start && !Hits(i, start, upto) {
        LongestIsGreatest(i, start, upto - 1);
      }
    }

    lemma NothingBeyondText(i: nat, start: nat, end: nat)
      requires Valid() && end > |text| && end > start
      ensures !Hits(i, start, end)
    {
      if Hits(i, start, end) {
        var q: nat :| q < |db.states| && i in db.TerminalsAt(q) && InFront(Graph(), text, root, start, end, q);
        var k := if start > |text| then start else |text|;
        PositionBound(Graph(), text, root, start, k, Config(q, At(start, end)));
      }
    }

    /** `e` reports the longest consuming match of pattern `i` at `start`. */
    ghost predicate Reports(i: nat, start: nat, e: Event)
      requires Valid() && i < |db.patternIds|
    {
      && e.id == db.patternIds[i] && e.start == start
      && Hits(i, start, e.end) && forall later :: later > e.end ==> !Hits(i, start, later)
    }

    lemma OneEventReports(start: nat, i: nat, e: Event)
      requires Valid() && i < |db.patternIds|
      ensures e in OneEvent(start, i) <==> Reports(i, start, e)
    {
      hide Hits;
      LongestIsGreatest(i, start, |text|);
      forall later | later > |text| && later > start ensures !Hits(i, start, later) {
        NothingBeyondText(i, start, later);
      }
      if Reports(i, start, e) {
        assert e.end > start by { HitsConsume(i, start, e.end); }
      }
    }

    lemma HitsConsume(i: nat, start: nat, end: nat)
      requires Valid() && Hits(i, start, end)
      ensures end > start
    {
    }

    ghost function Reporters(start: nat, count: nat, e: Event): set<nat>
      requires Valid() && count <= |db.patternIds|
    {
      set i: nat | i < count && Reports(i, start, e)
    }

    /**
     The contract in one line: an event occurs among those of a start once for each pattern
     whose longest match there it is, and not at all if there is no such pattern.
     */
    lemma {:induction false} EventsAreLongestMatches(start: nat, count: nat, e: Event)
      requires Valid() && count <= |db.patternIds|
      ensures multiset(OrdinalEvents(start, count))[e] == |Reporters(start, count, e)|
      ensures e in OrdinalEvents(start, count) <==> exists i: nat :: i < count && Reports(i, start, e)
    {
      hide Reports, Valid, OneEvent, PatternDatabase.Valid;
      if count > 0 {
        var last := count - 1;
        EventsAreLongestMatches(start, last, e);
        OneEventReports(start, last, e);
        OneEventAtMost(start, last, e);
        var one := if Reports(last, start, e) then {last} else {};
        assert Reporters(start, count, e) == Reporters(start, last, e) + one;
      } else {
        assert Reporters(start, 0, e) == {};
      }
    }

    lemma OneEventAtMost(start: nat, i: nat, e: Event)
      requires Valid() && i < |db.patternIds|
      ensures multiset(OneEvent(start, i))[e] == if e in OneEvent(start, i) then 1 else 0
    {
      hide Job.Longest;
    }
  }

  // ---- Edges against arcs --------------------------------------------------------------

  lemma LinkIsFollow(job: Job, c: Cursor, p: nat, q: nat)
    requires job.Valid() && p < |job.db.states|
    ensures Link(job.Graph(), job.text, c, p, q) <==>
            exists k :: 0 <= k < |job.db.EdgesFrom(p)| && job.db.EdgesFrom(p)[k].target == q
                        && job.Follows(job.db.EdgesFrom(p)[k].kind, c)
  {
    hide PatternDatabase.Valid, PatternDatabase.Graph;
    var db, g, edges := job.db, job.Graph(), job.db.EdgesFrom(p);
    var row := Row(p, edges, db.predicates);
    if Link(g, job.text, c, p, q) {
      var a :| a in g && a.source == p && a.target == q && Passes(job.text, a.on, c);
      assert db.HasArc(a);
      var k :| 0 <= k < |row| && row[k] == a;
      assert edges[k].target == q && job.Follows(edges[k].kind, c);
    }
    if k :| 0 <= k < |edges| && edges[k].target == q && job.Follows(edges[k].kind, c) {
      assert row[k] in row && db.HasArc(row[k]);
      assert row[k] in g;
    }
  }

  lemma TakesIsEdgeMatch(job: Job, p: nat, u: U16, q: nat)
    requires job.Valid() && p < |job.db.states|
    ensures (exists a :: a in job.Graph() && a.source == p && a.target == q && LabelTakes(a.on, u)) <==>
            exists k :: 0 <= k < |job.db.EdgesFrom(p)| && job.db.EdgesFrom(p)[k].target == q
                        && job.db.EdgeMatches(job.db.EdgesFrom(p)[k].kind, u)
  {
    hide PatternDatabase.Valid, PatternDatabase.Graph;
    var db, g, edges := job.db, job.Graph(), job.db.EdgesFrom(p);
    var row := Row(p, edges, db.predicates);
    if a :| a in g && a.source == p && a.target == q && LabelTakes(a.on, u) {
      assert db.HasArc(a);
      var k :| 0 <= k < |row| && row[k] == a;
      assert edges[k].target == q && db.EdgeMatches(edges[k].kind, u);
    }
    if k :| 0 <= k < |edges| && edges[k].target == q && db.EdgeMatches(edges[k].kind, u) {
      assert row[k] in row && db.HasArc(row[k]);
      assert row[k] in g && LabelTakes(row[k].on, u);
    }
  }
}
