/**
 Labelled graphs and the configurations a scanner can reach in them.

 A configuration pairs an automaton state with a cursor in the text.  The cursor also
 remembers whether a unit has been consumed since the scan started, because the line-end
 assertion looks at that flag (rustmatch/src/engine.rs:948-963).
 */
module Graph {
  import opened Base
  import opened Assertions
  import opened Predicates

  /** What an edge asks of the text: nothing, an assertion, one unit, or a member of a class. */
  datatype Label = Free | Guard(assertion: Assertion) | Unit(unit: U16) | Class(allowed: CanonicalPredicate)

  datatype Arc = Arc(source: nat, on: Label, target: nat)

  datatype Config = Config(state: nat, at: Cursor)

  /** The cursor just after consuming the unit at `c`. */
  function Next(c: Cursor): Cursor {
    Cursor(c.pos + 1, true)
  }

  predicate LabelTakes(on: Label, u: U16) {
    match on
    case Free => false
    case Guard(_) => false
    case Unit(v) => u == v
    case Class(p) => p.Contains(u)
  }

  predicate Consumes(w: Text, on: Label, c: Cursor) {
    c.pos < |w| && LabelTakes(on, w[c.pos])
  }

  /** An edge that is followed without consuming. */
  predicate Passes(w: Text, on: Label, c: Cursor) {
    on.Free? || (on.Guard? && AssertionMatches(on.assertion, w, c))
  }

  predicate Fires(w: Text, on: Label, c: Cursor, d: Cursor) {
    (Passes(w, on, c) && d == c) || (Consumes(w, on, c) && d == Next(c))
  }

  ghost predicate Step(g: set<Arc>, w: Text, x: Config, y: Config) {
    exists a :: a in g && a.source == x.state && a.target == y.state && Fires(w, a.on, x.at, y.at)
  }

  ghost predicate Steps(g: set<Arc>, w: Text, n: nat, x: Config, y: Config) {
    if n == 0 then x == y
    else exists z :: Steps(g, w, n - 1, x, z) && Step(g, w, z, y)
  }

  ghost predicate Reach(g: set<Arc>, w: Text, x: Config, y: Config) {
    exists n: nat :: Steps(g, w, n, x, y)
  }

  /** Reachability between two states, as a relation on cursors. */
  ghost predicate Path(g: set<Arc>, w: Text, s: nat, e: nat, c: Cursor, d: Cursor) {
    Reach(g, w, Config(s, c), Config(e, d))
  }

  ghost predicate Closed(g: set<Arc>, w: Text, region: iset<Config>) {
    forall x, y :: x in region && Step(g, w, x, y) ==> y in region
  }

  lemma ReachRefl(g: set<Arc>, w: Text, x: Config)
    ensures Reach(g, w, x, x)
  {
    assert Steps(g, w, 0, x, x);
  }

  lemma ReachStep(g: set<Arc>, w: Text, x: Config, y: Config, z: Config)
    requires Reach(g, w, x, y) && Step(g, w, y, z)
    ensures Reach(g, w, x, z)
  {
    var n: nat :| Steps(g, w, n, x, y);
    assert Steps(g, w, n + 1, x, z);
  }

  lemma ReachArc(g: set<Arc>, w: Text, a: Arc, c: Cursor, d: Cursor)
    requires a in g && Fires(w, a.on, c, d)
    ensures Path(g, w, a.source, a.target, c, d)
  {
    ReachRefl(g, w, Config(a.source, c));
    ReachStep(g, w, Config(a.source, c), Config(a.source, c), Config(a.target, d));
  }

  /** The induction principle for reachability: a closed region is never left. */
  lemma {:induction false} StepsStayInside(g: set<Arc>, w: Text, region: iset<Config>, n: nat, x: Config, y: Config)
    requires Closed(g, w, region) && x in region && Steps(g, w, n, x, y)
    ensures y in region
  {
    if n == 0 {
    } else {
      var z :| Steps(g, w, n - 1, x, z) && Step(g, w, z, y);
      StepsStayInside(g, w, region, n - 1, x, z);
    }
  }

  lemma ReachStaysInside(g: set<Arc>, w: Text, region: iset<Config>, x: Config, y: Config)
    requires Closed(g, w, region) && x in region && Reach(g, w, x, y)
    ensures y in region
  {
    var n: nat :| Steps(g, w, n, x, y);
    StepsStayInside(g, w, region, n, x, y);
  }

  lemma ReachTrans(g: set<Arc>, w: Text, x: Config, y: Config, z: Config)
    requires Reach(g, w, x, y) && Reach(g, w, y, z)
    ensures Reach(g, w, x, z)
  {
    var region := iset v: Config | Reach(g, w, x, v);
    forall u, v | u in region && Step(g, w, u, v) ensures v in region {
      ReachStep(g, w, x, u, v);
    }
    ReachStaysInside(g, w, region, y, z);
  }

  lemma ReachMono(g: set<Arc>, h: set<Arc>, w: Text, x: Config, y: Config)
    requires g <= h && Reach(g, w, x, y)
    ensures Reach(h, w, x, y)
  {
    var region := iset v: Config | Reach(h, w, x, v);
    forall u, v | u in region && Step(g, w, u, v) ensures v in region {
      ReachStep(h, w, x, u, v);
    }
    ReachRefl(h, w, x);
    ReachStaysInside(g, w, region, x, y);
  }

  /**
   A fragment of an automaton: edges run among an entry state, an exit state and private
   inner states; no edge leaves the exit.  Edges may return to the entry.
   */
  ghost predicate Fragment(g: set<Arc>, s: nat, e: nat, inner: set<nat>) {
    && s != e && s !in inner && e !in inner
    && forall a :: a in g ==> (a.source == s || a.source in inner) &&
                              (a.target == s || a.target == e || a.target in inner)
  }

  lemma StaysInFragment(g: set<Arc>, w: Text, s: nat, e: nat, inner: set<nat>, c: Cursor, y: Config)
    requires Fragment(g, s, e, inner) && Reach(g, w, Config(s, c), y)
    ensures y.state == s || y.state == e || y.state in inner
  {
    var region := iset v: Config | v.state == s || v.state == e || v.state in inner;
    ReachStaysInside(g, w, region, Config(s, c), y);
  }

  /**
   Fragments in series.  Only the first one can return to the shared entry, whatever
   loops the second one has through the state between them.
   */
  lemma Serial(g: set<Arc>, h: set<Arc>, w: Text, s: nat, m: nat, e: nat, gi: set<nat>, hi: set<nat>)
    requires Fragment(g, s, m, gi) && Fragment(h, m, e, hi)
    requires gi !! hi && s !in hi && e !in gi && s != e
    ensures Fragment(g + h, s, e, gi + hi + {m})
    ensures forall c, d :: Path(g + h, w, s, e, c, d) <==> exists x :: Path(g, w, s, m, c, x) && Path(h, w, m, e, x, d)
    ensures forall c, d :: Path(g + h, w, s, s, c, d) <==> Path(g, w, s, s, c, d)
  {
    forall c, d, x | Path(g, w, s, m, c, x) && Path(h, w, m, e, x, d) ensures Path(g + h, w, s, e, c, d) {
      ReachMono(g, g + h, w, Config(s, c), Config(m, x));
      ReachMono(h, g + h, w, Config(m, x), Config(e, d));
      ReachTrans(g + h, w, Config(s, c), Config(m, x), Config(e, d));
    }
    forall c, d | Path(g, w, s, s, c, d) ensures Path(g + h, w, s, s, c, d) {
      ReachMono(g, g + h, w, Config(s, c), Config(s, d));
    }
    forall c, y | Reach(g + h, w, Config(s, c), y)
      ensures Reach(g, w, Config(s, c), y) || exists x :: Path(g, w, s, m, c, x) && Reach(h, w, Config(m, x), y)
    {
      SerialRegion(g, h, w, s, m, e, gi, hi, c, y);
    }
    forall c, d | Path(g + h, w, s, e, c, d) ensures exists x :: Path(g, w, s, m, c, x) && Path(h, w, m, e, x, d) {
      if Reach(g, w, Config(s, c), Config(e, d)) {
        StaysInFragment(g, w, s, m, gi, c, Config(e, d));
      }
    }
    forall c, d | Path(g + h, w, s, s, c, d) ensures Path(g, w, s, s, c, d) {
      if !Reach(g, w, Config(s, c), Config(s, d)) {
        var x :| Path(g, w, s, m, c, x) && Reach(h, w, Config(m, x), Config(s, d));
        StaysInFragment(h, w, m, e, hi, x, Config(s, d));
      }
    }
  }

  lemma SerialRegion(g: set<Arc>, h: set<Arc>, w: Text, s: nat, m: nat, e: nat, gi: set<nat>, hi: set<nat>, c: Cursor,
                     y: Config)
    requires Fragment(g, s, m, gi) && Fragment(h, m, e, hi)
    requires gi !! hi && s !in hi && e !in gi && s != e
    requires Reach(g + h, w, Config(s, c), y)
    ensures Reach(g, w, Config(s, c), y) || exists x :: Path(g, w, s, m, c, x) && Reach(h, w, Config(m, x), y)
  {
    var start := Config(s, c);
    var region := iset v: Config | Reach(g, w, start, v)
                                   || exists x :: Path(g, w, s, m, c, x) && Reach(h, w, Config(m, x), v);
    forall u, v | u in region && Step(g + h, w, u, v) ensures v in region {
      var a :| a in g + h && a.source == u.state && a.target == v.state && Fires(w, a.on, u.at, v.at);
      if Reach(g, w, start, u) {
        StaysInFragment(g, w, s, m, gi, c, u);
        if a in g {
          ReachStep(g, w, start, u, v);
        } else {
          assert u.state == m;
          ReachRefl(h, w, u);
          ReachStep(h, w, u, u, v);
        }
      } else {
        var x :| Path(g, w, s, m, c, x) && Reach(h, w, Config(m, x), u);
        StaysInFragment(h, w, m, e, hi, x, u);
        assert a in h;
        ReachStep(h, w, Config(m, x), u, v);
      }
    }
    ReachRefl(g, w, start);
    ReachStaysInside(g + h, w, region, start, y);
  }

  /** An epsilon edge beside a fragment: whatever returns to the entry can also leave. */
  lemma Skip(g: set<Arc>, w: Text, s: nat, e: nat, inner: set<nat>)
    requires Fragment(g, s, e, inner)
    ensures Fragment(g + {Arc(s, Free, e)}, s, e, inner)
    ensures forall c, d :: Path(g + {Arc(s, Free, e)}, w, s, e, c, d) <==>
                           Path(g, w, s, s, c, d) || Path(g, w, s, e, c, d)
    ensures forall c, d :: Path(g + {Arc(s, Free, e)}, w, s, s, c, d) <==> Path(g, w, s, s, c, d)
  {
    var bypass := Arc(s, Free, e);
    var all := g + {bypass};
    forall c, d | Path(g, w, s, s, c, d) ensures Path(all, w, s, s, c, d) && Path(all, w, s, e, c, d) {
      ReachMono(g, all, w, Config(s, c), Config(s, d));
      assert bypass in all;
      assert Step(all, w, Config(s, d), Config(e, d));
      ReachStep(all, w, Config(s, c), Config(s, d), Config(e, d));
    }
    forall c, d | Path(g, w, s, e, c, d) ensures Path(all, w, s, e, c, d) {
      ReachMono(g, all, w, Config(s, c), Config(e, d));
    }
    forall c, y | Reach(all, w, Config(s, c), y)
      ensures Reach(g, w, Config(s, c), y) || (y.state == e && Path(g, w, s, s, c, y.at))
    {
      var start := Config(s, c);
      var region := iset v: Config | Reach(g, w, start, v) || (v.state == e && Path(g, w, s, s, c, v.at));
      forall u, v | u in region && Step(all, w, u, v) ensures v in region {
        var a :| a in all && a.source == u.state && a.target == v.state && Fires(w, a.on, u.at, v.at);
        if a in g {
          ReachStep(g, w, start, u, v);
        }
      }
      ReachRefl(g, w, start);
      ReachStaysInside(all, w, region, start, y);
    }
  }

  /** Laps through the shared entry: each one returns to it inside one of the branches. */
  ghost predicate Laps(gs: seq<set<Arc>>, w: Text, s: nat, n: nat, c: Cursor, d: Cursor) {
    if n == 0 then c == d
    else exists x, i :: 0 <= i < |gs| && Laps(gs, w, s, n - 1, c, x) && Path(gs[i], w, s, s, x, d)
  }

  ghost predicate ManyLaps(gs: seq<set<Arc>>, w: Text, s: nat, c: Cursor, d: Cursor) {
    exists n: nat :: Laps(gs, w, s, n, c, d)
  }

  ghost predicate Branches(gs: seq<set<Arc>>, s: nat, e: nat, inner: seq<set<nat>>) {
    && |gs| == |inner|
    && (forall i :: 0 <= i < |gs| ==> Fragment(gs[i], s, e, inner[i]))
    && (forall i, j :: 0 <= i < j < |gs| ==> inner[i] !! inner[j])
  }

  ghost predicate IsUnion(g: set<Arc>, gs: seq<set<Arc>>) {
    && (forall i :: 0 <= i < |gs| ==> gs[i] <= g)
    && (forall a :: a in g ==> exists i :: 0 <= i < |gs| && a in gs[i])
  }

  /** Branches that share entry and exit: any number of laps, then one branch runs to the exit. */
  lemma Parallel(g: set<Arc>, gs: seq<set<Arc>>, w: Text, s: nat, e: nat, inner: seq<set<nat>>)
    requires Branches(gs, s, e, inner) && IsUnion(g, gs)
    ensures forall c, d :: Path(g, w, s, s, c, d) <==> ManyLaps(gs, w, s, c, d)
    ensures s != e ==> forall c, d :: Path(g, w, s, e, c, d) <==>
                                      exists x, i :: 0 <= i < |gs| && ManyLaps(gs, w, s, c, x)
                                                     && Path(gs[i], w, s, e, x, d)
  {
    forall c, d | ManyLaps(gs, w, s, c, d) ensures Path(g, w, s, s, c, d) {
      var n: nat :| Laps(gs, w, s, n, c, d);
      LapsReach(g, gs, w, s, n, c, d);
    }
    forall x, i, c, d | 0 <= i < |gs| && ManyLaps(gs, w, s, c, x) && Path(gs[i], w, s, e, x, d)
      ensures Path(g, w, s, e, c, d)
    {
      var n: nat :| Laps(gs, w, s, n, c, x);
      LapsReach(g, gs, w, s, n, c, x);
      ReachMono(gs[i], g, w, Config(s, x), Config(e, d));
      ReachTrans(g, w, Config(s, c), Config(s, x), Config(e, d));
    }
    forall c, d | Path(g, w, s, s, c, d) ensures ManyLaps(gs, w, s, c, d) {
      var n, x := ParallelRegion(g, gs, w, s, e, inner, c, Config(s, d));
      if x != d {
        var i :| 0 <= i < |gs| && Reach(gs[i], w, Config(s, x), Config(s, d));
        assert Path(gs[i], w, s, s, x, d);
        assert Laps(gs, w, s, n + 1, c, d);
      }
    }
    if s != e {
      forall c, d | Path(g, w, s, e, c, d)
        ensures exists x, i :: 0 <= i < |gs| && ManyLaps(gs, w, s, c, x) && Path(gs[i], w, s, e, x, d)
      {
        var n, x := ParallelRegion(g, gs, w, s, e, inner, c, Config(e, d));
        var i :| 0 <= i < |gs| && Reach(gs[i], w, Config(s, x), Config(e, d));
        assert ManyLaps(gs, w, s, c, x) && Path(gs[i], w, s, e, x, d);
      }
    }
  }

  lemma {:induction false} LapsReach(g: set<Arc>, gs: seq<set<Arc>>, w: Text, s: nat, n: nat, c: Cursor, d: Cursor)
    requires Laps(gs, w, s, n, c, d)
    requires forall i :: 0 <= i < |gs| ==> gs[i] <= g
    ensures Path(g, w, s, s, c, d)
  {
    if n == 0 {
      ReachRefl(g, w, Config(s, c));
    } else {
      var x, i :| 0 <= i < |gs| && Laps(gs, w, s, n - 1, c, x) && Path(gs[i], w, s, s, x, d);
      LapsReach(g, gs, w, s, n - 1, c, x);
      ReachMono(gs[i], g, w, Config(s, x), Config(s, d));
      ReachTrans(g, w, Config(s, c), Config(s, x), Config(s, d));
    }
  }

  /** A configuration some branch can be in after `n` laps that ended at cursor `x`. */
  ghost predicate InLap(gs: seq<set<Arc>>, w: Text, s: nat, c: Cursor, v: Config, n: nat, x: Cursor) {
    && Laps(gs, w, s, n, c, x)
    && (v == Config(s, x) || exists i :: 0 <= i < |gs| && Reach(gs[i], w, Config(s, x), v))
  }

  ghost predicate AnyLap(gs: seq<set<Arc>>, w: Text, s: nat, c: Cursor, v: Config) {
    exists n: nat, x :: InLap(gs, w, s, c, v, n, x)
  }

  lemma ParallelRegion(g: set<Arc>, gs: seq<set<Arc>>, w: Text, s: nat, e: nat, inner: seq<set<nat>>, c: Cursor,
                       y: Config)
    returns (n: nat, x: Cursor)
    requires Branches(gs, s, e, inner) && IsUnion(g, gs) && Reach(g, w, Config(s, c), y)
    ensures InLap(gs, w, s, c, y, n, x)
  {
    var region := iset v: Config | AnyLap(gs, w, s, c, v);
    forall u, v | u in region && Step(g, w, u, v) ensures v in region {
      var k: nat, z :| InLap(gs, w, s, c, u, k, z);
      var k', z' := ParallelStep(g, gs, w, s, e, inner, c, u, v, k, z);
    }
    assert Laps(gs, w, s, 0, c, c);
    assert InLap(gs, w, s, c, Config(s, c), 0, c);
    ReachStaysInside(g, w, region, Config(s, c), y);
    n, x :| InLap(gs, w, s, c, y, n, x);
  }

  lemma ParallelStep(g: set<Arc>, gs: seq<set<Arc>>, w: Text, s: nat, e: nat, inner: seq<set<nat>>, c: Cursor,
                     u: Config, v: Config, k: nat, z: Cursor)
    returns (n: nat, x: Cursor)
    requires Branches(gs, s, e, inner) && IsUnion(g, gs)
    requires InLap(gs, w, s, c, u, k, z) && Step(g, w, u, v)
    ensures InLap(gs, w, s, c, v, n, x)
  {
    var a :| a in g && a.source == u.state && a.target == v.state && Fires(w, a.on, u.at, v.at);
    var j :| 0 <= j < |gs| && a in gs[j];
    assert Step(gs[j], w, u, v);
    if u.state == s {
      n, x := EndLap(gs, w, s, c, u, k, z);
      ReachRefl(gs[j], w, u);
      ReachStep(gs[j], w, u, u, v);
    } else {
      n, x := k, z;
      var i :| 0 <= i < |gs| && Reach(gs[i], w, Config(s, z), u);
      StaysInFragment(gs[i], w, s, e, inner[i], z, u);
      assert i == j;
      ReachStep(gs[i], w, Config(s, z), u, v);
    }
  }

  /** Being back at the entry completes a lap. */
  lemma EndLap(gs: seq<set<Arc>>, w: Text, s: nat, c: Cursor, u: Config, k: nat, z: Cursor) returns (n: nat, x: Cursor)
    requires InLap(gs, w, s, c, u, k, z) && u.state == s
    ensures Laps(gs, w, s, n, c, x) && u == Config(s, x)
  {
    if u == Config(s, z) {
      n, x := k, z;
    } else {
      n, x := k + 1, u.at;
      var i :| 0 <= i < |gs| && Reach(gs[i], w, Config(s, z), u);
      assert Path(gs[i], w, s, s, z, u.at);
    }
  }

  /** Rounds of a loop: each one either returns to the entry early or runs through the body. */
  ghost predicate Rounds(g: set<Arc>, w: Text, s: nat, l: nat, n: nat, c: Cursor, d: Cursor) {
    if n == 0 then c == d
    else exists x :: Rounds(g, w, s, l, n - 1, c, x) && (Path(g, w, s, s, x, d) || Path(g, w, s, l, x, d))
  }

  ghost predicate ManyRounds(g: set<Arc>, w: Text, s: nat, l: nat, c: Cursor, d: Cursor) {
    exists n: nat :: Rounds(g, w, s, l, n, c, d)
  }

  /** A body from `s` to `l` closed by epsilon edges `l -> s` and `s -> e`. */
  lemma Loop(g: set<Arc>, w: Text, s: nat, l: nat, e: nat, inner: set<nat>)
    requires Fragment(g, s, l, inner) && e !in inner && e != s && e != l
    ensures Fragment(g + {Arc(s, Free, e), Arc(l, Free, s)}, s, e, inner + {l})
    ensures forall c, d :: Path(g + {Arc(s, Free, e), Arc(l, Free, s)}, w, s, s, c, d) <==> ManyRounds(g, w, s, l, c, d)
    ensures forall c, d :: Path(g + {Arc(s, Free, e), Arc(l, Free, s)}, w, s, e, c, d) <==> ManyRounds(g, w, s, l, c, d)
  {
    var leave, back := Arc(s, Free, e), Arc(l, Free, s);
    var all := g + {leave, back};
    forall c, d | ManyRounds(g, w, s, l, c, d) ensures Path(all, w, s, s, c, d) && Path(all, w, s, e, c, d) {
      var n: nat :| Rounds(g, w, s, l, n, c, d);
      RoundsReach(g, all, w, s, l, n, c, d);
      assert leave in all;
      assert Step(all, w, Config(s, d), Config(e, d));
      ReachStep(all, w, Config(s, c), Config(s, d), Config(e, d));
    }
    forall c, d | Path(all, w, s, s, c, d) ensures ManyRounds(g, w, s, l, c, d) {
      LoopRegion(g, all, w, s, l, e, inner, c, Config(s, d));
    }
    forall c, d | Path(all, w, s, e, c, d) ensures ManyRounds(g, w, s, l, c, d) {
      LoopRegion(g, all, w, s, l, e, inner, c, Config(e, d));
    }
  }

  lemma {:induction false} RoundsReach(g: set<Arc>, all: set<Arc>, w: Text, s: nat, l: nat, n: nat, c: Cursor,
                                       d: Cursor)
    requires Rounds(g, w, s, l, n, c, d) && g <= all && Arc(l, Free, s) in all
    ensures Path(all, w, s, s, c, d)
  {
    if n == 0 {
      ReachRefl(all, w, Config(s, c));
    } else {
      var x :| Rounds(g, w, s, l, n - 1, c, x) && (Path(g, w, s, s, x, d) || Path(g, w, s, l, x, d));
      RoundsReach(g, all, w, s, l, n - 1, c, x);
      if Path(g, w, s, s, x, d) {
        ReachMono(g, all, w, Config(s, x), Config(s, d));
      } else {
        ReachMono(g, all, w, Config(s, x), Config(l, d));
        assert Step(all, w, Config(l, d), Config(s, d));
        ReachStep(all, w, Config(s, x), Config(l, d), Config(s, d));
      }
      ReachTrans(all, w, Config(s, c), Config(s, x), Config(s, d));
    }
  }

  ghost predicate InRound(g: set<Arc>, w: Text, s: nat, l: nat, e: nat, c: Cursor, v: Config, n: nat, x: Cursor) {
    Rounds(g, w, s, l, n, c, x) && (v == Config(e, x) || Reach(g, w, Config(s, x), v))
  }

  ghost predicate AnyRound(g: set<Arc>, w: Text, s: nat, l: nat, e: nat, c: Cursor, v: Config) {
    exists n: nat, x :: InRound(g, w, s, l, e, c, v, n, x)
  }

  lemma LoopRegion(g: set<Arc>, all: set<Arc>, w: Text, s: nat, l: nat, e: nat, inner: set<nat>, c: Cursor, y: Config)
    requires Fragment(g, s, l, inner) && e !in inner && e != s && e != l
    requires all == g + {Arc(s, Free, e), Arc(l, Free, s)}
    requires Reach(all, w, Config(s, c), y) && (y.state == s || y.state == e)
    ensures ManyRounds(g, w, s, l, c, y.at)
  {
    var region := iset v: Config | AnyRound(g, w, s, l, e, c, v);
    forall u, v | u in region && Step(all, w, u, v) ensures v in region {
      var k: nat, z :| InRound(g, w, s, l, e, c, u, k, z);
      var k', z' := LoopStep(g, all, w, s, l, e, inner, c, u, v, k, z);
    }
    assert Rounds(g, w, s, l, 0, c, c);
    ReachRefl(g, w, Config(s, c));
    assert InRound(g, w, s, l, e, c, Config(s, c), 0, c);
    ReachStaysInside(all, w, region, Config(s, c), y);
    var k: nat, z :| InRound(g, w, s, l, e, c, y, k, z);
    if y != Config(e, z) {
      StaysInFragment(g, w, s, l, inner, z, y);
      assert Path(g, w, s, s, z, y.at);
      assert Rounds(g, w, s, l, k + 1, c, y.at);
    }
  }

  lemma LoopStep(g: set<Arc>, all: set<Arc>, w: Text, s: nat, l: nat, e: nat, inner: set<nat>, c: Cursor, u: Config,
                 v: Config, k: nat, z: Cursor)
    returns (n: nat, x: Cursor)
    requires Fragment(g, s, l, inner) && e !in inner && e != s && e != l
    requires all == g + {Arc(s, Free, e), Arc(l, Free, s)}
    requires InRound(g, w, s, l, e, c, u, k, z) && Step(all, w, u, v)
    ensures InRound(g, w, s, l, e, c, v, n, x)
  {
    var a :| a in all && a.source == u.state && a.target == v.state && Fires(w, a.on, u.at, v.at);
    assert u != Config(e, z);
    StaysInFragment(g, w, s, l, inner, z, u);
    if a in g {
      n, x := k, z;
      ReachStep(g, w, Config(s, z), u, v);
    } else {
      n, x := k + 1, u.at;
      assert Path(g, w, s, u.state, z, u.at) by { assert u == Config(u.state, u.at); }
      assert Rounds(g, w, s, l, n, c, x);
      ReachRefl(g, w, v);
    }
  }
}
