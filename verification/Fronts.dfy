/**
 What a forward scan computes: the states reachable at each text position from one start,
 and how one position's states determine the next position's.
 */
module Fronts {
  import opened Base
  import opened Assertions
  import opened Graph

  /** The cursor at position `k` of a scan that started at `start`. */
  function At(start: nat, k: nat): Cursor {
    Cursor(k, k > start)
  }

  ghost predicate InFront(g: set<Arc>, w: Text, root: nat, start: nat, k: nat, q: nat) {
    Reach(g, w, Config(root, At(start, start)), Config(q, At(start, k)))
  }

  /** An edge that can be followed at cursor `c` without consuming. */
  ghost predicate Link(g: set<Arc>, w: Text, c: Cursor, p: nat, q: nat) {
    exists a :: a in g && a.source == p && a.target == q && Passes(w, a.on, c)
  }

  const NOWHERE: Cursor := Cursor(0, false)

  /** The edges that can be followed at cursor `c`, as a graph of epsilon edges. */
  ghost function Still(g: set<Arc>, w: Text, c: Cursor): set<Arc> {
    set a | a in g && Passes(w, a.on, c) :: Arc(a.source, Free, a.target)
  }

  /** `q` can be reached from `p` without consuming at cursor `c`. */
  ghost predicate Glides(g: set<Arc>, w: Text, c: Cursor, p: nat, q: nat) {
    Reach(Still(g, w, c), [], Config(p, NOWHERE), Config(q, NOWHERE))
  }

  lemma GlidesRefl(g: set<Arc>, w: Text, c: Cursor, p: nat)
    ensures Glides(g, w, c, p, p)
  {
    ReachRefl(Still(g, w, c), [], Config(p, NOWHERE));
  }

  lemma GlidesLink(g: set<Arc>, w: Text, c: Cursor, p: nat, q: nat, r: nat)
    requires Glides(g, w, c, p, q) && Link(g, w, c, q, r)
    ensures Glides(g, w, c, p, r)
  {
    var a :| a in g && a.source == q && a.target == r && Passes(w, a.on, c);
    assert Arc(q, Free, r) in Still(g, w, c);
    assert Step(Still(g, w, c), [], Config(q, NOWHERE), Config(r, NOWHERE));
    ReachStep(Still(g, w, c), [], Config(p, NOWHERE), Config(q, NOWHERE), Config(r, NOWHERE));
  }

  ghost predicate LinkClosed(g: set<Arc>, w: Text, c: Cursor, states: seq<nat>) {
    forall p, q: nat :: p in states && Link(g, w, c, p, q) ==> q in states
  }

  lemma GlidesStaysInside(g: set<Arc>, w: Text, c: Cursor, states: seq<nat>, p: nat, q: nat)
    requires LinkClosed(g, w, c, states) && p in states && Glides(g, w, c, p, q)
    ensures q in states
  {
    var region := iset v: Config | v.state in states;
    forall u, v | u in region && Step(Still(g, w, c), [], u, v) ensures v in region {
      var a :| a in Still(g, w, c) && a.source == u.state && a.target == v.state && Fires([], a.on, u.at, v.at);
      var b :| b in g && Passes(w, b.on, c) && a == Arc(b.source, Free, b.target);
      assert Link(g, w, c, u.state, v.state);
    }
    ReachStaysInside(Still(g, w, c), [], region, Config(p, NOWHERE), Config(q, NOWHERE));
  }

  lemma GlidesReach(g: set<Arc>, w: Text, c: Cursor, p: nat, q: nat)
    requires Glides(g, w, c, p, q)
    ensures Reach(g, w, Config(p, c), Config(q, c))
  {
    var region := iset v: Config | Reach(g, w, Config(p, c), Config(v.state, c));
    forall u, v | u in region && Step(Still(g, w, c), [], u, v) ensures v in region {
      var a :| a in Still(g, w, c) && a.source == u.state && a.target == v.state && Fires([], a.on, u.at, v.at);
      var b :| b in g && Passes(w, b.on, c) && a == Arc(b.source, Free, b.target);
      assert Step(g, w, Config(u.state, c), Config(v.state, c));
      ReachStep(g, w, Config(p, c), Config(u.state, c), Config(v.state, c));
    }
    ReachRefl(g, w, Config(p, c));
    ReachStaysInside(Still(g, w, c), [], region, Config(p, NOWHERE), Config(q, NOWHERE));
  }

  /** Without assertion edges, gliding is the same at every cursor of every text. */
  lemma PlainGlides(g: set<Arc>, w: Text, c: Cursor, w': Text, c': Cursor)
    requires forall a :: a in g ==> !a.on.Guard?
    ensures Still(g, w, c) == Still(g, w', c')
  {
    forall a: Arc | a.on == Free ensures a in Still(g, w, c) <==> a in Still(g, w', c') {
    }
  }

  // ---- One step of the scan ------------------------------------------------------------

  /** `q` is entered from one of `states` by consuming `u` and then gliding at cursor `c`. */
  ghost predicate Entered(g: set<Arc>, w: Text, c: Cursor, states: seq<nat>, u: U16, q: nat) {
    exists a :: a in g && a.source in states && LabelTakes(a.on, u) && Glides(g, w, c, a.target, q)
  }

  ghost predicate IsFront(g: set<Arc>, w: Text, root: nat, start: nat, k: nat, states: seq<nat>) {
    forall q: nat :: q in states <==> InFront(g, w, root, start, k, q)
  }

  /** Every reachable configuration carries the cursor its position dictates. */
  lemma ReachedCursor(g: set<Arc>, w: Text, root: nat, start: nat, v: Config)
    requires Reach(g, w, Config(root, At(start, start)), v)
    ensures v.at.pos >= start && v.at == At(start, v.at.pos)
  {
    var region := iset y: Config | y.at.pos >= start && y.at == At(start, y.at.pos);
    ReachStaysInside(g, w, region, Config(root, At(start, start)), v);
  }

  lemma FirstFront(g: set<Arc>, w: Text, root: nat, start: nat, states: seq<nat>)
    requires forall q: nat :: q in states <==> Glides(g, w, At(start, start), root, q)
    ensures IsFront(g, w, root, start, start, states)
  {
    var origin := Config(root, At(start, start));
    forall q: nat ensures q in states <==> InFront(g, w, root, start, start, q) {
      if q in states {
        GlidesReach(g, w, At(start, start), root, q);
      }
      if InFront(g, w, root, start, start, q) {
        var region := iset v: Config | v.at.pos > start || (v.at == At(start, start) && v.state in states);
        forall x, y | x in region && Step(g, w, x, y) ensures y in region {
          var a :| a in g && a.source == x.state && a.target == y.state && Fires(w, a.on, x.at, y.at);
          if x.at.pos == start && y.at == x.at {
            assert Link(g, w, x.at, x.state, y.state);
            GlidesLink(g, w, x.at, root, x.state, y.state);
          }
        }
        GlidesRefl(g, w, At(start, start), root);
        ReachStaysInside(g, w, region, origin, Config(q, At(start, start)));
      }
    }
  }

  lemma EnteredInFront(g: set<Arc>, w: Text, root: nat, start: nat, k: nat, states: seq<nat>, q: nat)
    requires start <= k < |w| && IsFront(g, w, root, start, k, states)
    requires Entered(g, w, At(start, k + 1), states, w[k], q)
    ensures InFront(g, w, root, start, k + 1, q)
  {
    var c, origin := At(start, k + 1), Config(root, At(start, start));
    var a :| a in g && a.source in states && LabelTakes(a.on, w[k]) && Glides(g, w, c, a.target, q);
    assert InFront(g, w, root, start, k, a.source);
    assert Step(g, w, Config(a.source, At(start, k)), Config(a.target, c));
    ReachStep(g, w, origin, Config(a.source, At(start, k)), Config(a.target, c));
    GlidesReach(g, w, c, a.target, q);
    ReachTrans(g, w, origin, Config(a.target, c), Config(q, c));
  }

  /** The set-of-states step is exact. */
  lemma NextFront(g: set<Arc>, w: Text, root: nat, start: nat, k: nat, states: seq<nat>, next: seq<nat>)
    requires start <= k < |w| && IsFront(g, w, root, start, k, states)
    requires forall q: nat :: q in next <==> Entered(g, w, At(start, k + 1), states, w[k], q)
    ensures IsFront(g, w, root, start, k + 1, next)
  {
    var c, origin := At(start, k + 1), Config(root, At(start, start));
    forall q: nat ensures q in next <==> InFront(g, w, root, start, k + 1, q) {
      if q in next {
        EnteredInFront(g, w, root, start, k, states, q);
      }
      if InFront(g, w, root, start, k + 1, q) {
        var region := iset v: Config | Reach(g, w, origin, v) && (v.at == c ==> v.state in next);
        forall x, y | x in region && Step(g, w, x, y) ensures y in region {
          ReachStep(g, w, origin, x, y);
          if y.at == c {
            NextFrontStep(g, w, root, start, k, states, next, x, y);
          }
        }
        ReachRefl(g, w, origin);
        ReachStaysInside(g, w, region, origin, Config(q, c));
      }
    }
  }

  lemma NextFrontStep(g: set<Arc>, w: Text, root: nat, start: nat, k: nat, states: seq<nat>, next: seq<nat>,
                      x: Config, y: Config)
    requires start <= k < |w| && IsFront(g, w, root, start, k, states)
    requires forall q: nat :: q in next <==> Entered(g, w, At(start, k + 1), states, w[k], q)
    requires Reach(g, w, Config(root, At(start, start)), x) && Step(g, w, x, y)
    requires y.at == At(start, k + 1) && (x.at == y.at ==> x.state in next)
    ensures y.state in next
  {
    var c := At(start, k + 1);
    var a :| a in g && a.source == x.state && a.target == y.state && Fires(w, a.on, x.at, y.at);
    ReachedCursor(g, w, root, start, x);
    if x.at == c {
      var b :| b in g && b.source in states && LabelTakes(b.on, w[k]) && Glides(g, w, c, b.target, x.state);
      assert Link(g, w, c, x.state, y.state);
      GlidesLink(g, w, c, b.target, x.state, y.state);
      assert Entered(g, w, c, states, w[k], y.state);
    } else {
      assert x.at == At(start, k) && x == Config(x.state, x.at);
      assert InFront(g, w, root, start, k, x.state);
      GlidesRefl(g, w, c, y.state);
      assert Entered(g, w, c, states, w[k], y.state);
    }
  }

  /** A scan that has died stays dead. */
  lemma {:induction false} EmptyFrontStays(g: set<Arc>, w: Text, root: nat, start: nat, k: nat, later: nat, q: nat)
    requires start <= k <= later && IsFront(g, w, root, start, k, [])
    ensures !InFront(g, w, root, start, later, q)
    decreases later - k
  {
    if later == k {
      assert q !in [];
    } else if k >= |w| {
      if InFront(g, w, root, start, later, q) {
        PositionBound(g, w, root, start, k, Config(q, At(start, later)));
      }
    } else {
      NextFront(g, w, root, start, k, [], []);
      EmptyFrontStays(g, w, root, start, k + 1, later, q);
    }
  }

  lemma PositionBound(g: set<Arc>, w: Text, root: nat, start: nat, k: nat, v: Config)
    requires start <= k && k >= |w| && Reach(g, w, Config(root, At(start, start)), v)
    ensures v.at.pos <= k
  {
    var region := iset y: Config | y.at.pos <= k;
    ReachStaysInside(g, w, region, Config(root, At(start, start)), v);
  }
}
