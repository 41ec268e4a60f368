/**
 The intended meaning of an expression, as a relation between cursors.  It restates the
 interpreter the repository's tests use as their oracle (rustmatch/src/engine.rs:1329-1408).
 */
module Meaning {
  import opened Base
  import opened Assertions
  import opened HirSyntax
  import opened Graph

  ghost predicate Matches(h: Hir, w: Text, c: Cursor, d: Cursor)
    decreases h, 0
  {
    match h
    case Never => false
    case Epsilon => c == d
    case Assert(a) => c == d && AssertionMatches(a, w, c)
    case Symbol(u) => c.pos < |w| && w[c.pos] == u && d == Next(c)
    case Predicate(p) => c.pos < |w| && p.Contains(w[c.pos]) && d == Next(c)
    case Sequence(items) => MatchesAll(items, w, c, d)
    case Alternation(branches) => exists b :: b in branches && Matches(b, w, c, d)
    case Repeat(body, min, max) =>
      exists n: nat :: min <= n && (max.Some? ==> n <= max.value) && MatchesTimes(body, n, w, c, d)
  }

  ghost predicate MatchesAll(hs: seq<Hir>, w: Text, c: Cursor, d: Cursor)
    decreases hs, 0
  {
    if hs == [] then c == d
    else exists m :: Matches(hs[0], w, c, m) && MatchesAll(hs[1..], w, m, d)
  }

  ghost predicate MatchesTimes(h: Hir, n: nat, w: Text, c: Cursor, d: Cursor)
    decreases h, n + 1
  {
    if n == 0 then c == d
    else exists m :: Matches(h, w, c, m) && MatchesTimes(h, n - 1, w, m, d)
  }

  // ---- One-step unfoldings ------------------------------------------------------------

  lemma AllWitness(hs: seq<Hir>, w: Text, c: Cursor, d: Cursor) returns (m: Cursor)
    requires hs != [] && MatchesAll(hs, w, c, d)
    ensures Matches(hs[0], w, c, m) && MatchesAll(hs[1..], w, m, d)
  {
    m :| Matches(hs[0], w, c, m) && MatchesAll(hs[1..], w, m, d);
  }

  lemma TimesWitness(h: Hir, n: nat, w: Text, c: Cursor, d: Cursor) returns (m: Cursor)
    requires n > 0 && MatchesTimes(h, n, w, c, d)
    ensures Matches(h, w, c, m) && MatchesTimes(h, n - 1, w, m, d)
  {
    m :| Matches(h, w, c, m) && MatchesTimes(h, n - 1, w, m, d);
  }

  lemma CountWitness(h: Hir, min: U16, max: Option<U16>, w: Text, c: Cursor, d: Cursor) returns (n: nat)
    requires Matches(Repeat(h, min, max), w, c, d)
    ensures min <= n && (max.Some? ==> n <= max.value) && MatchesTimes(h, n, w, c, d)
  {
    n :| min <= n && (max.Some? ==> n <= max.value) && MatchesTimes(h, n, w, c, d);
  }

  lemma OnceIs(h: Hir, w: Text, c: Cursor, d: Cursor)
    ensures MatchesTimes(h, 1, w, c, d) <==> Matches(h, w, c, d)
  {
    if MatchesTimes(h, 1, w, c, d) {
      var m := TimesWitness(h, 1, w, c, d);
    }
    if Matches(h, w, c, d) {
      assert MatchesTimes(h, 0, w, d, d);
    }
  }
}
