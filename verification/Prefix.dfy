/**
 Necessary prefixes (rustmatch/src/prefilter.rs:651-762), and the proof that every text the
 compiled pattern consumes begins with them.
 */
module Prefix {
  import opened Base
  import opened Assertions
  import opened HirSyntax
  import opened Graph
  import opened CompiledMeaning
  import opened Emission

  const MIN_LITERAL_UNITS: nat := 3
  const MAX_LITERAL_UNITS: nat := 32

  function AppendBounded(output: seq<U16>, suffix: seq<U16>): seq<U16> {
    var available := if |output| < MAX_LITERAL_UNITS then MAX_LITERAL_UNITS - |output| else 0;
    output + Take(suffix, available)
  }

  function Take(s: seq<U16>, n: nat): seq<U16> {
    if |s| <= n then s else s[..n]
  }

  /** The text every match consumes, cut off at 32 units, when all matches consume the same. */
  function ExactLiteral(h: Hir): Option<seq<U16>>
    decreases h, 0
  {
    match h
    case Epsilon => Some([])
    case Symbol(u) => Some([u])
    case Sequence(items) => ExactAll(items, [])
    case Alternation(branches) => if branches == [] then None else ExactSame(branches[1..], ExactLiteral(branches[0]))
    case Repeat(body, min, max) =>
      if max == Some(min) then
        var unit := ExactLiteral(body);
        if unit.None? then None else Some(RepeatBounded([], unit.value, min))
      else None
    case _ => None
  }

  function ExactAll(items: seq<Hir>, literal: seq<U16>): Option<seq<U16>>
    decreases items, 1
  {
    if items == [] then Some(literal)
    else
      var e := ExactLiteral(items[0]);
      if e.None? then None else ExactAll(items[1..], AppendBounded(literal, e.value))
  }

  function ExactSame(branches: seq<Hir>, first: Option<seq<U16>>): Option<seq<U16>>
    decreases branches, 1
  {
    if first.None? then None
    else if branches == [] then first
    else if ExactLiteral(branches[0]) == first then ExactSame(branches[1..], first)
    else None
  }

  function RepeatBounded(output: seq<U16>, unit: seq<U16>, count: nat): seq<U16>
    decreases count
  {
    if count == 0 then output else RepeatBounded(AppendBounded(output, unit), unit, count - 1)
  }

  /** The same loop with the early exit `necessary_prefix` takes once 32 units are reached. */
  function RepeatUntilFull(output: seq<U16>, unit: seq<U16>, count: nat): seq<U16>
    decreases count
  {
    if count == 0 then output
    else
      var longer := AppendBounded(output, unit);
      if |longer| == MAX_LITERAL_UNITS then longer else RepeatUntilFull(longer, unit, count - 1)
  }

  function NecessaryPrefix(h: Hir): seq<U16>
    decreases h, 0
  {
    match h
    case Symbol(u) => [u]
    case Sequence(items) => PrefixOfItems(items, [])
    case Alternation(branches) => if branches == [] then []
    else SharedPrefix(branches[1..], NecessaryPrefix(branches[0]))
    case Repeat(body, min, max) =>
      if min == 0 then []
      else
        var literal := ExactLiteral(body);
        if literal.Some? then RepeatUntilFull([], literal.value, min) else NecessaryPrefix(body)
    case _ => []
  }

  function PrefixOfItems(items: seq<Hir>, prefix: seq<U16>): seq<U16>
    decreases items, 1
  {
    if items == [] then prefix
    else
      var longer := AppendBounded(prefix, NecessaryPrefix(items[0]));
      if ExactLiteral(items[0]).None? || |longer| == MAX_LITERAL_UNITS then longer
      else PrefixOfItems(items[1..], longer)
  }

  function SharedPrefix(branches: seq<Hir>, prefix: seq<U16>): (r: seq<U16>)
    ensures r <= prefix
    decreases branches, 1
  {
    if branches == [] then prefix
    else
      var shared := CommonPrefix(prefix, NecessaryPrefix(branches[0]));
      if shared == [] then shared else SharedPrefix(branches[1..], shared)
  }

  function CommonPrefix(a: seq<U16>, b: seq<U16>): (r: seq<U16>)
    ensures r <= a && r <= b
  {
    if a == [] || b == [] || a[0] != b[0] then []
    else
      var rest := CommonPrefix(a[1..], b[1..]);
      assert a == [a[0]] + a[1..] && b == [a[0]] + b[1..];
      [a[0]] + rest
  }

  // ---- Text consumed between two cursors -----------------------------------------------

  ghost predicate Forward(w: Text, c: Cursor, d: Cursor) {
    c.pos <= d.pos && (d == c || d.pos <= |w|)
  }

  ghost function Consumed(w: Text, c: Cursor, d: Cursor): seq<U16>
    requires Forward(w, c, d)
  {
    if d.pos <= |w| then w[c.pos..d.pos] else []
  }

  /** Matching only moves forward, and never past the end of the text. */
  lemma ExitsForward(h: Hir, w: Text, c: Cursor, d: Cursor)
    requires Exits(h, w, c, d)
    ensures Forward(w, c, d)
  {
    EmitExact(h, w, 0, 1, 2);
    var g := ArcSet(Emit(h, 0, 1, 2).arcs);
    assert Path(g, w, 0, 1, c, d);
    var region := iset y: Config | Forward(w, c, y.at);
    ReachStaysInside(g, w, region, Config(0, c), Config(1, d));
  }

  lemma ConsumedJoin(w: Text, c: Cursor, x: Cursor, d: Cursor)
    requires Forward(w, c, x) && Forward(w, x, d)
    ensures Forward(w, c, d) && Consumed(w, c, d) == Consumed(w, c, x) + Consumed(w, x, d)
  {
  }

  lemma AppendBoundedTake(a: seq<U16>, b: seq<U16>)
    ensures AppendBounded(Take(a, MAX_LITERAL_UNITS), Take(b, MAX_LITERAL_UNITS)) == Take(a + b, MAX_LITERAL_UNITS)
  {
  }

  // ---- Exact literals ------------------------------------------------------------------

  lemma {:induction false} ExactNotReentrant(h: Hir)
    requires ExactLiteral(h).Some?
    ensures !Reentrant(h)
    decreases h, 0
  {
    match h
    case Sequence(items) => if items != [] { ExactNotReentrant(items[0]); }
    case Alternation(branches) =>
      ExactNotReentrant(branches[0]);
      ExactSameNotReentrant(branches[1..], ExactLiteral(branches[0]));
      assert forall b :: b in branches ==> b == branches[0] || b in branches[1..];
    case Repeat(body, min, max) => ExactNotReentrant(body);
    case _ =>
  }

  lemma {:induction false} ExactSameNotReentrant(branches: seq<Hir>, first: Option<seq<U16>>)
    requires ExactSame(branches, first).Some?
    ensures forall b :: b in branches ==> !Reentrant(b) && ExactLiteral(b) == first
    ensures ExactSame(branches, first) == first
    decreases branches, 1
  {
    if branches != [] {
      ExactNotReentrant(branches[0]);
      ExactSameNotReentrant(branches[1..], first);
    }
  }

  /** An exact literal is the first 32 units of whatever a match consumes. */
  lemma {:induction false} ExactSound(h: Hir, w: Text, c: Cursor, d: Cursor)
    requires ExactLiteral(h).Some? && Exits(h, w, c, d)
    ensures Forward(w, c, d) && ExactLiteral(h).value == Take(Consumed(w, c, d), MAX_LITERAL_UNITS)
    decreases h, 0
  {
    ExitsForward(h, w, c, d);
    match h
    case Sequence(items) =>
      assert ExitsAll(items, w, c, d);
      assert Consumed(w, c, c) == [];
      ExactAllSound(items, [], w, c, c, d);
    case Alternation(branches) =>
      ExactNotReentrant(h);
      var x, b := AlternationWitness(branches, w, c, d);
      NotReentrant(h, w, c, x);
      ExactSameNotReentrant(branches[1..], ExactLiteral(branches[0]));
      assert b == branches[0] || b in branches[1..];
      ExactSound(b, w, c, d);
    case Repeat(body, min, max) =>
      var x := RepeatWitness(body, min, max, w, c, d);
      assert ExitsTail(body, min, max, w, x, d);
      assert Consumed(w, c, c) == [];
      ExactTimesSound(body, min, [], w, c, c, d);
    case _ =>
  }

  lemma {:induction false} ExactAllSound(items: seq<Hir>, literal: seq<U16>, w: Text, c: Cursor, m: Cursor, d: Cursor)
    requires Forward(w, c, m) && literal == Take(Consumed(w, c, m), MAX_LITERAL_UNITS)
    requires ExactAll(items, literal).Some? && ExitsAll(items, w, m, d)
    ensures Forward(w, c, d) && ExactAll(items, literal).value == Take(Consumed(w, c, d), MAX_LITERAL_UNITS)
    decreases items, 1
  {
    if items != [] {
      var x := ExitsAllWitness(items, w, m, d);
      ExactSound(items[0], w, m, x);
      ConsumedJoin(w, c, m, x);
      AppendBoundedTake(Consumed(w, c, m), Consumed(w, m, x));
      ExactAllSound(items[1..], AppendBounded(literal, ExactLiteral(items[0]).value), w, c, x, d);
    }
  }

  lemma {:induction false} ExactTimesSound(body: Hir, count: nat, literal: seq<U16>, w: Text, c: Cursor, m: Cursor,
                                           d: Cursor)
    requires Forward(w, c, m) && literal == Take(Consumed(w, c, m), MAX_LITERAL_UNITS)
    requires ExactLiteral(body).Some? && ExitsTimes(body, count, w, m, d)
    ensures Forward(w, c, d)
            && RepeatBounded(literal, ExactLiteral(body).value, count) == Take(Consumed(w, c, d), MAX_LITERAL_UNITS)
    decreases body, 1, count
  {
    if count > 0 {
      var x := ExitsTimesWitness(body, count, w, m, d);
      ExactSound(body, w, m, x);
      ConsumedJoin(w, c, m, x);
      AppendBoundedTake(Consumed(w, c, m), Consumed(w, m, x));
      ExactTimesSound(body, count - 1, AppendBounded(literal, ExactLiteral(body).value), w, c, x, d);
    }
  }

  lemma ExitsTimesWitness(h: Hir, n: nat, w: Text, c: Cursor, d: Cursor) returns (x: Cursor)
    requires n > 0 && ExitsTimes(h, n, w, c, d)
    ensures Exits(h, w, c, x) && ExitsTimes(h, n - 1, w, x, d)
  {
    x :| Exits(h, w, c, x) && ExitsTimes(h, n - 1, w, x, d);
  }

  lemma {:induction false} ExitsTimesForward(h: Hir, n: nat, w: Text, c: Cursor, d: Cursor)
    requires ExitsTimes(h, n, w, c, d)
    ensures Forward(w, c, d)
  {
    if n > 0 {
      var x := ExitsTimesWitness(h, n, w, c, d);
      ExitsForward(h, w, c, x);
      ExitsTimesForward(h, n - 1, w, x, d);
    }
  }

  lemma {:induction false} ExitsAllForward(hs: seq<Hir>, w: Text, c: Cursor, d: Cursor)
    requires ExitsAll(hs, w, c, d)
    ensures Forward(w, c, d)
  {
    if hs != [] {
      var x := ExitsAllWitness(hs, w, c, d);
      ExitsForward(hs[0], w, c, x);
      ExitsAllForward(hs[1..], w, x, d);
    }
  }

  // ---- Necessary prefixes --------------------------------------------------------------

  lemma {:induction false} PrefixNotReentrant(h: Hir)
    requires NecessaryPrefix(h) != []
    ensures !Reentrant(h)
    decreases h, 0
  {
    match h
    case Sequence(items) =>
      if ExactLiteral(items[0]).Some? {
        ExactNotReentrant(items[0]);
      } else {
        PrefixNotReentrant(items[0]);
      }
    case Alternation(branches) =>
      SharedPrefixAll(branches[1..], NecessaryPrefix(branches[0]));
      forall b | b in branches ensures !Reentrant(b) {
        assert b == branches[0] || b in branches[1..];
        PrefixNotReentrant(b);
      }
    case Repeat(body, min, max) =>
      if ExactLiteral(body).Some? {
        ExactNotReentrant(body);
      } else {
        PrefixNotReentrant(body);
      }
    case _ =>
  }

  lemma {:induction false} SharedPrefixAll(branches: seq<Hir>, prefix: seq<U16>)
    ensures SharedPrefix(branches, prefix) <= prefix
    ensures SharedPrefix(branches, prefix) != [] ==>
              forall b :: b in branches ==> SharedPrefix(branches, prefix) <= NecessaryPrefix(b)
    decreases branches, 1
  {
    if branches != [] {
      var shared := CommonPrefix(prefix, NecessaryPrefix(branches[0]));
      if shared != [] {
        SharedPrefixAll(branches[1..], shared);
      }
    }
  }

  /** Whatever the compiled pattern consumes begins with the necessary prefix. */
  lemma {:induction false} PrefixSound(h: Hir, w: Text, c: Cursor, d: Cursor)
    requires Exits(h, w, c, d)
    ensures Forward(w, c, d) && NecessaryPrefix(h) <= Consumed(w, c, d)
    decreases h, 0
  {
    ExitsForward(h, w, c, d);
    match h
    case Sequence(items) =>
      assert ExitsAll(items, w, c, d);
      assert Consumed(w, c, c) == [];
      PrefixItemsSound(items, [], w, c, c, d);
    case Alternation(branches) =>
      if NecessaryPrefix(h) != [] {
        PrefixNotReentrant(h);
        var x, b := AlternationWitness(branches, w, c, d);
        NotReentrant(h, w, c, x);
        SharedPrefixAll(branches[1..], NecessaryPrefix(branches[0]));
        assert b == branches[0] || b in branches[1..];
        PrefixSound(b, w, c, d);
      }
    case Repeat(body, min, max) =>
      if min > 0 {
        PrefixRepeatSound(body, min, max, w, c, d);
      }
    case _ =>
  }

  lemma AppendedPrefix(a: seq<U16>, b: seq<U16>, p: seq<U16>)
    requires p <= b
    ensures AppendBounded(Take(a, MAX_LITERAL_UNITS), p) <= a + b
  {
  }

  lemma {:induction false} PrefixItemsSound(items: seq<Hir>, prefix: seq<U16>, w: Text, c: Cursor, m: Cursor, d: Cursor)
    requires Forward(w, c, m) && prefix == Take(Consumed(w, c, m), MAX_LITERAL_UNITS) && ExitsAll(items, w, m, d)
    ensures Forward(w, c, d) && PrefixOfItems(items, prefix) <= Consumed(w, c, d)
    decreases items, 1
  {
    hide Consumed, Take, AppendBounded, NecessaryPrefix, ExactLiteral;
    ExitsAllForward(items, w, m, d);
    ConsumedJoin(w, c, m, d);
    if items == [] {
      TakeIsPrefix(Consumed(w, c, m));
    } else {
      var x := ExitsAllWitness(items, w, m, d);
      PrefixSound(items[0], w, m, x);
      ConsumedJoin(w, c, m, x);
      ExitsAllForward(items[1..], w, x, d);
      ConsumedJoin(w, c, x, d);
      AppendedPrefix(Consumed(w, c, m), Consumed(w, m, x), NecessaryPrefix(items[0]));
      var longer := AppendBounded(prefix, NecessaryPrefix(items[0]));
      if ExactLiteral(items[0]).Some? && |longer| != MAX_LITERAL_UNITS {
        ExactSound(items[0], w, m, x);
        ExactIsPrefix(items[0]);
        AppendBoundedTake(Consumed(w, c, m), Consumed(w, m, x));
        PrefixItemsSound(items[1..], longer, w, c, x, d);
      }
    }
  }

  lemma SliceOfSlice(w: Text, start: nat, end: nat, k: nat)
    requires start + k <= end <= |w|
    ensures w[start..end][..k] == w[start..start + k]
  {
  }

  lemma TakeIsPrefix(s: seq<U16>)
    ensures Take(s, MAX_LITERAL_UNITS) <= s
  {
  }

  lemma TailForward(body: Hir, min: U16, max: Option<U16>, w: Text, c: Cursor, d: Cursor)
    requires ExitsTail(body, min, max, w, c, d)
    ensures Forward(w, c, d)
  {
    if max != Some(min) {
      var rest: Option<U16> := if max.Some? then Some(max.value - min) else None;
      assert ExitsTail(body, 0, rest, w, c, d);
      NoneRequired(body, rest, w, c, d);
      ExitsForward(Repeat(body, 0, rest), w, c, d);
    }
  }

  lemma {:induction false} PrefixRepeatSound(body: Hir, min: U16, max: Option<U16>, w: Text, c: Cursor, d: Cursor)
    requires min > 0 && Exits(Repeat(body, min, max), w, c, d)
    ensures Forward(w, c, d) && NecessaryPrefix(Repeat(body, min, max)) <= Consumed(w, c, d)
    decreases body, 2
  {
    var x := RepeatWitness(body, min, max, w, c, d);
    ExitsTimesForward(body, min, w, c, x);
    TailForward(body, min, max, w, x, d);
    ConsumedJoin(w, c, x, d);
    if ExactLiteral(body).Some? {
      assert Consumed(w, c, c) == [];
      ExactTimesSound(body, min, [], w, c, c, x);
      UntilFullIsBounded([], ExactLiteral(body).value, min);
    } else {
      var y := ExitsTimesWitness(body, min, w, c, x);
      PrefixSound(body, w, c, y);
      ExitsTimesForward(body, min - 1, w, y, x);
      ConsumedJoin(w, c, y, x);
    }
  }

  lemma {:induction false} UntilFullIsBounded(output: seq<U16>, unit: seq<U16>, count: nat)
    requires |output| <= MAX_LITERAL_UNITS
    ensures RepeatUntilFull(output, unit, count) == RepeatBounded(output, unit, count)
    decreases count
  {
    if count > 0 {
      var longer := AppendBounded(output, unit);
      if |longer| == MAX_LITERAL_UNITS {
        FullStaysFull(longer, unit, count - 1);
      } else {
        UntilFullIsBounded(longer, unit, count - 1);
      }
    }
  }

  lemma {:induction false} FullStaysFull(output: seq<U16>, unit: seq<U16>, count: nat)
    requires |output| == MAX_LITERAL_UNITS
    ensures RepeatBounded(output, unit, count) == output
    decreases count
  {
    if count > 0 {
      assert AppendBounded(output, unit) == output;
      FullStaysFull(output, unit, count - 1);
    }
  }

  /** On expressions with an exact literal the two analyses agree. */
  lemma {:induction false} ExactIsPrefix(h: Hir)
    requires ExactLiteral(h).Some?
    ensures NecessaryPrefix(h) == ExactLiteral(h).value
    decreases h, 0
  {
    match h
    case Sequence(items) => ExactAllIsPrefix(items, []);
    case Alternation(branches) =>
      ExactIsPrefix(branches[0]);
      ExactSameNotReentrant(branches[1..], ExactLiteral(branches[0]));
      ExactSameIsShared(branches[1..], ExactLiteral(branches[0]).value);
    case Repeat(body, min, max) => UntilFullIsBounded([], ExactLiteral(body).value, min);
    case _ =>
  }

  lemma {:induction false} ExactAllIsPrefix(items: seq<Hir>, literal: seq<U16>)
    requires ExactAll(items, literal).Some? && |literal| <= MAX_LITERAL_UNITS
    ensures PrefixOfItems(items, literal) == ExactAll(items, literal).value
    decreases items, 1
  {
    if items != [] {
      ExactIsPrefix(items[0]);
      var longer := AppendBounded(literal, NecessaryPrefix(items[0]));
      if |longer| == MAX_LITERAL_UNITS {
        ExactAllFull(items[1..], longer);
      } else {
        ExactAllIsPrefix(items[1..], longer);
      }
    }
  }

  lemma {:induction false} ExactAllFull(items: seq<Hir>, literal: seq<U16>)
    requires ExactAll(items, literal).Some? && |literal| == MAX_LITERAL_UNITS
    ensures ExactAll(items, literal).value == literal
  {
    if items != [] {
      assert AppendBounded(literal, ExactLiteral(items[0]).value) == literal;
      ExactAllFull(items[1..], literal);
    }
  }

  lemma {:induction false} ExactSameIsShared(branches: seq<Hir>, literal: seq<U16>)
    requires forall b :: b in branches ==> ExactLiteral(b) == Some(literal)
    ensures SharedPrefix(branches, literal) == literal
    decreases branches, 1
  {
    if branches != [] {
      ExactIsPrefix(branches[0]);
      CommonPrefixSame(literal);
      ExactSameIsShared(branches[1..], literal);
    }
  }

  lemma {:induction false} CommonPrefixSame(s: seq<U16>)
    ensures CommonPrefix(s, s) == s
  {
    if s != [] {
      CommonPrefixSame(s[1..]);
    }
  }

  // ---- Nothing is given away needlessly ------------------------------------------------

  lemma {:induction false} CommonPrefixIsGreatest(a: seq<U16>, b: seq<U16>, p: seq<U16>)
    requires p <= a && p <= b
    ensures p <= CommonPrefix(a, b)
  {
    if p != [] {
      assert a[0] == p[0] == b[0];
      CommonPrefixIsGreatest(a[1..], b[1..], p[1..]);
      assert p == [p[0]] + p[1..];
    }
  }

  /** An alternation keeps the longest prefix all of its branches have in common. */
  lemma {:induction false} SharedPrefixIsGreatest(branches: seq<Hir>, prefix: seq<U16>, p: seq<U16>)
    requires p <= prefix && forall b :: b in branches ==> p <= NecessaryPrefix(b)
    ensures p <= SharedPrefix(branches, prefix)
    decreases branches
  {
    hide NecessaryPrefix, CommonPrefix;
    if branches != [] {
      assert branches[0] in branches;
      CommonPrefixIsGreatest(prefix, NecessaryPrefix(branches[0]), p);
      var shared := CommonPrefix(prefix, NecessaryPrefix(branches[0]));
      if shared != [] {
        SharedPrefixIsGreatest(branches[1..], shared, p);
      }
    }
  }

  ghost predicate Spelled(items: seq<Hir>, text: seq<U16>) {
    |items| == |text| && forall k :: 0 <= k < |items| ==> items[k] == Symbol(text[k])
  }

  lemma {:induction false} PlainTextFrom(items: seq<Hir>, text: seq<U16>, done: seq<U16>)
    requires Spelled(items, text)
    ensures ExactAll(items, Take(done, MAX_LITERAL_UNITS)) == Some(Take(done + text, MAX_LITERAL_UNITS))
    decreases |items|
  {
    if items == [] {
      assert done + text == done;
    } else {
      AppendBoundedTake(done, [text[0]]);
      PlainTextFrom(items[1..], text[1..], done + [text[0]]);
      assert (done + [text[0]]) + text[1..] == done + text;
    }
  }

  /** A plain text is its own prefix, up to 32 units. */
  lemma PlainTextPrefix(items: seq<Hir>, text: seq<U16>)
    requires Spelled(items, text)
    ensures ExactLiteral(Sequence(items)) == Some(Take(text, MAX_LITERAL_UNITS))
    ensures NecessaryPrefix(Sequence(items)) == Take(text, MAX_LITERAL_UNITS)
  {
    PlainTextFrom(items, text, []);
    assert [] + text == text && Take([], MAX_LITERAL_UNITS) == [];
    ExactIsPrefix(Sequence(items));
  }
}
