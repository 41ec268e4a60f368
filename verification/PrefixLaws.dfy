/**
 What the two literal analyses find (rustmatch/src/prefilter.rs:670-762), in terms of whole
 texts cut off at 32 units: nothing that the branches, items and repetitions give is lost.
 */
module PrefixLaws {
  import opened Base
  import opened HirSyntax
  import opened Prefix
  import opened Database
  import opened LiteralFilter

  function Power(text: seq<U16>, n: nat): seq<U16> {
    if n == 0 then [] else text + Power(text, n - 1)
  }

  function Cut(text: seq<U16>): seq<U16> {
    Take(text, 32)
  }

  ghost predicate AllExact(items: seq<Hir>) {
    forall k :: 0 <= k < |items| ==> ExactLiteral(items[k]).Some?
  }

  /** The exact literals of the items, one after another. */
  function Literals(items: seq<Hir>): seq<U16>
    requires AllExact(items)
  {
    if items == [] then [] else ExactLiteral(items[0]).value + Literals(items[1..])
  }

  // ---- Exact literals ------------------------------------------------------------------

  lemma AppendIsCut(a: seq<U16>, b: seq<U16>)
    ensures |Cut(a)| <= 32 && AppendBounded(Cut(a), b) == Cut(a + b)
  {
  }

  lemma {:induction false} PowerFrom(done: seq<U16>, text: seq<U16>, n: nat)
    ensures RepeatBounded(Cut(done), text, n) == Cut(done + Power(text, n))
    decreases n
  {
    hide AppendBounded, Take;
    if n == 0 {
      assert done + [] == done;
    } else {
      AppendIsCut(done, text);
      PowerFrom(done + text, text, n - 1);
      assert (done + text) + Power(text, n - 1) == done + Power(text, n);
    }
  }

  lemma RepeatedText(text: seq<U16>, n: nat)
    ensures RepeatBounded([], text, n) == RepeatUntilFull([], text, n) == Cut(Power(text, n))
  {
    PowerFrom([], text, n);
    assert [] + Power(text, n) == Power(text, n);
    UntilFullIsBounded([], text, n);
  }

  lemma {:induction false} LiteralsFrom(items: seq<Hir>, done: seq<U16>)
    ensures ExactAll(items, Cut(done)).Some? <==> AllExact(items)
    ensures AllExact(items) ==> ExactAll(items, Cut(done)) == Some(Cut(done + Literals(items)))
    decreases |items|
  {
    hide ExactLiteral, AppendBounded, Take;
    if items == [] {
      assert done + [] == done;
    } else if ExactLiteral(items[0]).Some? {
      var first := ExactLiteral(items[0]).value;
      AppendIsCut(done, first);
      LiteralsFrom(items[1..], done + first);
      assert AllExact(items[1..]) ==> AllExact(items) by {
        assert forall k :: 0 < k < |items| ==> items[k] == items[1..][k - 1];
      }
      if AllExact(items) {
        assert (done + first) + Literals(items[1..]) == done + Literals(items);
      }
    }
  }

  /** A row has an exact literal exactly if all its items do: theirs in a row, cut off. */
  lemma ExactSequence(items: seq<Hir>)
    ensures ExactLiteral(Sequence(items)).Some? <==> AllExact(items)
    ensures AllExact(items) ==> ExactLiteral(Sequence(items)).value == Cut(Literals(items))
  {
    LiteralsFrom(items, []);
    assert AllExact(items) ==> [] + Literals(items) == Literals(items);
  }

  lemma {:induction false} SameFrom(branches: seq<Hir>, text: seq<U16>)
    ensures ExactSame(branches, Some(text)) == Some(text) <==>
            forall k :: 0 <= k < |branches| ==> ExactLiteral(branches[k]) == Some(text)
    ensures ExactSame(branches, Some(text)).Some? ==> ExactSame(branches, Some(text)) == Some(text)
    decreases |branches|
  {
    hide ExactLiteral;
    if branches != [] {
      SameFrom(branches[1..], text);
      assert forall k :: 0 < k < |branches| ==> branches[k] == branches[1..][k - 1];
    }
  }

  /** An alternation has an exact literal exactly if all its branches have that one. */
  lemma ExactAlternation(branches: seq<Hir>, text: seq<U16>)
    ensures ExactLiteral(Alternation(branches)) == Some(text) <==>
            branches != [] && forall k :: 0 <= k < |branches| ==> ExactLiteral(branches[k]) == Some(text)
  {
    if branches != [] && ExactLiteral(branches[0]).Some? {
      SameFrom(branches[1..], ExactLiteral(branches[0]).value);
      assert forall k :: 0 < k < |branches| ==> branches[k] == branches[1..][k - 1];
    }
  }

  /** A repetition has one exactly if its count is fixed and its body has one. */
  lemma ExactRepeat(body: Hir, min: U16, max: Option<U16>)
    ensures ExactLiteral(Repeat(body, min, max)).Some? <==> max == Some(min) && ExactLiteral(body).Some?
    ensures ExactLiteral(Repeat(body, min, max)).Some? ==>
              ExactLiteral(Repeat(body, min, max)).value == Cut(Power(ExactLiteral(body).value, min))
  {
    if ExactLiteral(body).Some? {
      RepeatedText(ExactLiteral(body).value, min);
    }
  }

  // ---- Necessary prefixes --------------------------------------------------------------

  /**
   A row's prefix is what its leading exact items spell, and then the prefix of the first item
   that is not exact.  What stands behind that item does not matter.
   */
  lemma PrefixSequence(exact: seq<Hir>, h: Hir, behind: seq<Hir>)
    requires AllExact(exact) && ExactLiteral(h).None?
    ensures NecessaryPrefix(Sequence(exact + [h] + behind)) == Cut(Literals(exact) + NecessaryPrefix(h))
  {
    PrefixFrom(exact, h, behind, []);
    assert [] + (Literals(exact) + NecessaryPrefix(h)) == Literals(exact) + NecessaryPrefix(h);
  }

  lemma {:induction false} PrefixFrom(exact: seq<Hir>, h: Hir, behind: seq<Hir>, done: seq<U16>)
    requires AllExact(exact) && ExactLiteral(h).None? && |done| < 32
    ensures PrefixOfItems(exact + [h] + behind, Cut(done)) == Cut(done + (Literals(exact) + NecessaryPrefix(h)))
    decreases |exact|
  {
    hide ExactLiteral, NecessaryPrefix, AppendBounded, Take;
    var items := exact + [h] + behind;
    if exact == [] {
      assert items[0] == h;
      AppendIsCut(done, NecessaryPrefix(h));
      assert Literals(exact) + NecessaryPrefix(h) == NecessaryPrefix(h);
    } else {
      var first := ExactLiteral(exact[0]).value;
      assert items[0] == exact[0] && items[1..] == exact[1..] + [h] + behind;
      ExactIsPrefix(exact[0]);
      AppendIsCut(done, first);
      var left := Literals(exact[1..]) + NecessaryPrefix(h);
      assert done + (Literals(exact) + NecessaryPrefix(h)) == (done + first) + left;
      if |done + first| < 32 {
        CutShort(done + first);
        PrefixFrom(exact[1..], h, behind, done + first);
      } else {
        CutLong(done + first, left);
      }
    }
  }

  lemma CutShort(text: seq<U16>)
    requires |text| < 32
    ensures Cut(text) == text
  {
  }

  lemma CutLong(text: seq<U16>, more: seq<U16>)
    requires |text| >= 32
    ensures Cut(text + more) == Cut(text) && |Cut(text)| == 32
  {
  }

  lemma {:induction false} FirstInexact(items: seq<Hir>) returns (k: nat)
    ensures k <= |items| && AllExact(items[..k]) && (k < |items| ==> ExactLiteral(items[k]).None?)
  {
    hide ExactLiteral;
    if items == [] || ExactLiteral(items[0]).None? {
      k := 0;
    } else {
      var j := FirstInexact(items[1..]);
      k := j + 1;
      assert forall i :: 0 < i < k ==> items[..k][i] == items[1..][..j][i - 1];
    }
  }

  /** More items never shorten the prefix. */
  lemma SequenceGrows(a: seq<Hir>, b: seq<Hir>)
    ensures NecessaryPrefix(Sequence(a)) <= NecessaryPrefix(Sequence(a + b))
  {
    hide ExactLiteral, NecessaryPrefix;
    var k := FirstInexact(a);
    if k < |a| {
      assert a == a[..k] + [a[k]] + a[k + 1..];
      assert a + b == a[..k] + [a[k]] + (a[k + 1..] + b);
      PrefixSequence(a[..k], a[k], a[k + 1..]);
      PrefixSequence(a[..k], a[k], a[k + 1..] + b);
    } else {
      assert a[..k] == a;
      ExactSequence(a);
      ExactIsPrefix(Sequence(a));
      var j := FirstInexact(b);
      LiteralsJoin(a, b[..j]);
      if j < |b| {
        assert a + b == (a + b[..j]) + [b[j]] + b[j + 1..];
        PrefixSequence(a + b[..j], b[j], b[j + 1..]);
        assert Literals(a + b[..j]) + NecessaryPrefix(b[j]) == Literals(a) + (Literals(b[..j]) + NecessaryPrefix(b[j]));
        CutGrows(Literals(a), Literals(b[..j]) + NecessaryPrefix(b[j]));
      } else {
        assert b[..j] == b;
        ExactSequence(a + b);
        ExactIsPrefix(Sequence(a + b));
        CutGrows(Literals(a), Literals(b));
      }
    }
  }

  lemma CutGrows(a: seq<U16>, b: seq<U16>)
    ensures Cut(a) <= Cut(a + b)
  {
  }

  lemma {:induction false} LiteralsJoin(a: seq<Hir>, b: seq<Hir>)
    requires AllExact(a) && AllExact(b)
    ensures AllExact(a + b) && Literals(a + b) == Literals(a) + Literals(b)
    decreases |a|
  {
    hide ExactLiteral;
    if a == [] {
      assert a + b == b;
    } else {
      LiteralsJoin(a[1..], b);
      assert (a + b)[0] == a[0] && (a + b)[1..] == a[1..] + b;
    }
  }

  /** A text begins all branches exactly if it begins the alternation's prefix. */
  lemma PrefixAlternation(branches: seq<Hir>, p: seq<U16>)
    requires branches != []
    ensures p <= NecessaryPrefix(Alternation(branches)) <==>
            forall k :: 0 <= k < |branches| ==> p <= NecessaryPrefix(branches[k])
  {
    var rest, first := branches[1..], NecessaryPrefix(branches[0]);
    if p == [] {
    } else if p <= SharedPrefix(rest, first) {
      SharedPrefixAll(rest, first);
      forall k | 0 <= k < |branches| ensures p <= NecessaryPrefix(branches[k]) {
        assert k > 0 ==> branches[k] == rest[k - 1] && branches[k] in rest;
        PrefixTrans(p, SharedPrefix(rest, first), NecessaryPrefix(branches[k]));
      }
    } else if forall k :: 0 <= k < |branches| ==> p <= NecessaryPrefix(branches[k]) {
      forall b | b in rest ensures p <= NecessaryPrefix(b) {
        var k :| 0 <= k < |rest| && rest[k] == b;
        assert branches[k + 1] == b;
      }
      SharedPrefixIsGreatest(rest, first, p);
    }
  }

  /**
   A repetition that must happen begins with the body's prefix, and with the whole repeated
   text if the body is exact.  The upper bound does not matter.
   */
  lemma PrefixRepeat(body: Hir, min: U16, max: Option<U16>, other: Option<U16>)
    requires min > 0
    ensures NecessaryPrefix(Repeat(body, min, max)) == NecessaryPrefix(Repeat(body, min, other))
    ensures ExactLiteral(body).Some? ==>
              NecessaryPrefix(Repeat(body, min, max)) == Cut(Power(ExactLiteral(body).value, min))
    ensures ExactLiteral(body).None? ==> NecessaryPrefix(Repeat(body, min, max)) == NecessaryPrefix(body)
    ensures NecessaryPrefix(body) <= NecessaryPrefix(Repeat(body, min, max))
  {
    if ExactLiteral(body).Some? {
      var text := ExactLiteral(body).value;
      RepeatedText(text, min);
      ExactIsPrefix(body);
      ExactIsCut(body);
      CutGrows(text, Power(text, min - 1));
    }
  }

  lemma {:induction false} ExactIsCut(h: Hir)
    requires ExactLiteral(h).Some?
    ensures Cut(ExactLiteral(h).value) == ExactLiteral(h).value
  {
    match h
    case Sequence(items) => ExactSequence(items);
    case Alternation(branches) =>
      ExactAlternation(branches, ExactLiteral(h).value);
      ExactIsCut(branches[0]);
    case Repeat(body, min, max) => ExactRepeat(body, min, max);
    case _ =>
  }

  // ---- Hints ---------------------------------------------------------------------------

  /** There are hints exactly if every pattern's prefix has three units. */
  lemma {:induction false} HintsExactly(patterns: seq<HirPattern>)
    ensures HintsFrom(patterns).Some? <==>
            forall k :: 0 <= k < |patterns| ==> |NecessaryPrefix(patterns[k].expression)| >= 3
  {
    hide NecessaryPrefix;
    if patterns != [] {
      HintsExactly(patterns[..|patterns| - 1]);
    }
  }

  /** The expression repeats, at least once, a plain text of three units or more. */
  ghost predicate RepeatsText(h: Hir) {
    exists items: seq<Hir>, text: seq<U16> ::
      Spelled(items, text) && |text| >= 3 && h.Repeat? && h.min > 0 && h.body == Sequence(items)
  }

  /** Texts that must be repeated are never unfilterable. */
  lemma RepeatedTextsHaveHints(patterns: seq<HirPattern>)
    requires forall k :: 0 <= k < |patterns| ==> RepeatsText(patterns[k].expression)
    ensures HintsFrom(patterns).Some?
  {
    hide NecessaryPrefix, ExactLiteral, HintsFrom;
    forall k | 0 <= k < |patterns| ensures |NecessaryPrefix(patterns[k].expression)| >= 3 {
      var h := patterns[k].expression;
      var items: seq<Hir>, text: seq<U16> :|
        Spelled(items, text) && |text| >= 3 && h.Repeat? && h.min > 0 && h.body == Sequence(items);
      PlainTextPrefix(items, text);
      PrefixRepeat(h.body, h.min, h.max, h.max);
    }
    HintsExactly(patterns);
  }
}
