/**
 Sets of code units as a 128-bit mask and a list of ranges (rustmatch/src/predicate.rs),
 and the proof that the operations are an exact, canonical Boolean algebra.
 */
module Predicates {
  import opened Base

  // ---- The ASCII mask ------------------------------------------------------------------

  predicate BitAt(x: bv128, s: bv128)
    requires s < 128
  {
    x & (1 << s) != 0
  }

  lemma PlaceNext(s: bv128)
    requires s < 127
    ensures (s + 1) as int == s as int + 1
  {
  }

  lemma PlaceBelowTop(s: bv128)
    requires s < 128 && s as int < 127
    ensures s < 127
  {
    if s == 127 { }
  }

  /** The number `u` as a shift amount. */
  function Place(u: nat): (s: bv128)
    requires u < 128
    ensures s < 128 && s as int == u
  {
    if u == 0 then 0
    else
      var s := Place(u - 1);
      PlaceBelowTop(s);
      PlaceNext(s);
      s + 1
  }

  lemma PlaceStep(u: nat)
    requires u < 127
    ensures Place(u) < 127 && Place(u + 1) == Place(u) + 1
  {
    PlaceBelowTop(Place(u));
  }

  predicate AtMost(x: bv128, y: bv128) {
    x <= y
  }

  lemma SmallerNumber(x: bv128, y: bv128)
    requires x < 128 && y < 128 && AtMost(x, y)
    ensures x as int <= y as int
  {
  }

  lemma SmallerWord(x: bv128, y: bv128)
    requires x < 128 && y < 128 && x as int <= y as int
    ensures AtMost(x, y)
  {
  }

  lemma PlaceOrder(u: nat, v: nat)
    requires u < 128 && v < 128
    ensures u <= v <==> AtMost(Place(u), Place(v))
  {
    hide Place, AtMost;
    if u <= v {
      SmallerWord(Place(u), Place(v));
    } else if AtMost(Place(u), Place(v)) {
      SmallerNumber(Place(u), Place(v));
    }
  }

  predicate AsciiBit(x: bv128, u: nat)
    requires u < 128
  {
    BitAt(x, Place(u))
  }

  function FromPlace(s: bv128): bv128
    requires s < 128
  {
    0xffff_ffff_ffff_ffff_ffff_ffff_ffff_ffff << s
  }

  function UpToPlace(e: bv128): bv128
    requires e < 128
  {
    if e == 127 then 0xffff_ffff_ffff_ffff_ffff_ffff_ffff_ffff else (1 << (e + 1)) - 1
  }

  /** `ascii_range_mask`. */
  function AsciiRangeMask(start: nat, end: nat): bv128
    requires start <= end < 128
  {
    And(FromPlace(Place(start)), UpToPlace(Place(end)))
  }

  function And(x: bv128, y: bv128): bv128 {
    x & y
  }

  function Or(x: bv128, y: bv128): bv128 {
    x | y
  }

  function Not(x: bv128): bv128 {
    !x
  }

  lemma AndClear(x: bv128, y: bv128, s: bv128)
    requires s < 128 && !BitAt(x, s)
    ensures !BitAt(And(x, y), s)
  {
  }

  lemma AndCommutes(x: bv128, y: bv128)
    ensures And(x, y) == And(y, x)
  {
  }

  lemma AndSet(x: bv128, y: bv128, s: bv128)
    requires s < 128 && BitAt(x, s) && BitAt(y, s)
    ensures BitAt(And(x, y), s)
  {
  }

  lemma AndAt(x: bv128, y: bv128, s: bv128)
    requires s < 128
    ensures BitAt(And(x, y), s) <==> BitAt(x, s) && BitAt(y, s)
  {
    hide BitAt, And;
    if !BitAt(x, s) {
      AndClear(x, y, s);
    } else if !BitAt(y, s) {
      AndCommutes(x, y);
      AndClear(y, x, s);
    } else {
      AndSet(x, y, s);
    }
  }

  lemma OrClear(x: bv128, y: bv128, s: bv128)
    requires s < 128 && !BitAt(x, s) && !BitAt(y, s)
    ensures !BitAt(Or(x, y), s)
  {
  }

  lemma OrCommutes(x: bv128, y: bv128)
    ensures Or(x, y) == Or(y, x)
  {
  }

  lemma OrSet(x: bv128, y: bv128, s: bv128)
    requires s < 128 && BitAt(x, s)
    ensures BitAt(Or(x, y), s)
  {
  }

  lemma OrAt(x: bv128, y: bv128, s: bv128)
    requires s < 128
    ensures BitAt(Or(x, y), s) <==> BitAt(x, s) || BitAt(y, s)
  {
    hide BitAt, Or;
    if BitAt(x, s) {
      OrSet(x, y, s);
    } else if BitAt(y, s) {
      OrCommutes(x, y);
      OrSet(y, x, s);
    } else {
      OrClear(x, y, s);
    }
  }

  lemma NotClear(x: bv128, s: bv128)
    requires s < 128 && !BitAt(x, s)
    ensures BitAt(Not(x), s)
  {
  }

  lemma NotSet(x: bv128, s: bv128)
    requires s < 128 && BitAt(x, s)
    ensures !BitAt(Not(x), s)
  {
  }

  lemma NotAt(x: bv128, s: bv128)
    requires s < 128
    ensures BitAt(Not(x), s) <==> !BitAt(x, s)
  {
    hide BitAt, Not;
    if BitAt(x, s) {
      NotSet(x, s);
    } else {
      NotClear(x, s);
    }
  }

  lemma FromPlaceAt(s: bv128, u: bv128)
    requires s < 128 && u < 128
    ensures BitAt(FromPlace(s), u) <==> AtMost(s, u)
  {
  }

  lemma UpToPlaceAt(e: bv128, u: bv128)
    requires e < 128 && u < 128
    ensures BitAt(UpToPlace(e), u) <==> AtMost(u, e)
  {
  }

  lemma RangeMaskBit(start: nat, end: nat, u: nat)
    requires start <= end < 128 && u < 128
    ensures AsciiBit(AsciiRangeMask(start, end), u) <==> start <= u <= end
  {
    hide BitAt, Place, And, FromPlace, UpToPlace, AtMost;
    AndAt(FromPlace(Place(start)), UpToPlace(Place(end)), Place(u));
    FromPlaceAt(Place(start), Place(u));
    UpToPlaceAt(Place(end), Place(u));
    PlaceOrder(start, u);
    PlaceOrder(u, end);
  }

  lemma OrBits(x: bv128, y: bv128, u: nat)
    requires u < 128
    ensures AsciiBit(Or(x, y), u) <==> AsciiBit(x, u) || AsciiBit(y, u)
  {
    hide BitAt, Place, Or;
    OrAt(x, y, Place(u));
  }

  lemma NotBits(x: bv128, u: nat)
    requires u < 128
    ensures AsciiBit(Not(x), u) <==> !AsciiBit(x, u)
  {
    hide BitAt, Place, Not;
    NotAt(x, Place(u));
  }

  // ---- Masks are equal when their bits are ---------------------------------------------

  function Half(x: bv128): bv128 {
    x >> 1
  }

  lemma HalfSet(x: bv128, s: bv128)
    requires s < 127 && BitAt(x, s + 1)
    ensures BitAt(Half(x), s)
  {
  }

  lemma HalfClear(x: bv128, s: bv128)
    requires s < 127 && !BitAt(x, s + 1)
    ensures !BitAt(Half(x), s)
  {
  }

  lemma HalfAt(x: bv128, s: bv128)
    requires s < 127
    ensures BitAt(Half(x), s) <==> BitAt(x, s + 1)
  {
    hide BitAt, Half;
    if BitAt(x, s + 1) {
      HalfSet(x, s);
    } else {
      HalfClear(x, s);
    }
  }

  lemma HalfBit(x: bv128, u: nat)
    requires u < 127
    ensures AsciiBit(Half(x), u) <==> AsciiBit(x, u + 1)
  {
    hide BitAt, Place, Half;
    PlaceStep(u);
    HalfAt(x, Place(u));
  }

  lemma SameHalves(x: bv128, y: bv128)
    requires Half(x) == Half(y) && (BitAt(x, 0) <==> BitAt(y, 0))
    ensures x == y
  {
  }

  lemma LowestBit(x: bv128)
    ensures AsciiBit(x, 0) <==> BitAt(x, 0)
  {
  }

  /** Halving `n` times over. */
  function Halves(x: bv128, n: nat): bv128 {
    if n == 0 then x else Halves(Half(x), n - 1)
  }

  lemma {:induction false} SameBits(x: bv128, y: bv128, n: nat)
    requires n <= 128 && Halves(x, n) == 0 && Halves(y, n) == 0
    requires forall u: nat :: u < n ==> (AsciiBit(x, u) <==> AsciiBit(y, u))
    ensures x == y
    decreases n
  {
    hide AsciiBit, Half, BitAt;
    if n > 0 {
      forall u: nat | u < n - 1 ensures AsciiBit(Half(x), u) <==> AsciiBit(Half(y), u) {
        HalfBit(x, u);
        HalfBit(y, u);
        assert AsciiBit(x, u + 1) <==> AsciiBit(y, u + 1);
      }
      SameBits(Half(x), Half(y), n - 1);
      LowestBit(x);
      LowestBit(y);
      SameHalves(x, y);
    }
  }

  lemma {:induction false} HalvesAdd(x: bv128, m: nat, n: nat)
    ensures Halves(x, m + n) == Halves(Halves(x, m), n)
    decreases m
  {
    hide Half;
    if m > 0 {
      HalvesAdd(Half(x), m - 1, n);
    }
  }

  /** The shifts by 2, 4, ... 64 places, each twice the one before. */
  function Right(x: bv128, k: nat): bv128
    requires k <= 6
  {
    match k
    case 0 => x >> 1
    case 1 => x >> 2
    case 2 => x >> 4
    case 3 => x >> 8
    case 4 => x >> 16
    case 5 => x >> 32
    case 6 => x >> 64
  }

  function Power(k: nat): nat {
    if k == 0 then 1 else 2 * Power(k - 1)
  }

  lemma Right2(x: bv128)
    ensures Right(Right(x, 0), 0) == Right(x, 1)
  {
    assert (x >> 1) >> 1 == x >> 2;
  }

  lemma Right4(x: bv128)
    ensures Right(Right(x, 1), 1) == Right(x, 2)
  {
    assert (x >> 2) >> 2 == x >> 4;
  }

  lemma Right8(x: bv128)
    ensures Right(Right(x, 2), 2) == Right(x, 3)
  {
    assert (x >> 4) >> 4 == x >> 8;
  }

  lemma Right16(x: bv128)
    ensures Right(Right(x, 3), 3) == Right(x, 4)
  {
    assert (x >> 8) >> 8 == x >> 16;
  }

  lemma Right32(x: bv128)
    ensures Right(Right(x, 4), 4) == Right(x, 5)
  {
    assert (x >> 16) >> 16 == x >> 32;
  }

  lemma Right64(x: bv128)
    ensures Right(Right(x, 5), 5) == Right(x, 6)
  {
    assert (x >> 32) >> 32 == x >> 64;
  }

  lemma RightTwice(x: bv128, k: nat)
    requires 0 < k <= 6
    ensures Right(Right(x, k - 1), k - 1) == Right(x, k)
  {
    hide Right;
    match k
    case 1 => Right2(x);
    case 2 => Right4(x);
    case 3 => Right8(x);
    case 4 => Right16(x);
    case 5 => Right32(x);
    case 6 => Right64(x);
  }

  lemma RightOut(x: bv128)
    ensures Right(Right(x, 6), 6) == 0
  {
  }

  lemma RightOnce(x: bv128)
    ensures Right(x, 0) == Half(x)
  {
  }

  lemma {:induction false} HalvesShift(x: bv128, k: nat)
    requires k <= 6
    ensures Halves(x, Power(k)) == Right(x, k)
    decreases k
  {
    hide Right, Half;
    if k == 0 {
      RightOnce(x);
      assert Halves(x, 1) == Halves(Half(x), 0);
    } else {
      HalvesAdd(x, Power(k - 1), Power(k - 1));
      HalvesShift(x, k - 1);
      HalvesShift(Right(x, k - 1), k - 1);
      RightTwice(x, k);
    }
  }

  /** Nothing is left of a 128-bit word after 128 halvings. */
  lemma AllShiftedOut(x: bv128)
    ensures Halves(x, 128) == 0
  {
    hide Right, Halves;
    assert Power(3) == 8 && Power(6) == 8 * Power(3);
    HalvesAdd(x, 64, 64);
    HalvesShift(x, 6);
    HalvesShift(Right(x, 6), 6);
    RightOut(x);
  }

  lemma SameMask(x: bv128, y: bv128)
    requires forall u: nat :: u < 128 ==> (AsciiBit(x, u) <==> AsciiBit(y, u))
    ensures x == y
  {
    hide AsciiBit, Halves;
    AllShiftedOut(x);
    AllShiftedOut(y);
    SameBits(x, y, 128);
  }

  // ---- Range lists ---------------------------------------------------------------------

  type Range = (U16, U16)

  predicate Within(r: Range, u: int) {
    r.0 <= u <= r.1
  }

  predicate InRanges(ranges: seq<Range>, u: int) {
    exists i :: 0 <= i < |ranges| && Within(ranges[i], u)
  }

  /** The unit just past a range; 65,536 after the last unit. */
  function After(r: Range): int {
    var end: int := r.1;
    end + 1
  }

  predicate WideRange(r: Range) {
    128 <= r.0 <= r.1
  }

  predicate WideRanges(ranges: seq<Range>) {
    forall i :: 0 <= i < |ranges| ==> WideRange(ranges[i])
  }

  /** Sorted, disjoint and not even touching. */
  predicate Tidy(ranges: seq<Range>) {
    && WideRanges(ranges)
    && forall i, j :: 0 <= i < j < |ranges| ==> After(ranges[i]) < ranges[j].0
  }

  predicate LexLess(a: Range, b: Range) {
    a.0 < b.0 || (a.0 == b.0 && a.1 <= b.1)
  }

  function InsertPair(r: Range, s: seq<Range>): (t: seq<Range>)
    ensures multiset(t) == multiset(s) + multiset{r}
  {
    if s == [] || LexLess(r, s[0]) then
      assert [r] + s == [r] + s;
      [r] + s
    else
      assert s == [s[0]] + s[1..];
      [s[0]] + InsertPair(r, s[1..])
  }

  /** Stands for `sort_unstable`: a permutation in lexicographic order. */
  function SortPairs(s: seq<Range>): (t: seq<Range>)
    ensures multiset(t) == multiset(s)
  {
    if s == [] then []
    else
      assert s == [s[0]] + s[1..];
      InsertPair(s[0], SortPairs(s[1..]))
  }

  ghost predicate StartsAscend(s: seq<Range>) {
    forall i, j :: 0 <= i < j < |s| ==> s[i].0 <= s[j].0
  }

  lemma {:induction false} InsertPairOrdered(r: Range, s: seq<Range>)
    requires StartsAscend(s)
    ensures StartsAscend(InsertPair(r, s))
  {
    if s != [] && !LexLess(r, s[0]) {
      InsertPairOrdered(r, s[1..]);
      var rest := InsertPair(r, s[1..]);
      forall k | 0 <= k < |rest| ensures s[0].0 <= rest[k].0 {
        assert rest[k] in multiset(rest);
        if rest[k] != r {
          assert rest[k] in s[1..];
        }
      }
    }
  }

  lemma {:induction false} SortPairsOrdered(s: seq<Range>)
    ensures StartsAscend(SortPairs(s))
  {
    if s != [] {
      SortPairsOrdered(s[1..]);
      InsertPairOrdered(s[0], SortPairs(s[1..]));
    }
  }

  ghost predicate LexAscending(s: seq<Range>) {
    forall i, j :: 0 <= i < j < |s| ==> LexLess(s[i], s[j])
  }

  lemma {:induction false} SortPairsLex(s: seq<Range>)
    ensures LexAscending(SortPairs(s))
  {
    if s != [] {
      SortPairsLex(s[1..]);
      InsertPairLex(s[0], SortPairs(s[1..]));
    }
  }

  lemma {:induction false} InsertPairLex(r: Range, s: seq<Range>)
    requires LexAscending(s)
    ensures LexAscending(InsertPair(r, s))
  {
    if s != [] && !LexLess(r, s[0]) {
      InsertPairLex(r, s[1..]);
      var rest := InsertPair(r, s[1..]);
      forall k | 0 <= k < |rest| ensures LexLess(s[0], rest[k]) {
        assert rest[k] in multiset(rest);
        if rest[k] != r {
          assert rest[k] in s[1..];
        }
      }
    }
  }

  lemma LexFirst(s: seq<Range>, x: Range)
    requires LexAscending(s) && x in s
    ensures LexLess(s[0], x)
  {
  }

  lemma TailBag(s: seq<Range>)
    requires s != []
    ensures multiset(s[1..]) == multiset(s) - multiset{s[0]}
  {
    assert s == [s[0]] + s[1..];
  }

  lemma {:induction false} LexUnique(s: seq<Range>, t: seq<Range>)
    requires LexAscending(s) && LexAscending(t) && multiset(s) == multiset(t)
    ensures s == t
  {
    assert |s| == |multiset(s)| == |multiset(t)| == |t|;
    if s != [] {
      assert s[0] in multiset(t) && t[0] in multiset(s);
      assert s[0] in t && t[0] in s;
      LexFirst(s, t[0]);
      LexFirst(t, s[0]);
      TailBag(s);
      TailBag(t);
      LexUnique(s[1..], t[1..]);
    }
  }

  /** Whatever sorts a list of pairs, stably or not, the result is this one. */
  lemma SortPairsIsUnique(s: seq<Range>, t: seq<Range>)
    requires LexAscending(t) && multiset(s) == multiset(t)
    ensures t == SortPairs(s)
  {
    SortPairsLex(s);
    LexUnique(t, SortPairs(s));
  }

  lemma SortPairsMembers(s: seq<Range>)
    requires WideRanges(s)
    ensures WideRanges(SortPairs(s)) && forall u :: InRanges(SortPairs(s), u) <==> InRanges(s, u)
  {
    var t := SortPairs(s);
    forall i | 0 <= i < |t| ensures WideRange(t[i]) && t[i] in s {
      assert t[i] in multiset(t);
      assert t[i] in multiset(s);
    }
    forall i | 0 <= i < |s| ensures s[i] in t {
      assert s[i] in multiset(s);
      assert s[i] in multiset(t);
    }
  }

  function SaturatingNext(u: U16): U16 {
    if u == 0xffff then u else u + 1
  }

  /** `normalize_ranges`: sorts, then merges ranges that overlap or touch. */
  method NormalizeRanges(ranges: seq<Range>) returns (merged: seq<Range>)
    requires WideRanges(ranges)
    ensures Tidy(merged) && forall u :: InRanges(merged, u) <==> InRanges(ranges, u)
  {
    hide InRanges, SortPairs;
    var sorted := SortPairs(ranges);
    SortPairsOrdered(ranges);
    SortPairsMembers(ranges);
    merged := [];
    NoRanges(sorted);
    for k := 0 to |sorted|
      invariant Tidy(merged)
      invariant (k > 0 <==> merged != []) && (k > 0 ==> merged[|merged| - 1].0 <= sorted[k - 1].0)
      invariant forall u :: InRanges(merged, u) <==> InRanges(sorted[..k], u)
    {
      assert WideRange(sorted[k]);
      assert sorted[..k + 1] == sorted[..k] + [sorted[k]];
      AppendedRange(sorted[..k], sorted[k]);
      merged := MergeOne(merged, sorted[k]);
    }
    assert sorted[..|sorted|] == sorted;
  }

  lemma NoRanges(ranges: seq<Range>)
    ensures forall u :: InRanges([], u) <==> InRanges(ranges[..0], u)
  {
  }

  /** Folds one more range, in order of starts, into the merged list. */
  method MergeOne(before: seq<Range>, r: Range) returns (merged: seq<Range>)
    requires Tidy(before) && WideRange(r) && (before != [] ==> before[|before| - 1].0 <= r.0)
    ensures Tidy(merged) && merged != [] && merged[|merged| - 1].0 <= r.0
    ensures forall u :: InRanges(merged, u) <==> InRanges(before, u) || Within(r, u)
  {
    hide InRanges;
    if before != [] && r.0 <= SaturatingNext(before[|before| - 1].1) {
      var last := |before| - 1;
      var end := if before[last].1 < r.1 then r.1 else before[last].1;
      merged := before[last := (before[last].0, end)];
      assert WideRange(before[last]);
      MergedLast(before, r, merged);
    } else {
      merged := before + [r];
      AppendedRange(before, r);
    }
  }

  lemma AppendedRange(ranges: seq<Range>, r: Range)
    ensures forall u :: InRanges(ranges + [r], u) <==> InRanges(ranges, u) || Within(r, u)
  {
    forall u ensures InRanges(ranges + [r], u) <==> InRanges(ranges, u) || Within(r, u) {
      var longer := ranges + [r];
      assert longer[|ranges|] == r && forall i :: 0 <= i < |ranges| ==> longer[i] == ranges[i];
    }
  }

  lemma MergedLast(ranges: seq<Range>, r: Range, merged: seq<Range>)
    requires ranges != [] && WideRanges(ranges) && r.0 <= r.1
    requires var last := |ranges| - 1;
             && ranges[last].0 <= r.0 <= After(ranges[last])
             && merged == ranges[last := (ranges[last].0, if ranges[last].1 < r.1 then r.1 else ranges[last].1)]
    ensures forall u :: InRanges(merged, u) <==> InRanges(ranges, u) || Within(r, u)
  {
    var last := |ranges| - 1;
    forall u ensures InRanges(merged, u) <==> InRanges(ranges, u) || Within(r, u) {
      assert Within(merged[last], u) <==> Within(ranges[last], u) || Within(r, u);
      assert forall i :: 0 <= i < last ==> merged[i] == ranges[i];
      if InRanges(ranges, u) {
        var i :| 0 <= i < |ranges| && Within(ranges[i], u);
        assert Within(merged[i], u);
      }
      if InRanges(merged, u) {
        var i :| 0 <= i < |merged| && Within(merged[i], u);
        assert i < last ==> Within(ranges[i], u);
      }
    }
  }

  // ---- Predicates ----------------------------------------------------------------------

  datatype SymbolPredicate = SymbolPredicate(ascii: bv128, ranges: seq<Range>) {
    /** The set the predicate stands for. */
    predicate Contains(u: U16) {
      if u < 128 then AsciiBit(ascii, u) else InRanges(ranges, u)
    }

    predicate Canonical() {
      Tidy(ranges)
    }

    predicate IsEmpty() {
      ascii == 0 && ranges == []
    }
  }

  function EmptyPredicate(): SymbolPredicate {
    SymbolPredicate(0, [])
  }

  function AnyPredicate(): SymbolPredicate {
    SymbolPredicate(0xffff_ffff_ffff_ffff_ffff_ffff_ffff_ffff, [(128, 0xffff)])
  }

  /** What the constructors of predicate.rs build, and so every predicate a pattern holds. */
  type CanonicalPredicate = p: SymbolPredicate | p.Canonical() witness EmptyPredicate()

  lemma NoBits(u: nat)
    requires u < 128
    ensures !AsciiBit(0, u) && AsciiBit(0xffff_ffff_ffff_ffff_ffff_ffff_ffff_ffff, u)
  {
    hide Place;
    AllOnes(Place(u));
  }

  lemma AllOnes(s: bv128)
    requires s < 128
    ensures BitAt(0xffff_ffff_ffff_ffff_ffff_ffff_ffff_ffff, s) && !BitAt(0, s)
  {
  }

  lemma Extremes(u: U16)
    ensures EmptyPredicate().Canonical() && AnyPredicate().Canonical()
    ensures !EmptyPredicate().Contains(u) && AnyPredicate().Contains(u)
  {
    hide AsciiBit;
    if u < 128 {
      NoBits(u);
    } else {
      assert Within(AnyPredicate().ranges[0], u);
    }
  }

  method InsertRange(p: CanonicalPredicate, start: U16, end: U16) returns (q: CanonicalPredicate, ok: bool)
    ensures ok == (start <= end) && (!ok ==> q == p)
    ensures ok ==> forall u: U16 :: q.Contains(u) <==> p.Contains(u) || start <= u <= end
  {
    hide AsciiBit, Or, AsciiRangeMask;
    if start > end {
      return p, false;
    }
    q, ok := p, true;
    if start < 128 {
      var asciiEnd := if end < 127 then end else 127;
      q := q.(ascii := Or(q.ascii, AsciiRangeMask(start, asciiEnd)));
      forall u: U16 | u < 128 ensures AsciiBit(q.ascii, u) <==> AsciiBit(p.ascii, u) || start <= u <= end {
        OrBits(p.ascii, AsciiRangeMask(start, asciiEnd), u);
        RangeMaskBit(start, asciiEnd, u);
      }
    }
    if end >= 128 {
      var r: Range := (if start < 128 then 128 else start, end);
      var ranges := NormalizeRanges(p.ranges + [r]);
      AppendedRange(p.ranges, r);
      q := q.(ranges := ranges);
    } else {
      forall u: U16 | u >= 128 ensures InRanges(q.ranges, u) <==> InRanges(p.ranges, u) || start <= u <= end {
      }
    }
  }

  method Union(p: CanonicalPredicate, other: CanonicalPredicate) returns (q: CanonicalPredicate)
    ensures forall u: U16 :: q.Contains(u) <==> p.Contains(u) || other.Contains(u)
  {
    hide AsciiBit, Or;
    var ranges := NormalizeRanges(p.ranges + other.ranges);
    q := SymbolPredicate(Or(p.ascii, other.ascii), ranges);
    forall u: U16 | u < 128 ensures AsciiBit(q.ascii, u) <==> AsciiBit(p.ascii, u) || AsciiBit(other.ascii, u) {
      OrBits(p.ascii, other.ascii, u);
    }
    JoinedRanges(p.ranges, other.ranges);
  }

  lemma JoinedRanges(a: seq<Range>, b: seq<Range>)
    ensures forall u :: InRanges(a + b, u) <==> InRanges(a, u) || InRanges(b, u)
  {
    forall u ensures InRanges(a + b, u) <==> InRanges(a, u) || InRanges(b, u) {
      var both := a + b;
      assert forall i :: 0 <= i < |a| ==> both[i] == a[i];
      if i :| 0 <= i < |b| && Within(b[i], u) {
        assert both[|a| + i] == b[i];
      }
      if i :| 0 <= i < |both| && Within(both[i], u) {
        assert i >= |a| ==> both[i] == b[i - |a|];
      }
    }
  }

  /** The gaps among the first `k` ranges, up to `next`, the unit past the last of them. */
  ghost predicate GapsSoFar(gaps: seq<Range>, ranges: seq<Range>, k: nat, next: int)
    requires k <= |ranges|
  {
    && 128 <= next <= 0x1_0000 && Tidy(gaps) && next == (if k == 0 then 128 else After(ranges[k - 1]))
    && (gaps != [] ==> After(gaps[|gaps| - 1]) < next)
    && forall u: int :: InRanges(gaps, u) <==> 128 <= u < next && !InRanges(ranges[..k], u)
  }

  lemma GapsStart(ranges: seq<Range>)
    ensures GapsSoFar([], ranges, 0, 128)
  {
  }

  lemma TidyAppend(ranges: seq<Range>, r: Range)
    requires Tidy(ranges) && WideRange(r) && (ranges != [] ==> After(ranges[|ranges| - 1]) < r.0)
    ensures Tidy(ranges + [r])
  {
    var longer := ranges + [r];
    forall i, j | 0 <= i < j < |longer| ensures After(longer[i]) < longer[j].0 {
      if j == |ranges| && i < |ranges| - 1 {
        assert After(ranges[i]) < ranges[|ranges| - 1].0 && WideRange(ranges[|ranges| - 1]);
      }
    }
    forall i | 0 <= i < |longer| ensures WideRange(longer[i]) {
      assert i < |ranges| ==> WideRange(ranges[i]);
    }
  }

  lemma NextGap(gaps: seq<Range>, ranges: seq<Range>, k: nat, next: int, gaps': seq<Range>)
    requires Tidy(ranges) && k < |ranges| && GapsSoFar(gaps, ranges, k, next)
    requires if next < ranges[k].0 then next < 0x1_0000 && gaps' == gaps + [(next, ranges[k].0 - 1)] else gaps' == gaps
    ensures GapsSoFar(gaps', ranges, k + 1, After(ranges[k]))
  {
    hide InRanges;
    assert WideRange(ranges[k]);
    assert ranges[..k + 1] == ranges[..k] + [ranges[k]];
    AppendedRange(ranges[..k], ranges[k]);
    EarlierRanges(ranges, k);
    if next < ranges[k].0 {
      TidyAppend(gaps, (next, ranges[k].0 - 1));
      AppendedRange(gaps, (next, ranges[k].0 - 1));
    }
  }

  /** The gaps between the ranges, from 128 to the last unit. */
  method Complement(p: CanonicalPredicate) returns (q: CanonicalPredicate)
    ensures forall u: U16 :: q.Contains(u) <==> !p.Contains(u)
  {
    hide AsciiBit, Not, InRanges;
    var gaps: seq<Range> := [];
    var next: int := 128;
    GapsStart(p.ranges);
    for k := 0 to |p.ranges|
      invariant GapsSoFar(gaps, p.ranges, k, next)
    {
      var start := p.ranges[k].0;
      ghost var before := gaps;
      if next < start {
        gaps := gaps + [(next, start - 1)];
      }
      NextGap(before, p.ranges, k, next, gaps);
      next := After(p.ranges[k]);
    }
    assert p.ranges[..|p.ranges|] == p.ranges;
    if next < 0x1_0000 {
      TidyAppend(gaps, (next, 0xffff));
      AppendedRange(gaps, (next, 0xffff));
      gaps := gaps + [(next, 0xffff)];
      EarlierRanges(p.ranges, |p.ranges|);
    }
    q := SymbolPredicate(Not(p.ascii), gaps);
    forall u: U16 | u < 128 ensures AsciiBit(q.ascii, u) <==> !AsciiBit(p.ascii, u) {
      NotBits(p.ascii, u);
    }
  }

  /** Nothing in the first `k` ranges lies beyond the end of the last of them. */
  lemma EarlierRanges(ranges: seq<Range>, k: nat)
    requires Tidy(ranges) && k <= |ranges|
    ensures forall u :: InRanges(ranges[..k], u) ==> k > 0 && 128 <= u <= ranges[k - 1].1
  {
    forall u | InRanges(ranges[..k], u) ensures k > 0 && 128 <= u <= ranges[k - 1].1 {
      var i :| 0 <= i < k && Within(ranges[..k][i], u);
      assert ranges[..k][i] == ranges[i] && WideRange(ranges[i]);
      if i < k - 1 {
        assert After(ranges[i]) < ranges[k - 1].0 && WideRange(ranges[k - 1]);
      }
    }
  }

  /** `partition_point`: the first range that does not end before `u`, by bisection. */
  method PartitionPoint(ranges: seq<Range>, u: U16) returns (index: nat)
    requires Tidy(ranges)
    ensures index <= |ranges|
    ensures (forall i :: 0 <= i < index ==> ranges[i].1 < u) && forall i :: index <= i < |ranges| ==> ranges[i].1 >= u
  {
    var lo, hi := 0, |ranges|;
    while lo < hi
      invariant lo <= hi <= |ranges|
      invariant (forall i :: 0 <= i < lo ==> ranges[i].1 < u) && forall i :: hi <= i < |ranges| ==> ranges[i].1 >= u
    {
      var mid := (lo + hi) / 2;
      EndsAscend(ranges, mid);
      if ranges[mid].1 < u {
        lo := mid + 1;
      } else {
        hi := mid;
      }
    }
    index := lo;
  }

  lemma EndsAscend(ranges: seq<Range>, mid: nat)
    requires Tidy(ranges) && mid < |ranges|
    ensures forall i :: 0 <= i < mid ==> ranges[i].1 < ranges[mid].1
    ensures forall i :: mid < i < |ranges| ==> ranges[mid].1 < ranges[i].1
  {
    forall i | 0 <= i < |ranges| ensures WideRange(ranges[i]) {
    }
  }

  /** Binary search decides membership. */
  method MatchesUnit(p: SymbolPredicate, u: U16) returns (r: bool)
    requires p.Canonical()
    ensures r == p.Contains(u)
  {
    if u < 128 {
      return AsciiBit(p.ascii, u);
    }
    var index := PartitionPoint(p.ranges, u);
    r := index < |p.ranges| && Within(p.ranges[index], u);
    if InRanges(p.ranges, u) {
      var i :| 0 <= i < |p.ranges| && Within(p.ranges[i], u);
      if index < i {
        assert After(p.ranges[index]) < p.ranges[i].0;
      }
    }
  }

  // ---- Canonical form ------------------------------------------------------------------

  lemma FirstOfTidy(s: seq<Range>, u: int)
    requires Tidy(s) && s != []
    ensures InRanges(s, s[0].0) && InRanges(s, s[0].1)
    ensures InRanges(s, u) ==> u >= s[0].0 && u != After(s[0])
    ensures InRanges(s, u) <==> Within(s[0], u) || InRanges(s[1..], u)
    ensures InRanges(s[1..], u) ==> u > After(s[0])
  {
    assert WideRange(s[0]);
    assert Within(s[0], s[0].0) && Within(s[0], s[0].1);
    if InRanges(s, u) {
      var i :| 0 <= i < |s| && Within(s[i], u);
      assert i > 0 ==> After(s[0]) < s[i].0 && s[1..][i - 1] == s[i];
    }
    if InRanges(s[1..], u) {
      var i :| 0 <= i < |s[1..]| && Within(s[1..][i], u);
      assert s[i + 1] == s[1..][i] && After(s[0]) < s[i + 1].0;
    }
  }

  lemma {:induction false} TidyUnique(s: seq<Range>, t: seq<Range>)
    requires Tidy(s) && Tidy(t) && forall u: U16 :: InRanges(s, u) <==> InRanges(t, u)
    ensures s == t
  {
    if s == [] || t == [] {
      if s != [] { FirstOfTidy(s, 0); }
      if t != [] { FirstOfTidy(t, 0); }
    } else {
      FirstsAgree(s, t);
      forall u: U16 ensures InRanges(s[1..], u) <==> InRanges(t[1..], u) {
        FirstOfTidy(s, u);
        FirstOfTidy(t, u);
      }
      TidyUnique(s[1..], t[1..]);
    }
  }

  lemma FirstsAgree(s: seq<Range>, t: seq<Range>)
    requires Tidy(s) && Tidy(t) && s != [] && t != [] && forall u: U16 :: InRanges(s, u) <==> InRanges(t, u)
    ensures s[0] == t[0]
  {
    FirstOfTidy(s, t[0].0);
    FirstOfTidy(t, s[0].0);
    assert s[0].0 == t[0].0;
    assert WideRange(s[0]) && WideRange(t[0]);
    if s[0].1 < t[0].1 {
      var u: U16 := After(s[0]);
      assert Within(t[0], u);
      FirstOfTidy(s, u);
    }
    if t[0].1 < s[0].1 {
      var u: U16 := After(t[0]);
      assert Within(s[0], u);
      FirstOfTidy(t, u);
    }
  }

  /** Equal sets are equal values, so interning by equality merges exactly the equal sets. */
  lemma CanonicalUnique(p: CanonicalPredicate, q: CanonicalPredicate)
    ensures p == q <==> forall u: U16 :: p.Contains(u) <==> q.Contains(u)
  {
    hide AsciiBit;
    if forall u: U16 :: p.Contains(u) <==> q.Contains(u) {
      forall u: nat | u < 128 ensures AsciiBit(p.ascii, u) <==> AsciiBit(q.ascii, u) {
        var v: U16 := u;
        assert p.Contains(v) <==> q.Contains(v);
      }
      SameMask(p.ascii, q.ascii);
      forall u: U16 ensures InRanges(p.ranges, u) <==> InRanges(q.ranges, u) {
        if u < 128 {
          EarlierRanges(p.ranges, |p.ranges|);
          EarlierRanges(q.ranges, |q.ranges|);
          assert p.ranges[..|p.ranges|] == p.ranges && q.ranges[..|q.ranges|] == q.ranges;
        } else {
          assert p.Contains(u) <==> q.Contains(u);
        }
      }
      TidyUnique(p.ranges, q.ranges);
    }
  }

  /** Complementing twice is the identity. */
  lemma DoubleComplement(p: CanonicalPredicate, c: CanonicalPredicate, d: CanonicalPredicate)
    requires forall u: U16 :: c.Contains(u) <==> !p.Contains(u)
    requires forall u: U16 :: d.Contains(u) <==> !c.Contains(u)
    ensures d == p
  {
    CanonicalUnique(p, d);
  }

  /** `is_empty` decides emptiness. */
  lemma EmptyMeansNothing(p: CanonicalPredicate)
    ensures p.IsEmpty() <==> forall u: U16 :: !p.Contains(u)
  {
    forall u: U16 ensures !EmptyPredicate().Contains(u) {
      Extremes(u);
    }
    CanonicalUnique(p, EmptyPredicate());
  }
}
