/**
 The literal start filter: a bit table of exact ASCII triples and two hashed tables
 (rustmatch/src/prefilter.rs:641-668, 764-927), and the proof that no start a pattern can
 match from is ever rejected.
 */
module LiteralFilter {
  import opened Base
  import opened HirSyntax
  import opened CompiledMeaning
  import opened Database
  import opened Fronts
  import opened PatternEvents
  import opened Prefix
  import opened Bits
  import opened Bitmap

  const ASCII_TRIPLE_WORDS: nat := 32768
  const FOUR_PREFIX_HASH_WORDS: nat := 8192
  const FIVE_PREFIX_HASH_WORDS: nat := 16384

  predicate IsAscii(u: U16) {
    u < 128
  }

  predicate AllAscii(units: seq<U16>) {
    forall k :: 0 <= k < |units| ==> IsAscii(units[k])
  }

  // ---- Table indices -------------------------------------------------------------------

  function TripleBits(a: bv7, b: bv7, c: bv7): bv21 {
    ((a as bv21) << 14) | ((b as bv21) << 7) | (c as bv21)
  }

  lemma TripleBitsInjective(a: bv7, b: bv7, c: bv7, a': bv7, b': bv7, c': bv7)
    requires TripleBits(a, b, c) == TripleBits(a', b', c')
    ensures a == a' && b == b' && c == c'
  {
  }

  lemma LowNext(b: bv7)
    requires b as nat < 127
    ensures (b + 1) as nat == b as nat + 1
  {
  }

  /** An ASCII unit as seven bits. */
  function Low(u: nat): (r: bv7)
    requires u < 128
    ensures r as nat == u
  {
    if u == 0 then 0 else LowNext(Low(u - 1)); Low(u - 1) + 1
  }

  lemma LowInjective(u: U16, v: U16)
    requires IsAscii(u) && IsAscii(v) && Low(u) == Low(v)
    ensures u == v
  {
  }

  function BitNumber(x: bv21): nat {
    x as nat
  }

  function NumberedBit(n: nat): bv21
    requires n < 0x20_0000
  {
    n as bv21
  }

  lemma NumberedBack(x: bv21)
    ensures NumberedBit(BitNumber(x)) == x
  {
    assert (x as nat) as bv21 == x;
  }

  lemma BitNumberInjective(x: bv21, y: bv21)
    requires BitNumber(x) == BitNumber(y)
    ensures x == y
  {
    hide BitNumber, NumberedBit;
    NumberedBack(x);
    NumberedBack(y);
  }

  function TripleIndex(triple: seq<U16>): (bit: nat)
    requires |triple| == 3 && AllAscii(triple)
    ensures bit / 64 < ASCII_TRIPLE_WORDS
  {
    assert IsAscii(triple[0]) && IsAscii(triple[1]) && IsAscii(triple[2]);
    BitNumber(TripleBits(Low(triple[0]), Low(triple[1]), Low(triple[2])))
  }

  /** The unit as a machine word. */
  function Unit16(u: U16): bv16 {
    if IsAscii(u) then Low(u) as bv16 else u as bv16
  }

  /** The 64-bit FNV-1a fold over code units. */
  function HashUnits(prefix: seq<U16>): bv64 {
    if prefix == [] then 0xcbf2_9ce4_8422_2325
    else HashStep(HashUnits(prefix[..|prefix| - 1]), Unit16(prefix[|prefix| - 1]))
  }

  function HashStep(hash: bv64, unit: bv16): bv64 {
    (hash ^ (unit as bv64)) * 0x0000_0100_0000_01b3
  }

  /** A table bit is addressed by the number of its 64-bit word and its place in that word. */
  function BitAddress(word: bv14, place: bv6): (bit: nat)
    ensures bit / 64 == word as nat < FIVE_PREFIX_HASH_WORDS && bit % 64 == place as nat
  {
    64 * (word as nat) + (place as nat)
  }

  function FourWord(hash: bv64): (word: bv14)
    ensures word < 8192
  {
    ((hash & 0x7_ffff) >> 6) as bv14
  }

  function FiveWord(hash: bv64): bv14 {
    ((hash & 0xf_ffff) >> 6) as bv14
  }

  function HashPlace(hash: bv64): bv6 {
    (hash & 63) as bv6
  }

  lemma FourWordBound(word: bv14)
    requires word < 8192
    ensures word as nat < FOUR_PREFIX_HASH_WORDS
  {
  }

  /** The hash masked to 19 bits. */
  function FourIndex(prefix: seq<U16>): (bit: nat)
    ensures bit / 64 < FOUR_PREFIX_HASH_WORDS
  {
    FourWordBound(FourWord(HashUnits(prefix)));
    BitAddress(FourWord(HashUnits(prefix)), HashPlace(HashUnits(prefix)))
  }

  /** The hash masked to 20 bits. */
  function FiveIndex(prefix: seq<U16>): (bit: nat)
    ensures bit / 64 < FIVE_PREFIX_HASH_WORDS
  {
    BitAddress(FiveWord(HashUnits(prefix)), HashPlace(HashUnits(prefix)))
  }

  // ---- Windows that never share a table bit ----------------------------------------------

  /** The lowest seven bits of a hash, which decide for ASCII windows that differ in one unit. */
  function Low7(hash: bv64): bv7 {
    (hash & 127) as bv7
  }

  function Unit7(unit: bv16): bv7 {
    (unit & 127) as bv7
  }

  function Step7(low: bv7, unit: bv7): bv7 {
    (low ^ unit) * 0x33
  }

  lemma LowOfStep(hash: bv64, unit: bv16)
    ensures Low7(HashStep(hash, unit)) == Step7(Low7(hash), Unit7(unit))
  {
  }

  /** The multiplier is odd, so a step loses nothing. */
  lemma StepFromHash(x: bv7, y: bv7, unit: bv7)
    requires Step7(x, unit) == Step7(y, unit)
    ensures x == y
  {
  }

  lemma StepFromUnit(low: bv7, x: bv7, y: bv7)
    requires Step7(low, x) == Step7(low, y)
    ensures x == y
  {
  }

  lemma AsciiBits(b: bv7)
    ensures Unit7(b as bv16) == b
  {
  }

  lemma AsciiUnits(u: U16, v: U16)
    requires IsAscii(u) && IsAscii(v) && Unit7(Unit16(u)) == Unit7(Unit16(v))
    ensures u == v
  {
    hide Low, Unit7;
    AsciiBits(Low(u));
    AsciiBits(Low(v));
    LowInjective(u, v);
  }

  lemma {:induction false} HashesApart(s: seq<U16>, t: seq<U16>, k: nat)
    requires |s| == |t| && k < |s| && AllAscii(s) && AllAscii(t)
    requires s[k] != t[k] && forall j :: 0 <= j < |s| && j != k ==> s[j] == t[j]
    ensures Low7(HashUnits(s)) != Low7(HashUnits(t))
    decreases |s|
  {
    hide Low7, HashStep, Step7, Unit7, Unit16;
    var last := |s| - 1;
    assert IsAscii(s[last]) && IsAscii(t[last]);
    LowOfStep(HashUnits(s[..last]), Unit16(s[last]));
    LowOfStep(HashUnits(t[..last]), Unit16(t[last]));
    if Low7(HashUnits(s)) == Low7(HashUnits(t)) {
      if k == last {
        assert s[..last] == t[..last];
        StepFromUnit(Low7(HashUnits(s[..last])), Unit7(Unit16(s[last])), Unit7(Unit16(t[last])));
        AsciiUnits(s[last], t[last]);
      } else {
        StepFromHash(Low7(HashUnits(s[..last])), Low7(HashUnits(t[..last])), Unit7(Unit16(s[last])));
        HashesApart(s[..last], t[..last], k);
      }
    }
  }

  lemma SameAddress(word: bv14, place: bv6, word': bv14, place': bv6)
    requires BitAddress(word, place) == BitAddress(word', place')
    ensures word as nat == word' as nat && place as nat == place' as nat
  {
  }

  lemma SameWordAndPlace(word: bv14, place: bv6, word': bv14, place': bv6)
    requires word as nat == word' as nat && place as nat == place' as nat
    ensures word == word' && place == place'
  {
    assert (word as nat) as bv14 == word && (word' as nat) as bv14 == word';
    assert (place as nat) as bv6 == place && (place' as nat) as bv6 == place';
  }

  lemma LowFromFour(x: bv64, y: bv64)
    requires FourWord(x) == FourWord(y) && HashPlace(x) == HashPlace(y)
    ensures Low7(x) == Low7(y)
  {
  }

  lemma LowFromFive(x: bv64, y: bv64)
    requires FiveWord(x) == FiveWord(y) && HashPlace(x) == HashPlace(y)
    ensures Low7(x) == Low7(y)
  {
  }

  /** Two ASCII windows that differ in exactly one unit never share a bit of a hashed table. */
  lemma OneUnitApart(s: seq<U16>, t: seq<U16>, k: nat)
    requires |s| == |t| && k < |s| && AllAscii(s) && AllAscii(t)
    requires s[k] != t[k] && forall j :: 0 <= j < |s| && j != k ==> s[j] == t[j]
    ensures FourIndex(s) != FourIndex(t) && FiveIndex(s) != FiveIndex(t)
  {
    hide Low7, BitAddress, FourWord, FiveWord, HashPlace, HashUnits;
    HashesApart(s, t, k);
    var x, y := HashUnits(s), HashUnits(t);
    if FourIndex(s) == FourIndex(t) {
      SameAddress(FourWord(x), HashPlace(x), FourWord(y), HashPlace(y));
      SameWordAndPlace(FourWord(x), HashPlace(x), FourWord(y), HashPlace(y));
      LowFromFour(x, y);
    } else if FiveIndex(s) == FiveIndex(t) {
      SameAddress(FiveWord(x), HashPlace(x), FiveWord(y), HashPlace(y));
      SameWordAndPlace(FiveWord(x), HashPlace(x), FiveWord(y), HashPlace(y));
      LowFromFive(x, y);
    }
  }

  // ---- The filter ----------------------------------------------------------------------

  datatype LiteralPrefilter = LiteralPrefilter(
    three: seq<bv64>, four: seq<bv64>, five: seq<bv64>, hasThree: bool, hasFour: bool, hasFive: bool)
  {
    predicate Valid() {
      |three| == ASCII_TRIPLE_WORDS && |four| == FOUR_PREFIX_HASH_WORDS && |five| == FIVE_PREFIX_HASH_WORDS
    }

    predicate PrefixAllows(input: Text, start: nat)
      requires Valid() && start + 3 <= |input|
    {
      var triple := input[start..start + 3];
      if !AllAscii(triple) then true
      else if hasThree && ContainsBit(three, TripleIndex(triple)) then true
      else if start + 4 > |input| then false
      else if !IsAscii(input[start + 3]) then true
      else if hasFour && ContainsBit(four, FourIndex(input[start..start + 4])) then true
      else if start + 5 > |input| then false
      else if !IsAscii(input[start + 4]) then true
      else hasFive && ContainsBit(five, FiveIndex(input[start..start + 5]))
    }

    /** `shared_allows_start`, and the test `scan_starts` makes. */
    predicate Admits(input: Text, start: nat)
      requires Valid()
    {
      start + 3 <= |input| && PrefixAllows(input, start)
    }
  }

  /** The first units every match of one pattern begins with; at least three of them. */
  datatype NecessaryLiteral = NecessaryLiteral(ordinal: nat, units: seq<U16>)

  function FromPattern(ordinal: nat, h: Hir): (hint: Option<NecessaryLiteral>)
    ensures hint.Some? ==> |hint.value.units| >= MIN_LITERAL_UNITS
  {
    var units := Take(NecessaryPrefix(h), MAX_LITERAL_UNITS);
    if |units| >= MIN_LITERAL_UNITS then Some(NecessaryLiteral(ordinal, units)) else None
  }

  /** Every pattern's hint, if every pattern has one. */
  function HintsFrom(patterns: seq<HirPattern>): Option<seq<NecessaryLiteral>> {
    if patterns == [] then Some([])
    else
      var last := |patterns| - 1;
      var before, hint := HintsFrom(patterns[..last]), FromPattern(last, patterns[last].expression);
      if before.None? || hint.None? then None else Some(before.value + [hint.value])
  }

  predicate SetsThree(hint: NecessaryLiteral, bit: nat) {
    |hint.units| == 3 && AllAscii(hint.units) && TripleIndex(hint.units) == bit
  }

  predicate SetsFour(hint: NecessaryLiteral, bit: nat) {
    |hint.units| == 4 && AllAscii(hint.units) && FourIndex(hint.units) == bit
  }

  predicate SetsFive(hint: NecessaryLiteral, bit: nat) {
    |hint.units| >= 5 && AllAscii(hint.units[..5]) && FiveIndex(hint.units[..5]) == bit
  }

  ghost predicate AnyThree(hints: seq<NecessaryLiteral>, bit: nat) {
    exists k :: 0 <= k < |hints| && SetsThree(hints[k], bit)
  }

  ghost predicate AnyFour(hints: seq<NecessaryLiteral>, bit: nat) {
    exists k :: 0 <= k < |hints| && SetsFour(hints[k], bit)
  }

  ghost predicate AnyFive(hints: seq<NecessaryLiteral>, bit: nat) {
    exists k :: 0 <= k < |hints| && SetsFive(hints[k], bit)
  }

  ghost predicate AllLongEnough(hints: seq<NecessaryLiteral>) {
    forall k :: 0 <= k < |hints| ==> |hints[k].units| >= MIN_LITERAL_UNITS
  }

  /** The tables hold exactly the hints' bits, and the flags say which lengths occur. */
  ghost predicate Built(f: LiteralPrefilter, hints: seq<NecessaryLiteral>) {
    && f.Valid()
    && (f.hasThree <==> exists k :: 0 <= k < |hints| && |hints[k].units| == 3)
    && (f.hasFour <==> exists k :: 0 <= k < |hints| && |hints[k].units| == 4)
    && (f.hasFive <==> exists k :: 0 <= k < |hints| && |hints[k].units| >= 5)
    && (forall bit: nat :: HasBit(f.three, bit) <==> AnyThree(hints, bit))
    && (forall bit: nat :: HasBit(f.four, bit) <==> AnyFour(hints, bit))
    && (forall bit: nat :: HasBit(f.five, bit) <==> AnyFive(hints, bit))
  }

  /** Sets the one table bit that a hint's length selects, if its units are ASCII. */
  method AddHint(hint: NecessaryLiteral, three: array<bv64>, four: array<bv64>, five: array<bv64>)
    requires |hint.units| >= MIN_LITERAL_UNITS && three != four && four != five && three != five
    requires three.Length == ASCII_TRIPLE_WORDS && four.Length == FOUR_PREFIX_HASH_WORDS
             && five.Length == FIVE_PREFIX_HASH_WORDS
    modifies three, four, five
    ensures forall bit: nat :: HasBit(three[..], bit) <==> HasBit(old(three[..]), bit) || SetsThree(hint, bit)
    ensures forall bit: nat :: HasBit(four[..], bit) <==> HasBit(old(four[..]), bit) || SetsFour(hint, bit)
    ensures forall bit: nat :: HasBit(five[..], bit) <==> HasBit(old(five[..]), bit) || SetsFive(hint, bit)
  {
    hide HasBit, TripleIndex, FourIndex, FiveIndex, AllAscii;
    if |hint.units| == 3 {
      if AllAscii(hint.units) {
        SetBit(three, TripleIndex(hint.units));
      }
    } else if |hint.units| == 4 {
      if AllAscii(hint.units) {
        SetBit(four, FourIndex(hint.units));
      }
    } else {
      if AllAscii(hint.units[..5]) {
        SetBit(five, FiveIndex(hint.units[..5]));
      }
    }
  }

  method Compile(hints: seq<NecessaryLiteral>) returns (f: LiteralPrefilter)
    requires AllLongEnough(hints)
    ensures Built(f, hints)
  {
    hide HasBit, SetsThree, SetsFour, SetsFive, AnyThree, AnyFour, AnyFive;
    var three := new bv64[ASCII_TRIPLE_WORDS](_ => 0);
    var four := new bv64[FOUR_PREFIX_HASH_WORDS](_ => 0);
    var five := new bv64[FIVE_PREFIX_HASH_WORDS](_ => 0);
    var hasThree, hasFour, hasFive := false, false, false;
    forall bit: nat ensures !HasBit(three[..], bit) && !HasBit(four[..], bit) && !HasBit(five[..], bit) {
      ZerosHaveNoBit(three[..], bit);
      ZerosHaveNoBit(four[..], bit);
      ZerosHaveNoBit(five[..], bit);
    }
    NoHints();
    for i := 0 to |hints|
      invariant hasThree <==> exists k :: 0 <= k < i && |hints[k].units| == 3
      invariant hasFour <==> exists k :: 0 <= k < i && |hints[k].units| == 4
      invariant hasFive <==> exists k :: 0 <= k < i && |hints[k].units| >= 5
      invariant forall bit: nat :: HasBit(three[..], bit) <==> AnyThree(hints[..i], bit)
      invariant forall bit: nat :: HasBit(four[..], bit) <==> AnyFour(hints[..i], bit)
      invariant forall bit: nat :: HasBit(five[..], bit) <==> AnyFive(hints[..i], bit)
    {
      var hint := hints[i];
      forall bit: nat
        ensures AnyThree(hints[..i + 1], bit) <==> AnyThree(hints[..i], bit) || SetsThree(hint, bit)
        ensures AnyFour(hints[..i + 1], bit) <==> AnyFour(hints[..i], bit) || SetsFour(hint, bit)
        ensures AnyFive(hints[..i + 1], bit) <==> AnyFive(hints[..i], bit) || SetsFive(hint, bit)
      {
        OneMoreHint(hints, i, bit);
      }
      hasThree := hasThree || |hint.units| == 3;
      hasFour := hasFour || |hint.units| == 4;
      hasFive := hasFive || |hint.units| >= 5;
      AddHint(hint, three, four, five);
    }
    assert hints[..|hints|] == hints;
    f := LiteralPrefilter(three[..], four[..], five[..], hasThree, hasFour, hasFive);
  }

  lemma NoHints()
    ensures forall bit: nat :: !AnyThree([], bit) && !AnyFour([], bit) && !AnyFive([], bit)
  {
  }

  lemma OneMoreHint(hints: seq<NecessaryLiteral>, i: nat, bit: nat)
    requires i < |hints|
    ensures AnyThree(hints[..i + 1], bit) <==> AnyThree(hints[..i], bit) || SetsThree(hints[i], bit)
    ensures AnyFour(hints[..i + 1], bit) <==> AnyFour(hints[..i], bit) || SetsFour(hints[i], bit)
    ensures AnyFive(hints[..i + 1], bit) <==> AnyFive(hints[..i], bit) || SetsFive(hints[i], bit)
  {
    hide SetsThree, SetsFour, SetsFive;
    var s, t := hints[..i + 1], hints[..i];
    assert s[i] == hints[i] && forall k :: 0 <= k < i ==> s[k] == t[k] == hints[k];
  }

  // ---- What the filter admits ----------------------------------------------------------

  ghost predicate Carries(units: seq<U16>, input: Text, start: nat) {
    start + |units| <= |input| && input[start..start + |units|] == units
  }

  /** A start that carries some pattern's hint always passes. */
  lemma HintPasses(f: LiteralPrefilter, hints: seq<NecessaryLiteral>, k: nat, input: Text, start: nat)
    requires Built(f, hints) && k < |hints| && |hints[k].units| >= 3 && Carries(hints[k].units, input, start)
    ensures f.Admits(input, start)
  {
    hide HasBit, TripleIndex, FourIndex, FiveIndex, ContainsBit, Built;
    var units := hints[k].units;
    var n := if |units| < 5 then |units| else 5;
    assert input[start..start + n] == units[..n];
    assert forall j :: 0 <= j < n ==> input[start + j] == units[j];
    assert units[..|units|] == units;
    assert input[start..start + 3] == units[..3];
    if AllAscii(units[..n]) {
      HintBit(f, hints, k);
    } else {
      var j :| 0 <= j < n && !IsAscii(units[..n][j]);
      assert !IsAscii(input[start + j]);
      assert j < 3 ==> !IsAscii(input[start..start + 3][j]);
    }
  }

  lemma HintBit(f: LiteralPrefilter, hints: seq<NecessaryLiteral>, k: nat)
    requires Built(f, hints) && k < |hints|
    requires |hints[k].units| >= 3 && AllAscii(if |hints[k].units| < 5 then hints[k].units else hints[k].units[..5])
    ensures var units := hints[k].units;
            && (|units| == 3 ==> f.hasThree && ContainsBit(f.three, TripleIndex(units)))
            && (|units| == 4 ==> f.hasFour && ContainsBit(f.four, FourIndex(units)))
            && (|units| >= 5 ==> f.hasFive && ContainsBit(f.five, FiveIndex(units[..5])))
  {
    hide BitOf;
    var units := hints[k].units;
    if |units| == 3 {
      assert AnyThree(hints, TripleIndex(units));
    } else if |units| == 4 {
      assert AnyFour(hints, FourIndex(units));
    } else {
      assert AnyFive(hints, FiveIndex(units[..5]));
    }
  }

  /** Some unit among the first five, as far as the text goes, is not ASCII. */
  ghost predicate Wide(input: Text, start: nat) {
    exists k :: start <= k < start + 5 && k < |input| && !IsAscii(input[k])
  }

  /** The exact admission rule: nothing else passes than wide windows and table hits. */
  lemma AdmitsExactly(f: LiteralPrefilter, hints: seq<NecessaryLiteral>, input: Text, start: nat)
    requires Built(f, hints) && start + 3 <= |input|
    ensures f.Admits(input, start) <==>
            || Wide(input, start)
            || (exists hint :: hint in hints && |hint.units| == 3 && hint.units == input[start..start + 3])
            || (start + 4 <= |input| && exists k :: 0 <= k < |hints|
                                                    && SetsFour(hints[k], FourIndex(input[start..start + 4])))
            || (start + 5 <= |input| && exists k :: 0 <= k < |hints|
                                                    && SetsFive(hints[k], FiveIndex(input[start..start + 5])))
  {
    hide HasBit, TripleIndex, FourIndex, FiveIndex, ContainsBit;
    var triple := input[start..start + 3];
    if Wide(input, start) {
      var k :| start <= k < start + 5 && k < |input| && !IsAscii(input[k]);
      assert k < start + 3 ==> triple[k - start] == input[k];
    } else {
      assert forall k :: start <= k < start + 3 ==> triple[k - start] == input[k] && IsAscii(input[k]);
      ThreeIsExact(f, hints, triple);
      BitIsHit(f.three, TripleIndex(triple));
      if start + 4 <= |input| { BitIsHit(f.four, FourIndex(input[start..start + 4])); }
      if start + 5 <= |input| { BitIsHit(f.five, FiveIndex(input[start..start + 5])); }
    }
  }

  lemma BitIsHit(words: seq<bv64>, bit: nat)
    requires bit / 64 < |words|
    ensures ContainsBit(words, bit) <==> HasBit(words, bit)
  {
  }

  /** The triple table has no collisions. */
  lemma ThreeIsExact(f: LiteralPrefilter, hints: seq<NecessaryLiteral>, triple: seq<U16>)
    requires Built(f, hints) && |triple| == 3 && AllAscii(triple)
    ensures HasBit(f.three, TripleIndex(triple)) <==>
            exists hint :: hint in hints && |hint.units| == 3 && hint.units == triple
  {
    hide HasBit;
    if AnyThree(hints, TripleIndex(triple)) {
      var k :| 0 <= k < |hints| && SetsThree(hints[k], TripleIndex(triple));
      TripleIndexInjective(hints[k].units, triple);
      assert hints[k] in hints;
    }
    if hint :| hint in hints && |hint.units| == 3 && hint.units == triple {
      var k :| 0 <= k < |hints| && hints[k] == hint;
      assert SetsThree(hints[k], TripleIndex(triple));
    }
  }

  lemma TripleIndexInjective(s: seq<U16>, t: seq<U16>)
    requires |s| == |t| == 3 && AllAscii(s) && AllAscii(t) && TripleIndex(s) == TripleIndex(t)
    ensures s == t
  {
    hide TripleBits, Low, BitNumber;
    assert IsAscii(s[0]) && IsAscii(s[1]) && IsAscii(s[2]) && IsAscii(t[0]) && IsAscii(t[1]) && IsAscii(t[2]);
    BitNumberInjective(TripleBits(Low(s[0]), Low(s[1]), Low(s[2])), TripleBits(Low(t[0]), Low(t[1]), Low(t[2])));
    TripleBitsInjective(Low(s[0]), Low(s[1]), Low(s[2]), Low(t[0]), Low(t[1]), Low(t[2]));
    LowInjective(s[0], t[0]);
    LowInjective(s[1], t[1]);
    LowInjective(s[2], t[2]);
  }

  // ---- From patterns to admitted starts ------------------------------------------------

  lemma {:induction false} HintsAt(patterns: seq<HirPattern>, k: nat)
    requires HintsFrom(patterns).Some? && k < |patterns|
    ensures var hints := HintsFrom(patterns).value;
            && |hints| == |patterns| && AllLongEnough(hints)
            && Some(hints[k]) == FromPattern(k, patterns[k].expression)
  {
    var last := |patterns| - 1;
    if last > 0 {
      HintsAt(patterns[..last], if k < last then k else 0);
    }
  }

  lemma HintsLongEnough(patterns: seq<HirPattern>)
    requires HintsFrom(patterns).Some?
    ensures AllLongEnough(HintsFrom(patterns).value)
  {
    if patterns != [] {
      HintsAt(patterns, 0);
    }
  }

  ghost predicate NoHintAt(hints: seq<NecessaryLiteral>, input: Text, start: nat) {
    forall k :: 0 <= k < |hints| ==> !Carries(hints[k].units, input, start)
  }

  lemma PrefixTrans(a: seq<U16>, b: seq<U16>, c: seq<U16>)
    requires a <= b <= c
    ensures a <= c
  {
  }

  /** Every consuming match of the compiled pattern begins with the pattern's hint. */
  lemma MatchCarriesHint(patterns: seq<HirPattern>, k: nat, w: Text, start: nat, end: nat)
    requires HintsFrom(patterns).Some? && k < |patterns| && Accepts(patterns[k].expression, w, start, end)
    ensures k < |HintsFrom(patterns).value| && Carries(HintsFrom(patterns).value[k].units, w, start)
  {
    hide HintsFrom, NecessaryPrefix, Exits;
    var h, hints := patterns[k].expression, HintsFrom(patterns).value;
    HintsAt(patterns, k);
    PrefixSound(h, w, At(start, start), At(start, end));
    var units := hints[k].units;
    var text := w[start..end];
    TakeIsPrefix(NecessaryPrefix(h));
    PrefixTrans(units, NecessaryPrefix(h), text);
    assert text[..|units|] == units;
    SliceOfSlice(w, start, end, |units|);
  }

  /** A start the filter rejects carries no hint. */
  lemma RejectedCarriesNone(f: LiteralPrefilter, hints: seq<NecessaryLiteral>, input: Text, start: nat)
    requires Built(f, hints) && AllLongEnough(hints) && !f.Admits(input, start)
    ensures NoHintAt(hints, input, start)
  {
    hide Built, LiteralPrefilter.Admits, Carries;
    forall k | 0 <= k < |hints| ensures !Carries(hints[k].units, input, start) {
      if Carries(hints[k].units, input, start) {
        HintPasses(f, hints, k, input, start);
      }
    }
  }

  // ---- Scanning for candidates ---------------------------------------------------------

  /** `scan_starts`: adds the admitted starts of a range to the candidates. */
  method ScanStarts(f: LiteralPrefilter, input: Text, lo: nat, hi: nat, candidates: CandidateBitmap)
    requires f.Valid() && lo <= hi <= candidates.bitLen && candidates.Valid()
    modifies candidates`startCount, candidates.words
    ensures candidates.Valid() && candidates.words == old(candidates.words)
    ensures forall i: nat :: i in Members(candidates.words[..]) <==>
                             i in old(Members(candidates.words[..])) || (lo <= i < hi && f.Admits(input, i))
  {
    hide LiteralPrefilter.PrefixAllows, Members;
    for start := lo to hi
      invariant candidates.Valid() && candidates.words == old(candidates.words)
      invariant forall i: nat :: i in Members(candidates.words[..]) <==>
                                 i in old(Members(candidates.words[..])) || (lo <= i < start && f.Admits(input, i))
    {
      if start + 3 <= |input| && f.PrefixAllows(input, start) {
        candidates.Insert(start);
      }
    }
  }
}
