/**
 The eight-lane candidate kernel (rustmatch-simd/src/lib.rs:44-158), lane by lane, against
 the scalar rule it replaces.
 */
module Simd {
  import opened Base
  import opened Bits
  import opened Bitmap
  import opened LiteralFilter

  const LANES: nat := 8
  const FNV_OFFSET_LOW: bv32 := 0x8422_2325

  /** `scalar_five_allows`. */
  predicate ScalarFiveAllows(words: seq<bv64>, input: Text, start: nat)
    requires |words| == FIVE_PREFIX_HASH_WORDS
  {
    if start + 5 > |input| then false
    else if !AllAscii(input[start..start + 5]) then true
    else ContainsBit(words, FiveIndex(input[start..start + 5]))
  }

  // ---- Thirty-two bits are enough ------------------------------------------------------

  function LaneStep(hash: bv32, unit: bv16): bv32 {
    (hash ^ (unit as bv32)) * 0x1b3
  }

  function OrUnit(lane: bv32, unit: bv16): bv32 {
    lane | (unit as bv32)
  }

  /** The lane keeps the low half of the 64-bit hash. */
  predicate LowHalf(lane: bv32, hash: bv64) {
    lane as bv64 == hash & 0xffff_ffff
  }

  lemma LowHalfStep(lane: bv32, hash: bv64, unit: bv16)
    requires LowHalf(lane, hash)
    ensures LowHalf(LaneStep(lane, unit), HashStep(hash, unit))
  {
  }

  lemma LowHalfStart()
    ensures LowHalf(FNV_OFFSET_LOW, HashUnits([]))
  {
  }

  /** The 64-bit table read as little-endian 32-bit words. */
  function HalfWord(word: bv64, index: bv15): bv32 {
    ((word >> (((index & 1) as bv64) * 32)) & 0xffff_ffff) as bv32
  }

  function WordOf(index: bv15): bv14 {
    (index >> 1) as bv14
  }

  function Gather(words: seq<bv64>, index: bv15): bv32
    requires |words| == FIVE_PREFIX_HASH_WORDS
  {
    HalfWord(words[WordOf(index) as nat], index)
  }

  function LaneWord(lane: bv32): bv15 {
    ((lane & 0xf_ffff) >> 5) as bv15
  }

  /** The bit a lane selects in the 32-bit word it gathered. */
  predicate LaneBit(lane: bv32, selected: bv32) {
    (selected >> ((lane & 0xf_ffff) & 31)) & 1 == 1
  }

  lemma SameWord(lane: bv32, hash: bv64)
    requires LowHalf(lane, hash)
    ensures WordOf(LaneWord(lane)) == FiveWord(hash)
  {
  }

  lemma SameBit(lane: bv32, hash: bv64, word: bv64)
    requires LowHalf(lane, hash)
    ensures LaneBit(lane, HalfWord(word, LaneWord(lane))) <==> SetAt(word, HashPlace(hash) as bv64)
  {
  }

  // ---- Shift amounts -------------------------------------------------------------------

  function Value(x: bv64): nat {
    x as nat
  }

  function FromValue(n: nat): bv64
    requires n < 0x1_0000_0000_0000_0000
  {
    n as bv64
  }

  lemma ValueBack(x: bv64)
    ensures FromValue(Value(x)) == x
  {
    assert (x as nat) as bv64 == x;
  }

  lemma ValueInjective(x: bv64, y: bv64)
    requires Value(x) == Value(y)
    ensures x == y
  {
    hide Value, FromValue;
    ValueBack(x);
    ValueBack(y);
  }

  lemma WidenPlace(place: bv6)
    ensures place as bv64 < 64 && place as nat < 64 && Value(place as bv64) == place as nat
  {
  }

  lemma ShiftOfPlace(place: bv6)
    ensures place as nat < 64 && Shift(place as nat) == place as bv64
  {
    hide Shift;
    WidenPlace(place);
    ShiftValue(place as nat);
    ValueInjective(Shift(place as nat), place as bv64);
  }

  lemma ShiftValue(i: nat)
    requires i < 64
    ensures Value(Shift(i)) == i
  {
  }

  /** Looking up the gathered 32-bit word is looking up the 64-bit table. */
  lemma GatherIsLookup(words: seq<bv64>, lane: bv32, prefix: seq<U16>)
    requires |words| == FIVE_PREFIX_HASH_WORDS && LowHalf(lane, HashUnits(prefix))
    ensures LaneBit(lane, Gather(words, LaneWord(lane))) <==> ContainsBit(words, FiveIndex(prefix))
  {
    hide LaneBit, HalfWord, LowHalf, SetAt, Shift, HashUnits, FiveWord, HashPlace, WordOf, LaneWord;
    var hash := HashUnits(prefix);
    SameWord(lane, hash);
    SameBit(lane, hash, words[FiveWord(hash) as nat]);
    ShiftOfPlace(HashPlace(hash));
  }

  // ---- Eight lanes ---------------------------------------------------------------------

  /** Eight consecutive units, each widened to a lane. */
  function Load(input: Text, at: nat): (lanes: seq<bv16>)
    requires at + LANES <= |input|
    ensures |lanes| == LANES
  {
    seq(LANES, lane requires 0 <= lane < LANES => Unit16(input[at + lane]))
  }

  predicate Over127(lane: bv32) {
    lane > 127
  }

  lemma OrOver127(lane: bv32, unit: bv16)
    ensures Over127(OrUnit(lane, unit)) <==> Over127(lane) || unit > 127
  {
  }

  lemma WideUnit(u: U16)
    ensures Unit16(u) > 127 <==> !IsAscii(u)
  {
    var n: nat := u;
    assert n < 128 <==> (n as bv16) < 128;
  }

  /** After `count` units, a lane holds its window's hash and whether a unit was not ASCII. */
  ghost predicate LaneHolds(input: Text, at: nat, count: nat, hash: bv32, combined: bv32)
    requires at + count <= |input|
  {
    LowHalf(hash, HashUnits(input[at..at + count])) && (Over127(combined) <==> !AllAscii(input[at..at + count]))
  }

  lemma LaneStarts(input: Text, at: nat)
    requires at <= |input|
    ensures LaneHolds(input, at, 0, FNV_OFFSET_LOW, 0)
  {
    LowHalfStart();
    assert input[at..at] == [];
  }

  lemma LaneAdvances(input: Text, at: nat, count: nat, hash: bv32, combined: bv32)
    requires at + count < |input| && LaneHolds(input, at, count, hash, combined)
    ensures LaneHolds(input, at, count + 1, LaneStep(hash, Unit16(input[at + count])),
                      OrUnit(combined, Unit16(input[at + count])))
  {
    hide LowHalf, LaneStep, HashStep, Over127, OrUnit, Unit16;
    var u := input[at + count];
    var window := input[at..at + count];
    assert input[at..at + count + 1] == window + [u];
    assert (window + [u])[..|window|] == window;
    LowHalfStep(hash, HashUnits(window), Unit16(u));
    OrOver127(combined, Unit16(u));
    WideUnit(u);
    AsciiSnoc(window, u);
  }

  lemma AsciiSnoc(window: seq<U16>, u: U16)
    ensures AllAscii(window + [u]) <==> AllAscii(window) && IsAscii(u)
  {
    if AllAscii(window + [u]) {
      assert (window + [u])[|window|] == u;
      forall k | 0 <= k < |window| ensures IsAscii(window[k]) {
        assert (window + [u])[k] == window[k];
      }
    }
  }

  function MaskWord(mask: bv8): bv64 {
    mask as bv64
  }

  predicate InMask(mask: bv8, lane: nat)
    requires lane < 64
  {
    BitOf(MaskWord(mask), lane)
  }

  function SetLane(mask: bv8, lane: nat): bv8
    requires lane < LANES
  {
    WithLane(mask, Shift(lane))
  }

  function WithLane(mask: bv8, s: bv64): bv8 {
    if s < 8 then mask | ((1 as bv8) << s) else mask
  }

  lemma WithLaneAt(mask: bv8, s: bv64, t: bv64)
    requires s < 8 && t < 64
    ensures SetAt(MaskWord(WithLane(mask, s)), t) <==> s == t || SetAt(MaskWord(mask), t)
  {
    LaneWidens(mask, s);
    WithAt(mask as bv64, s, t);
  }

  lemma LaneWidens(mask: bv8, s: bv64)
    requires s < 8
    ensures (mask | ((1 as bv8) << s)) as bv64 == (mask as bv64) | (1 << s)
  {
  }

  lemma SetLaneBit(mask: bv8, lane: nat, other: nat)
    requires lane < LANES && other < 64
    ensures InMask(SetLane(mask, lane), other) <==> other == lane || InMask(mask, other)
  {
    hide SetAt, WithLane, Shift, MaskWord;
    LaneShift(lane);
    WithLaneAt(mask, Shift(lane), Shift(other));
    if lane != other && Shift(lane) == Shift(other) {
      ShiftValue(lane);
      ShiftValue(other);
    }
  }

  lemma LaneShift(lane: nat)
    requires lane < LANES
    ensures Shift(lane) < 8
  {
    ShiftOrder(lane, 8);
    assert Shift(8) == 8 by { EightShift(); }
  }

  lemma EightShift()
    ensures Shift(8) == 8
  {
    hide Shift, Value;
    ShiftValue(8);
    assert Value(8) == 8 by { EightValue(); }
    ValueInjective(Shift(8), 8);
  }

  lemma EightValue()
    ensures Value(8) == 8
  {
  }

  /** One vector step: which of eight consecutive starts pass. */
  method FiveLaneMask(words: seq<bv64>, input: Text, start: nat) returns (mask: bv8)
    requires |words| == FIVE_PREFIX_HASH_WORDS && start + 12 <= |input|
    ensures forall lane: nat :: lane < 64 ==>
                                  (InMask(mask, lane) <==> lane < LANES && ScalarFiveAllows(words, input, start + lane))
  {
    hide LowHalf, LaneStep, HashUnits, Gather, LaneBit, LaneWord, InMask, SetLane, ContainsBit, FiveIndex, Over127,
      OrUnit;
    var hash: seq<bv32> := seq(LANES, _ => FNV_OFFSET_LOW);
    var combined: seq<bv32> := seq(LANES, _ => 0);
    forall lane | 0 <= lane < LANES ensures LaneHolds(input, start + lane, 0, hash[lane], combined[lane]) {
      LaneStarts(input, start + lane);
    }
    for offset := 0 to 5
      invariant |hash| == |combined| == LANES
      invariant forall lane :: 0 <= lane < LANES ==> LaneHolds(input, start + lane, offset, hash[lane], combined[lane])
    {
      var units := Load(input, start + offset);
      var hash0, combined0 := hash, combined;
      combined := seq(LANES, lane requires 0 <= lane < LANES => OrUnit(combined0[lane], units[lane]));
      hash := seq(LANES, lane requires 0 <= lane < LANES => LaneStep(hash0[lane], units[lane]));
      forall lane | 0 <= lane < LANES ensures LaneHolds(input, start + lane, offset + 1, hash[lane], combined[lane]) {
        LaneAdvances(input, start + lane, offset, hash0[lane], combined0[lane]);
      }
    }
    mask := 0;
    EmptyMask();
    for lane := 0 to LANES
      invariant forall other: nat ::
          other < 64 ==> (InMask(mask, other) <==> other < lane && ScalarFiveAllows(words, input, start + other))
    {
      var selected := Gather(words, LaneWord(hash[lane]));
      var matches := LaneBit(hash[lane], selected);
      var nonAscii := Over127(combined[lane]);
      GatherIsLookup(words, hash[lane], input[start + lane..start + lane + 5]);
      if matches || nonAscii {
        forall other: nat | other < 64 ensures InMask(SetLane(mask, lane), other) <==>
                                               other == lane || InMask(mask, other) {
          SetLaneBit(mask, lane, other);
        }
        mask := SetLane(mask, lane);
      }
    }
  }

  lemma EmptyMask()
    ensures forall other: nat :: other < 64 ==> !InMask(0, other)
  {
    hide SetAt, Shift;
    assert MaskWord(0) == 0;
    forall other: nat | other < 64 ensures !InMask(0, other) {
      ZeroAt(Shift(other));
    }
  }

  // ---- Whole words ---------------------------------------------------------------------

  function Left(mask: bv8, s: bv64): bv64
    requires s < 64
  {
    (mask as bv64) << s
  }

  function Twice(x: bv64): bv64 {
    x << 1
  }

  function PlaceMask(c: bv64, mask: bv8, s: bv64): bv64
    requires s < 64
  {
    Or(c, Left(mask, s))
  }

  lemma TwiceMoves(x: bv64, t: bv64)
    requires 0 < t < 64
    ensures (x << 1) & (1 << t) != 0 <==> x & (1 << (t - 1)) != 0
  {
  }

  lemma TwiceEven(x: bv64)
    ensures (x << 1) & (1 << 0) == 0
  {
  }

  lemma TwiceAt(x: bv64, t: bv64)
    requires t < 64
    ensures SetAt(Twice(x), t) <==> 0 < t && SetAt(x, t - 1)
  {
    if t == 0 {
      TwiceEven(x);
    } else {
      TwiceMoves(x, t);
    }
  }

  lemma LeftMore(mask: bv8, s: bv64)
    requires s < 63
    ensures Left(mask, s + 1) == Twice(Left(mask, s))
  {
  }

  lemma LeftNone(mask: bv8)
    ensures Left(mask, 0) == MaskWord(mask)
  {
  }

  lemma TwiceBit(x: bv64, t: nat)
    requires t < 64
    ensures BitOf(Twice(x), t) <==> 0 < t && BitOf(x, t - 1)
  {
    hide SetAt, Twice, Shift;
    TwiceAt(x, Shift(t));
    if t > 0 {
      PositiveShift(t);
    } else {
      ShiftZero();
    }
  }

  lemma LeftStep(mask: bv8, s: nat)
    requires 0 < s < 64
    ensures Left(mask, Shift(s)) == Twice(Left(mask, Shift(s - 1)))
  {
    hide Twice, Left, Shift;
    SmallerShift(s - 1);
    ShiftStep(s - 1);
    LeftMore(mask, Shift(s - 1));
  }

  /** Moving a word up by `s` places moves each of its bits up by `s` places. */
  lemma {:induction false} LeftBit(mask: bv8, s: nat, t: nat)
    requires s < 64 && t < 64
    ensures BitOf(Left(mask, Shift(s)), t) <==> s <= t && InMask(mask, t - s)
    decreases s
  {
    hide BitOf, Left, Shift, Twice, MaskWord;
    if s == 0 {
      LeftNone(mask);
      assert Shift(0) == 0 by { ShiftZero(); }
    } else {
      LeftStep(mask, s);
      TwiceBit(Left(mask, Shift(s - 1)), t);
      if t > 0 {
        LeftBit(mask, s - 1, t - 1);
      }
    }
  }

  lemma SmallerShift(i: nat)
    requires i < 63
    ensures Shift(i) < 63
  {
    TopShift();
    ShiftOrder(i, 63);
  }

  lemma PositiveShift(i: nat)
    requires 0 < i < 64
    ensures 0 < Shift(i) && Shift(i) - 1 == Shift(i - 1)
  {
    ShiftStep(i - 1);
    ShiftOrder(0, i);
    assert Shift(0) == 0 by { ShiftZero(); }
  }

  lemma ShiftZero()
    ensures Shift(0) == 0
  {
  }

  lemma PlaceMaskBit(c: bv64, mask: bv8, s: nat, t: nat)
    requires s < 64 && t < 64
    ensures BitOf(PlaceMask(c, mask, Shift(s)), t) <==> BitOf(c, t) || (s <= t && InMask(mask, t - s))
  {
    hide SetAt, Left, Or, MaskWord, Shift;
    OrAt(c, Left(mask, Shift(s)), Shift(t));
    LeftBit(mask, s, t);
  }

  lemma WithBit(x: bv64, i: nat, j: nat)
    requires i < 64 && j < 64
    ensures BitOf(With(x, Shift(i)), j) <==> i == j || BitOf(x, j)
  {
    hide SetAt, With, Shift;
    WithAt(x, Shift(i), Shift(j));
    if Shift(i) == Shift(j) {
      ShiftValue(i);
      ShiftValue(j);
    }
  }

  function OneBits(x: bv64): set<nat> {
    set i: nat | i < 64 && BitOf(x, i)
  }

  /** The population count of a word. */
  function CountOnes(x: bv64): nat {
    |OneBits(x)|
  }

  lemma {:induction false} ShiftedCard(s: set<nat>, k: nat)
    ensures |set i | i in s :: i + k| == |s|
    decreases |s|
  {
    if s != {} {
      var x :| x in s;
      var rest := s - {x};
      var moved, others := set i | i in s :: i + k, set i | i in rest :: i + k;
      forall y ensures y in moved <==> y in others || y == x + k {
        if y in moved {
          var i :| i in s && y == i + k;
          assert i == x || i in rest;
        }
      }
      assert moved == others + {x + k};
      ShiftedCard(rest, k);
    } else {
      assert (set i | i in s :: i + k) == {};
    }
  }

  lemma AppendedBitOf(words: seq<bv64>, x: bv64, i: nat)
    ensures HasBit(words + [x], i) <==>
            HasBit(words, i) || (64 * |words| <= i < 64 * |words| + 64 && BitOf(x, i - 64 * |words|))
  {
    hide BitOf;
    if i / 64 < |words| {
      assert (words + [x])[i / 64] == words[i / 64];
    } else if i / 64 == |words| {
      assert i % 64 == i - 64 * |words|;
    }
  }

  lemma AppendWord(words: seq<bv64>, x: bv64)
    ensures |Members(words + [x])| == |Members(words)| + CountOnes(x)
    ensures forall i: nat :: HasBit(words + [x], i) <==>
                             HasBit(words, i) || (64 * |words| <= i < 64 * |words| + 64 && BitOf(x, i - 64 * |words|))
  {
    hide BitOf, HasBit;
    var base := 64 * |words|;
    forall i: nat ensures HasBit(words + [x], i) <==>
                          HasBit(words, i) || (base <= i < base + 64 && BitOf(x, i - base)) {
      AppendedBitOf(words, x, i);
    }
    var moved := set i | i in OneBits(x) :: i + base;
    MovedBits(x, base, moved);
    HasBitBound(words);
    assert Members(words + [x]) == Members(words) + moved;
    assert Members(words) !! moved;
    ShiftedCard(OneBits(x), base);
  }

  lemma MovedBits(x: bv64, base: nat, moved: set<nat>)
    requires moved == set i | i in OneBits(x) :: i + base
    ensures forall i: nat :: i in moved <==> base <= i < base + 64 && BitOf(x, i - base)
  {
    hide BitOf;
    forall i: nat ensures i in moved <==> base <= i < base + 64 && BitOf(x, i - base) {
      if base <= i < base + 64 && BitOf(x, i - base) {
        assert i - base in OneBits(x);
      }
    }
  }

  /** The candidates of one output word: full vectors of eight first, then single starts. */
  method CandidateWord(input: Text, words: seq<bv64>, start: nat, validStarts: nat) returns (candidates: bv64)
    requires |words| == FIVE_PREFIX_HASH_WORDS && validStarts <= 64
    ensures forall b: nat :: b < 64 ==>
                               (BitOf(candidates, b) <==> b < validStarts && ScalarFiveAllows(words, input, start + b))
  {
    hide BitOf, ScalarFiveAllows, InMask, PlaceMask, With, Shift;
    candidates := 0;
    forall b: nat | b < 64 ensures !BitOf(candidates, b) {
      ZeroBits(b);
    }
    var laneStart: nat := 0;
    while laneStart + 8 <= validStarts && start + laneStart + 12 <= |input|
      invariant laneStart <= validStarts
      invariant forall b: nat :: b < 64 ==>
                                   (BitOf(candidates, b) <==>
                                    b < laneStart && ScalarFiveAllows(words, input, start + b))
    {
      var mask := FiveLaneMask(words, input, start + laneStart);
      ghost var before := candidates;
      candidates := PlaceMask(candidates, mask, Shift(laneStart));
      forall b: nat | b < 64
        ensures BitOf(candidates, b) <==> b < laneStart + 8 && ScalarFiveAllows(words, input, start + b)
      {
        PlaceMaskBit(before, mask, laneStart, b);
        if laneStart <= b {
          assert start + laneStart + (b - laneStart) == start + b;
        }
      }
      laneStart := laneStart + 8;
    }
    while laneStart < validStarts
      invariant laneStart <= validStarts
      invariant forall b: nat :: b < 64 ==>
                                   (BitOf(candidates, b) <==>
                                    b < laneStart && ScalarFiveAllows(words, input, start + b))
    {
      if ScalarFiveAllows(words, input, start + laneStart) {
        forall b: nat | b < 64 ensures BitOf(With(candidates, Shift(laneStart)), b) <==>
                                       b == laneStart || BitOf(candidates, b) {
          WithBit(candidates, laneStart, b);
        }
        candidates := With(candidates, Shift(laneStart));
      }
      laneStart := laneStart + 1;
    }
  }

  lemma TooShort(words: seq<bv64>, input: Text, start: nat)
    requires |words| == FIVE_PREFIX_HASH_WORDS && start + 5 > |input|
    ensures !ScalarFiveAllows(words, input, start)
  {
  }

  /**
   The kernel writes, into the words `lo..hi` of `output` and nowhere else, exactly the
   starts the scalar rule admits, and returns how many there are.
   */
  method ScanFiveHashWords(input: Text, words: seq<bv64>, firstStart: nat, output: array<bv64>, lo: nat, hi: nat)
    returns (admissions: nat)
    requires |words| == FIVE_PREFIX_HASH_WORDS && lo <= hi <= output.Length
    modifies output
    ensures output[..lo] == old(output[..lo]) && output[hi..] == old(output[hi..])
    ensures forall b: nat :: b < 64 * (hi - lo) ==>
                               (HasBit(output[lo..hi], b) <==> ScalarFiveAllows(words, input, firstStart + b))
    ensures admissions == |Members(output[lo..hi])|
  {
    hide HasBit, BitOf, ScalarFiveAllows, CountOnes, Members;
    var wanted := firstStart + 64 * (hi - lo);
    var endStart := if wanted < |input| then wanted else |input|;
    admissions := 0;
    assert output[lo..lo] == [];
    NoMembers();
    for k := lo to hi
      invariant output[..lo] == old(output[..lo]) && output[hi..] == old(output[hi..])
      invariant forall b: nat :: b < 64 * (k - lo) ==>
                                   (HasBit(output[lo..k], b) <==> ScalarFiveAllows(words, input, firstStart + b))
      invariant admissions == |Members(output[lo..k])|
    {
      var start := firstStart + 64 * (k - lo);
      var left := if endStart > start then endStart - start else 0;
      var validStarts := if left < 64 then left else 64;
      var candidates := CandidateWord(input, words, start, validStarts);
      ghost var done := output[lo..k];
      output[k] := candidates;
      admissions := admissions + CountOnes(candidates);
      assert output[lo..k + 1] == done + [candidates];
      AppendWord(done, candidates);
      ghost var after := output[lo..k + 1];
      forall b: nat | b < 64 * (k + 1 - lo)
        ensures HasBit(after, b) <==> ScalarFiveAllows(words, input, firstStart + b)
      {
        if b >= 64 * (k - lo) {
          var place := b - 64 * (k - lo);
          assert start + place == firstStart + b;
          NotInEarlierWords(done, b);
          if place >= validStarts {
            TooShort(words, input, start + place);
          }
        }
      }
    }
  }

  lemma NotInEarlierWords(words: seq<bv64>, b: nat)
    requires b >= 64 * |words|
    ensures !HasBit(words, b)
  {
  }

  lemma NoMembers()
    ensures |Members([])| == 0
  {
    HasBitBound([]);
    assert Members([]) == {};
  }
}
