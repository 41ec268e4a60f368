/** Tables of 64-bit words read as bit sets (rustmatch/src/prefilter.rs:945-953, 991-1014). */
module Bits {

  // ---- Facts about one word, with the bit index held in the word type -------------------

  predicate SetAt(x: bv64, s: bv64)
    requires s < 64
  {
    x & (1 << s) != 0
  }

  function With(x: bv64, s: bv64): bv64
    requires s < 64
  {
    x | (1 << s)
  }

  function Or(x: bv64, y: bv64): bv64 {
    x | y
  }

  /** No bit below `s` is set. */
  predicate NoneBelow(x: bv64, s: bv64)
    requires s < 64
  {
    x & ((1 << s) - 1) == 0
  }

  /** `x & (x - 1)`. */
  function DropLowest(x: bv64): bv64 {
    x & (x - 1)
  }

  lemma OrDistributes(x: bv64, y: bv64, m: bv64)
    ensures (x | y) & m == (x & m) | (y & m)
  {
  }

  lemma OrIsZero(x: bv64, y: bv64)
    ensures x | y == 0 <==> x == 0 && y == 0
  {
  }

  lemma OrAt(x: bv64, y: bv64, t: bv64)
    requires t < 64
    ensures SetAt(Or(x, y), t) <==> SetAt(x, t) || SetAt(y, t)
  {
    OrDistributes(x, y, 1 << t);
    OrIsZero(x & (1 << t), y & (1 << t));
  }

  lemma WithOther(x: bv64, s: bv64, t: bv64)
    requires s < 64 && t < 64 && s != t
    ensures (x | (1 << s)) & (1 << t) == x & (1 << t)
  {
  }

  lemma WithSame(x: bv64, s: bv64)
    requires s < 64
    ensures (x | (1 << s)) & (1 << s) != 0
  {
  }

  lemma WithAt(x: bv64, s: bv64, t: bv64)
    requires s < 64 && t < 64
    ensures SetAt(With(x, s), t) <==> s == t || SetAt(x, t)
  {
    if s != t {
      WithOther(x, s, t);
    } else {
      WithSame(x, s);
    }
  }

  lemma ZeroAt(t: bv64)
    requires t < 64
    ensures !SetAt(0, t)
  {
  }

  lemma EvenDecrement(x: bv64)
    requires x & 1 == 0
    ensures DropLowest(x) == DropLowest(x >> 1) << 1
  {
  }

  lemma Halve(x: bv64, s: bv64)
    requires 0 < s < 64 && SetAt(x, s) && NoneBelow(x, s)
    ensures x & 1 == 0 && SetAt(x >> 1, s - 1) && NoneBelow(x >> 1, s - 1)
    ensures x ^ (1 << s) == ((x >> 1) ^ (1 << (s - 1))) << 1
  {
  }

  lemma {:induction false} DropIsFlip(x: bv64, s: bv64)
    requires s < 64 && SetAt(x, s) && NoneBelow(x, s)
    ensures DropLowest(x) == x ^ (1 << s)
    decreases s
  {
    if s > 0 {
      Halve(x, s);
      EvenDecrement(x);
      DropIsFlip(x >> 1, s - 1);
    }
  }

  lemma FlipOther(x: bv64, s: bv64, t: bv64)
    requires s < 64 && t < 64 && s != t
    ensures (x ^ (1 << s)) & (1 << t) == x & (1 << t)
  {
  }

  lemma FlipSame(x: bv64, s: bv64)
    requires s < 64 && x & (1 << s) != 0
    ensures (x ^ (1 << s)) & (1 << s) == 0
  {
  }

  lemma FlipAt(x: bv64, s: bv64, t: bv64)
    requires s < 64 && t < 64 && SetAt(x, s)
    ensures SetAt(x ^ (1 << s), t) <==> SetAt(x, t) && t != s
  {
    if s != t {
      FlipOther(x, s, t);
    } else {
      FlipSame(x, s);
    }
  }

  lemma DropAt(x: bv64, s: bv64, t: bv64)
    requires s < 64 && t < 64 && SetAt(x, s) && NoneBelow(x, s)
    ensures SetAt(DropLowest(x), t) <==> SetAt(x, t) && t != s
  {
    DropIsFlip(x, s);
    FlipAt(x, s, t);
  }

  lemma MaskStep(s: bv64)
    requires s < 63
    ensures ((1 as bv64) << (s + 1)) - 1 == (((1 as bv64) << s) - 1) | ((1 as bv64) << s)
  {
  }

  lemma NoneBelowStep(x: bv64, s: bv64)
    requires s < 63 && NoneBelow(x, s) && !SetAt(x, s)
    ensures NoneBelow(x, s + 1)
  {
    MaskStep(s);
  }

  lemma NoneBelowTop(x: bv64)
    requires NoneBelow(x, 63) && !SetAt(x, 63)
    ensures x == 0
  {
  }

  lemma NoneBelowAt(x: bv64, s: bv64, t: bv64)
    requires t < s < 64 && NoneBelow(x, s)
    ensures !SetAt(x, t)
  {
  }

  // ---- The same facts, with ordinary numbers as bit indices -----------------------------

  lemma IncrementValue(b: bv64)
    requires b < 63
    ensures (b + 1) as int == b as int + 1
  {
  }

  lemma SmallValue(b: bv64)
    requires b < 64 && b as int < 63
    ensures b < 63
  {
    if b == 63 { }
  }

  /** The number `i` as a shift amount. */
  function Shift(i: nat): (r: bv64)
    requires i < 64
    ensures r < 64 && r as int == i
  {
    if i == 0 then 0
    else
      var r := Shift(i - 1);
      SmallValue(r);
      IncrementValue(r);
      r + 1
  }

  lemma ShiftStep(i: nat)
    requires i < 63
    ensures Shift(i + 1) == Shift(i) + 1
  {
  }

  lemma TopShift()
    ensures Shift(63) == 63
  {
    if Shift(63) < 63 {
      IncrementsBelow(Shift(63));
    }
  }

  lemma IncrementsBelow(b: bv64)
    requires b < 63
    ensures b as int < 63
  {
  }

  lemma {:induction false} ShiftOrder(i: nat, j: nat)
    requires i < j < 64
    ensures Shift(i) < Shift(j)
  {
    SmallValue(Shift(j - 1));
    if i < j - 1 {
      ShiftOrder(i, j - 1);
    }
  }

  predicate BitOf(x: bv64, i: nat)
    requires i < 64
  {
    SetAt(x, Shift(i))
  }

  predicate LowClear(x: bv64, i: nat)
    requires i < 64
  {
    NoneBelow(x, Shift(i))
  }

  lemma LowClearStep(x: bv64, i: nat)
    requires i < 63 && LowClear(x, i) && !BitOf(x, i)
    ensures LowClear(x, i + 1)
  {
    hide SetAt, NoneBelow, Shift;
    SmallValue(Shift(i));
    assert Shift(i + 1) == Shift(i) + 1 by { ShiftStep(i); }
    NoneBelowStep(x, Shift(i));
  }

  lemma LowClearBelow(x: bv64, i: nat, j: nat)
    requires j < i < 64 && LowClear(x, i)
    ensures !BitOf(x, j)
  {
    hide SetAt, NoneBelow, Shift;
    ShiftOrder(j, i);
    NoneBelowAt(x, Shift(i), Shift(j));
  }

  /** Clearing the lowest bit `i` leaves every other bit alone. */
  lemma DropBit(x: bv64, i: nat, j: nat)
    requires i < 64 && j < 64 && BitOf(x, i) && LowClear(x, i)
    ensures BitOf(DropLowest(x), j) <==> BitOf(x, j) && j != i
  {
    hide SetAt, NoneBelow, Shift, DropLowest;
    DropAt(x, Shift(i), Shift(j));
  }

  lemma LowClearStart(x: bv64)
    ensures LowClear(x, 0)
  {
  }

  lemma LowClearTop(x: bv64)
    requires LowClear(x, 63) && !BitOf(x, 63)
    ensures x == 0
  {
    TopShift();
    NoneBelowTop(x);
  }

  /** The index of the lowest set bit, looked for from `from` upwards. */
  function TrailingZeros(x: bv64, from: nat): (r: nat)
    requires x != 0 && from < 64 && LowClear(x, from)
    ensures r < 64 && BitOf(x, r) && LowClear(x, r)
    decreases 64 - from
  {
    hide BitOf, LowClear;
    if BitOf(x, from) then from
    else if from == 63 then LowClearTop(x); from
    else LowClearStep(x, from); TrailingZeros(x, from + 1)
  }

  // ---- Bit tables ----------------------------------------------------------------------

  predicate ContainsBit(words: seq<bv64>, bit: nat)
    requires bit / 64 < |words|
  {
    BitOf(words[bit / 64], bit % 64)
  }

  ghost predicate HasBit(words: seq<bv64>, bit: nat) {
    bit / 64 < |words| && ContainsBit(words, bit)
  }

  function Flip(words: seq<bv64>, bit: nat): seq<bv64>
    requires bit / 64 < |words|
  {
    words[bit / 64 := With(words[bit / 64], Shift(bit % 64))]
  }

  lemma FlipSets(words: seq<bv64>, bit: nat, other: nat)
    requires bit / 64 < |words|
    ensures HasBit(Flip(words, bit), other) <==> other == bit || HasBit(words, other)
  {
    hide SetAt, With, Shift;
    if other / 64 == bit / 64 {
      WithAt(words[bit / 64], Shift(bit % 64), Shift(other % 64));
    }
  }

  method SetBit(words: array<bv64>, bit: nat)
    requires bit / 64 < words.Length
    modifies words
    ensures words[..] == Flip(old(words[..]), bit)
    ensures forall other: nat :: HasBit(words[..], other) <==> other == bit || HasBit(old(words[..]), other)
  {
    hide HasBit, Shift, With;
    words[bit / 64] := With(words[bit / 64], Shift(bit % 64));
    assert words[..] == Flip(old(words[..]), bit);
    forall other: nat ensures HasBit(words[..], other) <==> other == bit || HasBit(old(words[..]), other) {
      FlipSets(old(words[..]), bit, other);
    }
  }

  lemma ZerosHaveNoBit(words: seq<bv64>, bit: nat)
    requires forall k :: 0 <= k < |words| ==> words[k] == 0
    ensures !HasBit(words, bit)
  {
    hide SetAt, Shift;
    if bit / 64 < |words| {
      ZeroAt(Shift(bit % 64));
    }
  }
}
