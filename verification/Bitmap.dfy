/** The candidate bitmap and its ascending iterator (rustmatch/src/prefilter.rs:929-1006). */
module Bitmap {
  import opened Bits
  import opened Sorting

  /** The set bits of a word table. */
  ghost function Members(words: seq<bv64>): set<nat> {
    set i: nat | i < 64 * |words| && HasBit(words, i)
  }

  lemma OneMoreMember(before: seq<bv64>, after: seq<bv64>, local: nat)
    requires |before| == |after| && local < 64 * |before| && !HasBit(before, local)
    requires forall b: nat :: HasBit(after, b) <==> b == local || HasBit(before, b)
    ensures |Members(after)| == |Members(before)| + 1
  {
    hide HasBit;
    assert Members(after) == Members(before) + {local};
    assert local !in Members(before);
  }

  lemma MemberBit(words: seq<bv64>, i: nat)
    requires i / 64 < |words|
    ensures ContainsBit(words, i) <==> HasBit(words, i)
    ensures HasBit(words, i) <==> i in Members(words)
  {
  }

  lemma MembersAfterSet(before: seq<bv64>, after: seq<bv64>, start: nat)
    requires |before| == |after| && start / 64 < |before|
    requires forall b: nat :: HasBit(after, b) <==> b == start || HasBit(before, b)
    ensures Members(after) == Members(before) + {start}
    ensures HasBit(before, start) ==> Members(after) == Members(before)
  {
    hide HasBit;
    forall i ensures i in Members(after) <==> i in Members(before) + {start} {
    }
    if HasBit(before, start) {
      assert start in Members(before);
    }
  }

  class CandidateBitmap {
    var words: array<bv64>
    var startCount: nat
    const bitLen: nat

    ghost predicate Valid()
      reads this, words
    {
      && words.Length == (bitLen + 63) / 64
      && startCount == |Members(words[..])|
      && (forall i :: i in Members(words[..]) ==> i < bitLen)
    }

    constructor (bitLen: nat)
      ensures Valid() && fresh(words) && this.bitLen == bitLen && Members(words[..]) == {}
    {
      this.bitLen := bitLen;
      words := new bv64[(bitLen + 63) / 64](_ => 0);
      startCount := 0;
      new;
      forall i: nat ensures !HasBit(words[..], i) {
        ZerosHaveNoBit(words[..], i);
      }
      assert Members(words[..]) == {};
    }

    method Insert(start: nat)
      requires Valid() && start < bitLen
      modifies this`startCount, words
      ensures Valid() && Members(words[..]) == old(Members(words[..])) + {start}
    {
      hide HasBit, ContainsBit;
      ghost var before := words[..];
      var present := ContainsBit(words[..], start);
      MemberBit(before, start);
      SetBit(words, start);
      MembersAfterSet(before, words[..], start);
      if !present {
        OneMoreMember(before, words[..], start);
        startCount := startCount + 1;
      }
    }

    /** Starts from the candidates of a shorter bitmap. */
    method CopyPrefix(sample: CandidateBitmap)
      requires Valid() && sample.Valid() && sample.words != words && sample.bitLen <= bitLen
      requires Members(words[..]) == {}
      modifies this`startCount, words
      ensures Valid() && Members(words[..]) == old(Members(sample.words[..]))
    {
      forall k | 0 <= k < sample.words.Length {
        words[k] := sample.words[k];
      }
      startCount := sample.startCount;
      forall i: nat ensures HasBit(words[..], i) <==> HasBit(old(sample.words[..]), i) {
        if i / 64 < words.Length {
          if i / 64 >= sample.words.Length {
            assert words[..][i / 64] == old(words[..])[i / 64];
            assert HasBit(words[..], i) == HasBit(old(words[..]), i);
            assert i !in old(Members(words[..]));
          }
        }
      }
      assert Members(words[..]) == old(Members(sample.words[..]));
    }
  }

  // ---- Iteration -----------------------------------------------------------------------

  class CandidateIter {
    const words: seq<bv64>
    var index: nat
    var current: bv64
    var wordBase: nat

    ghost predicate Valid()
      reads this
    {
      index <= |words| && (current != 0 ==> wordBase + 64 == 64 * index)
    }

    /** What is still to be produced: the rest of the current word, then the later words. */
    ghost predicate Left(i: nat)
      reads this
    {
      || (current != 0 && wordBase <= i < wordBase + 64 && BitOf(current, i - wordBase))
      || (64 * index <= i && HasBit(words, i))
    }

    constructor (words: seq<bv64>)
      ensures Valid() && this.words == words && forall i: nat :: Left(i) <==> HasBit(words, i)
    {
      this.words := words;
      index, current, wordBase := 0, 0, 0;
    }

    method Next() returns (next: nat, some: bool)
      requires Valid()
      modifies this
      ensures Valid()
      ensures some ==> old(Left(next)) && forall i: nat :: Left(i) <==> old(Left(i)) && i != next
      ensures some ==> forall i: nat :: old(Left(i)) ==> next <= i
      ensures !some ==> forall i: nat :: !old(Left(i)) && !Left(i)
    {
      hide BitOf, DropLowest;
      next, some := 0, false;
      while current == 0
        invariant Valid()
        invariant forall i: nat :: Left(i) <==> old(Left(i))
        decreases |words| - index
      {
        if index == |words| {
          return;
        }
        current := words[index];
        wordBase := 64 * index;
        index := index + 1;
        forall i: nat ensures Left(i) <==> old(Left(i)) {
          assert i / 64 == index - 1 <==> wordBase <= i < wordBase + 64;
          if current == 0 && i / 64 == index - 1 { ZeroWord(words, i); }
        }
      }
      LowClearStart(current);
      var bit := TrailingZeros(current, 0);
      next, some := wordBase + bit, true;
      label before:
      current := DropLowest(current);
      forall i: nat ensures Left(i) <==> old@before(Left(i)) && i != next {
        if wordBase <= i < wordBase + 64 {
          DropBit(old@before(current), bit, i - wordBase);
          if current == 0 { ZeroBits(i - wordBase); }
        }
      }
      forall i: nat | old@before(Left(i)) ensures next <= i {
        if wordBase <= i < next {
          LowClearBelow(old@before(current), bit, i - wordBase);
        }
      }
    }
  }

  lemma ZeroBits(i: nat)
    requires i < 64
    ensures !BitOf(0, i)
  {
    hide SetAt, Shift;
    ZeroAt(Shift(i));
  }

  lemma ZeroWord(words: seq<bv64>, i: nat)
    requires i / 64 < |words| && words[i / 64] == 0
    ensures !HasBit(words, i)
  {
    hide BitOf;
    ZeroBits(i % 64);
  }

  lemma HasBitBound(words: seq<bv64>)
    ensures forall i: nat :: HasBit(words, i) ==> i < 64 * |words|
  {
  }

  /** Draining the iterator lists the candidates once each, in ascending order. */
  method Collect(words: seq<bv64>) returns (starts: seq<nat>)
    ensures Ascending(starts) && forall i: nat :: i in starts <==> HasBit(words, i)
  {
    hide HasBit;
    var iter := new CandidateIter(words);
    starts := [];
    var more := true;
    HasBitBound(words);
    while more
      invariant fresh(iter) && iter.Valid() && iter.words == words && Ascending(starts)
      invariant forall i: nat :: HasBit(words, i) <==> i in starts || iter.Left(i)
      invariant forall i: nat :: iter.Left(i) ==> i !in starts && (forall k :: 0 <= k < |starts| ==> starts[k] < i)
      invariant !more ==> forall i: nat :: !iter.Left(i)
      invariant forall i: nat :: HasBit(words, i) ==> i < 64 * |words|
      decreases 64 * |words| - |starts|, more
    {
      var next, some := iter.Next();
      if some {
        starts := starts + [next];
        AscendingBound(starts, 64 * |words|);
      }
      more := some;
    }
  }

  lemma AscendingBound(s: seq<nat>, n: nat)
    requires Ascending(s) && forall k :: 0 <= k < |s| ==> s[k] < n
    ensures |s| <= n
  {
    DistinctBound(s, n);
  }
}
