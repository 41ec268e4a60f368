/**
 Candidate discovery shared by several partitions (rustmatch/src/shared_candidate.rs:20-116,
 167-308; rustmatch/src/shared_engine.rs:10-48): one union filter, one sharded bitmap, and
 every partition filters the shared starts again with its own filter.
 */
module SharedCandidate {
  import opened Base
  import opened Database
  import opened ScanSpec
  import opened PatternEvents
  import opened Sorting
  import opened Cache
  import opened Bits
  import opened Bitmap
  import opened LiteralFilter
  import opened StartTable
  import opened Engine
  import opened Simd

  const MIN_SHARED_PARTITION_COUNT: nat := 16
  const MIN_SHARED_INPUT_UNITS: nat := 32 * 1024 * 1024
  const MAX_SHARED_PLAN_SHARDS: nat := 8

  predicate IsEligible(partitionCount: nat, inputUnits: nat, enabled: bool, literalEnabled: bool) {
    enabled && literalEnabled && partitionCount >= MIN_SHARED_PARTITION_COUNT && inputUnits >= MIN_SHARED_INPUT_UNITS
  }

  // ---- The union filter ----------------------------------------------------------------

  ghost predicate AllValid(filters: seq<LiteralPrefilter>) {
    forall k :: 0 <= k < |filters| ==> filters[k].Valid()
  }

  /** A table has a bit only for a length its filter has; compiling guarantees it. */
  ghost predicate Flagged(f: LiteralPrefilter) {
    && f.Valid()
    && (forall bit: nat :: HasBit(f.three, bit) ==> f.hasThree)
    && (forall bit: nat :: HasBit(f.four, bit) ==> f.hasFour)
    && (forall bit: nat :: HasBit(f.five, bit) ==> f.hasFive)
  }

  lemma BuiltIsFlagged(f: LiteralPrefilter, hints: seq<NecessaryLiteral>)
    requires Built(f, hints)
    ensures Flagged(f)
  {
    hide HasBit, TripleIndex, FourIndex, FiveIndex;
  }

  ghost predicate IsUnion(union: LiteralPrefilter, filters: seq<LiteralPrefilter>) {
    && union.Valid()
    && (union.hasThree <==> exists k :: 0 <= k < |filters| && filters[k].hasThree)
    && (union.hasFour <==> exists k :: 0 <= k < |filters| && filters[k].hasFour)
    && (union.hasFive <==> exists k :: 0 <= k < |filters| && filters[k].hasFive)
    && (forall bit: nat :: HasBit(union.three, bit) <==>
                           exists k :: 0 <= k < |filters| && HasBit(filters[k].three, bit))
    && (forall bit: nat :: HasBit(union.four, bit) <==> exists k :: 0 <= k < |filters| && HasBit(filters[k].four, bit))
    && (forall bit: nat :: HasBit(union.five, bit) <==> exists k :: 0 <= k < |filters| && HasBit(filters[k].five, bit))
  }

  lemma OrBit(x: bv64, y: bv64, i: nat)
    requires i < 64
    ensures BitOf(Or(x, y), i) <==> BitOf(x, i) || BitOf(y, i)
  {
    hide SetAt, Shift, Or;
    OrAt(x, y, Shift(i));
  }

  /** `union_words`: ORs a partition's table into the union table, in place. */
  method UnionWords(union: array<bv64>, partition: seq<bv64>)
    requires union.Length == |partition|
    modifies union
    ensures forall bit: nat :: HasBit(union[..], bit) <==> HasBit(old(union[..]), bit) || HasBit(partition, bit)
  {
    hide BitOf, Or;
    for k := 0 to union.Length
      invariant forall j :: 0 <= j < union.Length ==>
                              union[j] == if j < k then Or(old(union[j]), partition[j]) else old(union[j])
    {
      union[k] := Or(union[k], partition[k]);
    }
    forall bit: nat ensures HasBit(union[..], bit) <==> HasBit(old(union[..]), bit) || HasBit(partition, bit) {
      if bit / 64 < union.Length {
        OrBit(old(union[bit / 64]), partition[bit / 64], bit % 64);
      }
    }
  }

  method UnionOf(filters: seq<LiteralPrefilter>) returns (union: LiteralPrefilter)
    requires filters != [] && AllValid(filters)
    ensures IsUnion(union, filters)
  {
    hide HasBit;
    var first := filters[0];
    var three := CopyWords(first.three);
    var four := CopyWords(first.four);
    var five := CopyWords(first.five);
    var hasThree, hasFour, hasFive := first.hasThree, first.hasFour, first.hasFive;
    for i := 1 to |filters|
      invariant hasThree <==> exists k :: 0 <= k < i && filters[k].hasThree
      invariant hasFour <==> exists k :: 0 <= k < i && filters[k].hasFour
      invariant hasFive <==> exists k :: 0 <= k < i && filters[k].hasFive
      invariant forall bit: nat :: HasBit(three[..], bit) <==> exists k :: 0 <= k < i && HasBit(filters[k].three, bit)
      invariant forall bit: nat :: HasBit(four[..], bit) <==> exists k :: 0 <= k < i && HasBit(filters[k].four, bit)
      invariant forall bit: nat :: HasBit(five[..], bit) <==> exists k :: 0 <= k < i && HasBit(filters[k].five, bit)
    {
      UnionWords(three, filters[i].three);
      UnionWords(four, filters[i].four);
      UnionWords(five, filters[i].five);
      hasThree := hasThree || filters[i].hasThree;
      hasFour := hasFour || filters[i].hasFour;
      hasFive := hasFive || filters[i].hasFive;
    }
    union := LiteralPrefilter(three[..], four[..], five[..], hasThree, hasFour, hasFive);
  }

  method CopyWords(words: seq<bv64>) returns (copy: array<bv64>)
    ensures fresh(copy) && copy[..] == words
  {
    copy := new bv64[|words|](k requires 0 <= k < |words| => words[k]);
  }

  /** The union admits a start exactly when some partition does. */
  lemma UnionAdmits(union: LiteralPrefilter, filters: seq<LiteralPrefilter>, input: Text, start: nat)
    requires filters != [] && AllValid(filters) && IsUnion(union, filters)
             && forall k :: 0 <= k < |filters| ==> Flagged(filters[k])
    ensures union.Admits(input, start) <==> exists k :: 0 <= k < |filters| && filters[k].Admits(input, start)
  {
    hide IsUnion, Flagged, LiteralPrefilter.Admits;
    UnionIsValid(union, filters);
    if union.Admits(input, start) {
      var k := UnionAdmitter(union, filters, input, start);
    }
    forall k | 0 <= k < |filters| && filters[k].Admits(input, start) ensures union.Admits(input, start) {
      PartAdmitted(union, filters, k, input, start);
    }
  }

  lemma UnionIsValid(union: LiteralPrefilter, filters: seq<LiteralPrefilter>)
    requires IsUnion(union, filters)
    ensures union.Valid()
  {
  }

  lemma PartAdmitted(union: LiteralPrefilter, filters: seq<LiteralPrefilter>, k: nat, input: Text, start: nat)
    requires IsUnion(union, filters) && k < |filters| && filters[k].Valid() && filters[k].Admits(input, start)
    ensures union.Admits(input, start)
  {
    hide HasBit, TripleIndex, FourIndex, FiveIndex, AllAscii, ContainsBit;
    TableHits(union, input, start);
    TableHits(filters[k], input, start);
  }

  /** The three lookups of one start, in terms of table membership. */
  lemma TableHits(f: LiteralPrefilter, input: Text, start: nat)
    requires f.Valid() && start + 3 <= |input|
    ensures AllAscii(input[start..start + 3]) ==>
              (ContainsBit(f.three, TripleIndex(input[start..start + 3])) <==>
               HasBit(f.three, TripleIndex(input[start..start + 3])))
    ensures start + 4 <= |input| ==>
              (ContainsBit(f.four, FourIndex(input[start..start + 4])) <==>
               HasBit(f.four, FourIndex(input[start..start + 4])))
    ensures start + 5 <= |input| ==>
              (ContainsBit(f.five, FiveIndex(input[start..start + 5])) <==>
               HasBit(f.five, FiveIndex(input[start..start + 5])))
  {
    hide TripleIndex, FourIndex, FiveIndex, AllAscii;
  }

  lemma UnionAdmitter(union: LiteralPrefilter, filters: seq<LiteralPrefilter>, input: Text, start: nat) returns (k: nat)
    requires filters != [] && IsUnion(union, filters) && (forall k :: 0 <= k < |filters| ==> Flagged(filters[k]))
    requires union.Admits(input, start)
    ensures k < |filters| && filters[k].Valid() && filters[k].Admits(input, start)
  {
    hide HasBit, TripleIndex, FourIndex, FiveIndex, AllAscii, ContainsBit;
    TableHits(union, input, start);
    var triple := input[start..start + 3];
    if AllAscii(triple) && union.hasThree && ContainsBit(union.three, TripleIndex(triple)) {
      k :| 0 <= k < |filters| && HasBit(filters[k].three, TripleIndex(triple));
    } else if start + 4 <= |input| && union.hasFour && ContainsBit(union.four, FourIndex(input[start..start + 4])) {
      k :| 0 <= k < |filters| && HasBit(filters[k].four, FourIndex(input[start..start + 4]));
    } else if start + 5 <= |input| && union.hasFive && ContainsBit(union.five, FiveIndex(input[start..start + 5])) {
      k :| 0 <= k < |filters| && HasBit(filters[k].five, FiveIndex(input[start..start + 5]));
    } else {
      k := 0;
    }
    TableHits(filters[k], input, start);
  }

  // ---- Scanning a slice of words -------------------------------------------------------

  predicate SupportsAvx2Five(union: LiteralPrefilter) {
    union.hasFive && !union.hasThree && !union.hasFour
  }

  /** Whether the kernel is used; otherwise the scalar loop is. */
  predicate UsesKernel(union: LiteralPrefilter, avx2: bool) {
    SupportsAvx2Five(union) && avx2
  }

  /** What the chosen path admits. */
  predicate PathAdmits(union: LiteralPrefilter, avx2: bool, input: Text, start: nat)
    requires union.Valid()
  {
    if UsesKernel(union, avx2) then ScalarFiveAllows(union.five, input, start) else union.Admits(input, start)
  }

  /** The kernel differs from the scalar path only where fewer than five units are left. */
  lemma KernelAgrees(union: LiteralPrefilter, input: Text, start: nat)
    requires union.Valid() && SupportsAvx2Five(union)
    ensures ScalarFiveAllows(union.five, input, start) <==> union.Admits(input, start) && start + 5 <= |input|
  {
    hide FiveIndex, TripleIndex, FourIndex, ContainsBit;
    if start + 5 <= |input| {
      var window := input[start..start + 5];
      assert forall k :: 0 <= k < 5 ==> window[k] == input[start + k];
      var triple := input[start..start + 3];
      assert forall k :: 0 <= k < 3 ==> triple[k] == input[start + k];
      if !AllAscii(window) {
        var k :| 0 <= k < 5 && !IsAscii(window[k]);
        assert k < 3 ==> !IsAscii(triple[k]);
      } else {
        assert IsAscii(window[3]) && IsAscii(window[4]);
        forall k | 0 <= k < 3 ensures IsAscii(triple[k]) {
          assert IsAscii(window[k]);
        }
      }
    }
  }

  /** Sets the admitted bits of the words `lo..hi`, which start out clear. */
  method ScanWordSlice(union: LiteralPrefilter, input: Text, words: array<bv64>, lo: nat, hi: nat, avx2: bool)
    returns (admissions: nat)
    requires union.Valid() && lo <= hi <= words.Length && forall k :: lo <= k < hi ==> words[k] == 0
    modifies words
    ensures words[..lo] == old(words[..lo]) && words[hi..] == old(words[hi..])
    ensures forall b: nat :: b < 64 * (hi - lo) ==>
                               (HasBit(words[lo..hi], b) <==> PathAdmits(union, avx2, input, 64 * lo + b))
    ensures admissions == |Members(words[lo..hi])|
  {
    hide HasBit, Members, ScalarFiveAllows, LiteralPrefilter.Admits;
    if UsesKernel(union, avx2) {
      admissions := ScanFiveHashWords(input, union.five, 64 * lo, words, lo, hi);
      ghost var slice := words[lo..hi];
      forall b: nat | b < 64 * (hi - lo) ensures HasBit(slice, b) <==> PathAdmits(union, avx2, input, 64 * lo + b) {
        assert ScalarFiveAllows(union.five, input, 64 * lo + b) <==> PathAdmits(union, avx2, input, 64 * lo + b);
      }
    } else {
      admissions := ScanWordSliceScalar(union, input, words, lo, hi);
      ghost var slice := words[lo..hi];
      forall b: nat | b < 64 * (hi - lo) ensures HasBit(slice, b) <==> PathAdmits(union, avx2, input, 64 * lo + b) {
        assert union.Admits(input, 64 * lo + b) <==> PathAdmits(union, avx2, input, 64 * lo + b);
      }
    }
  }

  method ScanWordSliceScalar(union: LiteralPrefilter, input: Text, words: array<bv64>, lo: nat, hi: nat)
    returns (admissions: nat)
    requires union.Valid() && lo <= hi <= words.Length && forall k :: lo <= k < hi ==> words[k] == 0
    modifies words
    ensures words[..lo] == old(words[..lo]) && words[hi..] == old(words[hi..])
    ensures forall b: nat :: b < 64 * (hi - lo) ==> (HasBit(words[lo..hi], b) <==> union.Admits(input, 64 * lo + b))
    ensures admissions == |Members(words[lo..hi])|
  {
    hide HasBit, LiteralPrefilter.Admits;
    var firstStart := 64 * lo;
    var endStart := if 64 * hi < |input| then 64 * hi else |input|;
    admissions := 0;
    NothingSet(words[lo..hi]);
    var start := firstStart;
    while start < endStart
      invariant firstStart <= start && (start <= endStart || start == firstStart)
      invariant words[..lo] == old(words[..lo]) && words[hi..] == old(words[hi..])
      invariant forall b: nat :: HasBit(words[lo..hi], b) <==>
                                 firstStart + b < start && union.Admits(input, firstStart + b)
      invariant admissions == |Members(words[lo..hi])|
    {
      if union.Admits(input, start) {
        SetLocal(words, lo, hi, start - firstStart);
        admissions := admissions + 1;
      }
      start := start + 1;
    }
    ghost var slice := words[lo..hi];
    forall b: nat | b < 64 * (hi - lo) ensures HasBit(slice, b) <==> union.Admits(input, 64 * lo + b) {
      if firstStart + b >= |input| {
        TooLate(union, input, firstStart + b);
      }
    }
  }

  lemma TooLate(union: LiteralPrefilter, input: Text, start: nat)
    requires union.Valid() && start >= |input|
    ensures !union.Admits(input, start)
  {
  }

  lemma NothingSet(words: seq<bv64>)
    requires forall k :: 0 <= k < |words| ==> words[k] == 0
    ensures (forall b: nat :: !HasBit(words, b)) && |Members(words)| == 0
  {
    hide HasBit;
    forall b: nat ensures !HasBit(words, b) {
      ZerosHaveNoBit(words, b);
    }
    assert Members(words) == {};
  }

  /** Sets one bit of the slice `lo..hi` that was clear. */
  method SetLocal(words: array<bv64>, lo: nat, hi: nat, local: nat)
    requires lo <= hi <= words.Length && local < 64 * (hi - lo) && !HasBit(words[lo..hi], local)
    modifies words
    ensures words[..lo] == old(words[..lo]) && words[hi..] == old(words[hi..])
    ensures forall b: nat :: HasBit(words[lo..hi], b) <==> b == local || HasBit(old(words[lo..hi]), b)
    ensures |Members(words[lo..hi])| == |Members(old(words[lo..hi]))| + 1
  {
    hide HasBit, With, Shift;
    ghost var before := words[lo..hi];
    words[lo + local / 64] := With(words[lo + local / 64], Shift(local % 64));
    ghost var after := words[lo..hi];
    assert after == Flip(before, local);
    forall b: nat ensures HasBit(after, b) <==> b == local || HasBit(before, b) {
      FlipSets(before, local, b);
    }
    OneMoreMember(before, after, local);
  }

  // ---- The sharded plan ----------------------------------------------------------------

  lemma {:induction false} AppendWords(a: seq<bv64>, b: seq<bv64>)
    ensures |Members(a + b)| == |Members(a)| + |Members(b)|
    ensures forall i: nat :: HasBit(a + b, i) <==> HasBit(a, i) || (64 * |a| <= i && HasBit(b, i - 64 * |a|))
  {
    hide BitOf, Members;
    if b == [] {
      assert a + b == a;
      NoMembers();
      HasBitBound(b);
    } else {
      var last := |b| - 1;
      var init, x := b[..last], b[last];
      assert b == init + [x] && a + b == (a + init) + [x];
      AppendWords(a, init);
      AppendWord(a + init, x);
      AppendWord(init, x);
    }
    forall i: nat ensures HasBit(a + b, i) <==> HasBit(a, i) || (64 * |a| <= i && HasBit(b, i - 64 * |a|)) {
      AppendedBit(a, b, i);
    }
  }

  lemma AppendedBit(a: seq<bv64>, b: seq<bv64>, i: nat)
    ensures HasBit(a + b, i) <==> HasBit(a, i) || (64 * |a| <= i && HasBit(b, i - 64 * |a|))
  {
    hide BitOf;
    if i / 64 < |a| {
      assert (a + b)[i / 64] == a[i / 64];
    } else if i / 64 < |a| + |b| {
      assert (a + b)[i / 64] == b[i / 64 - |a|];
      assert (i - 64 * |a|) / 64 == i / 64 - |a| && (i - 64 * |a|) % 64 == i % 64;
    }
  }

  function LiteralsOf(filters: seq<Prefilter>): Option<seq<LiteralPrefilter>> {
    if filters == [] then Some([])
    else
      var last := |filters| - 1;
      var before := LiteralsOf(filters[..last]);
      if before.None? || filters[last].literal.None? then None else Some(before.value + [filters[last].literal.value])
  }

  lemma {:induction false} LiteralsAt(filters: seq<Prefilter>, k: nat)
    requires k < |filters|
    ensures LiteralsOf(filters).Some? ==>
              |LiteralsOf(filters).value| == |filters| && filters[k].literal == Some(LiteralsOf(filters).value[k])
    ensures filters[k].literal.None? ==> LiteralsOf(filters).None?
  {
    var last := |filters| - 1;
    if last > 0 {
      LiteralsAt(filters[..last], if k < last then k else 0);
    }
  }

  /** Why partitions scan on their own instead. */
  ghost predicate Refused(filters: seq<Prefilter>, union: LiteralPrefilter, input: Text, enabled: bool,
                          literalEnabled: bool)
    requires union.Valid()
  {
    !IsEligible(|filters|, |input|, enabled, literalEnabled) || LiteralsOf(filters).None? || Dense(union, input)
  }

  method SampleCount(union: LiteralPrefilter, input: Text, sampleLen: nat) returns (count: nat)
    requires union.Valid()
    ensures count == |Admitted(union, input, sampleLen)|
  {
    hide LiteralPrefilter.Admits;
    count := 0;
    assert Admitted(union, input, 0) == {};
    for start := 0 to sampleLen
      invariant count == |Admitted(union, input, start)|
    {
      if union.Admits(input, start) {
        assert Admitted(union, input, start + 1) == Admitted(union, input, start) + {start};
        count := count + 1;
      } else {
        assert Admitted(union, input, start + 1) == Admitted(union, input, start);
      }
    }
  }

  lemma NothingBeyond(union: LiteralPrefilter, avx2: bool, input: Text, start: nat)
    requires union.Valid() && start >= |input|
    ensures !PathAdmits(union, avx2, input, start)
  {
  }

  /** `div_ceil`: the words of one shard. */
  function ChunkSize(words: nat, shards: nat): nat
    requires shards > 0
  {
    (words + shards - 1) / shards
  }

  /** How many shards of `size` words follow from word `first` on. */
  function Shards(words: nat, size: nat, first: nat): nat
    requires size > 0
    decreases words - first
  {
    if first >= words then 0 else 1 + Shards(words, size, first + size)
  }

  /** `count` shards of `size` words cover the rest exactly if there are no more than `count`. */
  lemma {:induction false} ShardsCover(words: nat, size: nat, first: nat, count: nat)
    requires size > 0
    ensures Shards(words, size, first) <= count <==> first + count * size >= words
    decreases words - first, count
  {
    if first < words {
      if count > 0 {
        ShardsCover(words, size, first + size, count - 1);
        assert first + count * size == (first + size) + (count - 1) * size;
      }
    } else {
      assert count * size >= 0;
    }
  }

  /** The shards have the least size for which the limit suffices. */
  lemma ChunkIsLeast(words: nat, limit: nat, size: nat)
    requires words > 0 && limit > 0 && size > 0
    ensures Shards(words, size, 0) <= limit <==> size >= ChunkSize(words, limit)
  {
    ShardsCover(words, size, 0, limit);
    var n := words + limit - 1;
    assert n == limit * (n / limit) + n % limit;
    if size >= n / limit {
      assert limit * size >= limit * (n / limit) by { TimesGrows(limit, n / limit, size); }
    } else {
      assert limit * (size + 1) <= limit * (n / limit) by { TimesGrows(limit, size + 1, n / limit); }
    }
  }

  lemma TimesGrows(a: nat, b: nat, c: nat)
    requires b <= c
    ensures a * b <= a * c
  {
  }

  /**
   The shards cover every word once, and no shard touches another's words.  `fault` is the
   first shard whose thread cannot be spawned, if there is one.
   */
  method ScanShards(union: LiteralPrefilter, input: Text, shardLimit: nat, avx2: bool, fault: Option<nat>)
    returns (words: seq<bv64>, count: nat, spawned: bool)
    requires union.Valid() && shardLimit > 0 && input != []
    ensures var n := (|input| + 63) / 64;
            && ChunkSize(n, shardLimit) > 0
            && (spawned <==> !(fault.Some? && fault.value < Shards(n, ChunkSize(n, shardLimit), 0)))
    ensures spawned ==> |words| == (|input| + 63) / 64 && count == |Members(words)|
    ensures spawned ==> forall i: nat :: HasBit(words, i) <==> PathAdmits(union, avx2, input, i)
  {
    hide HasBit, Members, PathAdmits;
    var n := (|input| + 63) / 64;
    var buffer := new bv64[n](_ => 0);
    var wordsPerShard := ChunkSize(n, shardLimit);
    ChunkIsPositive(n, shardLimit);
    var first: nat, shard: nat := 0, 0;
    words, count, spawned := [], 0, true;
    assert buffer[..0] == [];
    NoMembers();
    HasBitBound(buffer[..0]);
    while first < n
      invariant first <= n && (forall k :: first <= k < n ==> buffer[k] == 0)
      invariant forall i: nat :: HasBit(buffer[..first], i) <==> i < 64 * first && PathAdmits(union, avx2, input, i)
      invariant count == |Members(buffer[..first])|
      invariant shard + Shards(n, wordsPerShard, first) == Shards(n, wordsPerShard, 0)
      invariant fault.Some? ==> shard <= fault.value
      decreases n - first
    {
      if fault == Some(shard) {
        return words, count, false;
      }
      var end := if first + wordsPerShard < n then first + wordsPerShard else n;
      ghost var done := buffer[..first];
      var admissions := ScanWordSlice(union, input, buffer, first, end, avx2);
      ghost var slice := buffer[first..end];
      assert buffer[..end] == done + slice;
      AppendWords(done, slice);
      HasBitBound(slice);
      ghost var after := buffer[..end];
      forall i: nat ensures HasBit(after, i) <==> i < 64 * end && PathAdmits(union, avx2, input, i) {
        if 64 * first <= i < 64 * end {
          assert 64 * first + (i - 64 * first) == i;
        }
      }
      forall k | end <= k < n ensures buffer[k] == 0 {
        assert buffer[k] == buffer[end..][k - end];
      }
      count := count + admissions;
      first, shard := end, shard + 1;
    }
    assert buffer[..n] == buffer[..];
    words := buffer[..];
    forall i: nat ensures HasBit(words, i) <==> PathAdmits(union, avx2, input, i) {
      if i >= |input| {
        NothingBeyond(union, avx2, input, i);
      }
    }
  }

  lemma ChunkIsPositive(n: nat, shards: nat)
    requires n > 0 && shards > 0
    ensures ChunkSize(n, shards) > 0
  {
    assert (n + shards - 1) / shards >= 1;
  }

  /** What discovery yields: nothing to share, candidate words, or a failed spawn. */
  datatype SharedPlan = Unshared | Shared(words: seq<bv64>) | Unavailable

  /** The greatest number of shards, but one at least, that partitions, words and threads allow. */
  function ShardLimit(partitions: nat, words: nat): (r: nat)
    ensures r >= 1 && (r > 1 ==> r <= partitions && r <= words && r <= MAX_SHARED_PLAN_SHARDS)
    ensures r in {partitions, words, MAX_SHARED_PLAN_SHARDS} || partitions == 0 || words == 0
  {
    var limit := if partitions < MAX_SHARED_PLAN_SHARDS then partitions else MAX_SHARED_PLAN_SHARDS;
    var fewer := if words < limit then words else limit;
    if fewer < 1 then 1 else fewer
  }

  /** `shared_candidate::plan`. */
  method PlanShared(filters: seq<Prefilter>, input: Text, enabled: bool, literalEnabled: bool, avx2: bool,
                    fault: Option<nat>)
    returns (plan: SharedPlan, ghost union: LiteralPrefilter)
    requires forall k :: 0 <= k < |filters| && filters[k].literal.Some? ==> filters[k].literal.value.Valid()
    ensures plan.Shared? ==>
              IsEligible(|filters|, |input|, enabled, literalEnabled) && LiteralsOf(filters).Some?
              && |plan.words| == (|input| + 63) / 64
    ensures union.Valid() && (plan.Unshared? <==> Refused(filters, union, input, enabled, literalEnabled))
    ensures !plan.Unshared? ==>
              var n := (|input| + 63) / 64;
              var size := ChunkSize(n, ShardLimit(|filters|, n));
              size > 0 && (plan.Unavailable? <==> fault.Some? && fault.value < Shards(n, size, 0))
    ensures plan.Shared? ==>
              && IsUnion(union, LiteralsOf(filters).value)
              && forall i: nat :: HasBit(plan.words, i) <==> PathAdmits(union, avx2, input, i)
  {
    hide HasBit, Members, PathAdmits, IsUnion, LiteralsOf, Shards, ChunkSize;
    union := NoLiterals();
    if !IsEligible(|filters|, |input|, enabled, literalEnabled) {
      return Unshared, union;
    }
    var literals := LiteralsOf(filters);
    if literals.None? {
      return Unshared, union;
    }
    forall k | 0 <= k < |filters| ensures |literals.value| == |filters| && literals.value[k].Valid() {
      LiteralsAt(filters, k);
    }
    LiteralsAt(filters, 0);
    var compiled := UnionOf(literals.value);
    UnionIsValid(compiled, literals.value);
    union := compiled;
    var sampleLen := if |input| < DENSITY_SAMPLE_UNITS then |input| else DENSITY_SAMPLE_UNITS;
    var sampleCount := SampleCount(compiled, input, sampleLen);
    if sampleCount * 2 >= sampleLen {
      return Unshared, union;
    }
    var words, count, spawned := ScanShards(compiled, input, ShardLimit(|filters|, (|input| + 63) / 64), avx2, fault);
    plan := if spawned then Shared(words) else Unavailable;
  }

  /** A filter with empty tables, standing in before any union has been built. */
  ghost function NoLiterals(): (f: LiteralPrefilter)
    ensures f.Valid()
  {
    LiteralPrefilter(seq(ASCII_TRIPLE_WORDS, _ => 0), seq(FOUR_PREFIX_HASH_WORDS, _ => 0),
                     seq(FIVE_PREFIX_HASH_WORDS, _ => 0), false, false, false)
  }

  /** On the scalar path, the planned words hold exactly the starts some partition's filter admits. */
  lemma PlannedIsUnion(union: LiteralPrefilter, filters: seq<LiteralPrefilter>, hints: seq<seq<NecessaryLiteral>>,
                       avx2: bool, input: Text, words: seq<bv64>, i: nat)
    requires filters != [] && IsUnion(union, filters) && |hints| == |filters| && !UsesKernel(union, avx2)
    requires forall k :: 0 <= k < |filters| ==> Built(filters[k], hints[k])
    requires forall i: nat :: HasBit(words, i) <==> PathAdmits(union, avx2, input, i)
    ensures AllValid(filters)
    ensures HasBit(words, i) <==> exists k :: 0 <= k < |filters| && filters[k].Admits(input, i)
  {
    hide IsUnion, HasBit, Flagged, LiteralPrefilter.Admits;
    UnionIsValid(union, filters);
    forall k | 0 <= k < |filters| ensures Flagged(filters[k]) && filters[k].Valid() {
      BuiltIsFlagged(filters[k], hints[k]);
    }
    UnionAdmits(union, filters, input, i);
    assert HasBit(words, i) <==> PathAdmits(union, avx2, input, i);
  }

  // ---- Scanning one partition from the shared candidates -------------------------------

  /** The shared candidates leave out no start that carries one of these hints. */
  ghost predicate Covers(words: seq<bv64>, hints: seq<NecessaryLiteral>, input: Text) {
    forall s: nat :: s < |input| && !HasBit(words, s) ==> NoHintAt(hints, input, s)
  }

  lemma PathKeepsHints(union: LiteralPrefilter, filters: seq<LiteralPrefilter>, k: nat, hints: seq<NecessaryLiteral>,
                       avx2: bool, input: Text, start: nat)
    requires IsUnion(union, filters) && k < |filters| && Built(filters[k], hints) && AllLongEnough(hints)
    requires !PathAdmits(union, avx2, input, start)
    ensures NoHintAt(hints, input, start)
  {
    hide LiteralPrefilter.Admits, ScalarFiveAllows, HasBit, TripleIndex, FourIndex, FiveIndex;
    if UsesKernel(union, avx2) {
      KernelAgrees(union, input, start);
    }
    if !union.Admits(input, start) {
      if filters[k].Admits(input, start) {
        PartAdmitted(union, filters, k, input, start);
      }
      RejectedCarriesNone(filters[k], hints, input, start);
    } else {
      forall j | 0 <= j < |hints| ensures !Carries(hints[j].units, input, start) {
        assert |hints[j].units| >= 3;
        assert |hints[j].units| != 3 && |hints[j].units| != 4;
      }
    }
  }

  /** On the scalar path, filtering the shared starts again gives the partition's private set. */
  lemma SharedIsPrivate(union: LiteralPrefilter, filters: seq<LiteralPrefilter>, k: nat, avx2: bool, input: Text,
                        words: seq<bv64>)
    requires IsUnion(union, filters) && k < |filters| && filters[k].Valid() && !UsesKernel(union, avx2)
    requires forall i: nat :: HasBit(words, i) <==> PathAdmits(union, avx2, input, i)
    ensures (set i | i in Members(words) && filters[k].Admits(input, i)) == Admitted(filters[k], input, |input|)
  {
    hide LiteralPrefilter.PrefixAllows, IsUnion;
    HasBitBound(words);
    forall i: nat | filters[k].Admits(input, i) ensures HasBit(words, i) {
      PartAdmitted(union, filters, k, input, i);
    }
  }

  /** `scan_with_shared_candidates_and_stats`. */
  method ScanWithSharedCandidates(db: PatternDatabase, filter: Prefilter, input: Text, budget: nat, words: seq<bv64>,
                                  ghost patterns: seq<HirPattern>, ghost roots: seq<nat>, ghost n: nat)
    returns (events: seq<Event>, scanned: nat, skipped: nat)
    requires FilterFor(filter, patterns, db) && filter.literal.Some? && Serves(FullJob(db, input), patterns, roots, n)
    requires HintsFrom(patterns).Some? && Covers(words, HintsFrom(patterns).value, input)
    ensures FullJob(db, input).Valid() && events == FullJob(db, input).Events(Range(|input|))
    ensures FilterValid(filter) && scanned + skipped == |input|
    ensures scanned == |set i | i in Members(words) && filter.literal.value.Admits(input, i)|
  {
    var job := FullJob(db, input);
    ValidScan(job, filter, patterns);
    SharedJobIsPlain(db, filter, patterns);
    hide PatternDatabase.Valid, Serves, Job.StartEvents, HintsFrom, Built, Right, LiteralPrefilter.Admits, NoHintAt,
      HasBit, Job.Events;
    var shared := Collect(words);
    var f := filter.literal.value;
    var starts: seq<nat> := [];
    for k := 0 to |shared|
      invariant Ascending(starts) && AllBelow(starts, |input|)
      invariant forall j :: 0 <= j < |starts| ==> starts[j] in shared[..k]
      invariant forall s: nat :: s in starts <==> s in shared[..k] && f.Admits(input, s)
    {
      assert shared[..k + 1] == shared[..k] + [shared[k]];
      if f.Admits(input, shared[k]) {
        AdmitsInside(f, input, shared[k]);
        forall j | 0 <= j < |starts| ensures starts[j] < shared[k] {
          var i :| 0 <= i < k && shared[..k][i] == starts[j];
          assert shared[i] < shared[k];
        }
        starts := starts + [shared[k]];
      }
    }
    assert shared[..|shared|] == shared;
    events := ScanPlain(job, budget, starts);
    forall s: nat | s < |input| && s !in starts ensures job.StartEvents(s) == [] {
      if HasBit(words, s) {
        UnadmittedIsSilent(job, patterns, roots, n, f, s);
      } else {
        HintlessIsSilent(job, patterns, roots, n, s);
      }
    }
    SkippingSilentStarts(job, starts, |input|);
    AscendingAreFew(starts, |input|);
    AscendingCount(starts, set i | i in Members(words) && f.Admits(input, i));
    scanned := |starts|;
    skipped := |input| - scanned;
  }

  lemma AdmitsInside(f: LiteralPrefilter, input: Text, start: nat)
    requires f.Valid() && f.Admits(input, start)
    ensures start < |input|
  {
  }

  lemma SharedJobIsPlain(db: PatternDatabase, filter: Prefilter, patterns: seq<HirPattern>)
    requires FilterFor(filter, patterns, db) && filter.literal.Some?
    ensures !db.usesAssertions && filter.literal.value.Valid() && HintsFrom(patterns).Some?
            && Built(filter.literal.value, HintsFrom(patterns).value)
  {
  }
}
