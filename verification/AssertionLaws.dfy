/**
 What the zero-width tests decide, said of the text alone: `^` and `$` by the lines the text
 splits into, `\b` by its runs of word characters (rustmatch/src/engine.rs:948-978).
 */
module AssertionLaws {
  import opened Base
  import opened Assertions

  // ---- Words ---------------------------------------------------------------------------

  predicate IsWordCharacter(u: U16) {
    || 'a' as int <= u <= 'z' as int || 'A' as int <= u <= 'Z' as int
    || '0' as int <= u <= '9' as int || u == '_' as int
  }

  predicate AllWord(s: Text) {
    forall k :: 0 <= k < |s| ==> IsWordCharacter(s[k])
  }

  /** A non-empty stretch of word characters that no longer stretch contains. */
  ghost predicate IsWordRun(w: Text, lo: nat, hi: nat) {
    && lo < hi <= |w| && AllWord(w[lo..hi])
    && forall lo': nat, hi': nat :: lo' <= lo && hi <= hi' <= |w| && AllWord(w[lo'..hi']) ==> lo' == lo && hi' == hi
  }

  ghost predicate EndsWordRun(w: Text, p: nat) {
    exists lo: nat, hi: nat :: IsWordRun(w, lo, hi) && (p == lo || p == hi)
  }

  lemma WordAtIs(w: Text, p: int)
    ensures WordAt(w, p) <==> 0 <= p < |w| && IsWordCharacter(w[p])
  {
  }

  /** How far the word characters reach back from `p`, and on from it. */
  lemma {:induction false} RunLow(w: Text, p: nat) returns (lo: nat)
    requires p <= |w|
    ensures lo <= p && AllWord(w[lo..p]) && !(lo > 0 && IsWordCharacter(w[lo - 1]))
    decreases p
  {
    if p > 0 && IsWordCharacter(w[p - 1]) {
      lo := RunLow(w, p - 1);
      assert w[lo..p] == w[lo..p - 1] + [w[p - 1]];
    } else {
      lo := p;
    }
  }

  lemma {:induction false} RunHigh(w: Text, p: nat) returns (hi: nat)
    requires p <= |w|
    ensures p <= hi <= |w| && AllWord(w[p..hi]) && !(hi < |w| && IsWordCharacter(w[hi]))
    decreases |w| - p
  {
    if p < |w| && IsWordCharacter(w[p]) {
      hi := RunHigh(w, p + 1);
      assert w[p..hi] == [w[p]] + w[p + 1..hi];
    } else {
      hi := p;
    }
  }

  lemma NotAllWord(w: Text, lo: nat, hi: nat, k: nat)
    requires lo <= k < hi <= |w| && !IsWordCharacter(w[k])
    ensures !AllWord(w[lo..hi])
  {
    assert w[lo..hi][k - lo] == w[k];
  }

  lemma OneWider(w: Text, lo: nat, hi: nat)
    requires lo < hi <= |w| && AllWord(w[lo..hi])
    ensures lo > 0 && IsWordCharacter(w[lo - 1]) ==> AllWord(w[lo - 1..hi])
    ensures hi < |w| && IsWordCharacter(w[hi]) ==> AllWord(w[lo..hi + 1])
    ensures IsWordCharacter(w[lo]) && IsWordCharacter(w[hi - 1])
  {
    assert w[lo..hi][0] == w[lo] && w[lo..hi][hi - 1 - lo] == w[hi - 1];
    if lo > 0 {
      assert w[lo - 1..hi] == [w[lo - 1]] + w[lo..hi];
    }
    if hi < |w| {
      assert w[lo..hi + 1] == w[lo..hi] + [w[hi]];
    }
  }

  /** A stretch with a word character at neither side is as long as it can be. */
  lemma StretchIsRun(w: Text, lo: nat, hi: nat)
    requires lo < hi <= |w| && AllWord(w[lo..hi])
    requires !(lo > 0 && IsWordCharacter(w[lo - 1])) && !(hi < |w| && IsWordCharacter(w[hi]))
    ensures IsWordRun(w, lo, hi)
  {
    hide IsWordCharacter, AllWord;
    forall lo': nat, hi': nat | lo' <= lo && hi <= hi' <= |w| && AllWord(w[lo'..hi']) ensures lo' == lo && hi' == hi {
      if lo' < lo {
        NotAllWord(w, lo', hi', lo - 1);
      }
      if hi' > hi {
        NotAllWord(w, lo', hi', hi);
      }
    }
  }

  /** A run has a word character at neither side. */
  lemma RunIsBounded(w: Text, lo: nat, hi: nat)
    requires IsWordRun(w, lo, hi)
    ensures lo < hi <= |w| && !(lo > 0 && IsWordCharacter(w[lo - 1])) && !(hi < |w| && IsWordCharacter(w[hi]))
    ensures IsWordCharacter(w[lo]) && IsWordCharacter(w[hi - 1])
  {
    hide IsWordCharacter, AllWord;
    OneWider(w, lo, hi);
  }

  /** `\b` holds exactly at the two ends of every run of word characters. */
  lemma BoundaryEndsRun(w: Text, c: Cursor)
    ensures AssertionMatches(WordBoundary, w, c) <==> EndsWordRun(w, c.pos)
    ensures AssertionMatches(NonWordBoundary, w, c) <==> !EndsWordRun(w, c.pos)
  {
    hide IsWordCharacter, IsWordRun, IsAsciiWord;
    var p: int := c.pos;
    WordAtIs(w, p);
    WordAtIs(w, p - 1);
    if EndsWordRun(w, p) {
      var lo: nat, hi: nat :| IsWordRun(w, lo, hi) && (p == lo || p == hi);
      RunIsBounded(w, lo, hi);
    }
    if WordAt(w, p) && !WordAt(w, p - 1) {
      var hi := RunHigh(w, p);
      StretchIsRun(w, p, hi);
    } else if !WordAt(w, p) && WordAt(w, p - 1) {
      var lo := RunLow(w, p);
      StretchIsRun(w, lo, p);
    }
  }

  // ---- Lines ---------------------------------------------------------------------------

  /** The lines put together again, with a newline between each two. */
  function JoinLines(lines: seq<Text>): Text {
    if lines == [] then []
    else if |lines| == 1 then lines[0]
    else lines[0] + ['\n' as int] + JoinLines(lines[1..])
  }

  /** `lines` is what the text splits into at its newlines. */
  predicate SplitsInto(w: Text, lines: seq<Text>) {
    lines != [] && JoinLines(lines) == w && forall k :: 0 <= k < |lines| ==> '\n' as int !in lines[k]
  }

  /** Where line `k` begins. */
  function LineOffset(lines: seq<Text>, k: nat): nat
    requires k < |lines|
  {
    if k == 0 then 0 else |lines[0]| + 1 + LineOffset(lines[1..], k - 1)
  }

  ghost predicate StartsLine(lines: seq<Text>, p: nat) {
    exists k :: 0 <= k < |lines| && p == LineOffset(lines, k)
  }

  ghost predicate EndsLine(lines: seq<Text>, p: nat) {
    exists k :: 0 <= k < |lines| && p == LineOffset(lines, k) + |lines[k]|
  }

  /** Every text splits in some way, and in no other. */
  lemma {:induction false} EveryTextSplits(w: Text) returns (lines: seq<Text>)
    ensures SplitsInto(w, lines)
  {
    if w == [] {
      lines := [[]];
    } else {
      var rest := EveryTextSplits(w[1..]);
      assert w == [w[0]] + w[1..];
      if w[0] == '\n' as int {
        lines := [[]] + rest;
        assert lines[1..] == rest;
      } else {
        lines := [[w[0]] + rest[0]] + rest[1..];
        assert lines[1..] == rest[1..];
      }
    }
  }

  lemma {:induction false} SplitIsUnique(w: Text, a: seq<Text>, b: seq<Text>)
    requires SplitsInto(w, a) && SplitsInto(w, b)
    ensures a == b
    decreases |a|
  {
    FirstLine(w, a);
    FirstLine(w, b);
    if |a| > 1 && |b| > 1 {
      RestSplits(w, a);
      RestSplits(w, b);
      SplitIsUnique(w[|a[0]| + 1..], a[1..], b[1..]);
      assert a == [a[0]] + a[1..] && b == [b[0]] + b[1..];
    }
  }

  /** The first line ends at the first newline, or with the text. */
  lemma FirstLine(w: Text, lines: seq<Text>)
    requires SplitsInto(w, lines)
    ensures |lines[0]| <= |w| && w[..|lines[0]|] == lines[0]
    ensures |lines| == 1 ==> w == lines[0]
    ensures |lines| > 1 ==> |lines[0]| < |w| && w[|lines[0]|] == '\n' as int
    ensures forall k :: 0 <= k < |lines[0]| ==> w[k] != '\n' as int
  {
  }

  lemma RestSplits(w: Text, lines: seq<Text>)
    requires SplitsInto(w, lines) && |lines| > 1
    ensures |lines[0]| < |w| && SplitsInto(w[|lines[0]| + 1..], lines[1..])
  {
    assert w[|lines[0]| + 1..] == JoinLines(lines[1..]);
  }

  /** `^` holds exactly where a line starts. */
  lemma LineStartIs(w: Text, lines: seq<Text>, c: Cursor)
    requires SplitsInto(w, lines)
    ensures AssertionMatches(LineStart, w, c) <==> StartsLine(lines, c.pos)
  {
    StartsAre(w, lines, c.pos);
  }

  lemma {:induction false} StartsAre(w: Text, lines: seq<Text>, p: nat)
    requires SplitsInto(w, lines)
    ensures StartsLine(lines, p) <==> p == 0 || (p <= |w| && w[p - 1] == '\n' as int)
    decreases |lines|
  {
    FirstLine(w, lines);
    var first := |lines[0]|;
    assert LineOffset(lines, 0) == 0;
    if |lines| > 1 {
      RestSplits(w, lines);
      var rest := w[first + 1..];
      if p > first {
        StartsAre(rest, lines[1..], p - first - 1);
        if StartsLine(lines[1..], p - first - 1) {
          var k :| 0 <= k < |lines[1..]| && p - first - 1 == LineOffset(lines[1..], k);
          assert p == LineOffset(lines, k + 1);
        }
      }
      if StartsLine(lines, p) && p > 0 {
        var k :| 0 <= k < |lines| && p == LineOffset(lines, k);
        assert p == first + 1 + LineOffset(lines[1..], k - 1);
      }
      assert p > first + 1 && p <= |w| ==> rest[p - first - 2] == w[p - 1];
    }
  }

  /** `$` holds exactly where a line ends, once something has been consumed. */
  lemma LineEndIs(w: Text, lines: seq<Text>, c: Cursor)
    requires SplitsInto(w, lines)
    ensures AssertionMatches(LineEnd, w, c) <==> c.after && EndsLine(lines, c.pos)
  {
    EndsAre(w, lines, c.pos);
  }

  lemma {:induction false} EndsAre(w: Text, lines: seq<Text>, p: nat)
    requires SplitsInto(w, lines)
    ensures EndsLine(lines, p) <==> p == |w| || (p < |w| && w[p] == '\n' as int)
    decreases |lines|
  {
    FirstLine(w, lines);
    var first := |lines[0]|;
    assert first == LineOffset(lines, 0) + |lines[0]|;
    if |lines| > 1 {
      RestSplits(w, lines);
      var rest := w[first + 1..];
      if p > first {
        EndsAre(rest, lines[1..], p - first - 1);
        if EndsLine(lines[1..], p - first - 1) {
          var k :| 0 <= k < |lines[1..]| && p - first - 1 == LineOffset(lines[1..], k) + |lines[1..][k]|;
          assert p == LineOffset(lines, k + 1) + |lines[k + 1]|;
        }
      }
      if EndsLine(lines, p) && p != first {
        var k :| 0 <= k < |lines| && p == LineOffset(lines, k) + |lines[k]|;
        assert p == first + 1 + LineOffset(lines[1..], k - 1) + |lines[1..][k - 1]|;
      }
      assert p > first && p < |w| ==> rest[p - first - 1] == w[p];
    }
  }
}
