/** Lists of distinct indices, and the sorted form the engine puts them in. */
module Sorting {

  ghost predicate Distinct(s: seq<nat>) {
    forall i, j :: 0 <= i < j < |s| ==> s[i] != s[j]
  }

  ghost predicate Ascending(s: seq<nat>) {
    forall i, j :: 0 <= i < j < |s| ==> s[i] < s[j]
  }

  ghost predicate AllBelow(s: seq<nat>, n: nat) {
    forall i :: 0 <= i < |s| ==> s[i] < n
  }

  function Insert(x: nat, s: seq<nat>): (r: seq<nat>)
    ensures forall y :: y in r <==> y == x || y in s
  {
    if s == [] || x <= s[0] then [x] + s else [s[0]] + Insert(x, s[1..])
  }

  /** Stands for `sort_unstable`: on distinct indices the sorted list is unique. */
  function Sorted(s: seq<nat>): (r: seq<nat>)
    ensures forall y :: y in r <==> y in s
  {
    if s == [] then [] else Insert(s[0], Sorted(s[1..]))
  }

  lemma {:induction false} InsertAscending(x: nat, s: seq<nat>)
    requires Ascending(s) && x !in s
    ensures Ascending(Insert(x, s))
  {
    if s != [] && x > s[0] {
      var rest := Insert(x, s[1..]);
      InsertAscending(x, s[1..]);
      forall k | 0 <= k < |rest| ensures s[0] < rest[k] {
        assert rest[k] in rest;
      }
    }
  }

  lemma {:induction false} SortedAscending(s: seq<nat>)
    requires Distinct(s)
    ensures Ascending(Sorted(s))
  {
    if s != [] {
      SortedAscending(s[1..]);
      assert s[0] !in s[1..];
      InsertAscending(s[0], Sorted(s[1..]));
    }
  }

  lemma EmptyOrMember(s: seq<nat>)
    ensures s != [] ==> s[0] in s
  {
  }

  /** Two ascending lists with the same members are the same list. */
  lemma {:induction false} AscendingUnique(s: seq<nat>, t: seq<nat>)
    requires Ascending(s) && Ascending(t) && forall x :: x in s <==> x in t
    ensures s == t
  {
    if s == [] {
      EmptyOrMember(t);
    } else {
      assert s[0] in t && t != [];
      assert t[0] in s;
      assert s[0] == t[0];
      forall x ensures x in s[1..] <==> x in t[1..] {
        if x in s[1..] { assert x in s && x != s[0]; }
        if x in t[1..] { assert x in t && x != t[0]; }
      }
      AscendingUnique(s[1..], t[1..]);
    }
  }

  /** Whatever sorts a list of distinct indices, the result is this one. */
  lemma SortedIsUnique(s: seq<nat>, t: seq<nat>)
    requires Distinct(s) && Ascending(t) && forall x :: x in s <==> x in t
    ensures t == Sorted(s)
  {
    SortedAscending(s);
    AscendingUnique(t, Sorted(s));
  }

  /** A list of distinct indices below `n` has at most `n` members. */
  lemma {:induction false} DistinctBound(s: seq<nat>, n: nat)
    requires Distinct(s) && AllBelow(s, n)
    ensures |s| <= n
  {
    if n == 0 {
    } else if n - 1 in s {
      var k :| 0 <= k < |s| && s[k] == n - 1;
      var t := s[..k] + s[k + 1..];
      assert forall j :: 0 <= j < |t| ==> t[j] == if j < k then s[j] else s[j + 1];
      DistinctBound(t, n - 1);
    } else {
      DistinctBound(s, n - 1);
    }
  }

  /** The last index is either the last member or not a member. */
  lemma AscendingSplits(starts: seq<nat>, n: nat)
    requires Ascending(starts) && AllBelow(starts, n) && n > 0
    ensures n - 1 in starts ==>
              var last := |starts| - 1;
              last >= 0 && starts[last] == n - 1 && starts == starts[..last] + [n - 1] && Ascending(starts[..last])
              && AllBelow(starts[..last], n - 1)
    ensures n - 1 !in starts ==> AllBelow(starts, n - 1)
  {
    if n - 1 in starts {
      var last := |starts| - 1;
      var k :| 0 <= k < |starts| && starts[k] == n - 1;
      assert starts[last] < n && k == last;
    } else {
      forall k | 0 <= k < |starts| ensures starts[k] < n - 1 {
        assert starts[k] in starts;
      }
    }
  }
}
