/** Arithmetic over the preference values of one student: the sum and
    maximum the loader computes, the triangular number k(k+1)/2 it compares
    the sum with, and the fact the loader relies on without checking it:
    k distinct values, each at least 1, that sum to k(k+1)/2 are exactly
    the ranks 1..k. */
module Ranks {

  /** Python's `sum` over a list of integers. */
  function Sum(xs: seq<int>): int
  {
    if xs == [] then 0 else xs[0] + Sum(xs[1..])
  }

  /** Python's `max` over a non-empty list of integers. */
  function Max(xs: seq<int>): (r: int)
    requires xs != []
    ensures r in xs
    ensures forall i :: 0 <= i < |xs| ==> xs[i] <= r
  {
    if |xs| == 1 then xs[0]
    else
      var rest := Max(xs[1..]);
      if xs[0] < rest then rest else xs[0]
  }

  /** The expected sum of k ranks, 1 + 2 + ... + k; `TriExact` shows it is
      `parse_csv`'s `k * (k + 1) / 2`. */
  function Tri(k: nat): nat
  {
    if k == 0 then 0 else Tri(k - 1) + k
  }

  /** No value occurs twice. */
  predicate Distinct(xs: seq<int>)
  {
    forall i, j :: 0 <= i < j < |xs| ==> xs[i] != xs[j]
  }

  /** Every value is at least 1. */
  predicate AllPositive(xs: seq<int>)
  {
    forall i :: 0 <= i < |xs| ==> xs[i] >= 1
  }

  /** The values are the ranks 1..|xs|, each exactly once, in any order. */
  predicate IsRanking(xs: seq<int>)
  {
    Distinct(xs) &&
    (forall i :: 0 <= i < |xs| ==> 1 <= xs[i] <= |xs|) &&
    (forall x :: 1 <= x <= |xs| ==> x in xs)
  }

  /** The product k(k+1) is even and twice 1 + ... + k, so `parse_csv`'s
      division by 2 is exact and yields `Tri(k)`. */
  lemma {:induction false} TriExact(k: nat)
    ensures k * (k + 1) % 2 == 0
    ensures 2 * Tri(k) == k * (k + 1)
  {
    if k > 0 {
      TriExact(k - 1);
      assert k * (k + 1) == (k - 1) * k + 2 * k;
    }
  }

  /** The sequence without its element at position i. */
  function RemoveAt(xs: seq<int>, i: nat): (r: seq<int>)
    requires i < |xs|
    ensures |r| == |xs| - 1
    ensures forall x :: x in r ==> x in xs
  {
    xs[..i] + xs[i + 1..]
  }

  lemma {:induction false} SumRemoveAt(xs: seq<int>, i: nat)
    requires i < |xs|
    ensures Sum(xs) == xs[i] + Sum(RemoveAt(xs, i))
  {
    if i > 0 {
      SumRemoveAt(xs[1..], i - 1);
      assert RemoveAt(xs, i) == [xs[0]] + RemoveAt(xs[1..], i - 1);
    } else {
      assert RemoveAt(xs, 0) == xs[1..];
    }
  }

  /** Removing an element keeps the others distinct and drops exactly that value. */
  lemma DistinctRemoveAt(xs: seq<int>, i: nat)
    requires i < |xs| && Distinct(xs)
    ensures Distinct(RemoveAt(xs, i))
    ensures forall x :: x in RemoveAt(xs, i) <==> x in xs && x != xs[i]
  {
    var r := RemoveAt(xs, i);
    assert forall j :: 0 <= j < |r| ==> r[j] == if j < i then xs[j] else xs[j + 1];
    forall x | x in xs && x != xs[i] ensures x in r {
      var j :| 0 <= j < |xs| && xs[j] == x;
      assert r[if j < i then j else j - 1] == x;
    }
  }

  /** Putting the value k back beside the ranks 1..k-1 gives the ranks 1..k. */
  lemma RankingExtend(xs: seq<int>, i: nat)
    requires i < |xs| && Distinct(xs) && xs[i] == |xs|
    requires IsRanking(RemoveAt(xs, i))
    ensures IsRanking(xs)
  {
    DistinctRemoveAt(xs, i);
    var rest := RemoveAt(xs, i);
    forall j | 0 <= j < |xs| ensures 1 <= xs[j] <= |xs| {
      if j != i {
        assert xs[j] in rest;
      }
    }
    forall x | 1 <= x <= |xs| ensures x in xs {
      if x < |xs| {
        assert x in rest;
      }
    }
  }

  /** A position of the maximum. */
  lemma MaxAt(xs: seq<int>) returns (i: nat)
    requires xs != []
    ensures i < |xs| && xs[i] == Max(xs)
    ensures forall j :: 0 <= j < |xs| ==> xs[j] <= xs[i]
  {
    var mx := Max(xs);
    assert mx in xs;
    i :| 0 <= i < |xs| && xs[i] == mx;
  }

  /** Removing the largest of distinct positive values leaves distinct
      positive values below it, summing to the rest of the total. */
  lemma RemoveLargest(xs: seq<int>, i: nat)
    requires Distinct(xs) && AllPositive(xs) && i < |xs|
    requires forall j :: 0 <= j < |xs| ==> xs[j] <= xs[i]
    ensures Distinct(RemoveAt(xs, i)) && AllPositive(RemoveAt(xs, i))
    ensures forall j :: 0 <= j < |RemoveAt(xs, i)| ==> RemoveAt(xs, i)[j] < xs[i]
    ensures Sum(xs) == xs[i] + Sum(RemoveAt(xs, i))
  {
    SumRemoveAt(xs, i);
    DistinctRemoveAt(xs, i);
    var rest := RemoveAt(xs, i);
    forall j | 0 <= j < |rest| ensures 1 <= rest[j] < xs[i] {
      assert rest[j] == if j < i then xs[j] else xs[j + 1];
    }
  }

  /** A total made of a part at least k and a part at least t is at least
      t + k, and reaches t + k only when both parts are at their bounds. */
  lemma Tight(total: int, top: int, rest: int, t: int, k: int)
    requires total == top + rest && top >= k && rest >= t
    ensures total >= t + k
    ensures total == t + k ==> top == k && rest == t
  {
  }

  /** The largest of k distinct values, each at least 1, is at least k. */
  lemma {:induction false} DistinctPositiveMax(xs: seq<int>)
    requires Distinct(xs) && AllPositive(xs) && xs != []
    ensures Max(xs) >= |xs|
  {
    var i := MaxAt(xs);
    var rest := RemoveAt(xs, i);
    RemoveLargest(xs, i);
    if rest != [] {
      DistinctPositiveMax(rest);
      var r := MaxAt(rest);
    }
  }

  /** k distinct values, each at least 1, sum to at least k(k+1)/2. */
  lemma {:induction false} DistinctPositiveBound(xs: seq<int>)
    requires Distinct(xs) && AllPositive(xs)
    ensures Sum(xs) >= Tri(|xs|)
  {
    if xs != [] {
      var k := |xs|;
      var i := MaxAt(xs);
      var rest := RemoveAt(xs, i);
      RemoveLargest(xs, i);
      DistinctPositiveBound(rest);
      DistinctPositiveMax(xs);
      Tight(Sum(xs), xs[i], Sum(rest), Tri(k - 1), k);
    }
  }

  /** k distinct values, each at least 1, that sum to exactly k(k+1)/2 are
      the ranks 1..k. */
  lemma {:induction false} DistinctPositiveSum(xs: seq<int>)
    requires Distinct(xs) && AllPositive(xs) && Sum(xs) == Tri(|xs|)
    ensures IsRanking(xs)
  {
    if xs != [] {
      var k := |xs|;
      var i := MaxAt(xs);
      var rest := RemoveAt(xs, i);
      RemoveLargest(xs, i);
      DistinctPositiveMax(xs);
      DistinctPositiveBound(rest);
      Tight(Sum(xs), xs[i], Sum(rest), Tri(k - 1), k);
      DistinctPositiveSum(rest);
      RankingExtend(xs, i);
    }
  }

  /** Removing the value k from the ranks 1..k leaves the ranks 1..k-1. */
  lemma RankingRemoveTop(xs: seq<int>, i: nat)
    requires IsRanking(xs) && i < |xs| && xs[i] == |xs|
    ensures IsRanking(RemoveAt(xs, i))
  {
    DistinctRemoveAt(xs, i);
    var rest := RemoveAt(xs, i);
    forall j | 0 <= j < |rest| ensures 1 <= rest[j] <= |rest| {
      assert rest[j] in rest;
    }
    forall x | 1 <= x <= |rest| ensures x in rest {
      assert x in xs;
    }
  }

  /** The ranks 1..k, in any order, are positive and sum to k(k+1)/2. */
  lemma {:induction false} RankingSum(xs: seq<int>)
    requires IsRanking(xs)
    ensures AllPositive(xs)
    ensures Sum(xs) == Tri(|xs|)
  {
    if xs != [] {
      var k := |xs|;
      assert k in xs;
      var i :| 0 <= i < k && xs[i] == k;
      SumRemoveAt(xs, i);
      RankingRemoveTop(xs, i);
      RankingSum(RemoveAt(xs, i));
    }
  }

  /** `parse_csv`'s three per-student checks together (every value at least
      1, no value repeated, the sum is k(k+1)/2) accept exactly the rankings
      1..k. */
  lemma RanksAccepted(xs: seq<int>)
    ensures (AllPositive(xs) && Distinct(xs) && Sum(xs) == Tri(|xs|)) <==> IsRanking(xs)
  {
    if AllPositive(xs) && Distinct(xs) && Sum(xs) == Tri(|xs|) {
      DistinctPositiveSum(xs);
    }
    if IsRanking(xs) {
      RankingSum(xs);
    }
  }

  /** The largest of the ranks 1..k is k. */
  lemma RankingMax(xs: seq<int>)
    requires IsRanking(xs) && xs != []
    ensures Max(xs) == |xs|
  {
    assert |xs| in xs;
    assert Max(xs) in xs;
  }
}
