/**
 * LeetCode 53, maximum subarray: the largest sum of a non-empty run of
 * consecutive elements, found by Kadane's scan.
 */
module MaximumSubarray {
  import opened Seqs

  /** The sum of s[i..j], accumulated from the left. */
  function SegSum(s: seq<int>, i: int, j: int): int
    requires 0 <= i <= j <= |s|
    decreases j - i
  {
    if i == j then 0 else SegSum(s, i, j - 1) + s[j - 1]
  }

  /** SegSum is the sum of the slice. */
  lemma {:induction false} SegSumIsSum(s: seq<int>, i: int, j: int)
    requires 0 <= i <= j <= |s|
    ensures SegSum(s, i, j) == Sum(s[i..j])
    decreases j - i
  {
    if i < j {
      SegSumIsSum(s, i, j - 1);
      SumExtend(s, i, j - 1);
    }
  }

  /**
   * m is the maximum subarray sum of s: no non-empty run sums to more, and
   * some non-empty run sums to exactly m.
   */
  ghost predicate IsMaxSegmentSum(s: seq<int>, m: int) {
    && (forall i, j :: 0 <= i < j <= |s| ==> SegSum(s, i, j) <= m)
    && (exists i, j :: 0 <= i < j <= |s| && SegSum(s, i, j) == m)
  }

  /** The maximum subarray sum is determined by the sequence. */
  lemma MaxSegmentUnique(s: seq<int>, m1: int, m2: int)
    requires IsMaxSegmentSum(s, m1) && IsMaxSegmentSum(s, m2)
    ensures m1 == m2
  {
    var i1, j1 :| 0 <= i1 < j1 <= |s| && SegSum(s, i1, j1) == m1;
    var i2, j2 :| 0 <= i2 < j2 <= |s| && SegSum(s, i2, j2) == m2;
    assert m1 <= m2 && m2 <= m1;
  }

  /** The maximum is at least every single element. */
  lemma ElementBound(s: seq<int>, m: int, k: int)
    requires IsMaxSegmentSum(s, m) && 0 <= k < |s|
    ensures s[k] <= m
  {
    assert SegSum(s, k, k + 1) == s[k];
  }

  /** When every element is negative, a run sums to at most its last element. */
  lemma {:induction false} NegativeRunBound(s: seq<int>, i: int, j: int)
    requires 0 <= i < j <= |s|
    requires forall t :: 0 <= t < |s| ==> s[t] < 0
    ensures SegSum(s, i, j) <= s[j - 1]
    decreases j - i
  {
    if i < j - 1 {
      NegativeRunBound(s, i, j - 1);
    }
  }

  /** With only negative elements, the maximum subarray is the largest single element. */
  lemma AllNegativeGivesMax(s: seq<int>, m: int)
    requires |s| > 0 && forall t :: 0 <= t < |s| ==> s[t] < 0
    requires IsMaxSegmentSum(s, m)
    ensures m == Max(s)
  {
    MaxIsMaximum(s);
    var i, j :| 0 <= i < j <= |s| && SegSum(s, i, j) == m;
    NegativeRunBound(s, i, j);
    var k :| 0 <= k < |s| && s[k] == Max(s);
    ElementBound(s, m, k);
  }

  /**
   * Kadane's scan: currentSum is the best sum of a run ending at i (extend
   * the previous run or restart at nums[i]), maxSum the best seen so far.
   * An empty array gives 0.
   */
  method MaxSubArray(nums: array<int>) returns (r: int)
    ensures nums.Length == 0 ==> r == 0
    ensures nums.Length > 0 ==> IsMaxSegmentSum(nums[..], r)
  {
    if nums.Length == 0 {
      return 0;
    }
    ghost var s := nums[..];
    var currentSum := nums[0];
    var maxSum := nums[0];
    ghost var start, bestStart, bestEnd := 0, 0, 1;
    assert SegSum(s, 0, 1) == s[0];
    for i := 1 to nums.Length
      invariant IsBestEndingAt(s, i, currentSum, start)
      invariant IsBestWithin(s, i, maxSum, bestStart, bestEnd)
    {
      KadaneStep(s, i, currentSum, start, maxSum, bestStart, bestEnd);
      if nums[i] > nums[i] + currentSum {
        start := i;
      }
      currentSum := Max2(nums[i], nums[i] + currentSum);
      if currentSum > maxSum {
        bestStart, bestEnd := start, i + 1;
      }
      maxSum := Max2(currentSum, maxSum);
    }
    return maxSum;
  }

  /** Math.Max on two ints. */
  function Max2(a: int, b: int): (r: int)
    ensures r >= a && r >= b && (r == a || r == b)
  {
    if a >= b then a else b
  }

  /** c is the best sum of a run ending just before k, and the run from start achieves it. */
  ghost predicate IsBestEndingAt(s: seq<int>, k: int, c: int, start: int)
    requires 0 <= k <= |s|
  {
    && 0 <= start < k
    && SegSum(s, start, k) == c
    && forall a :: 0 <= a < k ==> SegSum(s, a, k) <= c
  }

  /** m is the best sum of a run within s[..k], achieved by s[bs..be]. */
  ghost predicate IsBestWithin(s: seq<int>, k: int, m: int, bs: int, be: int)
    requires 0 <= k <= |s|
  {
    && 0 <= bs < be <= k
    && SegSum(s, bs, be) == m
    && forall a, b :: 0 <= a < b <= k ==> SegSum(s, a, b) <= m
  }

  /** One step of Kadane's scan keeps both facts. */
  lemma KadaneStep(s: seq<int>, i: int, c: int, start: int, m: int, bs: int, be: int)
    requires 0 < i < |s|
    requires IsBestEndingAt(s, i, c, start) && IsBestWithin(s, i, m, bs, be)
    ensures var c' := Max2(s[i], s[i] + c);
            var start' := if s[i] > s[i] + c then i else start;
            && IsBestEndingAt(s, i + 1, c', start')
            && IsBestWithin(s, i + 1, Max2(c', m), if c' > m then start' else bs, if c' > m then i + 1 else be)
  {
    var c' := Max2(s[i], s[i] + c);
    var k := i + 1;
    assert SegSum(s, i, k) == s[i];
    assert SegSum(s, start, k) == c + s[i];
    forall a | 0 <= a < k
      ensures SegSum(s, a, k) <= c'
    {
      if a < i {
        assert SegSum(s, a, k) == SegSum(s, a, i) + s[i];
      }
    }
  }
}
