/**
 * The maximum subarray sum two ways: Kadane's linear scan and an exhaustive
 * search over every run numbers[i..j].
 */
module MaximumSubarraySum {
  import opened Errors
  import opened MaximumSubarray

  /**
   * Kadane's scan from numbers[0]: currentSum extends the previous run or
   * restarts, bestSum keeps the largest. Reading numbers[0] of an empty array
   * throws.
   */
  method KadanesAlgorithm(numbers: array<int>) returns (r: Result<int>)
    ensures numbers.Length == 0 ==> r == Throws(IndexOutOfRangeException)
    ensures numbers.Length > 0 ==> r.Ok? && IsMaxSegmentSum(numbers[..], r.value)
  {
    if numbers.Length == 0 {
      return Throws(IndexOutOfRangeException);
    }
    ghost var s := numbers[..];
    var currentSum := numbers[0];
    var bestSum := numbers[0];
    ghost var start, bestStart, bestEnd := 0, 0, 1;
    assert SegSum(s, 0, 1) == s[0];
    for i := 1 to numbers.Length
      invariant IsBestEndingAt(s, i, currentSum, start)
      invariant IsBestWithin(s, i, bestSum, bestStart, bestEnd)
    {
      KadaneStep(s, i, currentSum, start, bestSum, bestStart, bestEnd);
      if numbers[i] > currentSum + numbers[i] {
        start := i;
      }
      currentSum := Max2(numbers[i], currentSum + numbers[i]);
      if currentSum > bestSum {
        bestStart, bestEnd := start, i + 1;
      }
      bestSum := Max2(currentSum, bestSum);
    }
    return Ok(bestSum);
  }

  /**
   * Tries every run numbers[i..j] (j inclusive), summing each afresh, and
   * keeps the largest; starts from int.MinValue, which an empty array returns.
   */
  method GreedyAlgorithm(numbers: array<int>) returns (r: int)
    requires AllInt32(numbers[..])
    ensures numbers.Length == 0 ==> r == IntMin
    ensures numbers.Length > 0 ==> IsMaxSegmentSum(numbers[..], r)
  {
    ghost var s := numbers[..];
    var n := numbers.Length;
    var bestSum := IntMin;
    ghost var bi, bj := 0, 0;
    for i := 0 to n
      invariant forall a, b :: 0 <= a < i && a < b <= n ==> SegSum(s, a, b) <= bestSum
      invariant i > 0 ==> 0 <= bi < bj <= n && SegSum(s, bi, bj) == bestSum
      invariant i == 0 ==> bestSum == IntMin
    {
      for j := i to n
        invariant forall a, b :: 0 <= a < i && a < b <= n ==> SegSum(s, a, b) <= bestSum
        invariant forall b :: i < b <= j ==> SegSum(s, i, b) <= bestSum
        invariant i > 0 || j > i ==> 0 <= bi < bj <= n && SegSum(s, bi, bj) == bestSum
        invariant i == 0 && j == i ==> bestSum == IntMin
      {
        var sum := 0;
        for k := i to j + 1
          invariant sum == SegSum(s, i, k)
        {
          sum := sum + numbers[k];
        }
        if sum >= bestSum {
          bi, bj := i, j + 1;
        }
        assert i == 0 && j == 0 ==> sum == s[0] >= IntMin;
        bestSum := Max2(bestSum, sum);
      }
    }
    return bestSum;
  }
}
