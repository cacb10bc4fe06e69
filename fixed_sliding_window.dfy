/** Fixed-size sliding windows: a window of k consecutive positions moves one step at a time. */
module FixedSlidingWindow {
  import opened Errors
  import opened Seqs

  // ---------------------------------------------------------------------------
  // MaxSumSubarray: the largest sum of k consecutive elements
  // ---------------------------------------------------------------------------

  /** The sum of the k elements starting at position j. */
  function WindowSum(s: seq<int>, j: int, k: int): int
    requires 0 <= j && 0 <= k && j + k <= |s|
  {
    if k == 0 then 0 else WindowSum(s, j, k - 1) + s[j + k - 1]
  }

  /** WindowSum is the sum of the slice s[j..j + k]. */
  lemma {:induction false} WindowSumIsSum(s: seq<int>, j: int, k: int)
    requires 0 <= j && 0 <= k && j + k <= |s|
    ensures WindowSum(s, j, k) == Sum(s[j..j + k])
  {
    if k > 0 {
      WindowSumIsSum(s, j, k - 1);
      SumExtend(s, j, j + k - 1);
    }
  }

  /** Sliding a window one step drops its first element and adds the next one. */
  lemma {:induction false} WindowSlide(s: seq<int>, j: int, k: int)
    requires 0 <= j && 0 < k && j + k < |s|
    ensures WindowSum(s, j + 1, k) == WindowSum(s, j, k) - s[j] + s[j + k]
  {
    if k > 1 {
      WindowSlide(s, j, k - 1);
    }
  }

  /** m is the largest sum of a window of k consecutive elements of s. */
  ghost predicate IsMaxWindowSum(s: seq<int>, k: int, m: int)
    requires 0 < k <= |s|
  {
    (forall j :: 0 <= j <= |s| - k ==> WindowSum(s, j, k) <= m) &&
    (exists j :: 0 <= j <= |s| - k && WindowSum(s, j, k) == m)
  }

  /**
   * Sums the first window, then slides it, dropping arr[i - k] and adding arr[i].
   * A window size of 0 or above the length is rejected; a negative one makes the
   * sliding loop index the array before its start.
   */
  method MaxSumSubarray(arr: array<int>, k: int) returns (r: Result<int>)
    ensures k == 0 || k > arr.Length ==> r == Throws(ArgumentException)
    ensures k < 0 ==> r == Throws(IndexOutOfRangeException)
    ensures 0 < k <= arr.Length ==> r.Ok? && IsMaxWindowSum(arr[..], k, r.value)
  {
    if k == 0 || k > arr.Length {
      return Throws(ArgumentException);
    }
    ghost var s := arr[..];
    var windowSum := 0;
    var i := 0;
    while i < k
      invariant 0 <= i && (k > 0 ==> i <= k) && (k <= 0 ==> i == 0)
      invariant windowSum == WindowSum(s, 0, i)
    {
      windowSum := windowSum + arr[i];
      i := i + 1;
    }
    var maxSum := windowSum;
    ghost var best := 0;
    i := k;
    while i < arr.Length
      invariant k > 0 ==> k <= i <= arr.Length
      invariant k > 0 ==> windowSum == WindowSum(s, i - k, k)
      invariant k > 0 ==> forall j :: 0 <= j <= i - k ==> WindowSum(s, j, k) <= maxSum
      invariant k > 0 ==> 0 <= best <= i - k && WindowSum(s, best, k) == maxSum
      invariant k < 0 ==> i == k
      decreases arr.Length - i
    {
      if !(0 <= i - k < arr.Length && 0 <= i) {
        return Throws(IndexOutOfRangeException);
      }
      WindowSlide(s, i - k, k);
      windowSum := windowSum - arr[i - k] + arr[i];
      if windowSum > maxSum {
        maxSum := windowSum;
        best := i - k + 1;
      }
      i := i + 1;
    }
    if k < 0 {
      // the sliding loop starts at a negative index whenever k < 0
      return Throws(IndexOutOfRangeException);
    }
    r := Ok(maxSum);
  }

  // ---------------------------------------------------------------------------
  // ContainsNearbyDuplicate: equal values at most k positions apart
  // ---------------------------------------------------------------------------

  /** Two positions at most k apart hold the same value. */
  ghost predicate NearbyDuplicate(s: seq<int>, k: int) {
    exists i, j :: 0 <= i < j < |s| && j - i <= k && s[i] == s[j]
  }

  /** The values at positions lo .. hi - 1 of s. */
  ghost function ValuesIn(s: seq<int>, lo: int, hi: int): set<int>
    requires 0 <= lo <= hi <= |s|
  {
    set j | lo <= j < hi :: s[j]
  }

  /**
   * Keeps the values of the last k positions in a set; a value already in the set
   * is a duplicate within distance k. For k >= -1 the answer is exact; for
   * k <= -2 the removal may index past the end of the array.
   */
  method ContainsNearbyDuplicate(nums: array<int>, k: int) returns (r: Result<bool>)
    ensures k >= -1 ==> r == Ok(NearbyDuplicate(nums[..], k))
    ensures r.Ok? || r == Throws(IndexOutOfRangeException)
  {
    ghost var s := nums[..];
    var window: set<int> := {};
    for i := 0 to nums.Length
      invariant k >= 0 ==> window == ValuesIn(s, if i - k - 1 < 0 then 0 else i - k - 1, i)
      invariant k >= -1 ==> !NearbyDuplicate(s[..i], k)
    {
      if i > k {
        if i - k - 1 >= nums.Length {
          return Throws(IndexOutOfRangeException);
        }
        if k >= 0 {
          RemoveOldest(s, k, i);
        }
        window := window - {nums[i - k - 1]};
      }
      assert k >= 0 ==> window == ValuesIn(s, if i - k < 0 then 0 else i - k, i);
      if nums[i] in window {
        if k >= -1 {
          assert k >= 0;
          ghost var j :| (if i - k < 0 then 0 else i - k) <= j < i && s[j] == nums[i];
          assert 0 <= j < i < |s| && i - j <= k && s[j] == s[i];
        }
        return Ok(true);
      }
      window := window + {nums[i]};
      if k >= -1 {
        NoNewDuplicate(s, k, i);
      }
    }
    assert s[..nums.Length] == s;
    r := Ok(false);
  }

  /** With no duplicate within k in the prefix, dropping the value at i - k - 1 leaves the last k values. */
  lemma RemoveOldest(s: seq<int>, k: int, i: int)
    requires 0 <= k < i < |s|
    requires !NearbyDuplicate(s[..i], k)
    ensures ValuesIn(s, i - k - 1, i) - {s[i - k - 1]} == ValuesIn(s, i - k, i)
  {
    forall j | i - k <= j < i
      ensures s[j] != s[i - k - 1]
    {
      assert s[..i][i - k - 1] != s[..i][j];
    }
  }

  /** A value not among the last k values adds no duplicate within distance k. */
  lemma NoNewDuplicate(s: seq<int>, k: int, i: int)
    requires k >= -1 && 0 <= i < |s|
    requires !NearbyDuplicate(s[..i], k)
    requires k >= 0 ==> s[i] !in ValuesIn(s, if i - k < 0 then 0 else i - k, i)
    ensures !NearbyDuplicate(s[..i + 1], k)
  {
    var t := s[..i + 1];
    forall a, b | 0 <= a < b < |t| && b - a <= k
      ensures t[a] != t[b]
    {
      if b < i {
        assert s[..i][a] != s[..i][b];
      } else {
        assert s[a] in ValuesIn(s, if i - k < 0 then 0 else i - k, i);
      }
    }
  }

  // ---------------------------------------------------------------------------
  // MaxSlidingWindow: the maximum of every window of k elements
  // ---------------------------------------------------------------------------

  /**
   * The array MaxSlidingWindow returns. Empty input or k == 0 gives []; a
   * negative length n - k + 1 makes the allocation throw; for k > 0 entry j is the
   * maximum of the window starting at j; for k < 0 the loop writes nums[i] to
   * entry i - k + 1 and the first 1 - k entries keep their default 0.
   */
  function SlidingMax(s: seq<int>, k: int): Result<seq<int>>
  {
    if |s| == 0 || k == 0 then Ok([])
    else if |s| - k + 1 < 0 then Throws(OverflowException)
    else if k > 0 then Ok(seq(|s| - k + 1, j requires 0 <= j < |s| - k + 1 => WindowMax(s, j, k)))
    else Ok(seq(|s| - k + 1, j requires 0 <= j < |s| - k + 1 => if 1 - k <= j then s[j + k - 1] else 0))
  }

  /** The largest of the k elements starting at position j. */
  function WindowMax(s: seq<int>, j: int, k: int): int
    requires 0 <= j && 0 < k && j + k <= |s|
  {
    Max(s[j..j + k])
  }

  /** For 1 <= k <= |s| there is one entry per window, and it is that window's largest element. */
  lemma SlidingMaxIsWindowMaximum(s: seq<int>, k: int, j: int)
    requires 1 <= k <= |s| && 0 <= j <= |s| - k
    ensures SlidingMax(s, k).Ok? && |SlidingMax(s, k).value| == |s| - k + 1
    ensures SlidingMax(s, k).value[j] in s[j..j + k]
    ensures forall t :: j <= t < j + k ==> s[t] <= SlidingMax(s, k).value[j]
  {
    MaxIsMaximum(s[j..j + k]);
    assert forall t :: j <= t < j + k ==> s[t] == s[j..j + k][t - j];
  }

  /** Some deque entry at or after position j holds a value at least s[j]. */
  ghost predicate Covered(s: seq<int>, deque: seq<int>, j: int) {
    0 <= j < |s| &&
    exists p :: 0 <= p < |deque| && 0 <= deque[p] < |s| && deque[p] >= j && s[deque[p]] >= s[j]
  }

  /** Every position of [lo, hi) that lies in s is covered by the deque. */
  ghost predicate CoveredFrom(s: seq<int>, deque: seq<int>, lo: int, hi: int) {
    forall j :: lo <= j < hi && 0 <= j ==> Covered(s, deque, j)
  }

  /** Deque positions lie in [lo, hi), increase, and their values do not increase. */
  ghost predicate MonotoneDeque(s: seq<int>, deque: seq<int>, lo: int, hi: int) {
    (forall p :: 0 <= p < |deque| ==> 0 <= lo <= deque[p] < hi <= |s|) &&
    (forall p, q :: 0 <= p < q < |deque| ==> deque[p] < deque[q] && s[deque[p]] >= s[deque[q]])
  }

  lemma CoveredDropFront(s: seq<int>, deque: seq<int>, j: int)
    requires Covered(s, deque, j) && deque != [] && deque[0] < j
    ensures Covered(s, deque[1..], j)
  {
    var p :| 0 <= p < |deque| && 0 <= deque[p] < |s| && deque[p] >= j && s[deque[p]] >= s[j];
    assert deque[1..][p - 1] == deque[p];
  }

  lemma CoveredDropBack(s: seq<int>, deque: seq<int>, j: int, i: int)
    requires 0 <= j < |s| && Covered(s, deque, j) && deque != [] && 0 <= deque[|deque| - 1] < |s|
    requires 0 <= i < |s| && s[deque[|deque| - 1]] < s[i]
    ensures Covered(s, deque[..|deque| - 1], j) || s[i] >= s[j]
  {
    var p :| 0 <= p < |deque| && 0 <= deque[p] < |s| && deque[p] >= j && s[deque[p]] >= s[j];
    if p < |deque| - 1 {
      assert deque[..|deque| - 1][p] == deque[p];
    }
  }

  lemma CoveredPushBack(s: seq<int>, deque: seq<int>, j: int, i: int)
    requires 0 <= j <= i < |s|
    requires Covered(s, deque, j) || s[i] >= s[j]
    ensures Covered(s, deque + [i], j)
  {
    if Covered(s, deque, j) {
      var p :| 0 <= p < |deque| && 0 <= deque[p] < |s| && deque[p] >= j && s[deque[p]] >= s[j];
      assert (deque + [i])[p] == deque[p];
    } else {
      assert (deque + [i])[|deque|] == i;
    }
  }

  /** Appending i behind values no smaller than s[i] keeps the deque monotone. */
  lemma PushKeepsMonotone(s: seq<int>, deque: seq<int>, lo: int, i: int)
    requires 0 <= lo <= i < |s| && MonotoneDeque(s, deque, lo, i)
    requires deque != [] ==> s[deque[|deque| - 1]] >= s[i]
    ensures MonotoneDeque(s, deque + [i], lo, i + 1)
  {
    var d := deque + [i];
    forall p, q | 0 <= p < q < |d|
      ensures d[p] < d[q] && s[d[p]] >= s[d[q]]
    {
      if q == |deque| && p < |deque| - 1 {
        assert s[deque[p]] >= s[deque[|deque| - 1]];
      }
    }
  }

  /** Appending i after the back-removals keeps the deque monotone and covering the window ending at i. */
  lemma PushBack(s: seq<int>, deque: seq<int>, k: int, i: int)
    requires 0 <= i < |s| && k != 0
    requires MonotoneDeque(s, deque, if i - k + 1 < 0 then 0 else i - k + 1, i)
    requires deque != [] ==> s[deque[|deque| - 1]] >= s[i]
    requires forall j :: i - k < j < i && 0 <= j ==> Covered(s, deque, j) || s[i] >= s[j]
    ensures MonotoneDeque(s, deque + [i], if k < 0 then i else if i - k + 1 < 0 then 0 else i - k + 1, i + 1)
    ensures CoveredFrom(s, deque + [i], i - k + 1, i + 1)
  {
    forall j | i - k < j <= i && 0 <= j
      ensures Covered(s, deque + [i], j)
    {
      CoveredPushBack(s, deque, j, i);
    }
    PushKeepsMonotone(s, deque, if k < 0 then i else if i - k + 1 < 0 then 0 else i - k + 1, i);
  }

  /** The front of a monotone deque that covers the whole window holds the window's maximum. */
  lemma FrontIsWindowMaximum(s: seq<int>, deque: seq<int>, k: int, i: int)
    requires 0 < k && k - 1 <= i < |s|
    requires deque != [] && MonotoneDeque(s, deque, i - k + 1, i + 1)
    requires CoveredFrom(s, deque, i - k + 1, i + 1)
    ensures s[deque[0]] == WindowMax(s, i - k + 1, k)
  {
    var w := s[i - k + 1..i + 1];
    assert w[deque[0] - (i - k + 1)] == s[deque[0]];
    forall t | 0 <= t < |w|
      ensures w[t] <= s[deque[0]]
    {
      assert w[t] == s[i - k + 1 + t];
      assert Covered(s, deque, i - k + 1 + t);
    }
    MaxUnique(w, s[deque[0]]);
  }

  /** Entry j of the result array once the deque loop has handled positions 0 .. i - 1. */
  function Entry(s: seq<int>, k: int, j: int, i: int): int
    requires k != 0 && 0 <= j < |s| - k + 1
  {
    if k > 0 then (if j + k - 1 < i then WindowMax(s, j, k) else 0)
    else if 1 - k <= j && j + k - 1 < i then s[j + k - 1]
    else 0
  }

  /** res holds the entries written by the first i rounds of the deque loop. */
  ghost predicate FilledUpTo(s: seq<int>, k: int, res: seq<int>, i: int)
    requires k != 0 && |res| == |s| - k + 1
  {
    forall j :: 0 <= j < |res| ==> res[j] == Entry(s, k, j, i)
  }

  /** A round that completes no window leaves the result as it is. */
  lemma FillSkip(s: seq<int>, k: int, res: seq<int>, i: int)
    requires k != 0 && |res| == |s| - k + 1 && i < k - 1
    requires FilledUpTo(s, k, res, i)
    ensures FilledUpTo(s, k, res, i + 1)
  {
  }

  /** A round that completes the window ending at i writes that window's entry. */
  lemma FillWrite(s: seq<int>, k: int, res: seq<int>, i: int, v: int)
    requires k != 0 && |res| == |s| - k + 1 && 0 <= i < |s| && k - 1 <= i
    requires FilledUpTo(s, k, res, i)
    requires k > 0 ==> v == WindowMax(s, i - k + 1, k)
    requires k < 0 ==> v == s[i]
    ensures FilledUpTo(s, k, res[i - k + 1 := v], i + 1)
  {
    var t := res[i - k + 1 := v];
    forall j | 0 <= j < |t|
      ensures t[j] == Entry(s, k, j, i + 1)
    {
      if j != i - k + 1 {
        assert t[j] == res[j] == Entry(s, k, j, i);
      }
    }
  }

  /** The array the deque loop has filled in is the one SlidingMax describes. */
  lemma FilledIsSlidingMax(s: seq<int>, k: int, res: seq<int>)
    requires |s| > 0 && k != 0 && |res| == |s| - k + 1
    requires FilledUpTo(s, k, res, |s|)
    ensures SlidingMax(s, k) == Ok(res)
  {
    assert SlidingMax(s, k).Ok? && |SlidingMax(s, k).value| == |res|;
    forall j | 0 <= j < |res|
      ensures res[j] == SlidingMax(s, k).value[j]
    {
    }
    assert res == SlidingMax(s, k).value;
  }

  /**
   * Keeps in a deque the positions of the current window whose values decrease
   * from front to back; the front is the window's maximum.
   */
  method MaxSlidingWindow(nums: array<int>, k: int) returns (r: Result<seq<int>>)
    ensures r == SlidingMax(nums[..], k)
  {
    if nums.Length == 0 || k == 0 {
      return Ok([]);
    }
    if nums.Length - k + 1 < 0 {
      return Throws(OverflowException);
    }
    ghost var s := nums[..];
    var result := new int[nums.Length - k + 1](_ => 0);
    var deque: seq<int> := [];
    for i := 0 to nums.Length
      invariant s == nums[..]
      invariant MonotoneDeque(s, deque, 0, i)
      invariant CoveredFrom(s, deque, i - k + 1, i)
      invariant result.Length == |s| - k + 1 && FilledUpTo(s, k, result[..], i)
    {
      deque := DropExpired(nums, s, deque, k, i);
      deque := DropSmaller(nums, s, deque, k, i);
      PushBack(s, deque, k, i);
      deque := deque + [i];
      if i >= k - 1 {
        if k > 0 {
          FrontIsWindowMaximum(s, deque, k, i);
        }
        FillWrite(s, k, result[..], i, nums[deque[0]]);
        result[i - k + 1] := nums[deque[0]];
      } else {
        FillSkip(s, k, result[..], i);
      }
    }
    FilledIsSlidingMax(s, k, result[..]);
    r := Ok(result[..]);
  }

  /** The deque loop of MaxSlidingWindowDescription is the same as that of MaxSlidingWindow. */
  method MaxSlidingWindowDescription(nums: array<int>, k: int) returns (r: Result<seq<int>>)
    ensures r == SlidingMax(nums[..], k)
  {
    if nums.Length == 0 || k == 0 {
      return Ok([]);
    }
    if nums.Length - k + 1 < 0 {
      return Throws(OverflowException);
    }
    ghost var s := nums[..];
    var result := new int[nums.Length - k + 1](_ => 0);
    var deque: seq<int> := [];
    for i := 0 to nums.Length
      invariant s == nums[..]
      invariant MonotoneDeque(s, deque, 0, i)
      invariant CoveredFrom(s, deque, i - k + 1, i)
      invariant result.Length == |s| - k + 1 && FilledUpTo(s, k, result[..], i)
    {
      deque := DropExpired(nums, s, deque, k, i);
      deque := DropSmaller(nums, s, deque, k, i);
      PushBack(s, deque, k, i);
      deque := deque + [i];
      if i >= k - 1 {
        if k > 0 {
          FrontIsWindowMaximum(s, deque, k, i);
        }
        FillWrite(s, k, result[..], i, nums[deque[0]]);
        result[i - k + 1] := nums[deque[0]];
      } else {
        FillSkip(s, k, result[..], i);
      }
    }
    FilledIsSlidingMax(s, k, result[..]);
    r := Ok(result[..]);
  }

  /** Removes from the front the positions at or before i - k, which have left the window. */
  method DropExpired(nums: array<int>, ghost s: seq<int>, deque: seq<int>, k: int, i: int) returns (d: seq<int>)
    requires s == nums[..] && 0 <= i < nums.Length && MonotoneDeque(s, deque, 0, i)
    requires CoveredFrom(s, deque, i - k + 1, i)
    ensures MonotoneDeque(s, d, if i - k + 1 < 0 then 0 else i - k + 1, i)
    ensures CoveredFrom(s, d, i - k + 1, i)
  {
    d := deque;
    while d != [] && d[0] <= i - k
      invariant MonotoneDeque(s, d, 0, i)
      invariant CoveredFrom(s, d, i - k + 1, i)
    {
      forall j | i - k < j < i && 0 <= j
        ensures Covered(s, d[1..], j)
      {
        CoveredDropFront(s, d, j);
      }
      d := d[1..];
    }
  }

  /**
   * Removes from the back the positions whose values are below nums[i]: those
   * can never be a window maximum again.
   */
  method DropSmaller(nums: array<int>, ghost s: seq<int>, deque: seq<int>, k: int, i: int) returns (d: seq<int>)
    requires s == nums[..] && 0 <= i < nums.Length
    requires MonotoneDeque(s, deque, if i - k + 1 < 0 then 0 else i - k + 1, i)
    requires CoveredFrom(s, deque, i - k + 1, i)
    ensures MonotoneDeque(s, d, if i - k + 1 < 0 then 0 else i - k + 1, i)
    ensures d != [] ==> s[d[|d| - 1]] >= s[i]
    ensures forall j :: i - k < j < i && 0 <= j ==> Covered(s, d, j) || s[i] >= s[j]
  {
    d := deque;
    while d != [] && nums[d[|d| - 1]] < nums[i]
      invariant MonotoneDeque(s, d, if i - k + 1 < 0 then 0 else i - k + 1, i)
      invariant forall j :: i - k < j < i && 0 <= j ==> Covered(s, d, j) || s[i] >= s[j]
    {
      assert s[d[|d| - 1]] < s[i];
      forall j | i - k < j < i && 0 <= j && Covered(s, d, j)
        ensures Covered(s, d[..|d| - 1], j) || s[i] >= s[j]
      {
        CoveredDropBack(s, d, j, i);
      }
      d := d[..|d| - 1];
    }
    assert d != [] ==> s[d[|d| - 1]] == nums[d[|d| - 1]] >= nums[i] == s[i];
  }
}
