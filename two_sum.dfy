/**
 * Two sum on an unsorted array: the indices of two elements adding up to
 * target, found with a dictionary from values to indices or by trying every
 * pair.
 */
module TwoSum {
  import opened Errors

  /** Some element before position j completes a pair with s[j]. */
  ghost predicate CompletesPair(s: seq<int>, target: int, j: int)
    requires 0 <= j < |s|
  {
    exists i :: 0 <= i < j && s[i] + s[j] == target
  }

  /** s[j] already occurs before position j. */
  ghost predicate Repeats(s: seq<int>, j: int)
    requires 0 <= j < |s|
  {
    exists i :: 0 <= i < j && s[i] == s[j]
  }

  /** Before position k no element completes a pair. */
  ghost predicate NoPairBefore(s: seq<int>, target: int, k: int)
    requires 0 <= k <= |s|
  {
    forall j :: 0 <= j < k ==> !CompletesPair(s, target, j)
  }

  /** Before position k no element completes a pair and none repeats an earlier one. */
  ghost predicate Quiet(s: seq<int>, target: int, k: int)
    requires 0 <= k <= |s|
  {
    NoPairBefore(s, target, k) && forall j :: 0 <= j < k ==> !Repeats(s, j)
  }

  /** No two distinct indices i < j have elements summing to target. */
  ghost predicate NoPair(s: seq<int>, target: int) {
    forall i, j :: 0 <= i < j < |s| ==> s[i] + s[j] != target
  }

  /** No pair before k is the same as no pair among s[..k]. */
  lemma NoPairBeforeIsNoPair(s: seq<int>, target: int)
    ensures NoPairBefore(s, target, |s|) <==> NoPair(s, target)
  {
    if NoPairBefore(s, target, |s|) {
      forall i, j | 0 <= i < j < |s|
        ensures s[i] + s[j] != target
      {
        assert !CompletesPair(s, target, j);
      }
    }
  }

  /**
   * r is [a, b] with a < b, the elements summing to target, and b the first
   * index at which some earlier element completes a pair.
   */
  ghost predicate IsFirstCompletion(s: seq<int>, target: int, r: seq<int>) {
    && |r| == 2
    && 0 <= r[0] < r[1] < |s|
    && s[r[0]] + s[r[1]] == target
    && NoPairBefore(s, target, r[1])
  }

  /**
   * Everything the dictionary version as written can answer on s: a first
   * completion reached before any repeated value, [-1, -1] when the scan ends
   * with neither, or ArgumentException at the first repeated value that does
   * not complete a pair.
   */
  ghost predicate AsWrittenOutcome(s: seq<int>, target: int, r: Result<seq<int>>) {
    match r
    case Ok(v) =>
      if v == [-1, -1] then Quiet(s, target, |s|)
      else IsFirstCompletion(s, target, v) && Quiet(s, target, v[1])
    case Throws(e) =>
      && e == ArgumentException
      && exists j :: 0 <= j < |s| && Quiet(s, target, j)
           && !CompletesPair(s, target, j) && Repeats(s, j)
  }

  /**
   * For each numbers[i], looks up target - numbers[i] among the values seen so
   * far and answers [its index, i]; otherwise adds numbers[i] with
   * Dictionary.Add, which throws when that value is already a key.
   */
  method CalculateTwoSum(numbers: array<int>, target: int) returns (r: Result<seq<int>>)
    ensures AsWrittenOutcome(numbers[..], target, r)
  {
    ghost var s := numbers[..];
    var seen: map<int, int> := map[];
    for i := 0 to numbers.Length
      invariant Quiet(s, target, i)
      invariant forall v :: v in seen <==> exists t :: 0 <= t < i && s[t] == v
      invariant forall t :: 0 <= t < i ==> s[t] in seen && seen[s[t]] == t
    {
      var result := target - numbers[i];
      if result in seen {
        ghost var t :| 0 <= t < i && s[t] == result;
        return Ok([seen[result], i]);
      }
      if numbers[i] in seen {
        ghost var t :| 0 <= t < i && s[t] == s[i];
        return Throws(ArgumentException);
      }
      seen := seen[numbers[i] := i];
    }
    return Ok([-1, -1]);
  }

  /**
   * The dictionary version with the repeated value left out of the dictionary
   * instead of thrown on: the first index of each value is kept.
   */
  method CalculateTwoSumKeepFirst(numbers: array<int>, target: int) returns (r: seq<int>)
    ensures r == [-1, -1] <==> NoPair(numbers[..], target)
    ensures r != [-1, -1] ==> IsFirstCompletion(numbers[..], target, r)
  {
    ghost var s := numbers[..];
    var seen: map<int, int> := map[];
    for i := 0 to numbers.Length
      invariant NoPairBefore(s, target, i)
      invariant forall v :: v in seen <==> exists t :: 0 <= t < i && s[t] == v
      invariant forall v :: v in seen ==> 0 <= seen[v] < i && s[seen[v]] == v
    {
      var result := target - numbers[i];
      if result in seen {
        NoPairBeforeIsNoPair(s, target);
        assert !NoPairBefore(s, target, |s|) by {
          assert CompletesPair(s, target, i);
        }
        return [seen[result], i];
      }
      if numbers[i] !in seen {
        seen := seen[numbers[i] := i];
      }
    }
    NoPairBeforeIsNoPair(s, target);
    return [-1, -1];
  }

  /**
   * On [1, 1, 5] with target 6 the pair (0, 2) exists, but every outcome the
   * dictionary version as written allows is ArgumentException: the second 1
   * is added to the dictionary before 5 is reached.
   */
  lemma RepeatedValueThrows(r: Result<seq<int>>)
    requires AsWrittenOutcome([1, 1, 5], 6, r)
    ensures r == Throws(ArgumentException)
    ensures !NoPair([1, 1, 5], 6)
  {
    var s := [1, 1, 5];
    assert s[0] + s[2] == 6;
    assert Repeats(s, 1);
    assert !Quiet(s, 6, 2) && !Quiet(s, 6, 3);
    assert !CompletesPair(s, 6, 0) && !CompletesPair(s, 6, 1);
  }

  // ---------------------------------------------------------------------------
  // Brute force
  // ---------------------------------------------------------------------------

  /**
   * (i, j) is the first pair, in the order the nested loops visit them, whose
   * elements sum to target, when j ranges from i + gap onwards.
   */
  ghost predicate IsFirstPair(s: seq<int>, target: int, i: int, j: int, gap: nat) {
    && 0 <= i && i + gap <= j < |s|
    && s[i] + s[j] == target
    && (forall a, b :: 0 <= a < i && a + gap <= b < |s| ==> s[a] + s[b] != target)
    && (forall b :: i + gap <= b < j ==> s[i] + s[b] != target)
  }

  /** No pair (a, b) with b at least gap past a sums to target. */
  ghost predicate NoPairWithGap(s: seq<int>, target: int, gap: nat) {
    forall a, b :: 0 <= a && a + gap <= b < |s| ==> s[a] + s[b] != target
  }

  /**
   * The brute force as written: the inner loop starts at j = i, so an element
   * may be paired with itself.
   */
  method CalculateTwoSumBruteForceAsWritten(numbers: array<int>, target: int) returns (r: seq<int>)
    ensures |r| == 2
    ensures r == [-1, -1] <==> NoPairWithGap(numbers[..], target, 0)
    ensures r != [-1, -1] ==> IsFirstPair(numbers[..], target, r[0], r[1], 0)
  {
    r := FirstPairFrom(numbers, target, 0);
  }

  /** The brute force with the inner loop starting at j = i + 1: two distinct indices. */
  method CalculateTwoSumBruteForce(numbers: array<int>, target: int) returns (r: seq<int>)
    ensures |r| == 2
    ensures r == [-1, -1] <==> NoPair(numbers[..], target)
    ensures r != [-1, -1] ==> IsFirstPair(numbers[..], target, r[0], r[1], 1)
  {
    r := FirstPairFrom(numbers, target, 1);
  }

  /** The two nested loops, the inner one starting gap past the outer index. */
  method FirstPairFrom(numbers: array<int>, target: int, gap: nat) returns (r: seq<int>)
    requires gap <= 1
    ensures |r| == 2
    ensures r == [-1, -1] <==> NoPairWithGap(numbers[..], target, gap)
    ensures r != [-1, -1] ==> IsFirstPair(numbers[..], target, r[0], r[1], gap)
  {
    for i := 0 to numbers.Length
      invariant forall a, b :: 0 <= a < i && a + gap <= b < numbers.Length ==> numbers[a] + numbers[b] != target
    {
      for j := i + gap to numbers.Length
        invariant forall b :: i + gap <= b < j ==> numbers[i] + numbers[b] != target
      {
        if numbers[i] + numbers[j] == target {
          return [i, j];
        }
      }
    }
    return [-1, -1];
  }

  /**
   * On [3, 2, 4] with target 6 the brute force as written answers [0, 0],
   * 3 + 3 from one element, where the pair of distinct indices is [1, 2].
   */
  lemma BruteForcePairsElementWithItself(i: int, j: int, i': int, j': int)
    requires IsFirstPair([3, 2, 4], 6, i, j, 0)
    requires IsFirstPair([3, 2, 4], 6, i', j', 1)
    ensures i == 0 && j == 0
    ensures i' == 1 && j' == 2
  {
    var s := [3, 2, 4];
    assert s[0] + s[0] == 6 && s[1] + s[2] == 6;
  }

  /** A pair the corrected brute force reports is a two-sum answer and the first one in visiting order. */
  lemma FirstPairIsTwoSum(s: seq<int>, target: int, i: int, j: int)
    requires IsFirstPair(s, target, i, j, 1)
    ensures 0 <= i < j < |s| && s[i] + s[j] == target
    ensures forall a, b :: 0 <= a < b < |s| && s[a] + s[b] == target ==> i < a || (i == a && j <= b)
  {
  }
}
