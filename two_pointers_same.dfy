/**
 * Same-direction two-pointer exercises: a slow write index trails a fast read
 * index over one array, which is rewritten in place.
 */
module TwoPointersSameDirection {
  import opened Seqs

  // ---------------------------------------------------------------------------
  // Removing adjacent duplicates (the specification shared by the three
  // remove-duplicates exercises)
  // ---------------------------------------------------------------------------

  /** s with every element equal to its left neighbour dropped. */
  function Dedup(s: seq<int>): (r: seq<int>)
    ensures |r| <= |s|
    ensures |s| > 0 ==> |r| > 0 && r[0] == s[0]
  {
    if |s| <= 1 then s
    else Dedup(s[..|s| - 1]) + (if s[|s| - 1] != s[|s| - 2] then [s[|s| - 1]] else [])
  }

  /** Reading one more element of s keeps it unless it equals its left neighbour. */
  lemma DedupStep(s: seq<int>, r: int)
    requires 1 <= r < |s|
    ensures Dedup(s[..r + 1]) == Dedup(s[..r]) + (if s[r] != s[r - 1] then [s[r]] else [])
  {
    assert s[..r + 1][..r] == s[..r];
  }

  /** The last element kept is always the last element of the input. */
  lemma {:induction false} DedupLast(s: seq<int>)
    requires |s| > 0
    ensures Dedup(s)[|Dedup(s)| - 1] == s[|s| - 1]
  {
    if |s| > 1 && s[|s| - 1] == s[|s| - 2] {
      DedupLast(s[..|s| - 1]);
    }
  }

  /** Dedup keeps exactly the values of the input. */
  lemma {:induction false} DedupSameValues(s: seq<int>)
    ensures forall x :: x in Dedup(s) <==> x in s
  {
    if |s| > 1 {
      var p := s[..|s| - 1];
      DedupSameValues(p);
      assert s == p + [s[|s| - 1]];
      if s[|s| - 1] == s[|s| - 2] {
        assert s[|s| - 1] in p;
      }
    }
  }

  /** On a sorted input, Dedup is strictly increasing. */
  lemma {:induction false} DedupSortedIncreasing(s: seq<int>)
    requires Sorted(s)
    ensures StrictlyIncreasing(Dedup(s))
  {
    if |s| > 1 {
      var p := s[..|s| - 1];
      DedupSortedIncreasing(p);
      if s[|s| - 1] != s[|s| - 2] {
        DedupLast(p);
        var d := Dedup(p);
        assert d[|d| - 1] == s[|s| - 2] < s[|s| - 1];
        assert forall i :: 0 <= i < |d| ==> d[i] <= d[|d| - 1];
      }
    }
  }

  /** A strictly increasing sequence lists |s| distinct values. */
  lemma {:induction false} IncreasingDistinct(s: seq<int>)
    requires StrictlyIncreasing(s)
    ensures |set x | x in s| == |s|
  {
    if s != [] {
      var p := s[..|s| - 1];
      IncreasingDistinct(p);
      assert (set x | x in s) == (set x | x in p) + {s[|s| - 1]};
      assert s[|s| - 1] !in p;
    }
  }

  /** On a sorted input, Dedup lists the distinct values in ascending order. */
  lemma DedupSortedIsDistinctValues(s: seq<int>)
    requires Sorted(s)
    ensures StrictlyIncreasing(Dedup(s))
    ensures (set x | x in Dedup(s)) == (set x | x in s)
    ensures |Dedup(s)| == |set x | x in s|
  {
    DedupSortedIncreasing(s);
    DedupSameValues(s);
    IncreasingDistinct(Dedup(s));
  }

  // ---------------------------------------------------------------------------
  // RemoveDuplicates as written
  // ---------------------------------------------------------------------------

  /**
   * The as-written loop from the state (a, slow) with fast the next read
   * index: it compares a[fast] with a[slow] (the slot about to be written)
   * and ends by answering slow + 1. Returns the final array and the answer.
   */
  function SlowScan(a: seq<int>, slow: int, fast: int): (r: (seq<int>, int))
    requires 1 <= slow <= fast <= |a|
    ensures |r.0| == |a| && slow + 1 <= r.1 <= |a| + 1
    ensures r.0[..slow] == a[..slow] && r.0[|a|..] == []
    decreases |a| - fast
  {
    if fast == |a| then (a, slow + 1)
    else if a[fast] != a[slow] then SlowScan(a[slow := a[fast]], slow + 1, fast + 1)
    else SlowScan(a, slow, fast + 1)
  }

  /** What the as-written RemoveDuplicates leaves in the array and returns. */
  function AsWrittenOutcome(s: seq<int>): (r: (seq<int>, int))
    ensures |r.0| == |s|
    ensures s == [] ==> r.1 == 0
    ensures s != [] ==> 2 <= r.1 <= |s| + 1
  {
    if s == [] then (s, 0) else SlowScan(s, 1, 1)
  }

  /**
   * The as-written count is off by one for every non-empty input: a single
   * element already answers 2, more than the array holds.
   */
  lemma AsWrittenSingleElement(x: int)
    ensures AsWrittenOutcome([x]).1 == 2
    ensures |Dedup([x])| == 1
  {
  }

  /** [1,1,2] answers 3 although it holds two distinct values. */
  lemma AsWrittenOvercounts()
    ensures AsWrittenOutcome([1, 1, 2]) == ([1, 2, 2], 3)
    ensures Dedup([1, 1, 2]) == [1, 2]
  {
    var a := [1, 1, 2];
    assert SlowScan(a, 1, 1) == SlowScan(a, 1, 2);
    assert a[1 := 2] == [1, 2, 2];
    assert SlowScan(a, 1, 2) == SlowScan([1, 2, 2], 2, 3);
    assert Dedup([1, 1]) == [1];
    assert [1, 1, 2][..2] == [1, 1];
  }

  /** [1,2,3] loses the value 2 from the prefix. */
  lemma AsWrittenLosesValue()
    ensures AsWrittenOutcome([1, 2, 3]) == ([1, 3, 3], 3)
    ensures Dedup([1, 2, 3]) == [1, 2, 3]
  {
    var a := [1, 2, 3];
    assert SlowScan(a, 1, 1) == SlowScan(a, 1, 2);
    assert a[1 := 3] == [1, 3, 3];
    assert SlowScan(a, 1, 2) == SlowScan([1, 3, 3], 2, 3);
    assert Dedup([1, 2]) == [1, 2];
    assert [1, 2, 3][..2] == [1, 2];
    assert [1, 2][..1] == [1];
  }

  /**
   * RemoveDuplicates exactly as the source has it: the comparison is with
   * nums[slow] instead of the last kept value, and the answer is slow + 1.
   */
  method RemoveDuplicatesAsWritten(nums: array<int>) returns (k: int)
    modifies nums
    ensures (nums[..], k) == AsWrittenOutcome(old(nums[..]))
  {
    if nums.Length == 0 {
      return 0;
    }
    var slow := 1;
    for fast := 1 to nums.Length
      invariant 1 <= slow <= fast
      invariant SlowScan(nums[..], slow, fast) == SlowScan(old(nums[..]), 1, 1)
    {
      if nums[fast] != nums[slow] {
        nums[slow] := nums[fast];
        slow := slow + 1;
      }
    }
    k := slow + 1;
  }

  /**
   * RemoveDuplicates as evidently intended: compare with the last kept value
   * nums[slow - 1] and answer slow.
   */
  method RemoveDuplicates(nums: array<int>) returns (k: int)
    modifies nums
    ensures 0 <= k <= nums.Length
    ensures nums[..k] == Dedup(old(nums[..]))
    ensures nums[k..] == old(nums[k..])
  {
    if nums.Length == 0 {
      return 0;
    }
    ghost var s := nums[..];
    var slow := 1;
    for fast := 1 to nums.Length
      invariant 1 <= slow <= fast
      invariant nums[..slow] == Dedup(s[..fast])
      invariant forall t :: slow <= t < nums.Length ==> nums[t] == s[t]
    {
      DedupLast(s[..fast]);
      DedupStep(s, fast);
      ghost var kept := nums[..slow];
      assert nums[slow - 1] == s[fast - 1];
      if nums[fast] != nums[slow - 1] {
        nums[slow] := nums[fast];
        assert nums[..slow + 1] == kept + [s[fast]];
        slow := slow + 1;
      }
    }
    assert s[..nums.Length] == s;
    k := slow;
    assert nums[k..] == s[k..];
  }

  // ---------------------------------------------------------------------------
  // MoveZeroes
  // ---------------------------------------------------------------------------

  /** What MoveZeroes leaves: the non-zeros in order, then the zeros. */
  function ZerosMoved(s: seq<int>): seq<int>
  {
    Without(s, 0) + Zeros(Count(s, 0))
  }

  /** Moving the zeros to the end keeps every element and the length. */
  lemma {:induction false} ZerosMovedPermutation(s: seq<int>)
    ensures |ZerosMoved(s)| == |s|
    ensures multiset(ZerosMoved(s)) == multiset(s)
  {
    if s != [] {
      var p, x := s[..|s| - 1], s[|s| - 1];
      ZerosMovedPermutation(p);
      WithoutCount(s, 0);
      assert s == p + [x];
      if x == 0 {
        assert Zeros(Count(s, 0)) == Zeros(Count(p, 0)) + [0];
      } else {
        assert Without(s, 0) == Without(p, 0) + [x];
      }
    }
  }

  method MoveZeroes(nums: array<int>)
    modifies nums
    ensures nums[..] == ZerosMoved(old(nums[..]))
  {
    ghost var s := nums[..];
    var slow := 0;
    for fast := 0 to nums.Length
      invariant slow <= fast
      invariant nums[..slow] == Without(s[..fast], 0)
      invariant slow == fast - Count(s[..fast], 0)
      invariant forall t :: fast <= t < nums.Length ==> nums[t] == s[t]
    {
      WithoutStep(s, 0, fast);
      ghost var kept := nums[..slow];
      if nums[fast] != 0 {
        nums[slow] := nums[fast];
        assert nums[..slow + 1] == kept + [s[fast]];
        slow := slow + 1;
      }
    }
    assert s[..nums.Length] == s;
    ghost var front := nums[..slow];
    while slow < nums.Length
      invariant |front| <= slow <= nums.Length
      invariant nums[..slow] == front + Zeros(slow - |front|)
    {
      nums[slow] := 0;
      slow := slow + 1;
    }
  }

  // ---------------------------------------------------------------------------
  // RemoveElement
  // ---------------------------------------------------------------------------

  method RemoveElement(nums: array<int>, val: int) returns (k: int)
    modifies nums
    ensures 0 <= k <= nums.Length
    ensures k == nums.Length - Count(old(nums[..]), val)
    ensures nums[..k] == Without(old(nums[..]), val)
    ensures nums[k..] == old(nums[k..])
  {
    ghost var s := nums[..];
    var slow := 0;
    for fast := 0 to nums.Length
      invariant slow <= fast
      invariant nums[..slow] == Without(s[..fast], val)
      invariant forall t :: slow <= t < nums.Length ==> nums[t] == s[t]
    {
      WithoutStep(s, val, fast);
      ghost var kept := nums[..slow];
      if nums[fast] != val {
        nums[slow] := nums[fast];
        assert nums[..slow + 1] == kept + [s[fast]];
        slow := slow + 1;
      }
    }
    assert s[..nums.Length] == s;
    WithoutCount(s, val);
    k := slow;
    assert nums[k..] == s[k..];
  }

  // ---------------------------------------------------------------------------
  // PartitionArray
  // ---------------------------------------------------------------------------

  /** s[..m] lies below the pivot and s[m..] at or above it. */
  predicate PartitionedAt(s: seq<int>, pivot: int, m: int) {
    0 <= m <= |s| &&
    (forall i :: 0 <= i < m ==> s[i] < pivot) &&
    (forall i :: m <= i < |s| ==> s[i] >= pivot)
  }

  /** Number of elements of s below the pivot. */
  function CountBelow(s: seq<int>, pivot: int): (r: nat)
    ensures r <= |s|
  {
    if s == [] then 0
    else CountBelow(s[..|s| - 1], pivot) + (if s[|s| - 1] < pivot then 1 else 0)
  }

  method Swap(a: array<int>, i: int, j: int)
    requires 0 <= i <= j < a.Length
    modifies a
    ensures a[i] == old(a[j]) && a[j] == old(a[i])
    ensures forall k :: 0 <= k < a.Length && k != i && k != j ==> a[k] == old(a[k])
    ensures multiset(a[..]) == multiset(old(a[..]))
  {
    a[i], a[j] := a[j], a[i];
  }

  method PartitionArray(nums: array<int>, pivot: int)
    modifies nums
    ensures multiset(nums[..]) == multiset(old(nums[..]))
    ensures PartitionedAt(nums[..], pivot, CountBelow(old(nums[..]), pivot))
  {
    ghost var s := nums[..];
    var slow := 0;
    for fast := 0 to nums.Length
      invariant slow <= fast
      invariant slow == CountBelow(s[..fast], pivot)
      invariant forall i :: fast <= i < nums.Length ==> nums[i] == s[i]
      invariant multiset(nums[..]) == multiset(s)
      invariant forall i :: 0 <= i < slow ==> nums[i] < pivot
      invariant forall i :: slow <= i < fast ==> nums[i] >= pivot
    {
      assert s[..fast + 1][..fast] == s[..fast];
      if nums[fast] < pivot {
        Swap(nums, slow, fast);
        slow := slow + 1;
      }
    }
    assert s[..nums.Length] == s;
  }
}
