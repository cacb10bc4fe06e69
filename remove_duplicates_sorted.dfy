/** LeetCode 26, Remove Duplicates from Sorted Array. */
module RemoveDuplicatesSorted {
  import opened Seqs
  import opened TwoPointersSameDirection

  /**
   * Keeps one copy of each run of equal neighbours at the front of nums and
   * answers how many were kept; the tail from the answer on is untouched.
   */
  method RemoveDuplicates(nums: array<int>) returns (k: int)
    modifies nums
    ensures 0 <= k <= nums.Length
    ensures nums[..k] == Dedup(old(nums[..]))
    ensures nums[k..] == old(nums[k..])
    ensures nums.Length <= 1 ==> k == nums.Length && nums[..] == old(nums[..])
  {
    if nums.Length <= 1 {
      return nums.Length;
    }
    ghost var s := nums[..];
    var writeIndex := 1;
    for readIndex := 1 to nums.Length
      invariant 1 <= writeIndex <= readIndex
      invariant nums[..writeIndex] == Dedup(s[..readIndex])
      invariant forall t :: writeIndex <= t < nums.Length ==> nums[t] == s[t]
    {
      DedupLast(s[..readIndex]);
      DedupStep(s, readIndex);
      ghost var kept := nums[..writeIndex];
      // the neighbour on the left has not been overwritten yet
      assert nums[readIndex - 1] == s[readIndex - 1];
      if nums[readIndex] != nums[readIndex - 1] {
        nums[writeIndex] := nums[readIndex];
        assert nums[..writeIndex + 1] == kept + [s[readIndex]];
        writeIndex := writeIndex + 1;
      }
    }
    assert s[..nums.Length] == s;
    assert nums[writeIndex..] == s[writeIndex..];
    k := writeIndex;
  }
}
