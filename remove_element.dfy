/** LeetCode 27, Remove Element. */
module RemoveElement {
  import opened Seqs

  /**
   * Moves the elements different from val to the front, in order, and answers
   * how many there are; the positions from the answer on are untouched.
   */
  method RemoveElement(nums: array<int>, val: int) returns (k: int)
    modifies nums
    ensures 0 <= k <= nums.Length
    ensures k == nums.Length - Count(old(nums[..]), val)
    ensures nums[..k] == Without(old(nums[..]), val)
    ensures nums[k..] == old(nums[k..])
  {
    if nums.Length == 0 {
      return 0;
    }
    ghost var s := nums[..];
    var writeIndex := 0;
    for readIndex := 0 to nums.Length
      invariant writeIndex <= readIndex
      invariant nums[..writeIndex] == Without(s[..readIndex], val)
      invariant forall t :: writeIndex <= t < nums.Length ==> nums[t] == s[t]
    {
      WithoutStep(s, val, readIndex);
      ghost var kept := nums[..writeIndex];
      if nums[readIndex] != val {
        nums[writeIndex] := nums[readIndex];
        assert nums[..writeIndex + 1] == kept + [s[readIndex]];
        writeIndex := writeIndex + 1;
      }
    }
    assert s[..nums.Length] == s;
    WithoutCount(s, val);
    k := writeIndex;
    assert nums[k..] == s[k..];
  }
}
