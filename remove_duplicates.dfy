/** The session-1 exercise that removes duplicates from a sorted array. */
module RemoveDuplicates {
  import opened TwoPointersSameDirection

  /**
   * Answers the count of kept elements together with the caller's own array,
   * whose prefix now holds one copy of each run of equal neighbours; the
   * positions from the count on keep their old values.
   */
  method RemoveDuplicatesFromArray(numbers: array<int>) returns (count: int, same: array<int>)
    modifies numbers
    ensures same == numbers
    ensures 0 <= count <= numbers.Length
    ensures numbers[..count] == Dedup(old(numbers[..]))
    ensures numbers[count..] == old(numbers[count..])
    ensures numbers.Length <= 1 ==> count == numbers.Length && numbers[..] == old(numbers[..])
  {
    if numbers.Length <= 1 {
      return numbers.Length, numbers;
    }
    ghost var s := numbers[..];
    var writeIndex := 1;
    for readIndex := 1 to numbers.Length
      invariant 1 <= writeIndex <= readIndex
      invariant numbers[..writeIndex] == Dedup(s[..readIndex])
      invariant forall t :: writeIndex <= t < numbers.Length ==> numbers[t] == s[t]
    {
      DedupLast(s[..readIndex]);
      DedupStep(s, readIndex);
      ghost var kept := numbers[..writeIndex];
      // the neighbour on the left has not been overwritten yet
      assert numbers[readIndex - 1] == s[readIndex - 1];
      if numbers[readIndex] != numbers[readIndex - 1] {
        numbers[writeIndex] := numbers[readIndex];
        assert numbers[..writeIndex + 1] == kept + [s[readIndex]];
        writeIndex := writeIndex + 1;
      }
    }
    assert s[..numbers.Length] == s;
    assert numbers[writeIndex..] == s[writeIndex..];
    return writeIndex, numbers;
  }
}
