/**
 * LeetCode 169, majority element: the value occurring more than n / 2 times,
 * found by Boyer-Moore voting, by a counting dictionary, by sorting, and by
 * divide and conquer.
 */
module MajorityElement {
  import opened Errors
  import opened Seqs

  /** v occurs more than |s| / 2 times in s. */
  ghost predicate IsMajority(s: seq<int>, v: int)
  {
    2 * Count(s, v) > |s|
  }

  /** Two different values together occur at most |s| times. */
  lemma {:induction false} CountPair(s: seq<int>, a: int, b: int)
    requires a != b
    ensures Count(s, a) + Count(s, b) <= |s|
  {
    if s != [] {
      CountPair(s[..|s| - 1], a, b);
    }
  }

  /** There is at most one majority value. */
  lemma MajorityUnique(s: seq<int>, a: int, b: int)
    requires IsMajority(s, a) && IsMajority(s, b)
    ensures a == b
  {
    if a != b {
      CountPair(s, a, b);
    }
  }

  /** A prefix has no more occurrences than the whole sequence. */
  lemma CountPrefix(s: seq<int>, i: int, v: int)
    requires 0 <= i <= |s|
    ensures Count(s[..i], v) <= Count(s, v)
  {
    assert s == s[..i] + s[i..];
    CountAppend(s[..i], s[i..], v);
  }

  // ---------------------------------------------------------------------
  // Boyer-Moore voting

  /** The voting state: the current candidate and its surplus count. */
  datatype Tally = Tally(candidate: int, count: int)

  /** The voting state after reading s from the left, starting from (0, 0). */
  function Vote(s: seq<int>): Tally
  {
    if s == [] then Tally(0, 0)
    else
      var t := Vote(s[..|s| - 1]);
      var x := s[|s| - 1];
      var c := if t.count == 0 then x else t.candidate;
      Tally(c, t.count + (if x == c then 1 else -1))
  }

  /**
   * The voting invariant: the count never goes negative, the candidate occurs
   * at most (|s| + count) / 2 times and every other value at most (|s| - count) / 2.
   */
  lemma {:induction false} VoteInvariant(s: seq<int>)
    ensures Vote(s).count >= 0
    ensures forall v :: 2 * Count(s, v) <= |s| + (if v == Vote(s).candidate then Vote(s).count else -Vote(s).count)
  {
    if s != [] {
      VoteInvariant(s[..|s| - 1]);
    }
  }

  /** If s has a majority value, voting ends with it as the candidate. */
  lemma VoteFindsMajority(s: seq<int>, v: int)
    requires IsMajority(s, v)
    ensures Vote(s).candidate == v
  {
    VoteInvariant(s);
  }

  /** Boyer-Moore voting in one pass over nums. */
  method MajorityElement(nums: array<int>) returns (r: int)
    ensures r == Vote(nums[..]).candidate
    ensures forall v :: IsMajority(nums[..], v) ==> r == v
  {
    var candidate := 0;
    var count := 0;
    for i := 0 to nums.Length
      invariant Tally(candidate, count) == Vote(nums[..i])
    {
      var current := nums[i];
      if count == 0 {
        candidate := current;
      }
      count := count + if current == candidate then 1 else -1;
      assert nums[..i + 1][..i] == nums[..i];
    }
    assert nums[..nums.Length] == nums[..];
    r := candidate;
    forall v | IsMajority(nums[..], v) ensures r == v {
      VoteFindsMajority(nums[..], v);
    }
  }

  /** The second copy of the voting algorithm; it computes the same candidate. */
  method MajorityElementVoting(nums: array<int>) returns (r: int)
    ensures r == Vote(nums[..]).candidate
    ensures forall v :: IsMajority(nums[..], v) ==> r == v
  {
    var candidate := 0;
    var count := 0;
    for i := 0 to nums.Length
      invariant Tally(candidate, count) == Vote(nums[..i])
    {
      var num := nums[i];
      if count == 0 {
        candidate := num;
      }
      count := count + if num == candidate then 1 else -1;
      assert nums[..i + 1][..i] == nums[..i];
    }
    assert nums[..nums.Length] == nums[..];
    r := candidate;
    forall v | IsMajority(nums[..], v) ensures r == v {
      VoteFindsMajority(nums[..], v);
    }
  }

  // ---------------------------------------------------------------------
  // Counting dictionary

  /** counts holds, for each value read so far, its number of occurrences in p. */
  ghost predicate CountsOf(counts: map<int, int>, p: seq<int>)
  {
    forall v :: (v in counts <==> v in p) && (v in counts ==> counts[v] == Count(p, v))
  }

  /** Reading s[i] increments its entry, adding it with count 1 if it is new. */
  lemma CountsStep(counts: map<int, int>, s: seq<int>, i: int)
    requires 0 <= i < |s| && CountsOf(counts, s[..i])
    ensures CountsOf(counts[s[i] := (if s[i] in counts then counts[s[i]] else 0) + 1], s[..i + 1])
  {
    assert s[..i + 1] == s[..i] + [s[i]];
    forall v ensures Count(s[..i + 1], v) == Count(s[..i], v) + (if v == s[i] then 1 else 0) {
      WithoutStep(s, v, i);
    }
    CountBound(s[..i], s[i]);
  }

  /**
   * Counts occurrences in a dictionary and returns the first value whose count
   * exceeds n / 2: the majority value when there is one, otherwise -1.
   */
  method MajorityElementHashMap(nums: array<int>) returns (r: int)
    ensures forall v :: IsMajority(nums[..], v) ==> r == v
    ensures (forall v :: !IsMajority(nums[..], v)) ==> r == -1
  {
    ghost var s := nums[..];
    var counts: map<int, int> := map[];
    var majorityThreshold := nums.Length / 2;
    for i := 0 to nums.Length
      invariant CountsOf(counts, s[..i])
      invariant forall v :: v in counts ==> counts[v] <= majorityThreshold
    {
      var num := nums[i];
      ghost var counts0 := counts;
      CountsStep(counts, s, i);
      if num !in counts {
        counts := counts[num := 0];
      }
      counts := counts[num := counts[num] + 1];
      assert counts == counts0[num := (if num in counts0 then counts0[num] else 0) + 1];
      if counts[num] > majorityThreshold {
        CountPrefix(s, i + 1, num);
        assert IsMajority(s, num);
        forall v | IsMajority(s, v) ensures num == v {
          MajorityUnique(s, num, v);
        }
        return num;
      }
    }
    assert s[..nums.Length] == s;
    forall v ensures !IsMajority(s, v) {
      CountBound(s, v);
    }
    return -1;
  }

  // ---------------------------------------------------------------------
  // Sorting

  /** Array.Sort: sorts a in place, ascending. */
  method SortInPlace(a: array<int>)
    modifies a
    ensures Sorted(a[..]) && multiset(a[..]) == multiset(old(a[..]))
  {
    for i := 0 to a.Length
      invariant Sorted(a[..i]) && multiset(a[..]) == multiset(old(a[..]))
    {
      InsertLast(a, i);
    }
    assert a[..a.Length] == a[..];
  }

  /**
   * The state of the insertion of s[i]: the moving element sits at j, and
   * every other pair of positions up to i is in order.
   */
  ghost predicate InsertingAt(s: seq<int>, i: int, j: int)
    requires 0 <= j <= i < |s|
  {
    (forall p, q :: 0 <= p < q <= i && q != j ==> s[p] <= s[q]) &&
    (0 < j < i ==> s[j - 1] <= s[j + 1])
  }

  /** Swapping the moving element with a larger left neighbour keeps the state. */
  lemma SwapDown(s: seq<int>, i: int, j: int)
    requires 0 < j <= i < |s| && InsertingAt(s, i, j) && s[j - 1] > s[j]
    ensures InsertingAt(s[j - 1 := s[j]][j := s[j - 1]], i, j - 1)
    ensures multiset(s[j - 1 := s[j]][j := s[j - 1]]) == multiset(s)
  {
  }

  /** Once the left neighbour is no larger, the prefix up to i is sorted. */
  lemma InsertDone(s: seq<int>, i: int, j: int)
    requires 0 <= j <= i < |s| && InsertingAt(s, i, j)
    requires j == 0 || s[j - 1] <= s[j]
    ensures Sorted(s[..i + 1])
  {
  }

  /** Moves a[i] left into place in the sorted prefix a[..i]. */
  method InsertLast(a: array<int>, i: int)
    requires 0 <= i < a.Length && Sorted(a[..i])
    modifies a
    ensures Sorted(a[..i + 1]) && multiset(a[..]) == multiset(old(a[..]))
  {
    var j := i;
    while j > 0 && a[j - 1] > a[j]
      invariant 0 <= j <= i
      invariant multiset(a[..]) == multiset(old(a[..]))
      invariant InsertingAt(a[..], i, j)
    {
      ghost var before := a[..];
      SwapDown(before, i, j);
      a[j - 1], a[j] := a[j], a[j - 1];
      assert a[..] == before[j - 1 := before[j]][j := before[j - 1]];
      j := j - 1;
    }
    InsertDone(a[..], i, j);
  }

  /** Occurrences of v before position m, when none of s[..m] is v. */
  lemma {:induction false} CountAfter(s: seq<int>, v: int, m: int)
    requires 0 <= m <= |s|
    ensures (forall k :: 0 <= k < m ==> s[k] != v) ==> Count(s, v) <= |s| - m
  {
    assert s == s[..m] + s[m..];
    CountAppend(s[..m], s[m..], v);
    CountBound(s[m..], v);
    if forall k :: 0 <= k < m ==> s[k] != v {
      CountBound(s[..m], v);
    }
  }

  lemma {:induction false} CountBefore(s: seq<int>, v: int, m: int)
    requires 0 <= m <= |s|
    ensures (forall k :: m <= k < |s| ==> s[k] != v) ==> Count(s, v) <= m
  {
    assert s == s[..m] + s[m..];
    CountAppend(s[..m], s[m..], v);
    CountBound(s[..m], v);
    if forall k :: m <= k < |s| ==> s[k] != v {
      CountBound(s[m..], v);
    }
  }

  /** In a sorted sequence the middle element is the majority value, if there is one. */
  lemma SortedMajorityAtMiddle(s: seq<int>, v: int)
    requires Sorted(s) && IsMajority(s, v)
    ensures s[|s| / 2] == v
  {
    var m := |s| / 2;
    CountAfter(s, v, m + 1);
    CountBefore(s, v, m);
  }

  /**
   * Sorts nums in place and returns its middle element; an empty array has
   * no middle element and the index throws.
   */
  method MajorityElementSorting(nums: array<int>) returns (r: Result<int>)
    modifies nums
    ensures Sorted(nums[..]) && multiset(nums[..]) == multiset(old(nums[..]))
    ensures nums.Length == 0 ==> r == Throws(IndexOutOfRangeException)
    ensures nums.Length > 0 ==> r == Ok(nums[nums.Length / 2])
    ensures forall v :: IsMajority(old(nums[..]), v) ==> r == Ok(v)
  {
    SortInPlace(nums);
    if nums.Length == 0 {
      return Throws(IndexOutOfRangeException);
    }
    r := Ok(nums[nums.Length / 2]);
    forall v | IsMajority(old(nums[..]), v) ensures r == Ok(v) {
      calc {
        Count(old(nums[..]), v);
        { CountIsMultiplicity(old(nums[..]), v); }
        multiset(old(nums[..]))[v];
        { CountIsMultiplicity(nums[..], v); }
        Count(nums[..], v);
      }
      SortedMajorityAtMiddle(nums[..], v);
    }
  }

  // ---------------------------------------------------------------------
  // Divide and conquer

  /** Counts the positions i of [left, right] with nums[i] == target. */
  method CountInRange(nums: array<int>, target: int, left: int, right: int) returns (count: int)
    requires left > right || (0 <= left && right < nums.Length)
    ensures count == if left > right then 0 else Count(nums[left..right + 1], target)
  {
    count := 0;
    var i := left;
    while i <= right
      invariant left <= right ==> left <= i <= right + 1 && count == Count(nums[left..i], target)
      invariant left > right ==> count == 0
      decreases right - i
    {
      if nums[i] == target {
        count := count + 1;
      }
      assert nums[left..i + 1][..i - left] == nums[left..i];
      i := i + 1;
    }
  }

  /** v is the majority value of s[left..right]. */
  ghost predicate MajorityIn(s: seq<int>, left: int, right: int, v: int)
  {
    0 <= left <= right < |s| && IsMajority(s[left..right + 1], v)
  }

  /** The only element of a one-element range is its majority. */
  lemma SingleMajority(s: seq<int>, left: int, v: int)
    requires MajorityIn(s, left, left, v)
    ensures v == s[left]
  {
    assert s[left..left + 1] == [s[left]];
    assert [s[left]][..0] == [];
    assert Count([s[left]], v) == if s[left] == v then 1 else 0;
  }

  /** A majority of a range is a majority of one of its two halves. */
  lemma MajorityOfHalf(s: seq<int>, left: int, mid: int, right: int, v: int)
    requires 0 <= left <= mid < right < |s|
    requires MajorityIn(s, left, right, v)
    ensures MajorityIn(s, left, mid, v) || MajorityIn(s, mid + 1, right, v)
  {
    assert s[left..right + 1] == s[left..mid + 1] + s[mid + 1..right + 1];
    CountAppend(s[left..mid + 1], s[mid + 1..right + 1], v);
  }

  /**
   * When the halves disagree and the majority is one of the two candidates,
   * it is the candidate with more occurrences in the range.
   */
  lemma MoreFrequentWins(s: seq<int>, left: int, right: int, a: int, b: int, v: int)
    requires a != b && (v == a || v == b) && MajorityIn(s, left, right, v)
    ensures Count(s[left..right + 1], a) > Count(s[left..right + 1], b) <==> v == a
  {
    CountPair(s[left..right + 1], a, b);
  }

  /**
   * The divide-and-conquer candidate for nums[left..right]: an element of the
   * range, and its majority value whenever there is one.
   */
  method MajorityElementRecursive(nums: array<int>, left: int, right: int) returns (r: int)
    requires 0 <= left <= right < nums.Length
    ensures r in nums[left..right + 1]
    ensures forall v :: MajorityIn(nums[..], left, right, v) ==> r == v
    decreases right - left
  {
    ghost var s := nums[..];
    if left == right {
      forall v | MajorityIn(s, left, right, v) ensures nums[left] == v {
        SingleMajority(s, left, v);
      }
      return nums[left];
    }
    var mid := left + (right - left) / 2;
    var leftMajority := MajorityElementRecursive(nums, left, mid);
    var rightMajority := MajorityElementRecursive(nums, mid + 1, right);
    assert s[left..right + 1] == s[left..mid + 1] + s[mid + 1..right + 1];
    if leftMajority == rightMajority {
      forall v | MajorityIn(s, left, right, v) ensures leftMajority == v {
        MajorityOfHalf(s, left, mid, right, v);
      }
      return leftMajority;
    }
    var leftCount := CountInRange(nums, leftMajority, left, right);
    var rightCount := CountInRange(nums, rightMajority, left, right);
    r := if leftCount > rightCount then leftMajority else rightMajority;
    forall v | MajorityIn(s, left, right, v) ensures r == v {
      MajorityOfHalf(s, left, mid, right, v);
      MoreFrequentWins(s, left, right, leftMajority, rightMajority, v);
    }
  }

  /**
   * Divide and conquer over the whole array. On an empty array the range
   * [0, -1] halves to [0, 0] (C# division truncates), whose base case reads
   * nums[0] and throws.
   */
  method MajorityElementDivideConquer(nums: array<int>) returns (r: Result<int>)
    ensures nums.Length == 0 ==> r == Throws(IndexOutOfRangeException)
    ensures nums.Length > 0 ==> r.Ok? && r.value in nums[..]
    ensures forall v :: IsMajority(nums[..], v) ==> r == Ok(v)
  {
    if nums.Length == 0 {
      return Throws(IndexOutOfRangeException);
    }
    var m := MajorityElementRecursive(nums, 0, nums.Length - 1);
    assert nums[..][0..nums.Length] == nums[..];
    assert forall v :: IsMajority(nums[..], v) ==> MajorityIn(nums[..], 0, nums.Length - 1, v);
    return Ok(m);
  }
}
