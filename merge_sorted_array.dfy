/**
 * LeetCode 88, merge sorted array: nums1[..m] and nums2[..n] are merged into
 * nums1[..m + n], filling nums1 from the back.
 */
module MergeSortedArray {
  import opened Seqs

  /**
   * The merge of a[..mi] and b[..ni] built from the back: the larger of the
   * two last elements goes last. On equal last elements the one from a goes
   * last when keepFirstOnTie holds (Merge), the one from b otherwise (MergeAlt).
   */
  function MergeUpTo(a: seq<int>, b: seq<int>, mi: int, ni: int, keepFirstOnTie: bool): (r: seq<int>)
    requires 0 <= mi <= |a| && 0 <= ni <= |b|
    ensures |r| == mi + ni
    decreases mi + ni
  {
    if mi == 0 then b[..ni]
    else if ni == 0 then a[..mi]
    else if TakesFirst(a, b, mi, ni, keepFirstOnTie) then
      MergeUpTo(a, b, mi - 1, ni, keepFirstOnTie) + [a[mi - 1]]
    else
      MergeUpTo(a, b, mi, ni - 1, keepFirstOnTie) + [b[ni - 1]]
  }

  /** Whether the step at (mi, ni) takes the last unmerged element of a. */
  predicate TakesFirst(a: seq<int>, b: seq<int>, mi: int, ni: int, keepFirstOnTie: bool)
    requires 0 <= mi <= |a| && 0 <= ni <= |b|
  {
    mi > 0 && (ni == 0 || a[mi - 1] > b[ni - 1] || (keepFirstOnTie && a[mi - 1] == b[ni - 1]))
  }

  /** The merge of all of a and all of b. */
  function MergeFromBack(a: seq<int>, b: seq<int>, keepFirstOnTie: bool): seq<int>
  {
    MergeUpTo(a, b, |a|, |b|, keepFirstOnTie)
  }

  /** The merge holds exactly the elements of both inputs. */
  lemma {:induction false} MergePermutation(a: seq<int>, b: seq<int>, mi: int, ni: int, keepFirstOnTie: bool)
    requires 0 <= mi <= |a| && 0 <= ni <= |b|
    ensures multiset(MergeUpTo(a, b, mi, ni, keepFirstOnTie)) == multiset(a[..mi]) + multiset(b[..ni])
    decreases mi + ni
  {
    if mi > 0 && ni > 0 {
      assert a[..mi] == a[..mi - 1] + [a[mi - 1]];
      assert b[..ni] == b[..ni - 1] + [b[ni - 1]];
      if TakesFirst(a, b, mi, ni, keepFirstOnTie) {
        MergePermutation(a, b, mi - 1, ni, keepFirstOnTie);
      } else {
        MergePermutation(a, b, mi, ni - 1, keepFirstOnTie);
      }
    } else if mi == 0 {
      assert a[..mi] == [];
    } else {
      assert b[..ni] == [];
    }
  }

  /** Every element of a permutation of a + b is bounded by a bound of both. */
  lemma AllAtMost(m: seq<int>, a: seq<int>, b: seq<int>, x: int)
    requires multiset(m) == multiset(a) + multiset(b)
    requires forall i :: 0 <= i < |a| ==> a[i] <= x
    requires forall i :: 0 <= i < |b| ==> b[i] <= x
    ensures forall i :: 0 <= i < |m| ==> m[i] <= x
  {
    forall i | 0 <= i < |m| ensures m[i] <= x {
      assert m[i] in multiset(m);
    }
  }

  /** Merging two sorted sequences gives a sorted sequence. */
  lemma {:induction false} MergeSorted(a: seq<int>, b: seq<int>, mi: int, ni: int, keepFirstOnTie: bool)
    requires 0 <= mi <= |a| && 0 <= ni <= |b|
    requires Sorted(a) && Sorted(b)
    ensures Sorted(MergeUpTo(a, b, mi, ni, keepFirstOnTie))
    decreases mi + ni
  {
    if mi > 0 && ni > 0 {
      var first := TakesFirst(a, b, mi, ni, keepFirstOnTie);
      var mi', ni' := if first then mi - 1 else mi, if first then ni else ni - 1;
      var x := if first then a[mi - 1] else b[ni - 1];
      var rest := MergeUpTo(a, b, mi', ni', keepFirstOnTie);
      assert MergeUpTo(a, b, mi, ni, keepFirstOnTie) == rest + [x];
      MergeSorted(a, b, mi', ni', keepFirstOnTie);
      MergePermutation(a, b, mi', ni', keepFirstOnTie);
      AppendLargest(rest, a, b, mi', ni', x);
    }
  }

  /**
   * A sorted arrangement of a[..mi] and b[..ni] stays sorted when an element
   * no smaller than the last of a[..mi] and of b[..ni] is appended.
   */
  lemma AppendLargest(s: seq<int>, a: seq<int>, b: seq<int>, mi: int, ni: int, x: int)
    requires 0 <= mi <= |a| && 0 <= ni <= |b| && Sorted(a) && Sorted(b) && Sorted(s)
    requires multiset(s) == multiset(a[..mi]) + multiset(b[..ni])
    requires mi > 0 ==> a[mi - 1] <= x
    requires ni > 0 ==> b[ni - 1] <= x
    ensures Sorted(s + [x])
  {
    PrefixAtMost(a, mi, x);
    PrefixAtMost(b, ni, x);
    AllAtMost(s, a[..mi], b[..ni], x);
    SortedAppend(s, x);
  }

  /** Every element of a sorted prefix is at most a bound of its last element. */
  lemma PrefixAtMost(a: seq<int>, k: int, x: int)
    requires 0 <= k <= |a| && Sorted(a) && (k > 0 ==> a[k - 1] <= x)
    ensures forall i :: 0 <= i < |a[..k]| ==> a[..k][i] <= x
  {
  }

  /** Appending an upper bound of a sorted sequence keeps it sorted. */
  lemma SortedAppend(s: seq<int>, x: int)
    requires Sorted(s) && forall i :: 0 <= i < |s| ==> s[i] <= x
    ensures Sorted(s + [x])
  {
  }

  /** The last element of a non-empty sorted sequence is its largest. */
  lemma SortedLastIsLargest(x: seq<int>, v: int)
    requires Sorted(x) && v in multiset(x)
    ensures v <= x[|x| - 1]
  {
  }

  /** Two sorted sequences with the same elements are equal. */
  lemma {:induction false} SortedPermutationUnique(x: seq<int>, y: seq<int>)
    requires Sorted(x) && Sorted(y) && multiset(x) == multiset(y)
    ensures x == y
  {
    assert |x| == |multiset(x)| == |y|;
    if x != [] {
      var n := |x|;
      SortedLastIsLargest(y, x[n - 1]);
      SortedLastIsLargest(x, y[n - 1]);
      var x', y' := x[..n - 1], y[..n - 1];
      SortedInit(x);
      SortedInit(y);
      InitPermutation(x, y);
      SortedPermutationUnique(x', y');
      assert x == x' + [x[n - 1]] && y == y' + [y[n - 1]];
    }
  }

  lemma SortedInit(x: seq<int>)
    requires Sorted(x) && x != []
    ensures Sorted(x[..|x| - 1])
  {
  }

  lemma InitPermutation(x: seq<int>, y: seq<int>)
    requires x != [] && |x| == |y| && x[|x| - 1] == y[|y| - 1] && multiset(x) == multiset(y)
    ensures multiset(x[..|x| - 1]) == multiset(y[..|y| - 1])
  {
    LastSplit(x);
    LastSplit(y);
    assert multiset(x[..|x| - 1]) == multiset(x) - multiset{x[|x| - 1]};
    assert multiset(y[..|y| - 1]) == multiset(y) - multiset{y[|y| - 1]};
  }

  lemma LastSplit(x: seq<int>)
    requires x != []
    ensures multiset(x) == multiset(x[..|x| - 1]) + multiset{x[|x| - 1]}
  {
    assert x == x[..|x| - 1] + [x[|x| - 1]];
  }

  /** On sorted inputs the tie-break does not matter: Merge and MergeAlt agree. */
  lemma MergeAltAgrees(a: seq<int>, b: seq<int>)
    requires Sorted(a) && Sorted(b)
    ensures MergeFromBack(a, b, true) == MergeFromBack(a, b, false)
  {
    MergeSorted(a, b, |a|, |b|, true);
    MergeSorted(a, b, |a|, |b|, false);
    MergePermutation(a, b, |a|, |b|, true);
    MergePermutation(a, b, |a|, |b|, false);
    SortedPermutationUnique(MergeFromBack(a, b, true), MergeFromBack(a, b, false));
  }

  /** Merging nothing from nums2 leaves the prefix of nums1 as it was. */
  lemma MergeWithEmpty(a: seq<int>, keepFirstOnTie: bool)
    ensures MergeFromBack(a, [], keepFirstOnTie) == a
  {
    if a != [] {
      assert a[..|a|] == a;
    }
  }

  /**
   * One step from the back: the element at position mi + ni - 1 of the merge,
   * and the merge of what is left.
   */
  lemma MergeStep(merged: seq<int>, a: seq<int>, b: seq<int>, mi: int, ni: int, keepFirstOnTie: bool)
    requires 0 <= mi <= |a| && 0 <= ni <= |b| && mi + ni >= 1 && mi + ni <= |merged|
    requires merged[..mi + ni] == MergeUpTo(a, b, mi, ni, keepFirstOnTie)
    ensures TakesFirst(a, b, mi, ni, keepFirstOnTie) ==>
              merged[mi + ni - 1] == a[mi - 1] &&
              merged[..mi + ni - 1] == MergeUpTo(a, b, mi - 1, ni, keepFirstOnTie)
    ensures !TakesFirst(a, b, mi, ni, keepFirstOnTie) ==>
              ni > 0 && merged[mi + ni - 1] == b[ni - 1] &&
              merged[..mi + ni - 1] == MergeUpTo(a, b, mi, ni - 1, keepFirstOnTie)
  {
    assert merged[..mi + ni - 1] == merged[..mi + ni][..mi + ni - 1];
    if mi == 0 {
      assert b[..ni][..ni - 1] == b[..ni - 1];
    } else if ni == 0 {
      assert a[..mi][..mi - 1] == a[..mi - 1];
      assert b[..0] == [];
    }
  }

  /** The final state: nums1 holds the merge up to total and its old contents after. */
  lemma PlacedDone(x: seq<int>, orig: seq<int>, a: seq<int>, merged: seq<int>, mi: int, total: int)
    requires 0 <= mi <= |a| && mi <= total <= |x| == |orig| && |merged| == total
    requires forall t :: 0 <= t < mi ==> x[t] == a[t]
    requires forall t :: mi <= t < total ==> x[t] == merged[t]
    requires forall t :: total <= t < |x| ==> x[t] == orig[t]
    requires merged[..mi] == a[..mi]
    ensures x[..total] == merged && x[total..] == orig[total..]
  {
    forall t | 0 <= t < mi ensures x[t] == merged[t] {
      assert merged[..mi][t] == a[..mi][t];
    }
  }

  /** Fills nums1 from the back, taking nums1's element on equal values. */
  method Merge(nums1: array<int>, m: int, nums2: array<int>, n: int)
    requires 0 <= m && 0 <= n && m + n <= nums1.Length && n <= nums2.Length
    requires nums1 != nums2
    modifies nums1
    ensures nums1[..m + n] == MergeFromBack(old(nums1[..m]), nums2[..n], true)
    ensures nums1[m + n..] == old(nums1[m + n..])
  {
    ghost var a, b, orig := nums1[..m], nums2[..n], nums1[..];
    ghost var merged := MergeFromBack(a, b, true);
    var k := m + n - 1;
    var p1 := m - 1;
    var p2 := n - 1;
    var i := k;
    assert merged[..m + n] == merged;
    while i >= 0
      invariant -1 <= p1 < m && -1 <= p2 < n && i == p1 + p2 + 1
      invariant merged[..p1 + p2 + 2] == MergeUpTo(a, b, p1 + 1, p2 + 1, true)
      invariant forall t :: 0 <= t <= p1 ==> nums1[t] == a[t]
      invariant forall t :: p1 + p2 + 2 <= t < m + n ==> nums1[t] == merged[t]
      invariant forall t :: m + n <= t < nums1.Length ==> nums1[t] == orig[t]
    {
      p1, p2 := PlaceNext(nums1, nums2, i, p1, p2, a, b, merged);
      i := i - 1;
    }
    PlacedDone(nums1[..], orig, a, merged, 0, m + n);
  }

  /**
   * The body of Merge's loop: writes at i the larger of nums1[p1] and
   * nums2[p2] (nums1's on equal values, whichever is left when one side is
   * used up) and moves that side's pointer.
   */
  method PlaceNext(nums1: array<int>, nums2: array<int>, i: int, p1: int, p2: int,
                   ghost a: seq<int>, ghost b: seq<int>, ghost merged: seq<int>)
    returns (q1: int, q2: int)
    requires nums1 != nums2
    requires -1 <= p1 < |a| && -1 <= p2 < |b| && 0 <= i == p1 + p2 + 1 < nums1.Length
    requires i < |merged| && |b| <= nums2.Length
    requires merged[..i + 1] == MergeUpTo(a, b, p1 + 1, p2 + 1, true)
    requires forall t :: 0 <= t <= p1 ==> nums1[t] == a[t]
    requires forall t :: 0 <= t < |b| ==> nums2[t] == b[t]
    modifies nums1
    ensures TakesFirst(a, b, p1 + 1, p2 + 1, true) ==> q1 == p1 - 1 && q2 == p2
    ensures !TakesFirst(a, b, p1 + 1, p2 + 1, true) ==> q1 == p1 && q2 == p2 - 1
    ensures merged[..i] == MergeUpTo(a, b, q1 + 1, q2 + 1, true)
    ensures nums1[i] == merged[i]
    ensures forall t :: 0 <= t < nums1.Length && t != i ==> nums1[t] == old(nums1[t])
  {
    MergeStep(merged, a, b, p1 + 1, p2 + 1, true);
    q1, q2 := p1, p2;
    if q1 >= 0 && q2 >= 0 {
      if nums1[q1] >= nums2[q2] {
        nums1[i] := nums1[q1];
        q1 := q1 - 1;
      } else {
        nums1[i] := nums2[q2];
        q2 := q2 - 1;
      }
    } else if q1 >= 0 {
      nums1[i] := nums1[q1];
      q1 := q1 - 1;
    } else {
      // i >= 0 leaves something of nums2 here
      nums1[i] := nums2[q2];
      q2 := q2 - 1;
    }
  }

  /** Fills nums1 from the back with three pointers, taking nums2's element on equal values. */
  method MergeAlt(nums1: array<int>, m: int, nums2: array<int>, n: int)
    requires 0 <= m && 0 <= n && m + n <= nums1.Length && n <= nums2.Length
    requires nums1 != nums2
    modifies nums1
    ensures nums1[..m + n] == MergeFromBack(old(nums1[..m]), nums2[..n], false)
    ensures nums1[m + n..] == old(nums1[m + n..])
  {
    ghost var a, b, orig := nums1[..m], nums2[..n], nums1[..];
    ghost var merged := MergeFromBack(a, b, false);
    var p1, p2, p := MergeWhileBoth(nums1, m, nums2, n, a, b, merged);
    if p2 >= 0 {
      assert p1 == -1 && merged[..p2 + 1] == b[..p2 + 1];
    }
    CopyRemaining(nums1, nums2, p, p2, b, merged);
    if p2 >= 0 {
      PlacedDone(nums1[..], orig, a, merged, 0, m + n);
    } else {
      assert b[..0] == [];
      PlacedDone(nums1[..], orig, a, merged, p1 + 1, m + n);
    }
  }

  /**
   * MergeAlt's first loop: while both parts have elements left, the larger
   * last element goes to position p.
   */
  method MergeWhileBoth(nums1: array<int>, m: int, nums2: array<int>, n: int,
                        ghost a: seq<int>, ghost b: seq<int>, ghost merged: seq<int>)
    returns (p1: int, p2: int, p: int)
    requires 0 <= m && 0 <= n && m + n <= nums1.Length && n <= nums2.Length
    requires nums1 != nums2
    requires a == nums1[..m] && b == nums2[..n] && merged == MergeFromBack(a, b, false)
    modifies nums1
    ensures -1 <= p1 < m && -1 <= p2 < n && p == p1 + p2 + 1 && (p1 < 0 || p2 < 0)
    ensures merged[..p1 + p2 + 2] == MergeUpTo(a, b, p1 + 1, p2 + 1, false)
    ensures forall t :: 0 <= t <= p1 ==> nums1[t] == a[t]
    ensures forall t :: p1 + p2 + 2 <= t < m + n ==> nums1[t] == merged[t]
    ensures forall t :: m + n <= t < nums1.Length ==> nums1[t] == old(nums1[t])
  {
    p1 := m - 1;
    p2 := n - 1;
    p := m + n - 1;
    assert merged[..m + n] == merged;
    while p1 >= 0 && p2 >= 0
      invariant -1 <= p1 < m && -1 <= p2 < n && p == p1 + p2 + 1
      invariant merged[..p1 + p2 + 2] == MergeUpTo(a, b, p1 + 1, p2 + 1, false)
      invariant forall t :: 0 <= t <= p1 ==> nums1[t] == a[t]
      invariant forall t :: p1 + p2 + 2 <= t < m + n ==> nums1[t] == merged[t]
      invariant forall t :: m + n <= t < nums1.Length ==> nums1[t] == old(nums1[t])
    {
      p1, p2 := PlaceNextAlt(nums1, nums2, p, p1, p2, a, b, merged);
      p := p - 1;
    }
  }

  /** The body of MergeAlt's first loop, while both pointers are in range. */
  method PlaceNextAlt(nums1: array<int>, nums2: array<int>, p: int, p1: int, p2: int,
                      ghost a: seq<int>, ghost b: seq<int>, ghost merged: seq<int>)
    returns (q1: int, q2: int)
    requires nums1 != nums2
    requires 0 <= p1 < |a| && 0 <= p2 < |b| && p == p1 + p2 + 1 < nums1.Length
    requires p < |merged| && |b| <= nums2.Length
    requires merged[..p + 1] == MergeUpTo(a, b, p1 + 1, p2 + 1, false)
    requires forall t :: 0 <= t <= p1 ==> nums1[t] == a[t]
    requires forall t :: 0 <= t < |b| ==> nums2[t] == b[t]
    modifies nums1
    ensures TakesFirst(a, b, p1 + 1, p2 + 1, false) ==> q1 == p1 - 1 && q2 == p2
    ensures !TakesFirst(a, b, p1 + 1, p2 + 1, false) ==> q1 == p1 && q2 == p2 - 1
    ensures merged[..p] == MergeUpTo(a, b, q1 + 1, q2 + 1, false)
    ensures nums1[p] == merged[p]
    ensures forall t :: 0 <= t < nums1.Length && t != p ==> nums1[t] == old(nums1[t])
  {
    MergeStep(merged, a, b, p1 + 1, p2 + 1, false);
    q1, q2 := p1, p2;
    if nums1[q1] > nums2[q2] {
      nums1[p] := nums1[q1];
      q1 := q1 - 1;
    } else {
      nums1[p] := nums2[q2];
      q2 := q2 - 1;
    }
  }

  /**
   * MergeAlt's second loop: once nums1's part is used up, what is left of
   * nums2 goes to the front of nums1.
   */
  method CopyRemaining(nums1: array<int>, nums2: array<int>, p0: int, last: int,
                       ghost b: seq<int>, ghost merged: seq<int>)
    requires nums1 != nums2
    requires -1 <= last < |b| <= nums2.Length && last < nums1.Length && last < |merged|
    requires last >= 0 ==> p0 == last
    requires merged[..last + 1] == b[..last + 1]
    requires forall t :: 0 <= t < |b| ==> nums2[t] == b[t]
    modifies nums1
    ensures forall t :: 0 <= t <= last ==> nums1[t] == merged[t]
    ensures forall t :: last < t < nums1.Length ==> nums1[t] == old(nums1[t])
  {
    var p, p2 := p0, last;
    while p2 >= 0
      invariant -1 <= p2 <= last && (p2 >= 0 ==> p == p2)
      invariant forall t :: p2 < t <= last ==> nums1[t] == merged[t]
      invariant forall t :: last < t < nums1.Length ==> nums1[t] == old(nums1[t])
    {
      assert merged[..last + 1][p2] == b[..last + 1][p2];
      nums1[p] := nums2[p2];
      p2 := p2 - 1;
      p := p - 1;
    }
  }
}
