/**
 * Rotating an array to the right by a number of positions: in place by three
 * reversals, or through a temporary array.
 */
module ArrayRotation {
  import opened Errors
  import Seqs

  /** s rotated right by k: the last k elements move to the front. */
  function RotateRight(s: seq<int>, k: int): (r: seq<int>)
    requires 0 <= k <= |s|
    ensures |r| == |s|
  {
    s[|s| - k..] + s[..|s| - k]
  }

  /** Element i of s ends at index (i + k) % n. */
  lemma RotateRightAt(s: seq<int>, k: int, i: int)
    requires 0 <= k < |s| && 0 <= i < |s|
    ensures RotateRight(s, k)[(i + k) % |s|] == s[i]
  {
    SlotIsRemainder(i, k, |s|);
  }

  /** Rotation only moves elements around. */
  lemma RotatePermutation(s: seq<int>, k: int)
    requires 0 <= k <= |s|
    ensures multiset(RotateRight(s, k)) == multiset(s)
  {
    assert s == s[..|s| - k] + s[|s| - k..];
  }

  /** A position that is a multiple of the length has remainder 0, and rotating by 0 changes nothing. */
  lemma RotateByMultiple(s: seq<int>, m: int)
    requires |s| > 0
    ensures CsRem(m * |s|, |s|) == 0 && RotateRight(s, 0) == s
  {
    var n := |s|;
    if m >= 0 {
      MultipleHasNoRemainder(m, n);
    } else {
      assert -(m * n) == (-m) * n;
      MultipleHasNoRemainder(-m, n);
    }
    assert s[n..] == [] && s[..n] == s;
  }

  lemma MultipleHasNoRemainder(a: int, n: int)
    requires a >= 0 && n > 0
    ensures (a * n) % n == 0
  {
    var q, r := (a * n) / n, (a * n) % n;
    assert a * n == q * n + r && 0 <= r < n;
    assert (a - q) * n == r;
    QuotientBounds(a - q, n);
  }

  /**
   * after is before with before[start..end] (end inclusive) reversed and
   * everything else in place.
   */
  ghost predicate ReversedRange(before: seq<int>, after: seq<int>, start: int, end: int) {
    && (start < end ==> 0 <= start && end < |before|)
    && |after| == |before|
    && (forall t {:trigger after[t]} :: 0 <= t < |before| && start <= t <= end ==> after[t] == before[start + end - t])
    && (forall t {:trigger after[t]} :: 0 <= t < |before| && !(start <= t <= end) ==> after[t] == before[t])
  }

  /**
   * Reversing the whole sequence, then its first k elements, then the rest,
   * rotates it right by k.
   */
  lemma ThreeReversals(s0: seq<int>, s1: seq<int>, s2: seq<int>, s3: seq<int>, k: int)
    requires 0 <= k < |s0|
    requires ReversedRange(s0, s1, 0, |s0| - 1)
    requires ReversedRange(s1, s2, 0, k - 1)
    requires ReversedRange(s2, s3, k, |s0| - 1)
    ensures s3 == RotateRight(s0, k)
  {
    var n := |s0|;
    forall t | 0 <= t < n ensures s3[t] == RotateRight(s0, k)[t] {
      if t < k {
        assert s3[t] == s2[t];
        assert s2[t] == s1[k - 1 - t];
        assert s1[k - 1 - t] == s0[n - k + t];
      } else {
        assert s3[t] == s2[k + n - 1 - t];
        assert s2[k + n - 1 - t] == s1[k + n - 1 - t];
        assert s1[k + n - 1 - t] == s0[t - k];
      }
    }
  }

  /** Reversing the whole of s gives Reverse(s). */
  lemma ReversedWhole(s0: seq<int>, s1: seq<int>)
    requires ReversedRange(s0, s1, 0, |s0| - 1)
    ensures s1 == Seqs.Reverse(s0)
  {
    Seqs.ReverseIndexed(s0, s1);
  }

  /**
   * Reverses numbers[start..end] (end inclusive) by swapping from both ends
   * inwards. An out-of-range end point throws on the first read, before any
   * element has moved.
   */
  method Reverse(numbers: array<int>, start: int, end: int) returns (r: Result<()>)
    modifies numbers
    ensures start < end && (start < 0 || end >= numbers.Length) ==>
              r == Throws(IndexOutOfRangeException) && numbers[..] == old(numbers[..])
    ensures !(start < end && (start < 0 || end >= numbers.Length)) ==>
              r == Ok(()) && ReversedRange(old(numbers[..]), numbers[..], start, end)
  {
    var s, e := start, end;
    while s < e
      invariant s - start == end - e
      invariant start < end ==> start <= s <= e + 1
      invariant s == start || (0 <= start && end < numbers.Length)
      invariant start >= end ==> s == start
      invariant forall t :: 0 <= t < numbers.Length && (start <= t < s || e < t <= end) ==>
                  0 <= start + end - t < numbers.Length && numbers[t] == old(numbers[start + end - t])
      invariant forall t :: 0 <= t < numbers.Length && !(start <= t < s || e < t <= end) ==>
                  numbers[t] == old(numbers[t])
    {
      if s < 0 || e >= numbers.Length {
        return Throws(IndexOutOfRangeException);
      }
      numbers[e], numbers[s] := numbers[s], numbers[e];
      s, e := s + 1, e - 1;
    }
    return Ok(());
  }

  /**
   * Rotates right by position % n (C#'s truncating remainder) with three
   * reversals: the whole array, then the first k, then the rest. A negative
   * remainder makes the last reversal throw after the whole array has
   * already been reversed.
   */
  method Rotate(numbers: array<int>, position: int) returns (r: Result<()>)
    modifies numbers
    ensures numbers.Length == 0 || position == 0 ==> r == Ok(()) && numbers[..] == old(numbers[..])
    ensures numbers.Length > 0 && position != 0 && CsRem(position, numbers.Length) >= 0 ==>
              r == Ok(()) && numbers[..] == RotateRight(old(numbers[..]), CsRem(position, numbers.Length))
    ensures numbers.Length > 0 && position != 0 && CsRem(position, numbers.Length) < 0 ==>
              r == Throws(IndexOutOfRangeException) && numbers[..] == Seqs.Reverse(old(numbers[..]))
  {
    var n := numbers.Length;
    if n == 0 || position == 0 {
      return Ok(());
    }
    var k := CsRem(position, n);
    assert -n < k < n;
    ghost var s0 := numbers[..];
    // The first two reversals stay within the array and cannot throw.
    r := Reverse(numbers, 0, n - 1);
    ghost var s1 := numbers[..];
    r := Reverse(numbers, 0, k - 1);
    ghost var s2 := numbers[..];
    r := Reverse(numbers, k, n - 1);
    ghost var s3 := numbers[..];
    ReversedWhole(s0, s1);
    if k >= 0 {
      ThreeReversals(s0, s1, s2, s3, k);
    } else {
      assert s2 == s1;
    }
  }

  /** The slot of temp that element i goes to: (i + k) % n without the remainder. */
  function Slot(i: int, k: int, n: int): int
  {
    if i + k < n then i + k else i + k - n
  }

  /** For 0 <= i, k < n, C#'s (i + k) % n is Slot(i, k, n). */
  lemma SlotIsRemainder(i: int, k: int, n: int)
    requires 0 <= i < n && 0 <= k < n
    ensures CsRem(i + k, n) == Slot(i, k, n) && 0 <= Slot(i, k, n) < n
  {
    var x := i + k;
    var q, r := x / n, x % n;
    assert x == q * n + r && 0 <= r < n;
    QuotientBounds(q, n);
    assert q == 0 || q == 1;
    assert q * n == if q == 0 then 0 else n;
  }

  /** For -n < k < 0, C#'s k % n is k itself. */
  lemma NegativeRemainder(k: int, n: int)
    requires -n < k < 0
    ensures CsRem(k, n) == k
  {
    var q, r := (-k) / n, (-k) % n;
    assert -k == q * n + r && 0 <= r < n;
    QuotientBounds(q, n);
    assert q == 0;
  }

  lemma QuotientBounds(q: int, n: int)
    requires n > 0
    ensures q <= -1 ==> q * n <= -n
    ensures q >= 1 ==> q * n >= n
    ensures q >= 2 ==> q * n >= 2 * n
  {
  }

  /**
   * Rotates through a temporary array: element i goes to temp[(i + k) % n],
   * then temp is copied back. With a negative k the first write to temp
   * indexes below 0 and throws before numbers changes.
   */
  method RotateAlt(numbers: array<int>, position: int) returns (r: Result<()>)
    modifies numbers
    ensures numbers.Length == 0 || position == 0 ==> r == Ok(()) && numbers[..] == old(numbers[..])
    ensures numbers.Length > 0 && position != 0 && CsRem(position, numbers.Length) >= 0 ==>
              r == Ok(()) && numbers[..] == RotateRight(old(numbers[..]), CsRem(position, numbers.Length))
    ensures numbers.Length > 0 && position != 0 && CsRem(position, numbers.Length) < 0 ==>
              r == Throws(IndexOutOfRangeException) && numbers[..] == old(numbers[..])
  {
    var n := numbers.Length;
    if numbers.Length == 0 || position == 0 {
      return Ok(());
    }
    var k := CsRem(position, n);
    assert -n < k < n;
    var temp := new int[n](_ => 0);
    ghost var s := numbers[..];
    for i := 0 to n
      invariant numbers[..] == s
      invariant k < 0 ==> i == 0
      invariant k >= 0 ==> forall j :: 0 <= j < n && (if j >= k then j - k else j - k + n) < i ==>
                  temp[j] == s[if j >= k then j - k else j - k + n]
    {
      if k >= 0 {
        SlotIsRemainder(i, k, n);
      } else {
        NegativeRemainder(k, n);
      }
      var target := CsRem(i + k, n);
      if target < 0 {
        return Throws(IndexOutOfRangeException);
      }
      temp[target] := numbers[i];
    }
    assert temp[..] == RotateRight(s, k);
    CopyAll(temp, numbers);
    return Ok(());
  }

  /** Array.Copy(source, destination, n) with n the whole length. */
  method CopyAll(source: array<int>, destination: array<int>)
    requires source.Length == destination.Length && source != destination
    modifies destination
    ensures destination[..] == source[..]
  {
    for i := 0 to source.Length
      invariant forall t :: 0 <= t < i ==> destination[t] == source[t]
    {
      destination[i] := source[i];
    }
  }
}
