/** Opposite-direction two-pointer exercises: left and right move toward each other. */
module TwoPointersOppositeDirection {
  import opened Seqs

  // ---------------------------------------------------------------------------
  // TwoSum on a sorted array
  // ---------------------------------------------------------------------------

  /** Some pair of distinct positions of s sums to target. */
  ghost predicate HasPairSum(s: seq<int>, target: int) {
    exists i, j :: 0 <= i < j < |s| && s[i] + s[j] == target
  }

  /**
   * Answers a pair l < r with numbers[l] + numbers[r] == target, or (-1, -1);
   * on ascending input (-1, -1) means that no pair exists.
   */
  method TwoSum(numbers: array<int>, target: int) returns (l: int, r: int)
    ensures (l, r) != (-1, -1) ==> 0 <= l < r < numbers.Length && numbers[l] + numbers[r] == target
    ensures Sorted(numbers[..]) ==> ((l, r) == (-1, -1) <==> !HasPairSum(numbers[..], target))
  {
    var left, right := 0, numbers.Length - 1;
    while left < right
      invariant 0 <= left && right < numbers.Length
      invariant Sorted(numbers[..]) ==> forall i, j :: 0 <= i < j < numbers.Length && (i < left || right < j) ==>
        numbers[i] + numbers[j] != target
    {
      var sum := numbers[left] + numbers[right];
      if sum == target {
        return left, right;
      } else if sum < target {
        left := left + 1;
      } else {
        right := right - 1;
      }
    }
    return -1, -1;
  }

  // ---------------------------------------------------------------------------
  // IsPalindrome
  // ---------------------------------------------------------------------------

  /** char.IsLetterOrDigit, on ASCII. */
  predicate IsLetterOrDigit(c: char) {
    ('a' <= c <= 'z') || ('A' <= c <= 'Z') || ('0' <= c <= '9')
  }

  /** char.IsWhiteSpace, on ASCII: space, tab, line feed, vertical tab, form feed, carriage return. */
  predicate IsWhiteSpace(c: char) {
    c == ' ' || ('\t' <= c <= '\r')
  }

  /** char.ToLower, on ASCII. */
  function ToLower(c: char): (r: char)
    ensures IsLetterOrDigit(c) <==> IsLetterOrDigit(r)
    ensures 'A' <= c <= 'Z' ==> 'a' <= r <= 'z'
    ensures !('A' <= c <= 'Z') ==> r == c
  {
    if 'A' <= c <= 'Z' then (c as int + 32) as char else c
  }

  /** What a character contributes to the cleaned string: itself lower-cased, or nothing. */
  function Kept(c: char): string
  {
    if IsLetterOrDigit(c) then [ToLower(c)] else []
  }

  /** The letters and digits of s, lower-cased, in order. */
  function Cleaned(s: string): string
  {
    if s == [] then [] else Kept(s[0]) + Cleaned(s[1..])
  }

  /** string.IsNullOrWhiteSpace, for a string that is not null: empty or all white space. */
  predicate IsNullOrWhiteSpace(s: string) {
    s == [] || (IsWhiteSpace(s[0]) && IsNullOrWhiteSpace(s[1..]))
  }

  /** White space holds no letters or digits, so it cleans to nothing. */
  lemma {:induction false} CleanedEmpty(s: string)
    requires IsNullOrWhiteSpace(s)
    ensures Cleaned(s) == []
  {
    if s != [] {
      CleanedEmpty(s[1..]);
    }
  }

  /** t reads the same in both directions. */
  predicate IsPal(t: string) {
    t == Reverse(t)
  }

  lemma PalEnds(x: char, m: string, y: char)
    ensures IsPal([x] + m + [y]) <==> x == y && IsPal(m)
  {
    var t := [x] + m + [y];
    if IsPal(t) {
      ReverseAt(t, 0);
      forall i | 0 <= i < |m| ensures Reverse(m)[i] == m[i] {
        ReverseAt(t, i + 1);
        ReverseAt(m, i);
        assert t[i + 1] == m[i];
        assert t[|t| - 1 - (i + 1)] == m[|m| - 1 - i];
      }
    }
    if x == y && IsPal(m) {
      forall i | 0 <= i < |t| ensures t[i] == t[|t| - 1 - i] {
        if 0 < i < |t| - 1 {
          assert t[i] == m[i - 1];
          ReverseAt(m, i - 1);
        }
      }
      ReverseIndexed(t, t);
    }
  }

  /** The cleaned text of s[left], ..., s[right] (empty when left > right). */
  function CleanedBetween(s: string, left: int, right: int): string
    requires 0 <= left && right < |s|
    decreases right - left + 1
  {
    if left > right then [] else Kept(s[left]) + CleanedBetween(s, left + 1, right)
  }

  /** CleanedBetween can also be taken apart at its right end. */
  lemma {:induction false} CleanedBetweenLast(s: string, left: int, right: int)
    requires 0 <= left <= right < |s|
    ensures CleanedBetween(s, left, right) == CleanedBetween(s, left, right - 1) + Kept(s[right])
    decreases right - left
  {
    if left < right {
      CleanedBetweenLast(s, left + 1, right);
      assert Kept(s[left]) + (CleanedBetween(s, left + 1, right - 1) + Kept(s[right])) ==
        (Kept(s[left]) + CleanedBetween(s, left + 1, right - 1)) + Kept(s[right]);
    }
  }

  /** Between position left and the end, CleanedBetween is Cleaned of that suffix. */
  lemma {:induction false} CleanedBetweenSuffix(s: string, left: int)
    requires 0 <= left <= |s|
    ensures CleanedBetween(s, left, |s| - 1) == Cleaned(s[left..])
    decreases |s| - left
  {
    if left < |s| {
      CleanedBetweenSuffix(s, left + 1);
      assert s[left..][1..] == s[left + 1..];
    }
  }

  /** With a letter or digit at both pointers, the middle is a palindrome iff they match and the inside is one. */
  lemma CompareEnds(s: string, left: int, right: int)
    requires 0 <= left < right < |s| && IsLetterOrDigit(s[left]) && IsLetterOrDigit(s[right])
    ensures IsPal(CleanedBetween(s, left, right)) <==>
      ToLower(s[left]) == ToLower(s[right]) && IsPal(CleanedBetween(s, left + 1, right - 1))
  {
    var m := CleanedBetween(s, left + 1, right - 1);
    CleanedBetweenLast(s, left + 1, right);
    assert CleanedBetween(s, left, right) == [ToLower(s[left])] + m + [ToLower(s[right])];
    PalEnds(ToLower(s[left]), m, ToLower(s[right]));
  }

  /** At most one character is left between the pointers. */
  lemma ShortMiddle(s: string, left: int, right: int)
    requires 0 <= left && right < |s| && right <= left
    ensures IsPal(CleanedBetween(s, left, right))
  {
    var c := CleanedBetween(s, left, right);
    if left == right {
      assert CleanedBetween(s, left + 1, right) == [];
      assert c == Kept(s[left]) + [];
      assert c == [] || c == [ToLower(s[left])];
    }
    assert Reverse(c) == c;
  }

  /** What one round of the pointer loop decides, once both inner loops have skipped. */
  lemma AfterSkips(s: string, left0: int, right0: int, left: int, right: int)
    requires 0 <= left0 <= left <= right <= right0 < |s|
    requires CleanedBetween(s, left, right) == CleanedBetween(s, left0, right0)
    requires left < right ==> IsLetterOrDigit(s[left]) && IsLetterOrDigit(s[right])
    ensures IsPal(CleanedBetween(s, left0, right0)) <==>
      ToLower(s[left]) == ToLower(s[right]) && IsPal(CleanedBetween(s, left + 1, right - 1))
  {
    if left < right {
      CompareEnds(s, left, right);
    } else {
      ShortMiddle(s, left, right);
      ShortMiddle(s, left + 1, right - 1);
    }
  }

  /**
   * True exactly when the letters and digits of s, lower-cased, read the
   * same in both directions; an empty or white-space-only string is one.
   */
  method IsPalindrome(s: string) returns (b: bool)
    ensures b <==> IsPal(Cleaned(s))
    ensures IsNullOrWhiteSpace(s) ==> b
  {
    if IsNullOrWhiteSpace(s) {
      CleanedEmpty(s);
      return true;
    }
    b := ScanFromBothEnds(s);
  }

  /** The pointer loop of IsPalindrome, reached when s is not blank. */
  method ScanFromBothEnds(s: string) returns (b: bool)
    requires s != []
    ensures b <==> IsPal(Cleaned(s))
  {
    CleanedBetweenSuffix(s, 0);
    assert s[0..] == s;
    var left, right := 0, |s| - 1;
    ghost var pal := IsPal(CleanedBetween(s, left, right));
    while left < right
      invariant 0 <= left <= right + 2 && right < |s|
      invariant pal <==> IsPal(CleanedBetween(s, left, right))
    {
      ghost var left0, right0 := left, right;
      left := SkipFromLeft(s, left, right);
      right := SkipFromRight(s, left, right);
      AfterSkips(s, left0, right0, left, right);
      if ToLower(s[left]) != ToLower(s[right]) {
        return false;
      }
      left := left + 1;
      right := right - 1;
    }
    ShortMiddle(s, left, right);
    return true;
  }

  /** The first inner loop: moves left past characters that are not letters or digits. */
  method SkipFromLeft(s: string, left0: int, right: int) returns (left: int)
    requires 0 <= left0 <= right < |s|
    ensures left0 <= left <= right
    ensures left < right ==> IsLetterOrDigit(s[left])
    ensures CleanedBetween(s, left, right) == CleanedBetween(s, left0, right)
  {
    left := left0;
    while left < right && !IsLetterOrDigit(s[left])
      invariant left0 <= left <= right
      invariant CleanedBetween(s, left, right) == CleanedBetween(s, left0, right)
    {
      left := left + 1;
    }
  }

  /** The second inner loop: moves right past characters that are not letters or digits. */
  method SkipFromRight(s: string, left: int, right0: int) returns (right: int)
    requires 0 <= left <= right0 < |s|
    ensures left <= right <= right0
    ensures left < right ==> IsLetterOrDigit(s[right])
    ensures CleanedBetween(s, left, right) == CleanedBetween(s, left, right0)
  {
    right := right0;
    while left < right && !IsLetterOrDigit(s[right])
      invariant left <= right <= right0
      invariant CleanedBetween(s, left, right) == CleanedBetween(s, left, right0)
    {
      CleanedBetweenLast(s, left, right);
      right := right - 1;
    }
  }

  // ---------------------------------------------------------------------------
  // MaxArea (container with most water)
  // ---------------------------------------------------------------------------

  /** The water held between bars i and j. */
  function Area(h: seq<int>, i: int, j: int): int
    requires 0 <= i < j < |h|
  {
    (j - i) * (if h[i] < h[j] then h[i] else h[j])
  }

  lemma MulLeRight(a: int, x: int, y: int)
    requires a >= 0 && x <= y
    ensures a * x <= a * y
  {
  }

  lemma MulLeLeft(a: int, b: int, x: int)
    requires a <= b && x >= 0
    ensures a * x <= b * x
  {
  }

  lemma MulNegative(a: int, x: int)
    requires a > 0 && x < 0
    ensures a * x < 0
  {
  }

  /** A pair that keeps bar p and has the other bar at distance d <= width holds at most width * h[p]. */
  lemma BoundedByBar(d: int, width: int, m: int, hp: int, best: int)
    requires 0 < d <= width && m <= hp
    requires best >= 0 && best >= width * hp
    ensures d * m <= best
  {
    MulLeRight(d, m, hp);
    if hp >= 0 {
      MulLeLeft(d, width, hp);
    } else {
      MulNegative(d, hp);
    }
  }

  /** Moving the shorter bar inward loses no pair that could beat the current one. */
  lemma ShorterSideDone(h: seq<int>, left: int, right: int, best: int)
    requires 0 <= left < right < |h|
    requires best >= 0 && best >= Area(h, left, right)
    ensures h[left] < h[right] ==> forall j :: left < j <= right ==> Area(h, left, j) <= best
    ensures h[left] >= h[right] ==> forall i :: left <= i < right ==> Area(h, i, right) <= best
  {
    if h[left] < h[right] {
      forall j | left < j <= right ensures Area(h, left, j) <= best {
        BoundedByBar(j - left, right - left, if h[left] < h[j] then h[left] else h[j], h[left], best);
      }
    } else {
      forall i | left <= i < right ensures Area(h, i, right) <= best {
        BoundedByBar(right - i, right - left, if h[i] < h[right] then h[i] else h[right], h[right], best);
      }
    }
  }

  /** The largest water area over all pairs of bars, and 0 when that is not positive. */
  method MaxArea(height: array<int>) returns (r: int)
    ensures r >= 0
    ensures forall i, j :: 0 <= i < j < height.Length ==> Area(height[..], i, j) <= r
    ensures r == 0 || exists i, j :: 0 <= i < j < height.Length && Area(height[..], i, j) == r
  {
    ghost var h := height[..];
    var left, right := 0, height.Length - 1;
    var maxArea := 0;
    while left < right
      invariant 0 <= left && right < height.Length
      invariant height.Length > 0 ==> left <= right
      invariant maxArea >= 0
      invariant forall i, j :: 0 <= i < j < height.Length && (i < left || right < j) ==> Area(h, i, j) <= maxArea
      invariant maxArea == 0 || exists i, j :: 0 <= i < j < height.Length && Area(h, i, j) == maxArea
    {
      var width := right - left;
      var currentHeight := if height[left] < height[right] then height[left] else height[right];
      var currentArea := width * currentHeight;
      assert currentArea == Area(h, left, right);
      maxArea := if maxArea < currentArea then currentArea else maxArea;
      ShorterSideDone(h, left, right, maxArea);
      if height[left] < height[right] {
        left := left + 1;
      } else {
        right := right - 1;
      }
    }
    r := maxArea;
  }

  // ---------------------------------------------------------------------------
  // ReverseArray
  // ---------------------------------------------------------------------------

  method ReverseArray(arr: array<int>)
    modifies arr
    ensures arr[..] == Reverse(old(arr[..]))
  {
    var left, right := 0, arr.Length - 1;
    while left < right
      invariant 0 <= left <= right + 2 && right < arr.Length && left + right == arr.Length - 1
      invariant forall k :: 0 <= k < left ==> arr[k] == old(arr[arr.Length - 1 - k]) && arr[arr.Length - 1 - k] == old(arr[k])
      invariant forall k :: left <= k <= right ==> arr[k] == old(arr[k])
    {
      arr[left], arr[right] := arr[right], arr[left];
      left := left + 1;
      right := right - 1;
    }
    ReverseIndexed(old(arr[..]), arr[..]);
  }
}
