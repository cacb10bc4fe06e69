/** Sequence vocabulary shared by the array exercises. */
module Seqs {

  /** Sum of a sequence of integers, accumulated from the left. */
  function Sum(s: seq<int>): int
  {
    if s == [] then 0 else Sum(s[..|s| - 1]) + s[|s| - 1]
  }

  lemma {:induction false} SumAppend(a: seq<int>, b: seq<int>)
    ensures Sum(a + b) == Sum(a) + Sum(b)
  {
    if b == [] {
      assert a + b == a;
    } else {
      assert (a + b)[..|a + b| - 1] == a + b[..|b| - 1];
      SumAppend(a, b[..|b| - 1]);
    }
  }

  /** Extending a slice by one element on the right adds that element. */
  lemma SumExtend(s: seq<int>, i: int, j: int)
    requires 0 <= i <= j < |s|
    ensures Sum(s[i..j + 1]) == Sum(s[i..j]) + s[j]
  {
    assert s[i..j + 1][..j - i] == s[i..j];
  }

  /** Dropping the leftmost element of a slice subtracts it. */
  lemma SumShrink(s: seq<int>, i: int, j: int)
    requires 0 <= i < j <= |s|
    ensures Sum(s[i + 1..j]) == Sum(s[i..j]) - s[i]
  {
    assert s[i..j] == [s[i]] + s[i + 1..j];
    SumAppend([s[i]], s[i + 1..j]);
    assert [s[i]][..0] == [];
  }

  /** Number of occurrences of x in s. */
  function Count<T(==)>(s: seq<T>, x: T): nat
  {
    if s == [] then 0 else Count(s[..|s| - 1], x) + (if s[|s| - 1] == x then 1 else 0)
  }

  lemma {:induction false} CountAppend<T>(a: seq<T>, b: seq<T>, x: T)
    ensures Count(a + b, x) == Count(a, x) + Count(b, x)
  {
    if b == [] {
      assert a + b == a;
    } else {
      assert (a + b)[..|a + b| - 1] == a + b[..|b| - 1];
      CountAppend(a, b[..|b| - 1], x);
    }
  }

  lemma {:induction false} CountIsMultiplicity<T>(s: seq<T>, x: T)
    ensures Count(s, x) == multiset(s)[x]
  {
    if s != [] {
      assert s == s[..|s| - 1] + [s[|s| - 1]];
      CountIsMultiplicity(s[..|s| - 1], x);
    }
  }

  lemma {:induction false} CountBound<T>(s: seq<T>, x: T)
    ensures Count(s, x) <= |s|
    ensures Count(s, x) == 0 <==> x !in s
  {
    if s != [] {
      CountBound(s[..|s| - 1], x);
      assert s == s[..|s| - 1] + [s[|s| - 1]];
    }
  }

  /** The elements of s in reverse order. */
  function Reverse<T>(s: seq<T>): (r: seq<T>)
    ensures |r| == |s|
  {
    if s == [] then [] else Reverse(s[1..]) + [s[0]]
  }

  lemma {:induction false} ReverseAt<T>(s: seq<T>, k: int)
    requires 0 <= k < |s|
    ensures Reverse(s)[k] == s[|s| - 1 - k]
  {
    if k < |s| - 1 {
      ReverseAt(s[1..], k);
    }
  }

  /** Reverse is characterised by its elements. */
  lemma ReverseIndexed<T>(s: seq<T>, r: seq<T>)
    requires |r| == |s|
    requires forall k :: 0 <= k < |s| ==> r[k] == s[|s| - 1 - k]
    ensures r == Reverse(s)
  {
    forall k | 0 <= k < |s| ensures r[k] == Reverse(s)[k] {
      ReverseAt(s, k);
    }
  }

  lemma ReverseInvolution<T>(s: seq<T>)
    ensures Reverse(Reverse(s)) == s
  {
    forall k | 0 <= k < |s| ensures Reverse(Reverse(s))[k] == s[k] {
      ReverseAt(Reverse(s), k);
      ReverseAt(s, |s| - 1 - k);
    }
  }

  predicate Sorted(s: seq<int>) {
    forall i, j :: 0 <= i < j < |s| ==> s[i] <= s[j]
  }

  predicate StrictlyIncreasing(s: seq<int>) {
    forall i, j :: 0 <= i < j < |s| ==> s[i] < s[j]
  }

  /** The elements of s different from v, in their original order. */
  function Without(s: seq<int>, v: int): (r: seq<int>)
    ensures |r| <= |s|
    ensures forall x :: x in r <==> x in s && x != v
  {
    if s == [] then []
    else Without(s[..|s| - 1], v) + (if s[|s| - 1] != v then [s[|s| - 1]] else [])
  }

  lemma {:induction false} WithoutCount(s: seq<int>, v: int)
    ensures |Without(s, v)| == |s| - Count(s, v)
  {
    if s != [] {
      WithoutCount(s[..|s| - 1], v);
    }
  }

  /** Reading one more element of s extends Without by that element unless it is v. */
  lemma WithoutStep(s: seq<int>, v: int, r: int)
    requires 0 <= r < |s|
    ensures Without(s[..r + 1], v) == Without(s[..r], v) + (if s[r] != v then [s[r]] else [])
    ensures Count(s[..r + 1], v) == Count(s[..r], v) + (if s[r] == v then 1 else 0)
  {
    assert s[..r + 1][..r] == s[..r];
  }

  /** A sequence of n zeros. */
  function Zeros(n: nat): (r: seq<int>)
    ensures |r| == n && forall i :: 0 <= i < n ==> r[i] == 0
  {
    seq(n, _ => 0)
  }

  /** The largest element of a non-empty sequence. */
  function Max(s: seq<int>): int
    requires |s| > 0
  {
    if |s| == 1 then s[0]
    else var m := Max(s[..|s| - 1]); if s[|s| - 1] > m then s[|s| - 1] else m
  }

  lemma {:induction false} MaxIsMaximum(s: seq<int>)
    requires |s| > 0
    ensures Max(s) in s
    ensures forall i :: 0 <= i < |s| ==> s[i] <= Max(s)
  {
    if |s| > 1 {
      MaxIsMaximum(s[..|s| - 1]);
      assert forall i :: 0 <= i < |s| - 1 ==> s[i] == s[..|s| - 1][i];
    }
  }

  /** An element at least as large as every element is the maximum. */
  lemma MaxUnique(s: seq<int>, v: int)
    requires v in s && forall i :: 0 <= i < |s| ==> s[i] <= v
    ensures v == Max(s)
  {
    MaxIsMaximum(s);
  }
}
