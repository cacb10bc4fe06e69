/** LeetCode 66, plus one: adds 1 to a number stored as its decimal digits, most significant first. */
module PlusOne {
  import opened Errors
  import opened Seqs

  /** The number the digits spell in base 10. */
  function Value(digits: seq<int>): int
  {
    if digits == [] then 0 else 10 * Value(digits[..|digits| - 1]) + digits[|digits| - 1]
  }

  predicate IsDecimal(digits: seq<int>) {
    forall i :: 0 <= i < |digits| ==> 0 <= digits[i] <= 9
  }

  /**
   * The digits PlusOne returns: the rightmost digit below 9 goes up by one and
   * everything after it becomes 0; with no digit below 9 the result is 1
   * followed by |digits| zeros.
   */
  function Incremented(digits: seq<int>): (r: seq<int>)
  {
    if digits == [] then [1]
    else if digits[|digits| - 1] < 9 then digits[..|digits| - 1] + [digits[|digits| - 1] + 1]
    else Incremented(digits[..|digits| - 1]) + [0]
  }

  /** Read in base 10, the result is one more than the input. */
  lemma {:induction false} IncrementedValue(digits: seq<int>)
    requires IsDecimal(digits)
    ensures IsDecimal(Incremented(digits))
    ensures Value(Incremented(digits)) == Value(digits) + 1
  {
    if digits != [] {
      var init := digits[..|digits| - 1];
      var r := Incremented(digits);
      if digits[|digits| - 1] < 9 {
        assert r[..|r| - 1] == init;
      } else {
        IncrementedValue(init);
        assert r[..|r| - 1] == Incremented(init);
      }
    }
  }

  /**
   * The shape of the result: when position k holds the rightmost digit below
   * 9, the digits before k stay, digit k goes up by one, the 9s after it
   * become 0s; with no digit below 9, a 1 is followed by zeros.
   */
  lemma {:induction false} IncrementedShape(digits: seq<int>, k: int)
    requires -1 <= k < |digits|
    requires k >= 0 ==> digits[k] < 9
    requires forall t :: k < t < |digits| ==> digits[t] >= 9
    ensures k >= 0 ==> Incremented(digits) == digits[..k] + [digits[k] + 1] + Zeros(|digits| - k - 1)
    ensures k == -1 ==> Incremented(digits) == [1] + Zeros(|digits|)
    decreases |digits|
  {
    if |digits| > 0 && k < |digits| - 1 {
      var init := digits[..|digits| - 1];
      IncrementedShape(init, k);
      if k >= 0 {
        assert init[..k] == digits[..k];
      }
    } else if k == |digits| - 1 >= 0 {
      assert Zeros(0) == [];
    }
  }

  /**
   * Walks the digits from the right: a digit below 9 is incremented in place
   * and the input array itself is returned; a 9 (or more) becomes 0 and the
   * walk goes on. When every digit was 9 or more, the input has been zeroed
   * and a new array 1, 0, ..., 0 one longer is returned.
   */
  method PlusOne(digits: array<int>) returns (r: Result<array<int>>)
    modifies digits
    ensures digits.Length == 0 || digits.Length > 100 ==>
              r == Throws(ArgumentOutOfRangeException) && digits[..] == old(digits[..])
    ensures 0 < digits.Length <= 100 ==> r.Ok? && r.value[..] == Incremented(old(digits[..]))
    ensures r.Ok? && (exists i :: 0 <= i < digits.Length && old(digits[i]) < 9) ==> r.value == digits
    ensures r.Ok? && (forall i :: 0 <= i < digits.Length ==> old(digits[i]) >= 9) ==>
              fresh(r.value) && digits[..] == Zeros(digits.Length)
  {
    if digits.Length == 0 || digits.Length > 100 {
      return Throws(ArgumentOutOfRangeException);
    }
    ghost var s := digits[..];
    var i := digits.Length - 1;
    while i >= 0
      invariant -1 <= i < digits.Length
      invariant forall t :: 0 <= t <= i ==> digits[t] == s[t]
      invariant forall t :: i < t < digits.Length ==> s[t] >= 9 && digits[t] == 0
    {
      if digits[i] < 9 {
        digits[i] := digits[i] + 1;
        IncrementedShape(s, i);
        assert digits[..] == s[..i] + [s[i] + 1] + Zeros(digits.Length - i - 1);
        return Ok(digits);
      }
      digits[i] := 0;
      i := i - 1;
    }
    IncrementedShape(s, -1);
    assert digits[..] == Zeros(digits.Length);
    var results := new int[digits.Length + 1](_ => 0);
    results[0] := 1;
    assert results[..] == [1] + Zeros(digits.Length);
    return Ok(results);
  }
}
