/** LeetCode 118, Pascal's triangle: the first numRows rows, each built from the one above. */
module PascalsTriangle {
  import opened Seqs

  /** The binomial coefficient C(n, k), by Pascal's rule; 0 when k > n. */
  function Choose(n: nat, k: nat): nat
  {
    if k == 0 then 1
    else if n == 0 then 0
    else Choose(n - 1, k - 1) + Choose(n - 1, k)
  }

  /** Row n of the triangle: C(n, 0), ..., C(n, n). */
  function Row(n: nat): (r: seq<int>)
    ensures |r| == n + 1
  {
    seq(n + 1, j requires 0 <= j <= n => Choose(n, j))
  }

  /** Beyond the row there is nothing to choose. */
  lemma {:induction false} ChooseBeyond(n: nat, k: nat)
    requires k > n
    ensures Choose(n, k) == 0
  {
    if n > 0 {
      ChooseBeyond(n - 1, k - 1);
      ChooseBeyond(n - 1, k);
    }
  }

  /** Every row starts and ends with 1. */
  lemma {:induction false} RowEnds(n: nat)
    ensures Choose(n, 0) == 1 && Choose(n, n) == 1
  {
    if n > 0 {
      RowEnds(n - 1);
      ChooseBeyond(n - 1, n);
    }
  }

  /** Rows read the same from both ends. */
  lemma {:induction false} Symmetric(n: nat, k: nat)
    requires k <= n
    ensures Choose(n, k) == Choose(n, n - k)
  {
    if k == 0 || k == n {
      RowEnds(n);
    } else {
      Symmetric(n - 1, k - 1);
      Symmetric(n - 1, k);
    }
  }

  /** C(n, k) is n! / (k! (n - k)!). */
  lemma {:induction false} ChooseFactorial(n: nat, k: nat)
    requires k <= n
    ensures Choose(n, k) * Factorial(k) * Factorial(n - k) == Factorial(n)
  {
    if k == 0 {
      RowEnds(n);
    } else if k == n {
      RowEnds(n);
    } else {
      ChooseFactorial(n - 1, k - 1);
      ChooseFactorial(n - 1, k);
      assert Factorial(k) == k * Factorial(k - 1);
      assert Factorial(n - k) == (n - k) * Factorial(n - k - 1);
      PascalProduct(Choose(n - 1, k - 1), Choose(n - 1, k), k, n - k,
                    Factorial(k - 1), Factorial(n - k - 1), Factorial(n - 1));
    }
  }

  /** The arithmetic step of ChooseFactorial, with n = k + m. */
  lemma PascalProduct(a: int, b: int, k: int, m: int, fk1: int, fm1: int, f: int)
    requires a * fk1 * (m * fm1) == f && b * (k * fk1) * fm1 == f
    ensures (a + b) * (k * fk1) * (m * fm1) == (k + m) * f
  {
    calc {
      (a + b) * (k * fk1) * (m * fm1);
      a * (k * fk1) * (m * fm1) + b * (k * fk1) * (m * fm1);
      { assert a * (k * fk1) * (m * fm1) == k * (a * fk1 * (m * fm1)); }
      k * f + b * (k * fk1) * (m * fm1);
      { assert b * (k * fk1) * (m * fm1) == m * (b * (k * fk1) * fm1); }
      k * f + m * f;
    }
  }

  function Factorial(n: nat): nat
  {
    if n == 0 then 1 else n * Factorial(n - 1)
  }

  function Pow2(n: nat): nat
  {
    if n == 0 then 1 else 2 * Pow2(n - 1)
  }

  /** The first k entries of row n, summed. */
  lemma {:induction false} PrefixSplit(n: nat, k: nat)
    requires n > 0 && 0 < k
    ensures Sum(seq(k, j requires 0 <= j => Choose(n, j)))
         == Sum(seq(k - 1, j requires 0 <= j => Choose(n - 1, j)))
          + Sum(seq(k, j requires 0 <= j => Choose(n - 1, j)))
  {
    var s := seq(k, j requires 0 <= j => Choose(n, j));
    var p := seq(k - 1, j requires 0 <= j => Choose(n - 1, j));
    var q := seq(k, j requires 0 <= j => Choose(n - 1, j));
    assert s[..k - 1] == seq(k - 1, j requires 0 <= j => Choose(n, j));
    assert q[..k - 1] == p;
    if k > 1 {
      PrefixSplit(n, k - 1);
      var p' := seq(k - 2, j requires 0 <= j => Choose(n - 1, j));
      assert p[..k - 2] == p';
      assert Sum(p) == Sum(p') + Choose(n - 1, k - 2);
    } else {
      assert p == [] && s == [1] && q == [1];
    }
  }

  /** Row n sums to 2^n. */
  lemma RowSum(n: nat)
    ensures Sum(Row(n)) == Pow2(n)
  {
    RowPrefixSum(n);
  }

  lemma {:induction false} RowPrefixSum(n: nat)
    ensures Sum(seq(n + 1, j requires 0 <= j => Choose(n, j))) == Pow2(n)
    ensures Row(n) == seq(n + 1, j requires 0 <= j => Choose(n, j))
  {
    var r := seq(n + 1, j requires 0 <= j => Choose(n, j));
    if n == 0 {
      assert r == [1];
      assert r[..0] == [];
    } else {
      RowPrefixSum(n - 1);
      PrefixSplit(n, n + 1);
      var q := seq(n + 1, j requires 0 <= j => Choose(n - 1, j));
      ChooseBeyond(n - 1, n);
      assert q[..n] == seq(n, j requires 0 <= j => Choose(n - 1, j));
      assert Sum(q) == Sum(q[..n]) + 0;
    }
  }

  /**
   * Builds the rows top-down: row 0 is [1]; every later row is a new array
   * with 1 at both ends and prev[j] + prev[j - 1] in between. Rows are
   * returned as values.
   */
  method Generate(numRows: int) returns (result: seq<seq<int>>)
    ensures numRows <= 0 ==> result == []
    ensures numRows > 0 ==> |result| == numRows
    ensures forall i :: 0 <= i < |result| ==> result[i] == Row(i)
  {
    if numRows <= 0 {
      return [];
    }
    result := [[1]];
    assert [1] == Row(0);
    var i := 1;
    while i < numRows
      invariant 1 <= i <= numRows && |result| == i
      invariant forall t :: 0 <= t < i ==> result[t] == Row(t)
    {
      var previousRow := result[i - 1];
      var row := BuildRow(previousRow, i);
      result := result + [row[..]];
      i := i + 1;
    }
  }

  /** The inner loop of Generate: row i from row i - 1. */
  method BuildRow(previousRow: seq<int>, i: nat) returns (row: array<int>)
    requires i >= 1 && previousRow == Row(i - 1)
    ensures fresh(row) && row[..] == Row(i)
  {
    row := new int[i + 1];
    row[0] := 1;
    row[row.Length - 1] := 1;
    RowEnds(i);
    for j := 1 to row.Length - 1
      invariant row[0] == 1 && row[row.Length - 1] == 1
      invariant forall t :: 1 <= t < j ==> row[t] == Choose(i, t)
    {
      row[j] := previousRow[j] + previousRow[j - 1];
    }
  }
}
