/** Outcomes of the C# members: a value, or the .NET exception they throw. */
module Errors {

  /** The kind of .NET exception a member throws. */
  datatype Exception =
    | ArgumentException
    | ArgumentOutOfRangeException
    | IndexOutOfRangeException
    | InvalidOperationException
    | OverflowException

  datatype Result<T> = Ok(value: T) | Throws(error: Exception)

  /** int.MinValue and int.MaxValue of C#. */
  const IntMin: int := -0x8000_0000
  const IntMax: int := 0x7fff_ffff

  /** Every element of a C# int[] lies in the 32-bit range. */
  predicate AllInt32(s: seq<int>) {
    forall i :: 0 <= i < |s| ==> IntMin <= s[i] <= IntMax
  }

  /** C#'s % operator, which truncates toward zero (Dafny's % is Euclidean). */
  function CsRem(a: int, n: int): (r: int)
    requires n > 0
    ensures a >= 0 ==> 0 <= r < n && r == a % n
    ensures a < 0 ==> -n < r <= 0 && r == -((-a) % n)
  {
    if a >= 0 then a % n else -((-a) % n)
  }
}
