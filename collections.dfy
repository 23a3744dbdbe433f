/** The collections package: a second copy of the arrays package's Map. */
module Collections {
  import Arrays

  /**
   * Allocates a slice of zero values of length |xs| and writes f(xs[i]) into
   * slot i. Its result is the one Arrays.Map returns for the same input.
   */
  method Map<T, U(0)>(xs: seq<T>, f: T -> U) returns (mapped: seq<U>)
    ensures mapped == Arrays.Mapped(xs, f)
    ensures |mapped| == |xs|
  {
    var buffer := new U[|xs|];
    for i := 0 to |xs|
      invariant forall k :: 0 <= k < i ==> buffer[k] == f(xs[k])
    {
      buffer[i] := f(xs[i]);
    }
    mapped := buffer[..];
  }

  /** Empty input maps to empty output, and the example of the package's own test. */
  lemma MapExamples<T, U>(f: T -> U)
    ensures Arrays.Mapped([], f) == []
    ensures Arrays.Mapped([1, 2, 3], x => x + 10) == [11, 12, 13]
  {
  }
}
