/**
 * The numeric aggregations of the math package, for integer elements.
 *
 * Sum is a fold through the arrays package's Reduce, Mean and Average
 * divide it by the length with Go's truncating integer division, and Mode
 * counts occurrences in a Go map and then ranges over that map, in an order
 * that is not fixed, for a key of maximal count.
 */
module Math {
  import Arrays

  // ---------------------------------------------------------------------
  // Sum
  // ---------------------------------------------------------------------

  /** The reducer Sum passes to Reduce: it adds the element to the accumulator. */
  function Add(x: int, a: int): int
  {
    a + x
  }

  /** The arithmetic sum of xs, defined independently of any fold. */
  function Total(xs: seq<int>): int
  {
    if xs == [] then 0 else xs[0] + Total(xs[1..])
  }

  /** A fold through Reduce, starting from zero: the arithmetic sum of xs. */
  function Sum(xs: seq<int>): (r: int)
    ensures r == Total(xs)
  {
    FoldedAddIsTotal(xs, 0);
    Arrays.Folded(xs, 0, Add)
  }

  lemma {:induction false} TotalAppend(xs: seq<int>, x: int)
    ensures Total(xs + [x]) == Total(xs) + x
  {
    if xs == [] {
      assert [] + [x] == [x];
      assert [x][1..] == [];
    } else {
      assert (xs + [x])[1..] == xs[1..] + [x];
      TotalAppend(xs[1..], x);
    }
  }

  /** Reducing with Add from any initial value adds the arithmetic sum to it. */
  lemma {:induction false} FoldedAddIsTotal(xs: seq<int>, initial: int)
    ensures Arrays.Folded(xs, initial, Add) == initial + Total(xs)
  {
    if xs != [] {
      var n := |xs| - 1;
      assert xs == xs[..n] + [xs[n]];
      FoldedAddIsTotal(xs[..n], initial);
      TotalAppend(xs[..n], xs[n]);
    }
  }

  /** The example of the package's own test. */
  lemma SumExample()
    ensures Sum([1, 2, 3]) == 6
  {
  }

  // ---------------------------------------------------------------------
  // Mean and Average
  // ---------------------------------------------------------------------

  /**
   * Go's integer division by a positive divisor: the quotient is truncated
   * toward zero, so the remainder takes the sign of the dividend. Dafny's own
   * division is Euclidean and differs from it for a negative dividend.
   */
  function TruncDiv(a: int, b: int): (q: int)
    requires b > 0
    ensures 0 <= a ==> q * b <= a < q * b + b
    ensures a < 0 ==> q * b - b < a <= q * b
  {
    if 0 <= a then a / b else -((-a) / b)
  }

  /** Go panics with an integer division by zero on an empty input. */
  function Mean(xs: seq<int>): (r: int)
    requires |xs| > 0
    ensures 0 <= Sum(xs) ==> r * |xs| <= Sum(xs) < r * |xs| + |xs|
    ensures Sum(xs) < 0 ==> r * |xs| - |xs| < Sum(xs) <= r * |xs|
  {
    TruncDiv(Sum(xs), |xs|)
  }

  /** An alias of Mean. */
  function Average(xs: seq<int>): (r: int)
    requires |xs| > 0
    ensures 0 <= Sum(xs) ==> r * |xs| <= Sum(xs) < r * |xs| + |xs|
    ensures Sum(xs) < 0 ==> r * |xs| - |xs| < Sum(xs) <= r * |xs|
  {
    Mean(xs)
  }

  lemma {:induction false} MulAtLeast(d: int, b: int)
    requires d >= 1 && b > 0
    ensures d * b >= b
  {
    if d > 1 {
      MulAtLeast(d - 1, b);
      assert d * b == (d - 1) * b + b;
    }
  }

  /** Of two quotients, the larger one times the divisor exceeds the smaller one times it by at least the divisor. */
  lemma StepApart(q: int, p: int, b: int)
    requires q < p && b > 0
    ensures q * b + b <= p * b
  {
    MulAtLeast(p - q, b);
    assert p * b == q * b + (p - q) * b;
  }

  /** Two quotients within one divisor of the same dividend, from the same side, are equal. */
  lemma QuotientUnique(a: int, b: int, q: int, p: int)
    requires b > 0
    requires 0 <= a ==> q * b <= a < q * b + b && p * b <= a < p * b + b
    requires a < 0 ==> q * b - b < a <= q * b && p * b - b < a <= p * b
    ensures q == p
  {
    if q < p {
      StepApart(q, p, b);
    } else if p < q {
      StepApart(p, q, b);
    }
  }

  /** The truncated quotient is the only one that meets Mean's contract. */
  lemma MeanUnique(xs: seq<int>, r: int)
    requires |xs| > 0
    requires 0 <= Sum(xs) ==> r * |xs| <= Sum(xs) < r * |xs| + |xs|
    requires Sum(xs) < 0 ==> r * |xs| - |xs| < Sum(xs) <= r * |xs|
    ensures r == Mean(xs) == Average(xs)
  {
    QuotientUnique(Sum(xs), |xs|, r, Mean(xs));
  }

  /** The example of the package's own test, and a negative sum, where truncation differs from Euclidean division. */
  lemma MeanExamples()
    ensures Average([2, 2, 5]) == 3
    ensures Mean([-1, -2]) == -1
  {
  }

  // ---------------------------------------------------------------------
  // Mode
  // ---------------------------------------------------------------------

  /** The number of times x occurs in xs. */
  function Occurrences<T(==)>(xs: seq<T>, x: T): nat
  {
    multiset(xs)[x]
  }

  /** m occurs in xs, and no value occurs in xs more often than m. */
  ghost predicate IsMode<T>(xs: seq<T>, m: T)
  {
    m in xs && forall i :: 0 <= i < |xs| ==> Occurrences(xs, xs[i]) <= Occurrences(xs, m)
  }

  /** Two values that are both a mode of xs occur equally often: only the tie winner is left open. */
  lemma ModesTie<T>(xs: seq<T>, a: T, b: T)
    requires IsMode(xs, a) && IsMode(xs, b)
    ensures Occurrences(xs, a) == Occurrences(xs, b)
  {
    var i :| 0 <= i < |xs| && xs[i] == a;
    var j :| 0 <= j < |xs| && xs[j] == b;
  }

  /** The counting loop of Mode: it fills a Go map from each value to its number of occurrences. */
  method CountOccurrences<T(==)>(xs: seq<T>) returns (counts: map<T, int>)
    ensures counts.Keys == Arrays.Elements(xs)
    ensures forall k :: k in counts ==> counts[k] == Occurrences(xs, k)
  {
    counts := map[];
    for i := 0 to |xs|
      invariant counts.Keys == Arrays.Elements(xs[..i])
      invariant forall k :: k in counts ==> counts[k] == Occurrences(xs[..i], k)
    {
      assert xs[..i + 1] == xs[..i] + [xs[i]];
      Arrays.ElementsAppend(xs[..i], xs[i]);
      var x := xs[i];
      if x in counts {
        counts := counts[x := counts[x] + 1];
      } else {
        counts := counts[x := 1];
      }
    }
    assert xs[..|xs|] == xs;
  }

  /**
   * The zero parameter stands for Go's zero value of T, which Mode returns
   * on an empty input because the selection loop then never runs.
   */
  method Mode<T(==)>(xs: seq<T>, zero: T) returns (mostCommonKey: T)
    ensures xs == [] ==> mostCommonKey == zero
    ensures xs != [] ==> IsMode(xs, mostCommonKey)
  {
    var counts := CountOccurrences(xs);
    var mostCommonCount := 0;
    mostCommonKey := zero;
    var pending := counts.Keys;
    while pending != {}
      invariant pending <= counts.Keys
      invariant 0 <= mostCommonCount
      invariant mostCommonCount == 0 ==> mostCommonKey == zero
      invariant mostCommonCount > 0 ==> mostCommonKey in counts && counts[mostCommonKey] == mostCommonCount
      invariant forall k :: k in counts && k !in pending ==> counts[k] <= mostCommonCount
      decreases pending
    {
      var k :| k in pending;
      if counts[k] > mostCommonCount {
        mostCommonCount := counts[k];
        mostCommonKey := k;
      }
      pending := pending - {k};
    }
    if xs != [] {
      assert xs[0] in counts;
      assert mostCommonKey in Arrays.Elements(xs);
      forall i | 0 <= i < |xs|
        ensures Occurrences(xs, xs[i]) <= Occurrences(xs, mostCommonKey)
      {
        assert xs[i] in counts;
      }
    }
  }

  /** A worked example: on [2, 3, 3, 4] only 3 may be returned. */
  lemma ModeExample(m: int)
    requires IsMode([2, 3, 3, 4], m)
    ensures m == 3
  {
    var xs := [2, 3, 3, 4];
    assert xs == [2] + [3] + [3] + [4];
    assert multiset(xs)[3] == 2;
    assert Occurrences(xs, xs[1]) <= Occurrences(xs, m);
  }
}
