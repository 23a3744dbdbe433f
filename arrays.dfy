/**
 * The sequence and set operators of the arrays package.
 *
 * A Go slice is modelled as a Dafny sequence and every result as a fresh
 * sequence; the caller's function values are total Dafny arrow types. Each
 * operator that builds its result in a loop is a method whose postcondition
 * ties the result to a specification function, and the properties the
 * package promises are proved about those functions.
 */
module Arrays {
  import opened Wrappers

  // ---------------------------------------------------------------------
  // Map
  // ---------------------------------------------------------------------

  /** The sequence obtained by applying f to every element of xs, in order. */
  function Mapped<T, U>(xs: seq<T>, f: T -> U): (r: seq<U>)
    ensures |r| == |xs|
    ensures forall i :: 0 <= i < |xs| ==> r[i] == f(xs[i])
  {
    if xs == [] then [] else Mapped(xs[..|xs| - 1], f) + [f(xs[|xs| - 1])]
  }

  /** Allocates a slice of zero values of length |xs| and writes f(xs[i]) into slot i. */
  method Map<T, U(0)>(xs: seq<T>, f: T -> U) returns (mapped: seq<U>)
    ensures mapped == Mapped(xs, f)
  {
    var buffer := new U[|xs|];
    for i := 0 to |xs|
      invariant forall k :: 0 <= k < i ==> buffer[k] == f(xs[k])
    {
      buffer[i] := f(xs[i]);
    }
    mapped := buffer[..];
  }

  /** Mapping the identity function gives back the input. */
  lemma MappedIdentity<T>(xs: seq<T>)
    ensures Mapped(xs, x => x) == xs
  {
  }

  /** The example of the package's own test: adding ten to 1, 2, 3. */
  lemma MappedExample()
    ensures Mapped([1, 2, 3], x => x + 10) == [11, 12, 13]
  {
  }

  // ---------------------------------------------------------------------
  // Reduce
  // ---------------------------------------------------------------------

  /** Left fold: f combines each element with the running accumulator, first element first. */
  function Folded<T, U>(xs: seq<T>, initial: U, f: (T, U) -> U): U
  {
    if xs == [] then initial else f(xs[|xs| - 1], Folded(xs[..|xs| - 1], initial, f))
  }

  method Reduce<T, U>(xs: seq<T>, initial: U, f: (T, U) -> U) returns (accumulator: U)
    ensures accumulator == Folded(xs, initial, f)
  {
    accumulator := initial;
    for i := 0 to |xs|
      invariant accumulator == Folded(xs[..i], initial, f)
    {
      assert xs[..i + 1][..i] == xs[..i];
      accumulator := f(xs[i], accumulator);
    }
    assert xs[..|xs|] == xs;
  }

  /** Folding a concatenation folds the second part starting from the fold of the first. */
  lemma {:induction false} FoldedConcat<T, U>(xs: seq<T>, ys: seq<T>, initial: U, f: (T, U) -> U)
    ensures Folded(xs + ys, initial, f) == Folded(ys, Folded(xs, initial, f), f)
  {
    if ys == [] {
      assert xs + ys == xs;
    } else {
      var n := |ys| - 1;
      assert (xs + ys)[..|xs + ys| - 1] == xs + ys[..n];
      assert (xs + ys)[|xs + ys| - 1] == ys[n];
      FoldedConcat(xs, ys[..n], initial, f);
    }
  }

  /** The step of the fold: the first element is combined with the initial value before anything else. */
  lemma {:induction false} FoldedCons<T, U>(x: T, xs: seq<T>, initial: U, f: (T, U) -> U)
    ensures Folded([x] + xs, initial, f) == Folded(xs, f(x, initial), f)
  {
    FoldedConcat([x], xs, initial, f);
    assert [x][..0] == [];
  }

  /** An empty input returns the initial value unchanged. */
  lemma FoldedEmpty<T, U>(initial: U, f: (T, U) -> U)
    ensures Folded([], initial, f) == initial
  {
  }

  // ---------------------------------------------------------------------
  // Filter and Partition
  // ---------------------------------------------------------------------

  /** The elements of xs that satisfy f, in their original order. */
  function Filtered<T>(xs: seq<T>, f: T -> bool): (r: seq<T>)
    ensures |r| <= |xs|
    ensures forall i :: 0 <= i < |r| ==> f(r[i])
  {
    if xs == [] then []
    else
      var last := xs[|xs| - 1];
      Filtered(xs[..|xs| - 1], f) + (if f(last) then [last] else [])
  }

  /** Filtering keeps every value that satisfies f as often as it occurs, and drops every other value. */
  lemma {:induction false} FilteredCount<T>(xs: seq<T>, f: T -> bool, x: T)
    ensures multiset(Filtered(xs, f))[x] == if f(x) then multiset(xs)[x] else 0
  {
    if xs != [] {
      var n := |xs| - 1;
      assert xs == xs[..n] + [xs[n]];
      FilteredCount(xs[..n], f, x);
    }
  }

  /** One more step of the filtering loop: the next element is appended exactly when it satisfies f. */
  lemma FilteredStep<T>(xs: seq<T>, i: nat, f: T -> bool)
    requires i < |xs|
    ensures Filtered(xs[..i + 1], f) == Filtered(xs[..i], f) + (if f(xs[i]) then [xs[i]] else [])
  {
    assert xs[..i + 1][..i] == xs[..i];
  }

  method Filter<T>(xs: seq<T>, f: T -> bool) returns (taken: seq<T>)
    ensures taken == Filtered(xs, f)
  {
    taken := [];
    for i := 0 to |xs|
      invariant taken == Filtered(xs[..i], f)
    {
      FilteredStep(xs, i, f);
      if f(xs[i]) {
        taken := taken + [xs[i]];
      }
    }
    assert xs[..|xs|] == xs;
  }

  /** Filtering preserves order: it distributes over concatenation. */
  lemma {:induction false} FilteredConcat<T>(xs: seq<T>, ys: seq<T>, f: T -> bool)
    ensures Filtered(xs + ys, f) == Filtered(xs, f) + Filtered(ys, f)
  {
    if ys == [] {
      assert xs + ys == xs;
    } else {
      var n := |ys| - 1;
      assert (xs + ys)[..|xs + ys| - 1] == xs + ys[..n];
      assert (xs + ys)[|xs + ys| - 1] == ys[n];
      FilteredConcat(xs, ys[..n], f);
    }
  }

  /** The complement of a predicate. */
  function Negated<T>(f: T -> bool): T -> bool
  {
    x => !f(x)
  }

  method Partition<T>(xs: seq<T>, f: T -> bool) returns (passed: seq<T>, failed: seq<T>)
    ensures passed == Filtered(xs, f)
    ensures failed == Filtered(xs, Negated(f))
  {
    passed, failed := [], [];
    for i := 0 to |xs|
      invariant passed == Filtered(xs[..i], f)
      invariant failed == Filtered(xs[..i], Negated(f))
    {
      FilteredStep(xs, i, f);
      FilteredStep(xs, i, Negated(f));
      assert Negated(f)(xs[i]) == !f(xs[i]);
      if f(xs[i]) {
        passed := passed + [xs[i]];
      } else {
        failed := failed + [xs[i]];
      }
    }
    assert xs[..|xs|] == xs;
  }

  /** The two halves of a partition together are a permutation of the input. */
  lemma {:induction false} PartitionComplete<T>(xs: seq<T>, f: T -> bool)
    ensures multiset(Filtered(xs, f)) + multiset(Filtered(xs, Negated(f))) == multiset(xs)
    ensures |Filtered(xs, f)| + |Filtered(xs, Negated(f))| == |xs|
  {
    if xs != [] {
      var n := |xs| - 1;
      assert xs == xs[..n] + [xs[n]];
      assert Negated(f)(xs[n]) == !f(xs[n]);
      PartitionComplete(xs[..n], f);
    }
  }

  // ---------------------------------------------------------------------
  // Take and Drop
  // ---------------------------------------------------------------------

  /** Go panics for any n outside 0..|xs|: make rejects a negative length, and xs[i] fails past the end. */
  method Take<T(0)>(xs: seq<T>, n: int) returns (taken: seq<T>)
    requires 0 <= n <= |xs|
    ensures taken == xs[..n]
  {
    var buffer := new T[n];
    for i := 0 to n
      invariant forall k :: 0 <= k < i ==> buffer[k] == xs[k]
    {
      buffer[i] := xs[i];
    }
    taken := buffer[..];
  }

  /** Go panics for any n outside 0..|xs|: make rejects a negative length, and xs[n] fails for a negative n. */
  method Drop<T(0)>(xs: seq<T>, n: int) returns (dropped: seq<T>)
    requires 0 <= n <= |xs|
    ensures dropped == xs[n..]
  {
    var buffer := new T[|xs| - n];
    for i := n to |xs|
      invariant forall k :: n <= k < i ==> buffer[k - n] == xs[k]
    {
      buffer[i - n] := xs[i];
    }
    dropped := buffer[..];
  }

  /** Take and Drop at the same count split the input between them, and dropping nothing keeps all of it. */
  method SplitAt<T(0)>(xs: seq<T>, n: int) returns (taken: seq<T>, dropped: seq<T>)
    requires 0 <= n <= |xs|
    ensures taken + dropped == xs
    ensures |taken| == n
    ensures n == 0 ==> dropped == xs
  {
    taken := Take(xs, n);
    dropped := Drop(xs, n);
    assert xs[..n] + xs[n..] == xs;
  }

  // ---------------------------------------------------------------------
  // TakeWhile and DropWhile
  // ---------------------------------------------------------------------

  /** The length of the longest prefix of xs whose elements all satisfy f. */
  function PrefixLength<T>(xs: seq<T>, f: T -> bool): (n: nat)
    ensures n <= |xs|
    ensures forall i :: 0 <= i < n ==> f(xs[i])
    ensures n < |xs| ==> !f(xs[n])
  {
    if xs == [] || !f(xs[0]) then 0 else 1 + PrefixLength(xs[1..], f)
  }

  method TakeWhile<T>(xs: seq<T>, f: T -> bool) returns (taken: seq<T>)
    ensures taken == xs[..PrefixLength(xs, f)]
  {
    taken := [];
    for i := 0 to |xs|
      invariant taken == xs[..i]
      invariant forall k :: 0 <= k < i ==> f(xs[k])
    {
      if f(xs[i]) {
        taken := taken + [xs[i]];
      } else {
        PrefixUnique(xs, f, i);
        return;
      }
    }
    PrefixUnique(xs, f, |xs|);
  }

  /** The prefix length is the only length whose prefix satisfies f and is not followed by an element satisfying f. */
  lemma PrefixUnique<T>(xs: seq<T>, f: T -> bool, n: nat)
    requires n <= |xs|
    requires forall i :: 0 <= i < n ==> f(xs[i])
    requires n < |xs| ==> !f(xs[n])
    ensures n == PrefixLength(xs, f)
  {
  }

  /** Once an element fails f the flag stays cleared, so later elements are kept even when they satisfy f. */
  method DropWhile<T>(xs: seq<T>, f: T -> bool) returns (taken: seq<T>)
    ensures taken == xs[PrefixLength(xs, f)..]
  {
    taken := [];
    var dropping := true;
    ghost var k := PrefixLength(xs, f);
    for i := 0 to |xs|
      invariant dropping <==> i <= k
      invariant taken == if dropping then [] else xs[k..i]
    {
      if !f(xs[i]) {
        dropping := false;
      }
      if dropping {
        continue;
      } else {
        taken := taken + [xs[i]];
      }
    }
  }

  /**
   * TakeWhile and DropWhile split the input between them: every element
   * TakeWhile keeps satisfies f, and what DropWhile keeps starts with an
   * element that fails f.
   */
  method SplitWhile<T>(xs: seq<T>, f: T -> bool) returns (taken: seq<T>, dropped: seq<T>)
    ensures taken + dropped == xs
    ensures forall i :: 0 <= i < |taken| ==> f(taken[i])
    ensures dropped != [] ==> !f(dropped[0])
  {
    taken := TakeWhile(xs, f);
    dropped := DropWhile(xs, f);
    var k := PrefixLength(xs, f);
    assert xs[..k] + xs[k..] == xs;
    if k < |xs| {
      assert dropped[0] == xs[k];
    }
  }

  /** The examples of the package's own tests, including that dropping does not start again. */
  lemma WhileExamples()
    ensures PrefixLength([1, 2, 3], x => x < 2) == 1
    ensures PrefixLength([1, 2, 3], x => true) == 3
    ensures PrefixLength([1, 2, 3], x => false) == 0
    ensures [1, 2, 3][PrefixLength([1, 2, 3], x => x == 1 || x == 3)..] == [2, 3]
  {
    PrefixUnique([1, 2, 3], x => x < 2, 1);
    PrefixUnique([1, 2, 3], x => true, 3);
    PrefixUnique([1, 2, 3], x => false, 0);
    PrefixUnique([1, 2, 3], x => x == 1 || x == 3, 1);
  }

  // ---------------------------------------------------------------------
  // Head, First, Last and Reverse
  // ---------------------------------------------------------------------

  /** The first element: the input is that element followed by the rest. Go panics on an empty slice. */
  function Head<T>(xs: seq<T>): (r: T)
    requires |xs| > 0
    ensures [r] + xs[1..] == xs
  {
    xs[0]
  }

  /** An alias of Head. */
  function First<T>(xs: seq<T>): (r: T)
    requires |xs| > 0
    ensures [r] + xs[1..] == xs
  {
    Head(xs)
  }

  /** The final element: the input is the rest followed by that element. Go panics on an empty slice. */
  function Last<T>(xs: seq<T>): (r: T)
    requires |xs| > 0
    ensures xs[..|xs| - 1] + [r] == xs
  {
    xs[|xs| - 1]
  }

  /** The elements of xs in reverse order. */
  function ReverseOf<T>(xs: seq<T>): (r: seq<T>)
    ensures |r| == |xs|
    ensures forall i :: 0 <= i < |xs| ==> r[|xs| - 1 - i] == xs[i]
  {
    if xs == [] then [] else ReverseOf(xs[1..]) + [xs[0]]
  }

  /** Allocates a slice of zero values and writes xs[i] into slot |xs| - 1 - i. */
  method Reverse<T(0)>(xs: seq<T>) returns (reversed: seq<T>)
    ensures reversed == ReverseOf(xs)
  {
    var buffer := new T[|xs|];
    for i := 0 to |xs|
      invariant forall k :: 0 <= k < i ==> buffer[|xs| - 1 - k] == xs[k]
    {
      buffer[|xs| - i - 1] := xs[i];
    }
    reversed := buffer[..];
    forall j | 0 <= j < |xs|
      ensures reversed[j] == ReverseOf(xs)[j]
    {
      var k := |xs| - 1 - j;
      assert buffer[|xs| - 1 - k] == xs[k];
    }
  }

  /** Reversing twice is the identity. */
  lemma ReversedInvolution<T>(xs: seq<T>)
    ensures ReverseOf(ReverseOf(xs)) == xs
  {
    var r := ReverseOf(xs);
    forall i | 0 <= i < |xs|
      ensures ReverseOf(r)[i] == xs[i]
    {
      assert ReverseOf(r)[|r| - 1 - (|r| - 1 - i)] == r[|r| - 1 - i];
    }
  }

  /** Head and First agree, and reversing exchanges the first and the last element. */
  lemma EndsOfReversed<T>(xs: seq<T>)
    requires |xs| > 0
    ensures First(xs) == Head(xs) == xs[0]
    ensures Last(xs) == xs[|xs| - 1]
    ensures Head(ReverseOf(xs)) == Last(xs)
    ensures Last(ReverseOf(xs)) == First(xs)
  {
    assert ReverseOf(xs)[|xs| - 1 - (|xs| - 1)] == xs[|xs| - 1];
  }

  // ---------------------------------------------------------------------
  // Find and FindPredicate
  // ---------------------------------------------------------------------

  /** The index of the first element of xs that satisfies f, or -1 when there is none. */
  function FirstMatch<T>(xs: seq<T>, f: T -> bool): (i: int)
    ensures -1 <= i < |xs|
    ensures i == -1 ==> forall k :: 0 <= k < |xs| ==> !f(xs[k])
    ensures 0 <= i ==> f(xs[i]) && forall k :: 0 <= k < i ==> !f(xs[k])
  {
    if xs == [] then -1
    else if f(xs[0]) then 0
    else
      var j := FirstMatch(xs[1..], f);
      if j == -1 then -1 else j + 1
  }

  /** The predicate "equal to t" that Find matches with. */
  function EqualTo<T(==)>(t: T): T -> bool
  {
    x => x == t
  }

  /** The element found at the index, or None for the sentinel -1. */
  function FoundAt<T>(xs: seq<T>, i: int): Option<T>
    requires -1 <= i < |xs|
  {
    if i == -1 then None else Some(xs[i])
  }

  /** FirstMatch is the only index that is -1 with no match, or a match with no match before it. */
  lemma MatchUnique<T>(xs: seq<T>, f: T -> bool, i: int)
    requires -1 <= i < |xs|
    requires i == -1 ==> forall k :: 0 <= k < |xs| ==> !f(xs[k])
    requires 0 <= i ==> f(xs[i]) && forall k :: 0 <= k < i ==> !f(xs[k])
    ensures i == FirstMatch(xs, f)
  {
  }

  method Find<T(==)>(xs: seq<T>, t: T) returns (found: Option<T>, index: int)
    ensures index == FirstMatch(xs, EqualTo(t))
    ensures -1 <= index < |xs| && found == FoundAt(xs, index)
    ensures found == None || found == Some(t)
  {
    for i := 0 to |xs|
      invariant forall k :: 0 <= k < i ==> !EqualTo(t)(xs[k])
    {
      if xs[i] == t {
        MatchUnique(xs, EqualTo(t), i);
        return Some(xs[i]), i;
      }
    }
    MatchUnique(xs, EqualTo(t), -1);
    return None, -1;
  }

  method FindPredicate<T>(xs: seq<T>, f: T -> bool) returns (found: Option<T>, index: int)
    ensures index == FirstMatch(xs, f)
    ensures -1 <= index < |xs| && found == FoundAt(xs, index)
  {
    for i := 0 to |xs|
      invariant forall k :: 0 <= k < i ==> !f(xs[k])
    {
      if f(xs[i]) {
        MatchUnique(xs, f, i);
        return Some(xs[i]), i;
      }
    }
    MatchUnique(xs, f, -1);
    return None, -1;
  }

  /** The examples of the package's own tests. */
  lemma FindExamples()
    ensures FirstMatch([1, 2, 3], EqualTo(2)) == 1
    ensures FirstMatch([1, 2, 3], EqualTo(4)) == -1
    ensures FirstMatch([1, 2, 3], x => x == 3) == 2
    ensures FirstMatch([1, 2, 3], x => x == 4) == -1
  {
  }

  // ---------------------------------------------------------------------
  // Set operators
  // ---------------------------------------------------------------------

  /** The distinct values occurring in xs. */
  function Elements<T>(xs: seq<T>): set<T>
  {
    set x | x in xs
  }

  /** No value occurs twice in xs. */
  predicate Distinct<T(==)>(xs: seq<T>)
  {
    forall i, j :: 0 <= i < j < |xs| ==> xs[i] != xs[j]
  }

  lemma ElementsAppend<T>(xs: seq<T>, x: T)
    ensures Elements(xs + [x]) == Elements(xs) + {x}
  {
    assert forall y :: y in xs + [x] <==> y in xs || y == x;
  }

  lemma DistinctAppend<T>(xs: seq<T>, x: T)
    requires Distinct(xs) && x !in Elements(xs)
    ensures Distinct(xs + [x])
  {
    forall i, j | 0 <= i < j < |xs| + 1
      ensures (xs + [x])[i] != (xs + [x])[j]
    {
      if j == |xs| {
        assert xs[i] in Elements(xs);
      }
    }
  }

  /** A duplicate-free sequence has exactly as many elements as it has distinct values. */
  lemma {:induction false} DistinctCardinality<T>(xs: seq<T>)
    requires Distinct(xs)
    ensures |Elements(xs)| == |xs|
  {
    if xs != [] {
      var n := |xs| - 1;
      var init := xs[..n];
      assert xs == init + [xs[n]];
      assert Distinct(init);
      DistinctCardinality(init);
      ElementsAppend(init, xs[n]);
      assert xs[n] !in Elements(init);
    }
  }

  /** Builds a Go map whose keys are the elements of xs, each mapped to true. */
  method SetFromArray<T(==)>(xs: seq<T>) returns (xsSet: map<T, bool>)
    ensures xsSet.Keys == Elements(xs)
    ensures forall k :: k in xsSet ==> xsSet[k]
  {
    xsSet := map[];
    for i := 0 to |xs|
      invariant xsSet.Keys == Elements(xs[..i])
      invariant forall k :: k in xsSet ==> xsSet[k]
    {
      assert xs[..i + 1] == xs[..i] + [xs[i]];
      ElementsAppend(xs[..i], xs[i]);
      xsSet := xsSet[xs[i] := true];
    }
    assert xs[..|xs|] == xs;
  }

  /**
   * Ranges over the keys of the map built from xs, in an order that is not
   * fixed, keeping those that are keys of the map built from ys.
   */
  method Intersection<T(==)>(xs: seq<T>, ys: seq<T>) returns (result: seq<T>)
    ensures Distinct(result)
    ensures Elements(result) == Elements(xs) * Elements(ys)
  {
    var xsSet := SetFromArray(xs);
    var ysSet := SetFromArray(ys);
    result := [];
    var pending := xsSet.Keys;
    while pending != {}
      invariant pending <= xsSet.Keys
      invariant Distinct(result)
      invariant Elements(result) == (xsSet.Keys - pending) * ysSet.Keys
      decreases pending
    {
      var k :| k in pending;
      if k in ysSet {
        DistinctAppend(result, k);
        ElementsAppend(result, k);
        result := result + [k];
      }
      pending := pending - {k};
    }
  }

  /**
   * The symmetric difference: first the keys of xs's map that are not in
   * ys's map, then the keys of ys's map that are not in xs's map, each pass
   * in an order that is not fixed.
   */
  method Difference<T(==)>(xs: seq<T>, ys: seq<T>) returns (result: seq<T>)
    ensures Distinct(result)
    ensures Elements(result) == (Elements(xs) - Elements(ys)) + (Elements(ys) - Elements(xs))
  {
    var xsSet := SetFromArray(xs);
    var ysSet := SetFromArray(ys);
    result := [];
    var pending := xsSet.Keys;
    while pending != {}
      invariant pending <= xsSet.Keys
      invariant Distinct(result)
      invariant Elements(result) == (xsSet.Keys - pending) - ysSet.Keys
      decreases pending
    {
      var k :| k in pending;
      if k in ysSet {
        // already in both: skipped
      } else {
        DistinctAppend(result, k);
        ElementsAppend(result, k);
        result := result + [k];
      }
      pending := pending - {k};
    }
    pending := ysSet.Keys;
    while pending != {}
      invariant pending <= ysSet.Keys
      invariant Distinct(result)
      invariant Elements(result) == (xsSet.Keys - ysSet.Keys) + ((ysSet.Keys - pending) - xsSet.Keys)
      decreases pending
    {
      var k :| k in pending;
      if k in xsSet {
        // already in both: skipped
      } else {
        DistinctAppend(result, k);
        ElementsAppend(result, k);
        result := result + [k];
      }
      pending := pending - {k};
    }
  }

  /** The distinct values of the two inputs of the package's own set-operator tests. */
  lemma ExampleElements()
    ensures Elements([1, 2, 3]) == {1, 2, 3}
    ensures Elements([2, 3, 4]) == {2, 3, 4}
  {
    assert forall x :: x in [1, 2, 3] <==> x == 1 || x == 2 || x == 3;
    assert forall x :: x in [2, 3, 4] <==> x == 2 || x == 3 || x == 4;
  }

  /** The example of the package's own test, for every result Intersection may return. */
  lemma IntersectionExample(result: seq<int>)
    requires Distinct(result)
    requires Elements(result) == Elements([1, 2, 3]) * Elements([2, 3, 4])
    ensures |result| == 2 && 2 in result && 3 in result
  {
    ExampleElements();
    assert Elements(result) == {2, 3};
    DistinctCardinality(result);
  }

  /** The example of the package's own test, for every result Difference may return. */
  lemma DifferenceExample(result: seq<int>)
    requires Distinct(result)
    requires Elements(result) == (Elements([1, 2, 3]) - Elements([2, 3, 4])) + (Elements([2, 3, 4]) - Elements([1, 2, 3]))
    ensures |result| == 2 && 1 in result && 4 in result
  {
    ExampleElements();
    assert Elements(result) == {1, 4};
    DistinctCardinality(result);
  }
}
