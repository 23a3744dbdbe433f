# go-godash collection operators in Dafny

This project models the three behavioural files of go-godash, a small generic
collection library for Go:

- `pkg/arrays/arrays.go`: the sequence operators. These are Map, Reduce,
  Filter, Take, TakeWhile, Drop, DropWhile, Partition, Head, First, Last,
  Reverse, Find and FindPredicate. The file also holds the set operators:
  setFromArray, Intersection and Difference (a symmetric difference).
- `pkg/math/math.go`: the numeric aggregations Sum, Mean, Average and Mode.
- `pkg/collections/collections.go`: a second copy of Map.

Files: `wrappers.dfy` (module `Wrappers`: `Option`, used for the pointer
that Find returns), `arrays.dfy` (module `Arrays`), `math.dfy` (module
`Math`) and `collections.dfy` (module `Collections`).

How the Go code is modelled:

- A Go slice is a Dafny `seq`. Every result is a fresh sequence.
- A caller's function value is a total Dafny arrow type (`T -> U`,
  `T -> bool`, `(T, U) -> U`).
- Each Go function that builds its result in a loop is a `method` with the
  same loop.
  - Map, Take, Drop and Reverse fill a `make`-allocated slice by index. In
    the model they fill a fresh `array` of zero values, so the element type
    carries Dafny's `(0)` characteristic.
  - The operators built with `append` extend a sequence.
  - Each method's postcondition ties its result to a specification
    function or expression: `Mapped` (Map), `Folded` (Reduce), `Filtered`
    (Filter, Partition), `PrefixLength` (TakeWhile, DropWhile), `ReverseOf`
    (Reverse), `FirstMatch` (Find, FindPredicate), `Elements` and `Distinct`
    (setFromArray, Intersection, Difference), `Occurrences` and `IsMode`
    (Mode's counting loop and Mode), or a slice of the input (Take, Drop).
    The properties the library promises are proved about those functions,
    as their own `ensures` clauses and as lemmas.
- A Go `map[T]bool` or `map[T]int` is a Dafny `map`. A `range` over a map
  is a loop that picks any pending key with `:|`. No iteration order is
  fixed, so Intersection, Difference and Mode are specified only up to
  that order.
  - Intersection and Difference: the result has no duplicates, and its set
    of elements is fixed.
  - Mode: the result is a relation. Any value of maximal count may win.
- A Go panic is a `requires` clause, since the caller must avoid it. These
  are Take and Drop with a count outside `0..len(xs)`, Head, First and Last
  on an empty slice, and Mean and Average on an empty slice (integer
  division by zero). For narrow integer types Mean and Average can also
  panic on a non-empty slice; see "## Left out".
- Go's integer division truncates toward zero. Dafny's `/` is Euclidean, so
  `Math.TruncDiv` writes the truncating division out. `Math.MeanExamples`
  shows a negative sum where the two differ.
- Go's `var mostCommonKey T` is the zero value of `T`. Dafny has no
  expression for a type's default value, so `Math.Mode` takes that value as
  its parameter `zero`.

## Model

| member | source | states |
|---|---|---|
| `Arrays.Mapped` | pkg/arrays/arrays.go:3-11 | the mapped sequence has the length of the input, and element i is f applied to input element i |
| `Arrays.Map` | pkg/arrays/arrays.go:3-11 | filling a zero-valued buffer slot by slot in index order yields exactly `Mapped(xs, f)` |
| `Arrays.MappedIdentity` | pkg/arrays/arrays.go:3-11 | mapping the identity function returns the input unchanged |
| `Arrays.MappedExample` | pkg/arrays/arrays_test.go:9-15 | mapping `+10` over `[1,2,3]` gives `[11,12,13]` |
| `Arrays.Reduce` | pkg/arrays/arrays.go:13-19 | the accumulator loop `acc := f(x, acc)` returns the left fold `Folded(xs, initial, f)` |
| `Arrays.FoldedEmpty` | pkg/arrays/arrays.go:13-19 | on an empty input Reduce returns `initial` unchanged |
| `Arrays.FoldedConcat` | pkg/arrays/arrays.go:13-19 | folding `xs + ys` is folding `ys` starting from the fold of `xs`: the fold runs strictly left to right |
| `Arrays.FoldedCons` | pkg/arrays/arrays.go:14-16 | the first element is combined with `initial` before any other element |
| `Arrays.Filtered` | pkg/arrays/arrays.go:22-30 | the filtered sequence is no longer than the input and every element of it satisfies f |
| `Arrays.FilteredCount` | pkg/arrays/arrays.go:22-30 | each value satisfying f keeps its full number of occurrences, and every other value is dropped |
| `Arrays.Filter` | pkg/arrays/arrays.go:22-30 | the append loop returns exactly `Filtered(xs, f)` |
| `Arrays.FilteredConcat` | pkg/arrays/arrays.go:22-30 | filtering distributes over concatenation, so the original order is kept |
| `Arrays.Partition` | pkg/arrays/arrays.go:85-98 | the single pass returns `(Filtered(xs, f), Filtered(xs, not f))` |
| `Arrays.PartitionComplete` | pkg/arrays/arrays.go:85-98 | the passed and failed halves together are a permutation of the input, and their lengths add up to the input's length |
| `Arrays.Take` | pkg/arrays/arrays.go:32-40 | for `0 <= n <= len(xs)` (the only counts that do not panic) the result is the first n elements |
| `Arrays.Drop` | pkg/arrays/arrays.go:56-64 | for `0 <= n <= len(xs)` (the only counts that do not panic) the result is the input without its first n elements |
| `Arrays.SplitAt` | pkg/arrays/arrays.go:32-64 | for a count that does not panic, the results of Take and Drop concatenate back to the input, Take returns n elements, and Drop at 0 returns the whole input |
| `Arrays.PrefixLength` | pkg/arrays/arrays.go:42-54 | the prefix length is at most the input length, every element before it satisfies f, and the element at it (if any) fails f |
| `Arrays.PrefixUnique` | pkg/arrays/arrays.go:42-54 | any length with those three properties is the prefix length, so the longest satisfying prefix is unique |
| `Arrays.TakeWhile` | pkg/arrays/arrays.go:42-54 | the loop that appends until the first failing element and then breaks returns the longest prefix whose elements all satisfy f |
| `Arrays.DropWhile` | pkg/arrays/arrays.go:66-83 | the loop with the `dropping` flag returns the suffix that starts at the first element failing f; once the flag is cleared it is never set again |
| `Arrays.SplitWhile` | pkg/arrays/arrays.go:42-83 | the results of TakeWhile and DropWhile concatenate back to the input, every element TakeWhile keeps satisfies f, and DropWhile's result starts with an element that fails f |
| `Arrays.WhileExamples` | pkg/arrays/arrays_test.go:40-98 | the tests' TakeWhile results `[1]`, `[1,2,3]` and `[]`, and DropWhile giving `[2,3]` even though 3 satisfies the predicate again |
| `Arrays.ReverseOf` | pkg/arrays/arrays.go:112-120 | the reversed sequence has the input's length, and input element i sits at position `len-1-i` |
| `Arrays.Reverse` | pkg/arrays/arrays.go:112-120 | writing `xs[i]` into slot `len-1-i` of a zero-valued buffer yields exactly `ReverseOf(xs)` |
| `Arrays.ReversedInvolution` | pkg/arrays/arrays.go:112-120 | reversing twice gives back the input |
| `Arrays.Head` | pkg/arrays/arrays.go:100-102 | on a non-empty slice (Go panics on an empty one) the result is the element that the rest of the input follows: `[Head(xs)] + xs[1..] == xs` |
| `Arrays.First` | pkg/arrays/arrays.go:104-106 | the same as Head, which it calls: on a non-empty slice, the element the rest of the input follows |
| `Arrays.Last` | pkg/arrays/arrays.go:108-110 | on a non-empty slice (Go panics on an empty one) the result is the element that ends the input: `xs[..len-1] + [Last(xs)] == xs` |
| `Arrays.EndsOfReversed` | pkg/arrays/arrays.go:100-110 | on a non-empty input Head and First are element 0 and Last is the final element; reversal swaps Head and Last |
| `Arrays.FirstMatch` | pkg/arrays/arrays.go:133-143 | the index is -1 exactly when no element satisfies f; otherwise its element satisfies f and no earlier element does |
| `Arrays.MatchUnique` | pkg/arrays/arrays.go:122-143 | any index with those properties is `FirstMatch`, so the least matching index is unique |
| `Arrays.Find` | pkg/arrays/arrays.go:122-131 | the early-return scan returns the least index whose element equals t, together with a copy of that element; otherwise it returns `(None, -1)` |
| `Arrays.FindPredicate` | pkg/arrays/arrays.go:133-143 | the early-return scan returns `FirstMatch(xs, f)` and the element there, or `(None, -1)` |
| `Arrays.FindExamples` | pkg/arrays/arrays_test.go:127-157 | the tests' results: index 1 for value 2, index -1 for value 4, index 2 for the predicate `x == 3`, and -1 for `x == 4` |
| `Arrays.SetFromArray` | pkg/arrays/arrays.go:145-151 | the map's keys are exactly the elements of the input, and every key maps to true |
| `Arrays.DistinctCardinality` | pkg/arrays/arrays.go:153-192 | a sequence without duplicates has as many elements as distinct values, which is what fixes the length of a set operator's result |
| `Arrays.Intersection` | pkg/arrays/arrays.go:153-166 | in any iteration order, the result has no duplicates and its element set is the intersection of the inputs' element sets |
| `Arrays.Difference` | pkg/arrays/arrays.go:168-192 | in any iteration order, the result has no duplicates and its element set is the symmetric difference of the inputs' element sets |
| `Arrays.IntersectionExample` | pkg/arrays/arrays_test.go:159-165 | every result Intersection may return for `[1,2,3]` and `[2,3,4]` has length 2 and contains 2 and 3 |
| `Arrays.DifferenceExample` | pkg/arrays/arrays_test.go:167-173 | every result Difference may return for `[1,2,3]` and `[2,3,4]` has length 2 and contains 1 and 4 |
| `Math.FoldedAddIsTotal` | pkg/math/math.go:10-14 | reducing with `a + x` from any initial value adds the arithmetic sum of the input to that value |
| `Math.Sum` | pkg/math/math.go:10-14 | Sum, the fold of `Add` (`a + x`) from 0 through Reduce, is the arithmetic sum `Total` of the input, a sum defined independently of any fold |
| `Math.SumExample` | pkg/math/math_test.go:9-13 | `Sum([1,2,3]) == 6` |
| `Math.TruncDiv` | pkg/math/math.go:19 | Go's integer division by a positive divisor: the quotient times the divisor lies within one divisor of the dividend, on the dividend's side of zero |
| `Math.Mean` | pkg/math/math.go:18-20 | on a non-empty input the result is `Sum(xs) / len(xs)` truncated toward zero |
| `Math.Average` | pkg/math/math.go:25-27 | Average meets the same truncated-quotient contract as Mean |
| `Math.MeanUnique` | pkg/math/math.go:18-27 | exactly one value meets that contract, so Average equals Mean |
| `Math.MeanExamples` | pkg/math/math_test.go:15-19 | `Average([2,2,5]) == 3`, and `Mean([-1,-2]) == -1`, where Euclidean division would give -2 |
| `Math.CountOccurrences` | pkg/math/math.go:33-41 | after the counting loop the map's keys are exactly the input's elements, and each key maps to its number of occurrences |
| `Math.Mode` | pkg/math/math.go:29-53 | on an empty input the result is the zero value; otherwise it is an element of the input that occurs at least as often as every other element, whatever the iteration order |
| `Math.ModesTie` | pkg/math/math.go:29-31 | any two values Mode may return occur equally often: only the winner of a tie is left open |
| `Math.ModeExample` | pkg/math/math.go:29-53 | on `[2,3,3,4]`, 3 is the only value Mode may return |
| `Collections.Map` | pkg/collections/collections.go:3-11 | the result is `Arrays.Mapped(xs, f)`, the same result as `Arrays.Map`, with the input's length |
| `Collections.MapExamples` | pkg/collections/collections_test.go:9-15 | an empty input maps to an empty output, and mapping `+10` over `[1,2,3]` gives `[11,12,13]` |

## Left out

- Floating-point element types: Sum, Mean and Average are modelled for `int` only. NaN, infinities and rounding are not modelled.
- Fixed-width integer overflow: `int8` to `int64` sums may wrap in Go. The model uses unbounded integers.
- Pointer identity: Find and FindPredicate return a pointer to a fresh copy of the element. The model returns an `Option` holding the element.
- Slice capacity, `append` reallocation and aliasing: every result is a fresh value.
- Go map iteration order: no order is fixed. Intersection and Difference are specified up to the order of their results, and Mode up to the winner of a tie.
- Panics: the model does not represent a panic as a value. The inputs listed above, which make Go panic, are excluded by `requires` clauses. The panics of Mean and Average on a non-empty slice, and of `==` on interface values, are not modelled; see the lines below.
- Mean and Average: the model divides by `|xs|`. Go divides by `T(len(xs))`, and for `int8`, `int16` and `int32` that conversion wraps. A non-empty slice can then give a divisor of zero, so Go panics (256 zeros as `int8`). It can also give a negative divisor, which flips the sign of the result (`[5]` followed by 254 zeros as `int8` gives -5 in Go and 0 in the model).
- Arrays.Find, Arrays.SetFromArray, Arrays.Intersection, Arrays.Difference, Math.CountOccurrences and Math.Mode assume that `==` on T is an equivalence that never panics, which is what Dafny's equality is. Go's `comparable` also admits float types, where NaN differs from itself: `Find([NaN], NaN)` returns `(nil, -1)`, each NaN is a separate map key, so `Intersection([NaN], [NaN])` is empty and `Difference([NaN], [NaN])` holds two NaNs, and Mode counts each NaN once. Negative and positive zero compare equal in Go but are different bit patterns. Go's `comparable` also admits interface type arguments, where `==` panics on dynamic types that cannot be compared. None of these are modelled.
- The caller's function values are total and pure. A function value that panics or has side effects is not modelled.
- Union, Chunk, Flatten, Without and Reversed: the package's tests call them, but `pkg/arrays/arrays.go` does not define them, so they are not part of this model (`Arrays.ReverseOf` is the specification of Reverse, not the tests' Reversed). Nor are the Reduce, Sum and Filter that `pkg/collections/collections_test.go` calls.
- `pkg/types/types.go` and `pkg/constraints/constraints.go` declare only function-type aliases and a type constraint; they become Dafny arrow types and the `int` instantiation.
