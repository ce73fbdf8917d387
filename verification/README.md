# THSwiftUtil collection operations in Dafny

THSwiftUtil is a small Swift library that adds generic operations to sequences and
collections. Each operation is steered by a key, transform or predicate function that
the caller supplies. This project models those operations and proves what they
promise:

- `Collections.dfy` covers the hash-based operations of `Collections.swift`:
  - `distinct()` and `countDistinct()`, each with and without a transform;
  - `groupBy` with its `Group` container;
  - `countWhere`.
- `Sequences.dfy` covers the order- and fold-based operations of `Sequences.swift`:
  - `sum()` and `sum(transform)`;
  - `sortedBy` and `sortedByDescending`;
  - `min(transform)` and `max(transform)`.
- `Wrappers.dfy` holds `Option`, which stands for Swift's `T?`, and `Result`, the
  outcome of a transform that may throw.

The code's form is kept. Each loop of the Swift source is a Dafny `method` with loop
invariants, proved equal to a pure specification function:

- `FirstSeen` for de-duplication;
- `CountSatisfying` for predicate counts;
- `Members` for the contents of one group;
- `SumOf` for sums;
- `FirstMinIndex` and `FirstMaxIndex` for extremal elements.

Lemmas then prove what those functions mean. `sum()` is a `reduce`, and the two sorts
are single calls to the standard `sorted(by:)` with a comparator closure. These three
are functions.

Modelling choices:

- A Swift `Set` is a Dafny `set`, and a `Dictionary` is a `map`. `Hashable` is Dafny
  equality support.
- A transform is a total function. `Numeric` values and `Comparable` keys are
  unbounded `int`s.
- `Group` is a Swift `struct`, so it is a value. Its `mutating append` is modelled as
  the function `Group.Append`, which returns the updated value. `groupBy` stores that
  value back into its dictionary, as Swift does.
- `groupBy` ends with `Array(groups.values)`, whose order Swift leaves unspecified.
  `ValuesOf` models it by choosing an arbitrary remaining key at each step. Its
  contract promises no order.
- `sorted(by:)` belongs to Swift's standard library, which is not part of this model.
  `SortedWith` stands for it: an insertion sort under the comparator, proved to return
  a permutation of its input that is sorted under that comparator.

## Model

| member | source | states |
|---|---|---|
| `Collections.NewGroup` | Sources/THSwiftUtil/Collections.swift:14-17 | a new group has the given key and holds no elements |
| `Collections.Group.Append` | Sources/THSwiftUtil/Collections.swift:19-21 | append adds exactly one element, at the end; the key and all earlier elements are unchanged |
| `Collections.Group.Count` | Sources/THSwiftUtil/Collections.swift:31-37 | the `Collection` count, `endIndex - startIndex`, is 0 exactly when the group holds no elements |
| `Collections.Group.At` | Sources/THSwiftUtil/Collections.swift:43-45 | the subscript returns one of the group's elements |
| `Collections.GroupPositions` | Sources/THSwiftUtil/Collections.swift:24-46 | reading the subscript at every position from `startIndex` to `endIndex`, as the iterator does, yields exactly the appended elements in order |
| `Collections.Distinct` | Sources/THSwiftUtil/Collections.swift:52-64 | the loop with a seen-set returns the first-seen de-duplication: no duplicates, exactly the input's values, ordered by first occurrence |
| `Collections.FirstSeenElems` | Sources/THSwiftUtil/Collections.swift:57-61 | a value occurs in the output of `distinct()` if and only if it occurs in the input |
| `Collections.FirstSeenNoDuplicates` | Sources/THSwiftUtil/Collections.swift:55-61 | the output of `distinct()` has no value twice |
| `Collections.FirstSeenOrder` | Sources/THSwiftUtil/Collections.swift:57-61 | output values are ordered by the positions of their first occurrences in the input |
| `Collections.FirstSeenUnique` | Sources/THSwiftUtil/Collections.swift:52-64 | any sequence with no duplicates, exactly the input's values and first-occurrence order is the output of `distinct()`, so the three properties define it |
| `Collections.FirstSeenOfNoDuplicates` | Sources/THSwiftUtil/Collections.swift:57-61 | an input without duplicates comes back unchanged |
| `Collections.FirstSeenOfRepeated` | Sources/THSwiftUtil/Collections.swift:57-61 | n > 0 copies of one value collapse to that single value |
| `Collections.FirstSeenLength` | Sources/THSwiftUtil/Collections.swift:68-77 | the length of `distinct()` equals the number of distinct input values |
| `Collections.CountDistinct` | Sources/THSwiftUtil/Collections.swift:68-77 | the result is the size of the set of input values and the length of `distinct()`; it is 0 exactly for empty input |
| `Collections.DistinctBy` | Sources/THSwiftUtil/Collections.swift:119-132 | each transformed value is returned exactly once, ordered by first occurrence; the length equals the number of distinct transformed values |
| `Collections.CountDistinctBy` | Sources/THSwiftUtil/Collections.swift:138-147 | the result is the number of distinct transformed values and the length of `distinct(transform)`; it is 0 exactly for empty input |
| `Collections.CountSatisfying` | Sources/THSwiftUtil/Collections.swift:104-113 | the predicate count never exceeds the input length |
| `Collections.CountSatisfyingPositions` | Sources/THSwiftUtil/Collections.swift:104-113 | the count equals the number of positions whose element satisfies the predicate |
| `Collections.CountSatisfyingExtremes` | Sources/THSwiftUtil/Collections.swift:104-113 | the count equals the length if and only if every element satisfies the predicate, and is 0 if and only if none does |
| `Collections.CountWhere` | Sources/THSwiftUtil/Collections.swift:104-113 | the counter loop returns the predicate count, which lies between 0 and the input length |
| `Collections.MembersHaveKey` | Sources/THSwiftUtil/Collections.swift:88-95 | every element filed under a key maps to that key |
| `Collections.MembersNonEmpty` | Sources/THSwiftUtil/Collections.swift:88-95 | a key has elements if and only if some input element maps to it |
| `Collections.MembersMultiplicity` | Sources/THSwiftUtil/Collections.swift:88-95 | every element lands in the group of its own key with all of its occurrences, so with `MembersHaveKey` the groups partition the input |
| `Collections.ValuesOf` | Sources/THSwiftUtil/Collections.swift:97 | the dictionary's values are listed once each, in no promised order, and each is filed under its own key |
| `Collections.GroupBy` | Sources/THSwiftUtil/Collections.swift:86-98 | keys are pairwise distinct and are exactly the transformed values; the number of groups is `countDistinct(transform)` and is 0 exactly for empty input; each group holds the input elements with its key in input order; no group is empty |
| `Collections.GroupByParityExample` | Tests/THSwiftUtilTests/THSwiftUtilTests.swift:147-160 | grouping `[0, 5, 10, 11, 13]` by parity gives two keys, with `[0, 10]` under even and `[5, 11, 13]` under odd |
| `Sequences.Sum` | Sources/THSwiftUtil/Sequences.swift:14-16 | `sum()`, the fold `reduce(0, +)`, is 0 for no elements and equals `sum(transform)` with the identity transform |
| `Sequences.SumOfStep` | Sources/THSwiftUtil/Sequences.swift:36-43 | the sum of nothing is 0, and appending an element adds its transform |
| `Sequences.SumOfAppend` | Sources/THSwiftUtil/Sequences.swift:36-43 | over integers the sum of a concatenation is the sum of the sums |
| `Sequences.SumBy` | Sources/THSwiftUtil/Sequences.swift:36-43 | the running-total loop returns the left-fold sum of the transformed elements |
| `Sequences.TrySumSucceeds` | Sources/THSwiftUtil/Sequences.swift:36-43 | when no transform call throws, the throwing sum succeeds with the plain sum |
| `Sequences.TrySumFails` | Sources/THSwiftUtil/Sequences.swift:36-43 | when the first throwing call is at position k, the sum fails with that error whatever follows |
| `Sequences.TrySumBy` | Sources/THSwiftUtil/Sequences.swift:36-43 | the loop with `try` returns at the first error, and otherwise returns the running total |
| `Sequences.SortedWith` | Sources/THSwiftUtil/Sequences.swift:25-29 | for a strict-order comparator the result is a permutation of the input, and no element is ordered before an element ahead of it |
| `Sequences.SortedBy` | Sources/THSwiftUtil/Sequences.swift:24-30 | the result is a permutation of the input (same multiset), and its keys are non-decreasing |
| `Sequences.SortedByDescending` | Sources/THSwiftUtil/Sequences.swift:49-55 | the result is a permutation of the input, and its keys are non-increasing |
| `Sequences.FirstMinIndex` | Sources/THSwiftUtil/Sequences.swift:61-71 | the index holds a smallest key, and every earlier element has a strictly larger key, so it is the first occurrence of the minimum |
| `Sequences.Min` | Sources/THSwiftUtil/Sequences.swift:61-71 | the result is none exactly when the input is empty; otherwise it is the first element whose key is at most every key |
| `Sequences.FirstMaxIndex` | Sources/THSwiftUtil/Sequences.swift:77-87 | the index holds a largest key, and every earlier element has a strictly smaller key |
| `Sequences.Max` | Sources/THSwiftUtil/Sequences.swift:77-87 | the result is none exactly when the input is empty; otherwise it is the first element whose key is at least every key |

## Left out

- Floating-point sums are not modelled. `Numeric` is modelled as unbounded `int`, so
  summation-order effects and rounding are not captured.
- Swift `Int` overflow, which traps in `sum` and in `countWhere`'s counter, is not
  modelled, because integers here are unbounded.
- Hashing inside Swift's `Set` and `Dictionary` is not modelled. They are Dafny `set`
  and `map` values.
- Throwing transforms (`rethrows`) are modelled only for `sum(transform)`, in
  `TrySumBy`. Every other operation takes a total transform. Each of those loops
  calls its transform once per element, left to right, just as `sum(transform)` does,
  so an error thrown at one element would surface in the same way. `sortedBy` and
  `sortedByDescending` are different: their transform runs twice per comparison
  inside `sorted(by:)`. That sort's algorithm decides which element's error comes
  out first, and it is not part of this model.
- Sort stability is not claimed. `sorted(by:)` is not part of this model, and
  `SortedWith` only stands in for it.
- The `guard self.count > 0` early exits in `distinct`, `countDistinct` and their
  transform variants are not modelled. On empty input the loops return the same
  results.
- Of `Group`'s `Sequence` and `Collection` conformance, only the element count
  (`Group.Count`) and the subscript (`Group.At`) are modelled. The iterator,
  `startIndex`, `endIndex` and `index(after:)` are not.
- `Group` is modelled as a value, not as an object with identity, because Swift
  structs have value semantics.
