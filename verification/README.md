# burst: union iterator and counting sort, in Dafny

This project models two algorithms from the burst C++ library and proves what
their documentation and code promise.

**The k-way multiset union iterator** (`burst/iterator/union_iterator.hpp`).
It walks several sorted ranges at once. Each value comes out as many times as
it occurs in the range that holds it most often, and the output keeps the
order. The iterator's state is its vector of windows: the unconsumed parts of
the input ranges. The model is in three files:

- `windows.dfy` (module `Windows`): windows, counts, and the three library
  steps the iterator uses. These are erasing empty windows, sorting by front,
  and `upper_bound`.
- `union_iterator.dfy` (module `UnionIterator`): the state is an immutable
  `Iterator` value, and construction, dereference, increment and equality are
  pure functions on it. `Output` is everything a loop from an iterator to the
  end iterator reads, and `Union` is that loop started from the constructor.
- `union_examples.dfy` (module `UnionExamples`): the union of some concrete
  ranges, worked out.

Elements are integers ordered by `<`. Two elements are equivalent under the
ordering exactly when they are equal, so "the front equals the current element"
is the same as "the front is equivalent to it".

**Counting sort** (`burst/algorithm/sorting/detail/counting_sort.hpp`).
Each element is mapped to an unsigned integer key. The algorithm counts the
keys, turns the counts into prefix sums, and moves every element to the slot
that its key's counter names. The model is in two files:

- `buckets.dfy` (module `Buckets`): a reference definition of the stable sort
  by key. `Bucketed` is group 0 in input order, then group 1, and so on. The
  module also proves that `Bucketed` is a permutation, sorted, and stable.
- `counting_sort.dfy` (module `CountingSort`): `value_range`, plus `collect`,
  `dispose` and the copying `counting_sort_impl` as methods.
  - `collect` loops over an array of counters, as the C++ does. `dispose`
    keeps its counters and output as sequences updated one index at a time.
  - The input is a sequence, and the key function `map` is a parameter
    `key: T -> nat`.
  - The output range is a parameter `dest` of length `n`. The contracts of
    `Dispose` and `CountingSortCopy` fix the result independently of its
    initial contents.

## Model

| member | source | states |
|---|---|---|
| Windows.RemoveEmpty | burst/iterator/union_iterator.hpp:136-141 | The result keeps exactly the non-empty windows, as a multiset, and no window in it is empty. No element is lost. |
| Windows.SortByFront | burst/iterator/union_iterator.hpp:143 | The result is a permutation of the windows, ascending by front value. It is one admissible outcome of the unstable `std::sort`. |
| Windows.UpperBound | burst/iterator/union_iterator.hpp:127 | Every window before the returned position has a front `<=` the given value. Every window from it on has a larger front. |
| Windows.SortedPermutationUnique | burst/iterator/union_iterator.hpp:28-32 | Two ordered sequences with the same elements, counted with multiplicity, are equal. So "ordered with these multiplicities" determines the output. |
| UnionIterator.Make | burst/iterator/union_iterator.hpp:99-118 | Given sorted input ranges (the asserted precondition), the window list holds exactly the non-empty inputs. It has no empty window, is sorted by front, and equals the end iterator iff every input was empty. |
| UnionIterator.Dereference | burst/iterator/union_iterator.hpp:147-150 | The current element is one of the window fronts. No front, and no element left in any window, is smaller. |
| UnionIterator.Equal | burst/iterator/union_iterator.hpp:152-155 | Comparing with the end iterator (the empty vector), on either side, is true exactly when nothing is left to read. |
| UnionIterator.Increment | burst/iterator/union_iterator.hpp:125-144 | The new windows are the old ones, where each window whose front equals the current element has lost that front and the others are unchanged. Exhausted windows are gone. The invariant holds again, the number of elements left strictly decreases, and the result is the end iterator iff every window held only the current element. |
| UnionIterator.PrefixIsMatching | burst/iterator/union_iterator.hpp:127-134 | The prefix delimited by `upper_bound` is not empty, and advancing it is the same as advancing exactly the windows whose front equals the first front. |
| UnionIterator.AdvancedWindows | burst/iterator/union_iterator.hpp:130-141 | Advancing the matching windows keeps them sorted and consumes at least one element. It leaves them all empty iff each held only the current element. |
| UnionIterator.Output | burst/iterator/union_iterator.hpp:53-57 | Iteration ends: the output is no longer than the elements left, and it is empty iff the iterator is the end iterator. |
| UnionIterator.Run | burst/iterator/union_iterator.hpp:125-144 | After `n` increments the iterator is still valid, and what remains to be read is the output with its first `n` elements dropped. |
| UnionIterator.IterationReachesEnd | burst/iterator/union_iterator.hpp:199-202 | Incrementing as many times as there are output elements reaches the iterator that the end-tag factory returns. Before that, the `n`-th dereference reads the `n`-th output element. |
| UnionIterator.AdvanceMatchingCounts | burst/iterator/union_iterator.hpp:53-56 | One advance lowers the largest multiplicity of the current element by one and leaves every other value's unchanged. |
| UnionIterator.OutputMultiplicity | burst/iterator/union_iterator.hpp:28-31 | From any valid state, each value is read as many times as the window that holds it most often holds it. |
| UnionIterator.OutputSorted | burst/iterator/union_iterator.hpp:32 | The elements are read in non-decreasing order. |
| UnionIterator.OutputDeterminedByWindows | burst/iterator/union_iterator.hpp:143 | Two states with the same windows in any order read the same output. So the order `std::sort` leaves among windows with equal fronts cannot be observed. |
| UnionIterator.UnionMultiplicity | burst/iterator/union_iterator.hpp:28-31 | In the union of sorted ranges, each value occurs as often as in the input range that holds it most often. |
| UnionIterator.UnionSorted | burst/iterator/union_iterator.hpp:32 | The union keeps the ordering. |
| UnionIterator.UnionOfOne | burst/iterator/union_iterator.hpp:28-32 | The union of a single sorted range is that range. |
| UnionIterator.UnionCharacterized | burst/iterator/union_iterator.hpp:24-37 | A sequence is the union of the ranges iff it is ordered and holds each value the maximum number of times any one range holds it. |
| UnionExamples.UnionOfThree | burst/iterator/union_iterator.hpp:28-32 | The union of `[1,1,2]`, `[1,2,2]` and `[1]` is `[1,1,2,2]`. |
| UnionExamples.UnionOfEmpties | burst/iterator/union_iterator.hpp:107-118 | Two empty ranges give the end iterator at once, and an empty union. |
| UnionExamples.UnionOfRepeated | burst/iterator/union_iterator.hpp:28-32 | The union of `[5,5,5]` alone is `[5,5,5]`. |
| UnionExamples.UnionOfTwo | burst/iterator/union_iterator.hpp:28-32 | The union of `[1,3,3]` and `[2,3]` is `[1,2,3,3]`: 3 comes out twice, as in the first range. |
| Buckets.FilterAt | burst/algorithm/sorting/detail/counting_sort.hpp:55-59 | An element sits in its key's group right after the earlier elements with that key. |
| Buckets.BelowStep | burst/algorithm/sorting/detail/counting_sort.hpp:44 | The elements below `k + 1` are, as a multiset, those below `k` plus group `k`, and their number grows by the size of group `k`. This is the step of the prefix sum. |
| Buckets.FindGroup | burst/algorithm/sorting/detail/counting_sort.hpp:52-61 | Every output position falls into the slot range of exactly one key below the range bound. |
| Buckets.BucketedElements | burst/algorithm/sorting/detail/counting_sort.hpp:52-61 | The first `k` groups together hold, with multiplicity, exactly the elements whose key is below `k`. No element is lost or duplicated. |
| Buckets.BucketedAt | burst/algorithm/sorting/detail/counting_sort.hpp:52-61 | Position `CountBelow(k) + t` of the stable sort holds element `t` of group `k`. |
| Buckets.BucketedIsStableSort | burst/algorithm/sorting/detail/counting_sort.hpp:47-61 | The reference sort is a permutation of the input, ordered by key, and keeps every key's elements in input order. |
| CountingSort.ValueRange | burst/algorithm/sorting/detail/counting_sort.hpp:27 | A value lies below the range exactly when it fits in `bits` binary digits, i.e. when it is a value of the image type. This is the corrected `value_range`. |
| CountingSort.ValueRangeNarrow | burst/algorithm/sorting/detail/counting_sort.hpp:27 | For image types narrower than `int`, the expression as written gives the intended range. |
| CountingSort.ValueRangeWrapsAtIntWidth | burst/algorithm/sorting/detail/counting_sort.hpp:27 | For a 32-bit image type the expression as written is 0, so `counters` has one entry. The index `collect` increments is inside that table exactly for the key `max()`, whose index wraps to 0. Every other key, 0 among them, writes past the end. |
| CountingSort.HistogramStep | burst/algorithm/sorting/detail/counting_sort.hpp:38-42 | Counting one more element increments the entry after its key and no other entry. |
| CountingSort.CountKeys | burst/algorithm/sorting/detail/counting_sort.hpp:38-42 | After the counting pass, entry 0 is 0 and entry `k + 1` is the number of elements whose key is `k`. |
| CountingSort.PrefixSums | burst/algorithm/sorting/detail/counting_sort.hpp:44 | Applied to that histogram, the in-place `partial_sum` makes entry `k` the number of elements whose key is below `k`. |
| CountingSort.Collect | burst/algorithm/sorting/detail/counting_sort.hpp:35-45 | Every index touched lies in the `K + 1` counters. Entry `k` ends up as the number of elements with a key below `k`, so entry 0 is 0 and the last entry is `n`, and the counters never decrease. |
| CountingSort.PlaceStep | burst/algorithm/sorting/detail/counting_sort.hpp:58-59 | Writing the next element to its slot stays in bounds, keeps every earlier placement and adds its own. |
| CountingSort.DisposeStep | burst/algorithm/sorting/detail/counting_sort.hpp:55-60 | The key's counter names the element's slot, the post-increment moves the counter to the next free slot, and the placement grows by this element. |
| CountingSort.PositionOrder | burst/algorithm/sorting/detail/counting_sort.hpp:55-59 | Element `i` goes before element `j` iff its key is smaller, or the keys are equal and `i` comes first. This makes the sort stable. |
| CountingSort.PlacedIsBucketed | burst/algorithm/sorting/detail/counting_sort.hpp:52-61 | Once every element is placed, the output is the stable sort by key. |
| CountingSort.DisposeDone | burst/algorithm/sorting/detail/counting_sort.hpp:52-61 | After the last element, each element is at its recorded slot and the slots follow the stable order. Each counter `k` then equals the number of elements with a key below `k + 1`. |
| CountingSort.Dispose | burst/algorithm/sorting/detail/counting_sort.hpp:52-61 | Every written index is in `[0, n)`, and distinct elements get distinct indices. The index order is the stable order by key, the output is the stable sort, and counter `k` ends at the end of group `k`. |
| CountingSort.CountingSortCopy | burst/algorithm/sorting/detail/counting_sort.hpp:69-83 | The returned end is `result + n`. The output is a permutation of the input, ordered by key, and every key's elements keep their input order. |

## Left out

- Comparator: the union iterator takes any strict weak order `compare`. The model fixes `<` on integers, so the descending-order use (a reversed comparator) is not modelled.
- Copying an iterator: under value semantics a copy is an independent value, so copy independence holds trivially and is not stated.
- Total count: the number of elements read equals the sum over distinct values of their largest multiplicity. This follows from `UnionIterator.OutputMultiplicity` and is not stated as a separate sum.
- `std::sort` internals: the re-sort is one concrete insertion sort by front. `UnionIterator.OutputDeterminedByWindows` shows that the order among tied windows does not change the output.
- `iterator_facade`, the const-reference selection, `reserve`, moving ranges into the vector and the `BOOST_STATIC_ASSERT` on the range type are C++ plumbing with no behaviour to model.
- The unused `value_to_skip_by` local in `increment` has no effect and is omitted.
- UnionIterator.Dereference and UnionIterator.Increment require a valid iterator that is not at the end. Between public operations the class keeps validity as its invariant, and calling them at the end is undefined behaviour in the C++.
- UnionIterator.Equal states its meaning only when one side, either one, is the end iterator, which is the comparison loops make. For two iterators that are both away from the end, it compares the window lists, as the C++ does, and the contract says nothing further.
- `dispose_move` and `counting_sort_move_impl` differ from the copy variant only in moving the elements, which a value model cannot observe.
- The `static_assert` that the image type is unsigned and integral: keys are `nat`, and the image type is given by its width `bits`.
- Counter width: the counters are `difference_type` in the C++ and unbounded naturals here. They never exceed `n`, so no overflow is left out.
- CountingSort.CountingSortCopy: requires every key to be a value of a `bits`-bit image type, which the C++ guarantees by the type of `map`. It uses the corrected `ValueRange` (see Findings).

## Findings

| source | as written | input that shows it | evidently intended | confidence | as-written member | corrected member |
|---|---|---|---|---|---|---|
| burst/algorithm/sorting/detail/counting_sort.hpp:27 | `value_range = numeric_limits<image_type>::max() + 1`. For an image type at least as wide as `int`, the addition is done in that unsigned type and wraps to 0. | `map` returning `std::uint32_t`: `value_range` is 0 and `counters` has one entry. `collect` increments `counters[map(x) + 1]`, which is index 1 or more for every key below `max()`. For example, key 0 writes index 1. Only the key `max()` wraps to index 0. | The number of image values, 2^bits, so that every key plus one indexes the `value_range + 1` counters. | not executed; medium: the static assertion admits every unsigned type, although a table of 2^32 counters on the stack suggests only narrow types were ever meant | CountingSort.ValueRangeAsWritten, shown by CountingSort.ValueRangeWrapsAtIntWidth | CountingSort.ValueRange, used by CountingSort.CountingSortCopy |
