# Insertion-sort priority queue, modelled in Dafny

This project models `queue.go`, a generic priority queue kept sorted by insertion sort. The queue is a growable sequence of items. Each item type supplies a `Less` predicate. A caller inverts `Less` to get a max-queue.

- `Push` appends an item, then swaps it leftwards while it is `Less` than its predecessor.
- `Fix` is a full in-place insertion sort. Callers run it after overwriting an item directly.
- `PopFront` and `PopBack` remove an item from either end. On an empty queue they return nothing.
- `Len` and `Index` read the queue.

The model has four modules:

- `Ordering` (`ordering.dfy`) holds the `Less` contract of `types.go`, as a comparator value `less` required to be a strict weak order. It also defines:
  - the sort invariant `Sorted`: no adjacent pair is inverted;
  - `Ties(less, s, e)`: the items of `s` tied with `e`, in order. The stability statements use it.
- `Insertion` (`insertion.dfy`) holds what the loops compute, as functions on sequences:
  - `Insert`: the result of Push's backward walk;
  - `Sink`: the result of one pass of Fix's inner loop;
  - `InsertionSort`: the result of Fix;
  - `PushAll`: the queue built by pushing a sequence of items one at a time.

  Its lemmas prove sortedness, permutation, where the new item lands, and how tied items end up ordered.
- `InsertionQueue` (`queue.dfy`) holds the queue itself, as the class `Queue`:
  - a `seq` field `items`;
  - a constant comparator `less`;
  - one method or function per operation.

  `Push` and `Fix` keep the source's loops of adjacent swaps. Their postconditions tie the new `items` to `Insert` and `InsertionSort` of the old ones. `Set` models the direct write `q[i] = x` that the tests use before calling `Fix`.
- `QueueExamples` (`queue_examples.dfy`) replays the documented examples on integers ordered by `<`. It also shows Push and Fix side by side on tied pairs.

Behaviour on ties, proved for every strict weak order:

- **Push is stable.** Among the items tied with any `e`, a pushed item lands after the ones already queued, which keep their order (`InsertTies`). So a queue built by pushes alone lists every group of ties in arrival order (`PushAllStable`). This is the stable-sort agreement the tests check with `sort.SliceStable`.
- **Fix is not stable.** Its inner loop swaps whenever the predecessor is not `Less` than the moving item, ties included. As a result, Fix reverses every group of tied items (`InsertionSortReversesTies`).
- **Consequence.** Fix changes nothing when the queue is strictly increasing, since every inner loop then stops at once (`InsertionSortStrictlyIncreasing`). On a sorted queue that holds distinct tied items, Fix still reorders them: each group of ties comes out reversed, and a second Fix reverses it back.

## Model

| member | source | states |
|---|---|---|
| `Ordering.NotLessTransitive` | types.go:4-9 | under a strict weak `Less`, "not greater than" is transitive |
| `Ordering.OrderedBreaksTie` | types.go:4-9 | an item strictly ordered against an item tied with `e` is not tied with `e` |
| `Ordering.SortedPairwise` | doc.go:1-3 | in a sorted queue no later item is `Less` than any earlier one, not just the adjacent ones |
| `Ordering.SortedFrontIsLeast` | queue.go:48-58 | the front of a sorted queue is a least item: no queued item is `Less` than it |
| `Ordering.SortedBackIsGreatest` | queue.go:60-70 | the back of a sorted queue is a greatest item: it is `Less` than no queued item |
| `Insertion.Insert` | queue.go:23-32 | the queue after Push's walk is one item longer; `PushIndex` gives its full shape |
| `Insertion.PushIndex` | queue.go:24-32 | Push leaves the old items in order with `x` inserted at one index k: `x` is not `Less` than the item before it and is `Less` than every item after it |
| `Insertion.InsertPermutes` | queue.go:23-27 | after Push the queue holds exactly the old items plus `x` (multiset) |
| `Insertion.PushAfterTies` | queue.go:25-31 | on a sorted queue, every item in front of the pushed `x` is one that `x` is not `Less` than, so `x` goes behind its ties |
| `Insertion.InsertSorted` | queue.go:22-33 | Push keeps a sorted queue sorted |
| `Insertion.InsertTies` | queue.go:25-31 | Push is stable: the items tied with any `e` keep their order and a tied `x` joins them last |
| `Insertion.Sink` | queue.go:38-44 | one pass of Fix's inner loop makes the prefix one item longer; `SinkIndex` gives its full shape |
| `Insertion.SinkIndex` | queue.go:38-44 | the inner loop leaves the moving item `y` at one index k: the item before it is `Less` than `y` and no item after it is |
| `Insertion.SinkPermutes` | queue.go:38-44 | the inner loop only moves `y`: the prefix plus `y` is a permutation of before |
| `Insertion.SinkSorted` | queue.go:38-44 | the inner loop turns a sorted prefix plus `y` into a sorted prefix |
| `Insertion.SinkTies` | queue.go:38-44 | on a sorted prefix, `y` settles in front of every item it is tied with |
| `Insertion.InsertionSort` | queue.go:36-46 | Fix keeps the length of the queue |
| `Insertion.InsertionSortPermutes` | queue.go:36-46 | Fix only reorders: the result is a permutation of the input |
| `Insertion.InsertionSortSorted` | queue.go:36-46 | Fix turns any sequence into a sorted one |
| `Insertion.InsertionSortReversesTies` | queue.go:37-45 | Fix reverses the order of every group of tied items, so it is not stable |
| `Insertion.InsertionSortStrictlyIncreasing` | queue.go:38-41 | Fix changes nothing in a strictly increasing queue, since every inner loop stops at once |
| `Insertion.InsertionSortFrontIsLeast` | queue.go:36-46 | after Fix the front is a least item of the queue |
| `Insertion.FixMovesNewMinimumToFront` | queue_test.go:183-195 | overwriting one item with a value `Less` than every other item, then calling Fix, brings that value to the front |
| `Insertion.PushAll` | queue_test.go:114-119 | pushing n items one at a time gives a queue of n items |
| `Insertion.PushAllPermutes` | queue_test.go:114-119 | pushing items one at a time queues exactly those items |
| `Insertion.PushAllSorted` | queue_test.go:81-98 | a queue built by Push alone is sorted |
| `Insertion.PushAllStable` | queue_test.go:121-131 | a queue built by Push alone lists every group of tied items in arrival order, as a stable sort does |
| `InsertionQueue.Queue.constructor` | queue.go:6-9 | a new queue is empty and sorted, with the given comparator |
| `InsertionQueue.Queue.Len` | queue.go:11-14 | the number of queued items |
| `InsertionQueue.Queue.Index` | queue.go:16-20 | the item at a valid index, which is one of the queued items; an index out of range is a caller error |
| `InsertionQueue.Queue.Set` | queue_test.go:187-188 | a direct write replaces exactly one item, which may break the sort order |
| `InsertionQueue.Queue.Push` | queue.go:22-33 | the new items are `Insert` of the old ones, a permutation of them plus `x`, and sorted whenever the old ones were |
| `InsertionQueue.Queue.Fix` | queue.go:35-46 | the new items are `InsertionSort` of the old ones: sorted, and a permutation of them |
| `InsertionQueue.Queue.SinkAt` | queue.go:38-44 | one inner-loop pass turns the first i+1 items into `Sink` of the first i items and item i, leaving the rest alone |
| `InsertionQueue.Queue.PopFront` | queue.go:48-58 | an empty queue gives nothing and stays empty; otherwise the old front comes out, the rest stay in order, sortedness is kept, and on a sorted queue the popped item is a least one |
| `InsertionQueue.Queue.PopBack` | queue.go:60-70 | an empty queue gives nothing and stays empty; otherwise the old back comes out, the rest stay in order, sortedness is kept, and on a sorted queue the popped item is a greatest one |
| `QueueExamples.IntLessIsStrictWeakOrder` | examples_test.go:9-11 | integers ordered by `<` satisfy the `Less` contract |
| `QueueExamples.OneTwoThree` | examples_test.go:14-18 | a new integer min-queue after pushing 1, 2 and 3 holds exactly 1, 2, 3 in that order |
| `QueueExamples.PushExample` | examples_test.go:13-22 | pushing 1, 2, 3 leaves 1 at the front |
| `QueueExamples.PopFrontExample` | examples_test.go:24-34 | pushing 1, 2, 3 then popping the front gives 1 and leaves 2, 3 |
| `QueueExamples.PopBackExample` | examples_test.go:36-46 | pushing 1, 2, 3 then popping the back gives 3 and leaves 1, 2 |
| `QueueExamples.FixOverwrittenFront` | examples_test.go:55-56 | Fix on 4, 2, 3 gives 2, 3, 4 |
| `QueueExamples.FixExample` | examples_test.go:48-60 | overwriting the front of 1, 2, 3 with 4 and calling Fix gives 2, 3, 4 with 2 at the front |
| `QueueExamples.FixSwapsTiedPair` | queue.go:38-44 | Fix on two tied pairs puts the second in front of the first |
| `QueueExamples.TiesExample` | queue.go:25-43 | two tied items stay in arrival order after Push, and Fix swaps them |

## Left out

- Go slice mechanics are not modelled: `append`'s capacity growth, `PopFront` re-slicing over the same backing array, and the pointer to a copy that the pops return. The queue is a `seq` that the methods reassign, and a pop returns an `Option`.
- A `Less` that is not a strict weak order (for example the `>=` comparator at queue_test.go:90) is outside the model. The queue is built only with a strict weak order, and the source leaves other comparators without defined behaviour.
- `InsertionQueue.Queue.Index`: Go panics on an index out of range. Here that is a precondition, because such an index is a caller error with no result to model.
- `InsertionQueue.Queue.Set`: the direct write `q[i] = x` panics in Go on an index out of range. Here that is a precondition too, for the same reason.
- `InsertionQueue.Queue.Len` returns a `nat` rather than Go's `int`, since a length is never negative.
- `InsertionQueue.Queue.SinkAt` is Fix's inner loop, written as a method of its own. It is the same loop over the same state; it is split out so that each loop has its own invariants.
- `Insertion.PushAllStable`: together with `PushAllSorted` and `PushAllPermutes`, it characterises a stable sort. The model does not prove separately that these three properties determine the result uniquely.
- The pop methods are specified one call at a time. No lemma drains a whole queue. Draining by `PopFront` yields the queue's items front to back, so in non-descending order when sorted. Draining by `PopBack` yields them back to front.
- The tests' random, time-seeded data, the benchmarks, the mock item type and the package documentation have no logic to model.
- There is no concurrency in the source, and none is modelled.
