/**
 * The insertion-sort priority queue: a growable sequence of items that Push
 * keeps sorted by walking each new item backwards into place.
 *
 * The queue's only state is its sequence of items, `items`. Its comparator
 * `less` is fixed when the queue is created. Callers may overwrite an item
 * directly (`Set`), which can break the sort order; `Fix` restores it.
 */
module InsertionQueue {
  import opened Ordering
  import opened Insertion

  /** An item, or nothing: what a pop on an empty queue returns. */
  datatype Option<T> = None | Some(value: T)

  class Queue<T(!new)> {
    /** The items' `Less` predicate. */
    const less: (T, T) -> bool
    /** The queued items, front first. */
    var items: seq<T>

    /**
     * The comparator is a strict weak order. It reads only the constant
     * `less`, so no method can break it: `Set` and `SinkAt` keep it without
     * saying so, and the methods that require it also ensure it.
     */
    ghost predicate Valid() {
      StrictWeakOrder(less)
    }

    /** A new, empty queue. */
    constructor (less: (T, T) -> bool)
      requires StrictWeakOrder(less)
      ensures Valid() && this.less == less
      ensures items == [] && Sorted(less, items)
    {
      this.less := less;
      items := [];
    }

    /** The number of queued items. */
    function Len(): (n: nat)
      reads this
      ensures n == |items|
    {
      |items|
    }

    /** The item at `index`; an index outside the queue is a caller error. */
    function Index(index: int): (x: T)
      reads this
      requires 0 <= index < Len()
      ensures x == items[index]
      ensures x in multiset(items)
    {
      items[index]
    }

    /** A direct write into the queue, which may break the sort order. */
    method Set(index: int, x: T)
      requires 0 <= index < Len()
      modifies this
      ensures items == old(items)[index := x]
      ensures multiset(items) == old(multiset(items)) - multiset{old(items)[index]} + multiset{x}
    {
      items := items[index := x];
    }

    /**
     * Appends `x`, then swaps it with its predecessor for as long as it is
     * less than that predecessor.
     */
    method Push(x: T)
      requires Valid()
      modifies this
      ensures Valid()
      ensures items == Insert(less, old(items), x)
      ensures multiset(items) == old(multiset(items)) + multiset{x}
      ensures Sorted(less, old(items)) ==> Sorted(less, items)
    {
      ghost var before := items;
      items := items + [x];
      var i := |items| - 1;
      while i > 0
        invariant 0 <= i < |items| == |before| + 1
        invariant items[i] == x
        invariant items[..i] == before[..i]
        invariant Insert(less, before, x) == Insert(less, items[..i], x) + items[i + 1..]
        decreases i
      {
        if less(items[i], items[i - 1]) {
          ghost var prev := items;
          items := items[i := items[i - 1]][i - 1 := items[i]];
          assert prev[..i][..i - 1] == prev[..i - 1] == items[..i - 1];
          assert Insert(less, prev[..i], x) == Insert(less, prev[..i - 1], x) + [prev[i - 1]];
          assert items[i..] == [prev[i - 1]] + prev[i + 1..];
          i := i - 1;
        } else {
          break;
        }
      }
      assert items == items[..i] + [x] + items[i + 1..];
      InsertPermutes(less, before, x);
      if Sorted(less, before) {
        InsertSorted(less, before, x);
      }
    }

    /**
     * Insertion sort of the whole queue: each item in turn, from the second
     * on, is moved left by `SinkAt` into the sorted prefix before it.
     */
    method Fix()
      requires Valid()
      modifies this
      ensures Valid()
      ensures items == InsertionSort(less, old(items))
      ensures Sorted(less, items)
      ensures multiset(items) == old(multiset(items))
    {
      ghost var before := items;
      var i := 1;
      while i < |items|
        invariant |items| == |before|
        invariant 1 <= i && (i <= |items| || |items| == 0)
        invariant |items| > 0 ==> items[..i] == InsertionSort(less, before[..i])
        invariant |items| > 0 ==> items[i..] == before[i..]
      {
        SinkAt(i);
        assert before[..i + 1] == before[..i] + [before[i]];
        i := i + 1;
      }
      if |items| > 0 {
        assert items == items[..i] && before == before[..i];
      }
      InsertionSortSorted(less, before);
      InsertionSortPermutes(less, before);
    }

    /**
     * One pass of Fix's inner loop: the item at `i` is swapped with its
     * predecessor until the predecessor is less than it.
     */
    method SinkAt(i: nat)
      requires i < |items|
      modifies this
      ensures |items| == |old(items)|
      ensures items[..i + 1] == Sink(less, old(items)[..i], old(items)[i])
      ensures items[i + 1..] == old(items)[i + 1..]
    {
      ghost var sorted, y := items[..i], items[i];
      var j := i - 1;
      while j >= 0
        invariant -1 <= j < i
        invariant |items| == |old(items)|
        invariant items[j + 1] == y
        invariant items[..j + 1] == sorted[..j + 1]
        invariant items[j + 2..i + 1] == sorted[j + 1..]
        invariant items[i + 1..] == old(items)[i + 1..]
        invariant Sink(less, sorted, y) == Sink(less, sorted[..j + 1], y) + sorted[j + 1..]
        decreases j + 1
      {
        if less(items[j], items[j + 1]) {
          break;
        }
        ghost var prev := items;
        items := items[j := items[j + 1]][j + 1 := items[j]];
        assert prev[j] == sorted[j];
        assert sorted[..j + 1] == sorted[..j] + [sorted[j]];
        assert Sink(less, sorted[..j + 1], y) == Sink(less, sorted[..j], y) + [sorted[j]];
        assert sorted[j..] == [sorted[j]] + sorted[j + 1..];
        assert items[..j] == prev[..j];
        assert items[j + 1..i + 1] == [sorted[j]] + prev[j + 2..i + 1];
        j := j - 1;
      }
      assert items[..i + 1] == items[..j + 1] + [y] + items[j + 2..i + 1];
    }

    /** Removes and returns the front item, or returns nothing on an empty queue. */
    method PopFront() returns (r: Option<T>)
      requires Valid()
      modifies this
      ensures Valid()
      ensures old(items) == [] ==> r == None && items == old(items)
      ensures old(items) != [] ==> r == Some(old(items)[0]) && items == old(items)[1..]
      ensures Sorted(less, old(items)) ==> Sorted(less, items)
      ensures Sorted(less, old(items)) && r.Some? ==> forall y | y in old(items) :: !less(y, r.value)
    {
      if |items| == 0 {
        return None;
      }
      if Sorted(less, items) {
        SortedFrontIsLeast(less, items);
      }
      r := Some(items[0]);
      items := items[1..];
    }

    /** Removes and returns the back item, or returns nothing on an empty queue. */
    method PopBack() returns (r: Option<T>)
      requires Valid()
      modifies this
      ensures Valid()
      ensures old(items) == [] ==> r == None && items == old(items)
      ensures old(items) != [] ==> r == Some(old(items)[|old(items)| - 1]) && items == old(items)[..|old(items)| - 1]
      ensures Sorted(less, old(items)) ==> Sorted(less, items)
      ensures Sorted(less, old(items)) && r.Some? ==> forall y | y in old(items) :: !less(r.value, y)
    {
      if |items| == 0 {
        return None;
      }
      if Sorted(less, items) {
        SortedBackIsGreatest(less, items);
      }
      r := Some(items[|items| - 1]);
      items := items[..|items| - 1];
    }
  }
}
