/**
 * What the queue's loops compute, as functions on sequences.
 *
 * `Insert` is the result of Push's backward walk, `Sink` the result of one
 * pass of Fix's inner loop, `InsertionSort` the result of Fix, and `PushAll`
 * the queue obtained by pushing a sequence of items one at a time into an
 * empty queue. The lemmas state what these promise: sortedness, permutation,
 * where the new item lands, and how tied items are ordered.
 */
module Insertion {
  import opened Ordering

  /**
   * Push's walk: `x` is appended, then moves left past every predecessor it
   * is less than and stops at the first one it is not less than.
   */
  function Insert<T>(less: (T, T) -> bool, s: seq<T>, x: T): (r: seq<T>)
    ensures |r| == |s| + 1
  {
    if |s| == 0 || !less(x, s[|s| - 1]) then s + [x]
    else Insert(less, s[..|s| - 1], x) + [s[|s| - 1]]
  }

  /**
   * The index at which Push leaves `x`: every item before it is kept in place,
   * `x` is not less than the item just before it, and `x` is less than every
   * item after it.
   */
  function PushIndex<T>(less: (T, T) -> bool, s: seq<T>, x: T): (k: nat)
    ensures k <= |s|
    ensures Insert(less, s, x) == s[..k] + [x] + s[k..]
    ensures k == 0 || !less(x, s[k - 1])
    ensures forall j :: k <= j < |s| ==> less(x, s[j])
  {
    if |s| == 0 || !less(x, s[|s| - 1]) then
      assert s[..|s|] == s;
      |s|
    else
      var init := s[..|s| - 1];
      var k := PushIndex(less, init, x);
      assert init[..k] == s[..k];
      assert init[k..] + [s[|s| - 1]] == s[k..];
      k
  }

  /** Push adds exactly `x`: the new queue is a permutation of the old one plus `x`. */
  lemma InsertPermutes<T>(less: (T, T) -> bool, s: seq<T>, x: T)
    ensures multiset(Insert(less, s, x)) == multiset(s) + multiset{x}
  {
    var k := PushIndex(less, s, x);
    assert s == s[..k] + s[k..];
    assert multiset(s[..k] + [x] + s[k..]) == multiset(s[..k]) + multiset{x} + multiset(s[k..]);
  }

  /**
   * Push on a sorted queue puts `x` behind every item it is not less than,
   * ties included: the items before `x` are exactly the ones not greater than it.
   */
  lemma PushAfterTies<T(!new)>(less: (T, T) -> bool, s: seq<T>, x: T)
    requires StrictWeakOrder(less) && Sorted(less, s)
    ensures forall j :: 0 <= j < PushIndex(less, s, x) ==> !less(x, s[j])
  {
    var k := PushIndex(less, s, x);
    SortedPairwise(less, s);
    forall j | 0 <= j < k
      ensures !less(x, s[j])
    {
      NotLessTransitive(less, s[j], s[k - 1], x);
    }
  }

  /** Push keeps a sorted queue sorted. */
  lemma InsertSorted<T(!new)>(less: (T, T) -> bool, s: seq<T>, x: T)
    requires StrictWeakOrder(less) && Sorted(less, s)
    ensures Sorted(less, Insert(less, s, x))
  {
    var k := PushIndex(less, s, x);
    var r := Insert(less, s, x);
    assert r == s[..k] + [x] + s[k..];
    forall i | 0 < i < |r|
      ensures !less(r[i], r[i - 1])
    {
      if i < k {
        assert r[i] == s[i] && r[i - 1] == s[i - 1];
      } else if i == k {
        assert r[i] == x && r[i - 1] == s[k - 1];
      } else if i == k + 1 {
        assert r[i] == s[k] && r[i - 1] == x;
      } else {
        assert r[i] == s[i - 1] && r[i - 1] == s[i - 2];
      }
    }
  }

  /**
   * Push is stable: among the items tied with any `e`, the pushed item comes
   * after all the ones already queued, which keep their order.
   */
  lemma InsertTies<T(!new)>(less: (T, T) -> bool, s: seq<T>, x: T, e: T)
    requires StrictWeakOrder(less)
    ensures Ties(less, Insert(less, s, x), e) == Ties(less, s, e) + Ties(less, [x], e)
  {
    var k := PushIndex(less, s, x);
    var front, back := s[..k], s[k..];
    assert s == front + back;
    if Tied(less, x, e) {
      forall j | 0 <= j < |back|
        ensures !Tied(less, back[j], e)
      {
        assert back[j] == s[k + j] && less(x, s[k + j]);
        OrderedBreaksTie(less, x, s[k + j], e);
      }
      TiesNone(less, back, e);
    }
    TiesAround(less, front, x, back, e);
  }

  /** Helper: the ties of `front + [x] + back`, when `back` holds none or `x` is not one. */
  lemma TiesAround<T>(less: (T, T) -> bool, front: seq<T>, x: T, back: seq<T>, e: T)
    requires Tied(less, x, e) ==> Ties(less, back, e) == []
    ensures Ties(less, front + [x] + back, e) == Ties(less, front + back, e) + Ties(less, [x], e)
  {
    var a, t, b := Ties(less, front, e), Ties(less, [x], e), Ties(less, back, e);
    TiesConcat3(less, front, [x], back, e);
    TiesConcat(less, front, back, e);
    TiesSingleton(less, x, e);
    if Tied(less, x, e) {
      assert a + t + b == a + t && a + b == a;
    } else {
      assert a + t == a && (a + b) + t == a + b;
    }
  }

  /**
   * One pass of Fix's inner loop: `y` moves left past every predecessor that
   * is not less than it, ties included, and stops behind the first one that is.
   */
  function Sink<T>(less: (T, T) -> bool, s: seq<T>, y: T): (r: seq<T>)
    ensures |r| == |s| + 1
  {
    if |s| == 0 || less(s[|s| - 1], y) then s + [y]
    else Sink(less, s[..|s| - 1], y) + [s[|s| - 1]]
  }

  /**
   * The index at which one pass of Fix leaves `y`: the item just before it is
   * less than `y`, and no item after it is.
   */
  function SinkIndex<T>(less: (T, T) -> bool, s: seq<T>, y: T): (k: nat)
    ensures k <= |s|
    ensures Sink(less, s, y) == s[..k] + [y] + s[k..]
    ensures k == 0 || less(s[k - 1], y)
    ensures forall j :: k <= j < |s| ==> !less(s[j], y)
  {
    if |s| == 0 || less(s[|s| - 1], y) then
      assert s[..|s|] == s;
      |s|
    else
      var k := SinkIndex(less, s[..|s| - 1], y);
      assert s[..|s| - 1][..k] == s[..k];
      assert s[..|s| - 1][k..] + [s[|s| - 1]] == s[k..];
      k
  }

  /** One pass of Fix's inner loop only moves `y`: the result is a permutation of `s` plus `y`. */
  lemma SinkPermutes<T>(less: (T, T) -> bool, s: seq<T>, y: T)
    ensures multiset(Sink(less, s, y)) == multiset(s) + multiset{y}
  {
    var k := SinkIndex(less, s, y);
    assert s == s[..k] + s[k..];
    assert multiset(s[..k] + [y] + s[k..]) == multiset(s[..k]) + multiset{y} + multiset(s[k..]);
  }

  /** One pass of Fix's inner loop keeps a sorted prefix sorted. */
  lemma SinkSorted<T(!new)>(less: (T, T) -> bool, s: seq<T>, y: T)
    requires StrictWeakOrder(less) && Sorted(less, s)
    ensures Sorted(less, Sink(less, s, y))
  {
    var k := SinkIndex(less, s, y);
    var r := Sink(less, s, y);
    assert r == s[..k] + [y] + s[k..];
    forall i | 0 < i < |r|
      ensures !less(r[i], r[i - 1])
    {
      if i < k {
        assert r[i] == s[i] && r[i - 1] == s[i - 1];
      } else if i == k {
        assert r[i] == y && r[i - 1] == s[k - 1];
      } else if i == k + 1 {
        assert r[i] == s[k] && r[i - 1] == y;
      } else {
        assert r[i] == s[i - 1] && r[i - 1] == s[i - 2];
      }
    }
  }

  /**
   * Fix's inner loop is anti-stable: on a sorted prefix, `y` settles in front
   * of every item it is tied with.
   */
  lemma SinkTies<T(!new)>(less: (T, T) -> bool, s: seq<T>, y: T, e: T)
    requires StrictWeakOrder(less) && Sorted(less, s)
    ensures Ties(less, Sink(less, s, y), e) == Ties(less, [y], e) + Ties(less, s, e)
  {
    var k := SinkIndex(less, s, y);
    var front, back := s[..k], s[k..];
    assert s == front + back;
    if Tied(less, y, e) {
      SortedPairwise(less, s);
      forall j | 0 <= j < |front|
        ensures !Tied(less, front[j], e)
      {
        assert front[j] == s[j] && !less(s[k - 1], s[j]);
        NotLessTransitive(less, y, s[j], s[k - 1]);
        assert less(s[j], y);
        OrderedBreaksTie(less, y, s[j], e);
      }
      TiesNone(less, front, e);
    }
    TiesAroundFront(less, front, y, back, e);
  }

  /** Helper: the ties of `front + [y] + back`, when `front` holds none or `y` is not one. */
  lemma TiesAroundFront<T>(less: (T, T) -> bool, front: seq<T>, y: T, back: seq<T>, e: T)
    requires Tied(less, y, e) ==> Ties(less, front, e) == []
    ensures Ties(less, front + [y] + back, e) == Ties(less, [y], e) + Ties(less, front + back, e)
  {
    var a, t, b := Ties(less, front, e), Ties(less, [y], e), Ties(less, back, e);
    TiesConcat3(less, front, [y], back, e);
    TiesConcat(less, front, back, e);
    TiesSingleton(less, y, e);
    if Tied(less, y, e) {
      assert a + t == t && a + b == b;
    } else {
      assert a + t == a && t + (a + b) == a + b;
    }
  }

  /** Fix: insertion sort of the whole sequence, front to back, by `Sink`. */
  function InsertionSort<T>(less: (T, T) -> bool, s: seq<T>): (r: seq<T>)
    ensures |r| == |s|
  {
    if |s| == 0 then []
    else Sink(less, InsertionSort(less, s[..|s| - 1]), s[|s| - 1])
  }

  /** Fix only reorders: the result is a permutation of the input. */
  lemma {:induction false} InsertionSortPermutes<T>(less: (T, T) -> bool, s: seq<T>)
    ensures multiset(InsertionSort(less, s)) == multiset(s)
  {
    if |s| > 0 {
      var init := s[..|s| - 1];
      InsertionSortPermutes(less, init);
      SinkPermutes(less, InsertionSort(less, init), s[|s| - 1]);
      assert s == init + [s[|s| - 1]];
    }
  }

  /** Fix leaves any sequence sorted. */
  lemma {:induction false} InsertionSortSorted<T(!new)>(less: (T, T) -> bool, s: seq<T>)
    requires StrictWeakOrder(less)
    ensures Sorted(less, InsertionSort(less, s))
  {
    if |s| > 0 {
      InsertionSortSorted(less, s[..|s| - 1]);
      SinkSorted(less, InsertionSort(less, s[..|s| - 1]), s[|s| - 1]);
    }
  }

  /** Fix reverses the order of every group of tied items. */
  lemma {:induction false} InsertionSortReversesTies<T(!new)>(less: (T, T) -> bool, s: seq<T>, e: T)
    requires StrictWeakOrder(less)
    ensures Ties(less, InsertionSort(less, s), e) == Reverse(Ties(less, s, e))
  {
    if |s| > 0 {
      var init, y := s[..|s| - 1], s[|s| - 1];
      InsertionSortReversesTies(less, init, e);
      InsertionSortSorted(less, init);
      SinkTies(less, InsertionSort(less, init), y, e);
      var t := Ties(less, init, e);
      if Tied(less, y, e) {
        assert Ties(less, s, e) == t + [y];
        assert (t + [y])[..|t|] == t;
        assert Ties(less, [y], e) == [y] by {
          assert [y][..0] == [];
        }
      } else {
        assert Ties(less, s, e) == t;
        assert Ties(less, [y], e) == [] by {
          assert [y][..0] == [];
        }
      }
    }
  }

  /** Fix changes nothing in a sequence that is strictly increasing. */
  lemma {:induction false} InsertionSortStrictlyIncreasing<T>(less: (T, T) -> bool, s: seq<T>)
    requires StrictlyIncreasing(less, s)
    ensures InsertionSort(less, s) == s
  {
    if |s| > 0 {
      var init := s[..|s| - 1];
      assert StrictlyIncreasing(less, init);
      InsertionSortStrictlyIncreasing(less, init);
      assert init + [s[|s| - 1]] == s;
    }
  }

  /** After Fix the front is a least item of the whole queue. */
  lemma InsertionSortFrontIsLeast<T(!new)>(less: (T, T) -> bool, s: seq<T>)
    requires StrictWeakOrder(less) && |s| > 0
    ensures forall y | y in s :: !less(y, InsertionSort(less, s)[0])
  {
    var r := InsertionSort(less, s);
    InsertionSortSorted(less, s);
    InsertionSortPermutes(less, s);
    SortedFrontIsLeast(less, r);
    forall y | y in s
      ensures y in r
    {
      assert y in multiset(s);
    }
  }

  /**
   * Overwriting one item of the queue with a value less than every other item
   * and then calling Fix brings that value to the front.
   */
  lemma FixMovesNewMinimumToFront<T(!new)>(less: (T, T) -> bool, s: seq<T>, i: int, x: T)
    requires StrictWeakOrder(less) && 0 <= i < |s|
    requires forall j :: 0 <= j < |s| && j != i ==> less(x, s[j])
    ensures InsertionSort(less, s[i := x])[0] == x
  {
    var t := s[i := x];
    var front := InsertionSort(less, t)[0];
    InsertionSortFrontIsLeast(less, t);
    InsertionSortPermutes(less, t);
    assert front in multiset(InsertionSort(less, t));
    assert !less(t[i], front);
    forall j | 0 <= j < |t| && j != i
      ensures t[j] != front
    {
      assert less(x, t[j]);
    }
    var j :| 0 <= j < |t| && t[j] == front;
    assert j == i;
  }

  /** Pushing the items of `s` one at a time, in order, into an empty queue. */
  function PushAll<T>(less: (T, T) -> bool, s: seq<T>): (r: seq<T>)
    ensures |r| == |s|
  {
    if |s| == 0 then []
    else Insert(less, PushAll(less, s[..|s| - 1]), s[|s| - 1])
  }

  /** Pushing every item of `s` queues exactly the items of `s`. */
  lemma {:induction false} PushAllPermutes<T>(less: (T, T) -> bool, s: seq<T>)
    ensures multiset(PushAll(less, s)) == multiset(s)
  {
    if |s| > 0 {
      var init := s[..|s| - 1];
      PushAllPermutes(less, init);
      InsertPermutes(less, PushAll(less, init), s[|s| - 1]);
      assert s == init + [s[|s| - 1]];
    }
  }

  /** A queue built by Push alone is sorted. */
  lemma {:induction false} PushAllSorted<T(!new)>(less: (T, T) -> bool, s: seq<T>)
    requires StrictWeakOrder(less)
    ensures Sorted(less, PushAll(less, s))
  {
    if |s| > 0 {
      PushAllSorted(less, s[..|s| - 1]);
      InsertSorted(less, PushAll(less, s[..|s| - 1]), s[|s| - 1]);
    }
  }

  /**
   * A queue built by Push alone keeps every group of tied items in arrival
   * order; with `PushAllSorted` and the permutation in `PushAll`'s contract
   * this makes it the stable sort of the arrivals.
   */
  lemma {:induction false} PushAllStable<T(!new)>(less: (T, T) -> bool, s: seq<T>, e: T)
    requires StrictWeakOrder(less)
    ensures Ties(less, PushAll(less, s), e) == Ties(less, s, e)
  {
    if |s| > 0 {
      var init, x := s[..|s| - 1], s[|s| - 1];
      PushAllStable(less, init, e);
      InsertTies(less, PushAll(less, init), x, e);
      assert s == init + [x];
      TiesConcat(less, init, [x], e);
    }
  }
}
