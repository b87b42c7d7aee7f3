/**
 * The ordering contract between queued items.
 *
 * Every item type stored in the queue supplies a `Less` predicate; here it is
 * a comparator `less` passed as a value. The queue only ever asks `less`, so
 * everything it promises rests on `less` being a strict weak order.
 */
module Ordering {

  /** `less` is irreflexive and transitive, and "neither is less" (a tie) is transitive too. */
  ghost predicate StrictWeakOrder<T(!new)>(less: (T, T) -> bool) {
    && (forall a :: !less(a, a))
    && (forall a, b, c :: less(a, b) && less(b, c) ==> less(a, c))
    && (forall a, b, c :: Tied(less, a, b) && Tied(less, b, c) ==> Tied(less, a, c))
  }

  /** Neither item is less than the other. */
  predicate Tied<T>(less: (T, T) -> bool, a: T, b: T) {
    !less(a, b) && !less(b, a)
  }

  /** No adjacent pair is inverted: the sort invariant of the queue. */
  ghost predicate Sorted<T>(less: (T, T) -> bool, s: seq<T>) {
    forall i :: 0 < i < |s| ==> !less(s[i], s[i - 1])
  }

  /** Every adjacent pair is strictly increasing (so there are no ties at all). */
  ghost predicate StrictlyIncreasing<T>(less: (T, T) -> bool, s: seq<T>) {
    forall i :: 0 < i < |s| ==> less(s[i - 1], s[i])
  }

  /** "Not greater than" is transitive under a strict weak order. */
  lemma NotLessTransitive<T(!new)>(less: (T, T) -> bool, a: T, b: T, c: T)
    requires StrictWeakOrder(less)
    ensures !less(b, a) && !less(c, b) ==> !less(c, a)
  {
    if !less(b, a) && !less(c, b) {
      if less(a, b) {
        assert less(c, a) ==> less(c, b);
      } else if less(b, c) {
        assert less(c, a) ==> less(b, a);
      } else {
        assert Tied(less, a, b) && Tied(less, b, c);
      }
    }
  }

  /** An item ordered strictly against one tied with `e` is not itself tied with `e`. */
  lemma OrderedBreaksTie<T(!new)>(less: (T, T) -> bool, a: T, b: T, e: T)
    requires StrictWeakOrder(less)
    requires Tied(less, a, e) && (less(a, b) || less(b, a))
    ensures !Tied(less, b, e)
  {
    assert Tied(less, a, e) && Tied(less, e, b) ==> Tied(less, a, b);
  }

  /** Adjacent sortedness gives sortedness between every pair of positions. */
  lemma {:induction false} SortedPairwise<T(!new)>(less: (T, T) -> bool, s: seq<T>)
    requires StrictWeakOrder(less) && Sorted(less, s)
    ensures forall i, j :: 0 <= i <= j < |s| ==> !less(s[j], s[i])
  {
    if |s| > 1 {
      var init := s[..|s| - 1];
      assert Sorted(less, init);
      SortedPairwise(less, init);
      forall i | 0 <= i < |s| - 1
        ensures !less(s[|s| - 1], s[i])
      {
        assert init[i] == s[i] && init[|s| - 2] == s[|s| - 2];
        NotLessTransitive(less, s[i], s[|s| - 2], s[|s| - 1]);
      }
      forall i, j | 0 <= i <= j < |s|
        ensures !less(s[j], s[i])
      {
        if j < |s| - 1 {
          assert init[i] == s[i] && init[j] == s[j];
        }
      }
    }
  }

  /** The front of a sorted sequence is a least element: nothing in it is less than the front. */
  lemma SortedFrontIsLeast<T(!new)>(less: (T, T) -> bool, s: seq<T>)
    requires StrictWeakOrder(less) && Sorted(less, s) && |s| > 0
    ensures forall y | y in s :: !less(y, s[0])
  {
    SortedPairwise(less, s);
  }

  /** The back of a sorted sequence is a greatest element: it is less than nothing in it. */
  lemma SortedBackIsGreatest<T(!new)>(less: (T, T) -> bool, s: seq<T>)
    requires StrictWeakOrder(less) && Sorted(less, s) && |s| > 0
    ensures forall y | y in s :: !less(s[|s| - 1], y)
  {
    SortedPairwise(less, s);
  }

  /** The items of `s` tied with `e`, in their order in `s`. */
  function Ties<T>(less: (T, T) -> bool, s: seq<T>, e: T): (r: seq<T>)
    ensures |r| <= |s|
    ensures forall i :: 0 <= i < |r| ==> Tied(less, r[i], e)
  {
    if |s| == 0 then []
    else Ties(less, s[..|s| - 1], e) + (if Tied(less, s[|s| - 1], e) then [s[|s| - 1]] else [])
  }

  /** Filtering the ties of a concatenation filters each part. */
  lemma {:induction false} TiesConcat<T>(less: (T, T) -> bool, a: seq<T>, b: seq<T>, e: T)
    ensures Ties(less, a + b, e) == Ties(less, a, e) + Ties(less, b, e)
  {
    if |b| > 0 {
      var b' := b[..|b| - 1];
      assert (a + b)[..|a + b| - 1] == a + b';
      TiesConcat(less, a, b', e);
    } else {
      assert a + b == a;
    }
  }

  /** Filtering the ties of a three-part concatenation filters each part. */
  lemma TiesConcat3<T>(less: (T, T) -> bool, a: seq<T>, b: seq<T>, c: seq<T>, e: T)
    ensures Ties(less, a + b + c, e) == Ties(less, a, e) + Ties(less, b, e) + Ties(less, c, e)
  {
    TiesConcat(less, a + b, c, e);
    TiesConcat(less, a, b, e);
  }

  /** The ties of a single item: itself if it is tied with `e`, nothing otherwise. */
  lemma TiesSingleton<T>(less: (T, T) -> bool, x: T, e: T)
    ensures Ties(less, [x], e) == if Tied(less, x, e) then [x] else []
  {
    assert [x][..0] == [];
  }

  /** A sequence with no item tied with `e` has no ties to report. */
  lemma {:induction false} TiesNone<T>(less: (T, T) -> bool, s: seq<T>, e: T)
    requires forall i :: 0 <= i < |s| ==> !Tied(less, s[i], e)
    ensures Ties(less, s, e) == []
  {
    if |s| > 0 {
      TiesNone(less, s[..|s| - 1], e);
    }
  }

  /** `s` read back to front. */
  function Reverse<T>(s: seq<T>): (r: seq<T>)
    ensures |r| == |s|
    ensures forall i :: 0 <= i < |s| ==> r[i] == s[|s| - 1 - i]
  {
    if |s| == 0 then [] else [s[|s| - 1]] + Reverse(s[..|s| - 1])
  }
}
