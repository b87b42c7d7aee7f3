/**
 * The queue's documented usage, on integer items ordered by `<`, and the
 * contrast between Push and Fix on tied items, on (key, tag) pairs ordered by
 * key alone.
 */
module QueueExamples {
  import opened Ordering
  import opened Insertion
  import opened InsertionQueue

  /** Integers ordered by `<`: a min-queue. */
  function IntLess(a: int, b: int): bool {
    a < b
  }

  /** Pairs ordered by their first component only; pairs with equal keys tie. */
  function KeyLess(a: (int, int), b: (int, int)): bool {
    a.0 < b.0
  }

  lemma IntLessIsStrictWeakOrder()
    ensures StrictWeakOrder(IntLess)
  {
  }

  lemma KeyLessIsStrictWeakOrder()
    ensures StrictWeakOrder(KeyLess)
  {
  }

  /** A new integer min-queue after pushing 1, 2 and 3. */
  method OneTwoThree() returns (q: Queue<int>)
    ensures fresh(q) && q.Valid() && q.less == IntLess
    ensures q.items == [1, 2, 3]
  {
    IntLessIsStrictWeakOrder();
    q := new Queue(IntLess);
    q.Push(1);
    q.Push(2);
    q.Push(3);
  }

  /** Push 1, 2, 3 and read the front. */
  method PushExample() returns (front: int)
    ensures front == 1
  {
    var q := OneTwoThree();
    front := q.Index(0);
  }

  /** Push 1, 2, 3 and pop the front: 1 comes out and 2, 3 remain. */
  method PopFrontExample() returns (popped: Option<int>, rest: seq<int>)
    ensures popped == Some(1) && rest == [2, 3]
  {
    var q := OneTwoThree();
    popped := q.PopFront();
    rest := q.items;
  }

  /** Push 1, 2, 3 and pop the back: 3 comes out and 1, 2 remain. */
  method PopBackExample() returns (popped: Option<int>, rest: seq<int>)
    ensures popped == Some(3) && rest == [1, 2]
  {
    var q := OneTwoThree();
    popped := q.PopBack();
    rest := q.items;
  }

  /** Push 1, 2, 3, overwrite the front with 4 and Fix: the queue is 2, 3, 4. */
  method FixExample() returns (front: int, all: seq<int>)
    ensures front == 2 && all == [2, 3, 4]
  {
    var q := OneTwoThree();
    q.Set(0, 4);
    assert q.items == [4, 2, 3];
    q.Fix();
    FixOverwrittenFront();
    front := q.Index(0);
    all := q.items;
  }

  /** Fix on 4, 2, 3: the 2 and the 3 each move in front of the 4. */
  lemma FixOverwrittenFront()
    ensures InsertionSort(IntLess, [4, 2, 3]) == [2, 3, 4]
  {
    assert [4, 2, 3][..2] == [4, 2] && [4, 2][..1] == [4] && [4][..0] == [];
    assert InsertionSort(IntLess, [4]) == [4];
    assert Sink(IntLess, [], 2) == [2];
    assert Sink(IntLess, [4], 2) == [2, 4];
    assert InsertionSort(IntLess, [4, 2]) == [2, 4];
    assert [2, 4][..1] == [2];
    assert Sink(IntLess, [2], 3) == [2, 3];
    assert Sink(IntLess, [2, 4], 3) == [2, 3, 4];
  }

  /** Push keeps two tied items in arrival order; Fix swaps them. */
  method TiesExample() returns (pushed: seq<(int, int)>, fixed: seq<(int, int)>)
    ensures pushed == [(1, 0), (1, 1)]
    ensures fixed == [(1, 1), (1, 0)]
  {
    KeyLessIsStrictWeakOrder();
    var q := new Queue(KeyLess);
    q.Push((1, 0));
    q.Push((1, 1));
    pushed := q.items;
    assert pushed == [(1, 0), (1, 1)];
    q.Fix();
    FixSwapsTiedPair();
    fixed := q.items;
  }

  /** Fix on two tied pairs swaps them: the second sinks in front of the first. */
  lemma FixSwapsTiedPair()
    ensures InsertionSort(KeyLess, [(1, 0), (1, 1)]) == [(1, 1), (1, 0)]
  {
    assert [(1, 0), (1, 1)][..1] == [(1, 0)] && [(1, 0)][..0] == [];
    assert InsertionSort(KeyLess, [(1, 0)]) == [(1, 0)];
    assert Sink(KeyLess, [], (1, 1)) == [(1, 1)];
    assert Sink(KeyLess, [(1, 0)], (1, 1)) == [(1, 1), (1, 0)];
  }
}
