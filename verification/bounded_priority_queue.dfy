/** `ThreadSafePriorityQueue`: a `std::priority_queue` of integers with the
    default `std::less` comparator (largest value on top), optionally bounded
    by a maximum size. The mutex and condition variable are left out: each
    operation is one state transition, and the blocking operations become
    operations whose precondition is the condition they wait for. */
module BoundedPriorityQueue {
  import opened Wrappers
  import PQ = PriorityQueue

  /** `max_size_` is 0 and unused when the queue is unbounded. */
  datatype BQueue = BQueue(heap: seq<int>, maxSize: nat, bounded: bool)

  predicate Valid(q: BQueue)
  {
    && PQ.Ordered(q.heap, PQ.ByValue)
    && (q.bounded ==> 0 < q.maxSize && |q.heap| <= q.maxSize)
    && (!q.bounded ==> q.maxSize == 0)
  }

  /** The default constructor: an empty, unbounded queue. */
  function NewUnbounded(): (q: BQueue)
    ensures Valid(q) && !q.bounded && q.heap == []
  {
    BQueue([], 0, false)
  }

  /** The bounded constructor: a capacity of 0 is rejected with
      `invalid_argument`. */
  function NewBounded(maxSize: nat): (r: Result<BQueue, Exception>)
    ensures r.Failure? <==> maxSize == 0
    ensures r.Failure? ==> r.error == InvalidArgument
    ensures r.Success? ==> Valid(r.value) && r.value.bounded && r.value.maxSize == maxSize && r.value.heap == []
  {
    if maxSize == 0 then Failure(InvalidArgument) else Success(BQueue([], maxSize, true))
  }

  /** There is room for one more element: always when unbounded. */
  predicate HasRoom(q: BQueue)
  {
    !q.bounded || |q.heap| < q.maxSize
  }

  /** The blocking `push`: it waits until there is room, then inserts. */
  function Push(q: BQueue, v: int): (r: BQueue)
    requires Valid(q) && HasRoom(q)
    ensures Valid(r) && r.maxSize == q.maxSize && r.bounded == q.bounded
    ensures multiset(r.heap) == multiset(q.heap) + multiset{v}
  {
    q.(heap := PQ.Insert(q.heap, v, PQ.ByValue))
  }

  /** `try_push`: refused without change on a full bounded queue, otherwise
      the value is inserted. */
  function TryPush(q: BQueue, v: int): (r: (BQueue, bool))
    requires Valid(q)
    ensures Valid(r.0) && r.0.maxSize == q.maxSize && r.0.bounded == q.bounded
    ensures r.1 <==> HasRoom(q)
    ensures !r.1 ==> r.0 == q
    ensures r.1 ==> multiset(r.0.heap) == multiset(q.heap) + multiset{v}
  {
    if q.bounded && |q.heap| >= q.maxSize then (q, false) else (Push(q, v), true)
  }

  /** `try_pop`, both overloads: nothing and no change on an empty queue,
      otherwise the top is removed and returned. */
  function TryPop(q: BQueue): (r: (BQueue, Option<int>))
    requires Valid(q)
    ensures Valid(r.0) && r.0.maxSize == q.maxSize && r.0.bounded == q.bounded
    ensures r.1.None? <==> |q.heap| == 0
    ensures r.1.None? ==> r.0 == q
    ensures r.1.Some? ==> multiset(r.0.heap) + multiset{r.1.value} == multiset(q.heap)
  {
    if |q.heap| == 0 then (q, None)
    else
      PQ.PopRemovesTop(q.heap, PQ.ByValue);
      (q.(heap := q.heap[1..]), Some(q.heap[0]))
  }

  /** The value `try_pop` returns is the largest in the queue. */
  lemma TryPopTakesLargest(q: BQueue)
    requires Valid(q)
    ensures TryPop(q).1.Some? ==> PQ.IsTop(q.heap, TryPop(q).1.value, PQ.ByValue)
  {
    if |q.heap| > 0 {
      PQ.TopIsHighest(q.heap, PQ.ByValue);
    }
  }

  /** `wait_and_pop`, both overloads: it waits until the queue is not empty,
      then removes and returns the largest element. */
  function WaitAndPop(q: BQueue): (r: (BQueue, int))
    requires Valid(q) && |q.heap| > 0
    ensures Valid(r.0) && r.0.maxSize == q.maxSize && r.0.bounded == q.bounded
    ensures multiset(r.0.heap) + multiset{r.1} == multiset(q.heap)
    ensures PQ.IsTop(q.heap, r.1, PQ.ByValue)
  {
    TryPopTakesLargest(q);
    var p := TryPop(q);
    (p.0, p.1.value)
  }

  /** `size()`. */
  function Size(q: BQueue): nat
  {
    |q.heap|
  }

  /** `empty()`. */
  predicate Empty(q: BQueue)
  {
    |q.heap| == 0
  }

  /** `empty()` holds exactly when `size()` is 0 and `try_pop` finds
      nothing. */
  lemma EmptyReportsContents(q: BQueue)
    requires Valid(q)
    ensures Empty(q) <==> Size(q) == 0
    ensures Empty(q) <==> TryPop(q).1.None?
    ensures Empty(q) <==> multiset(q.heap) == multiset{}
  {
  }

  /** `remaining_capacity()`: `logic_error` on an unbounded queue, otherwise
      the room left. */
  function RemainingCapacity(q: BQueue): (r: Result<nat, Exception>)
    requires Valid(q)
    ensures r.Failure? <==> !q.bounded
    ensures r.Failure? ==> r.error == LogicError
    ensures r.Success? ==> r.value + |q.heap| == q.maxSize
  {
    if !q.bounded then Failure(LogicError) else Success(q.maxSize - |q.heap|)
  }

  /** `try_push` succeeds on a bounded queue exactly when some capacity
      remains. */
  lemma CapacityMeansRoom(q: BQueue, v: int)
    requires Valid(q) && q.bounded
    ensures RemainingCapacity(q).Success?
    ensures TryPush(q, v).1 <==> RemainingCapacity(q).value > 0
  {
  }

  /** The non-blocking operations a client may interleave. */
  datatype Op = TryPushOp(v: int) | TryPopOp

  /** Runs a history of non-blocking operations. */
  function Run(q: BQueue, ops: seq<Op>): (r: BQueue)
    requires Valid(q)
    decreases |ops|
  {
    if |ops| == 0 then q
    else
      var next := match ops[0]
        case TryPushOp(v) => TryPush(q, v).0
        case TryPopOp => TryPop(q).0;
      Run(next, ops[1..])
  }

  /** Over any history a bounded queue keeps its capacity and never holds
      more than `max_size` elements. */
  lemma {:induction false} BoundNeverExceeded(q: BQueue, ops: seq<Op>)
    requires Valid(q) && q.bounded
    ensures Run(q, ops).bounded && Run(q, ops).maxSize == q.maxSize
    ensures |Run(q, ops).heap| <= q.maxSize
    decreases |ops|
  {
    if |ops| > 0 {
      var next := match ops[0]
        case TryPushOp(v) => TryPush(q, v).0
        case TryPopOp => TryPop(q).0;
      BoundNeverExceeded(next, ops[1..]);
    }
  }

  /** With room for two, pushing 3, 1 and 2 keeps 3 and 1, refuses 2, and
      the values leave largest first. */
  lemma CapacityTwo()
    ensures NewBounded(2).Success?
    ensures var q0 := NewBounded(2).value;
            var a := TryPush(q0, 3);
            var b := TryPush(a.0, 1);
            var c := TryPush(b.0, 2);
            var p := TryPop(c.0);
            && a.1 && b.1 && !c.1 && RemainingCapacity(b.0) == Success(0)
            && p.1 == Some(3) && TryPop(p.0).1 == Some(1)
  {
    var q0 := NewBounded(2).value;
    assert PQ.Insert([], 3, PQ.ByValue) == [3];
    assert PQ.Insert([3], 1, PQ.ByValue) == [3, 1] by {
      assert [3][1..] == [];
    }
    assert [3, 1][1..] == [1];
  }
}
