/** `ThreadSafeQueue` and `ThreadSafeQueueWithSharedPtr::ThreadSafeQueue`:
    a `std::queue` of integers behind one mutex. The two classes differ only
    in whether the queue holds the values or shared pointers to them, which
    the model does not distinguish, and in `try_pop(T&)`: this module
    describes the corrected overload, shared by the `shared_ptr` variant, and
    `CoarseFindings` the one of `ThreadSafeQueue` as written. The mutex and
    condition variable are left out; the blocking operations have the
    condition they wait for as a precondition. */
module CoarseQueue {
  import opened Wrappers
  import opened FifoSpec

  /** `queue_`, oldest first. */
  datatype Queue = Queue(items: seq<int>)

  function New(): (q: Queue)
    ensures |q.items| == 0
  {
    Queue([])
  }

  /** `push`: the value joins the back. */
  function Push(q: Queue, v: int): (r: Queue)
    ensures |r.items| == |q.items| + 1 && r.items[|q.items|] == v
    ensures r.items[..|q.items|] == q.items
  {
    Queue(q.items + [v])
  }

  /** `try_pop()`: a null pointer on an empty queue, otherwise the oldest
      element, removed. */
  function TryPop(q: Queue): (r: (Queue, Option<int>))
    ensures r.1.None? <==> |q.items| == 0
    ensures r.1.None? ==> r.0 == q
    ensures r.1.Some? ==> q.items == [r.1.value] + r.0.items
  {
    if |q.items| == 0 then (q, None) else (Queue(q.items[1..]), Some(q.items[0]))
  }

  /** `try_pop(T&)` as the `shared_ptr` variant writes it: `false` and `value`
      untouched on an empty queue, otherwise the oldest element is moved
      into `value` and removed. */
  function TryPopInto(q: Queue, value: int): (r: (Queue, bool, int))
    ensures r.1 <==> |q.items| > 0
    ensures !r.1 ==> r.0 == q && r.2 == value
    ensures r.1 ==> q.items == [r.2] + r.0.items
  {
    if |q.items| == 0 then (q, false, value) else (Queue(q.items[1..]), true, q.items[0])
  }

  /** Both `try_pop` overloads remove the same element. */
  lemma TryPopOverloadsAgree(q: Queue, value: int)
    ensures TryPopInto(q, value).0 == TryPop(q).0
    ensures TryPopInto(q, value).1 <==> TryPop(q).1.Some?
    ensures TryPop(q).1.Some? ==> TryPopInto(q, value).2 == TryPop(q).1.value
  {
  }

  /** `wait_and_pop`, both overloads: it waits until the queue is not empty,
      then removes and returns the oldest element. */
  function WaitAndPop(q: Queue): (r: (Queue, int))
    requires |q.items| > 0
    ensures q.items == [r.1] + r.0.items
  {
    (Queue(q.items[1..]), q.items[0])
  }

  /** `size()`. */
  function Size(q: Queue): nat
  {
    |q.items|
  }

  /** `empty()`. */
  predicate Empty(q: Queue)
  {
    |q.items| == 0
  }

  /** `empty()` holds exactly when `size()` is 0 and `try_pop` finds
      nothing. */
  lemma EmptyReportsContents(q: Queue)
    ensures Empty(q) <==> Size(q) == 0
    ensures Empty(q) <==> TryPop(q).1.None?
  {
  }

  /** One operation of a single-thread history. */
  function Step(q: Queue, op: Op): (r: (Queue, Obs))
  {
    match op
    case PushOp(v) => (Push(q, v), Pushed)
    case PopOp => var p := TryPop(q); (p.0, Popped(p.1))
    case SizeOp => (q, Sized(Size(q)))
  }

  function Run(q: Queue, ops: seq<Op>): (r: (Queue, seq<Obs>))
    ensures |r.1| == |ops|
    decreases |ops|
  {
    if |ops| == 0 then (q, [])
    else
      var step := Step(q, ops[0]);
      var rest := Run(step.0, ops[1..]);
      (rest.0, [step.1] + rest.1)
  }

  /** Over every history the queue reports what a plain first-in first-out
      sequence reports and ends with the same contents. */
  lemma {:induction false} RunRefinesFifo(q: Queue, ops: seq<Op>)
    ensures Run(q, ops).1 == RunFifo(q.items, ops).1
    ensures Run(q, ops).0.items == RunFifo(q.items, ops).0
    decreases |ops|
  {
    if |ops| > 0 {
      var step := Step(q, ops[0]);
      assert step.0.items == StepFifo(q.items, ops[0]).0;
      RunRefinesFifo(step.0, ops[1..]);
    }
  }
}
