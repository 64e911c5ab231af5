/** `BoundedThreadSafeQueue`: a capacity limit and an element counter of
    its own around an inner unbounded queue. The inner queue is taken to be
    an exact first-in first-out queue, modelled by its contents, oldest
    first. The mutex and both condition variables are left out; the blocking
    operations have the condition they wait for as a precondition. */
module BoundedQueue {
  import opened Wrappers
  import opened FifoSpec

  /** `queue_`, `max_size_` and `current_size_`. */
  datatype Bounded = Bounded(inner: seq<int>, maxSize: nat, count: nat)

  /** The counter tracks the inner queue and never exceeds the capacity. */
  predicate Valid(q: Bounded)
  {
    0 < q.maxSize && q.count == |q.inner| && q.count <= q.maxSize
  }

  /** The constructor: a capacity of 0 is rejected with `invalid_argument`. */
  function New(maxSize: nat): (r: Result<Bounded, Exception>)
    ensures r.Failure? <==> maxSize == 0
    ensures r.Failure? ==> r.error == InvalidArgument
    ensures r.Success? ==> Valid(r.value) && r.value.maxSize == maxSize && r.value.inner == []
  {
    if maxSize == 0 then Failure(InvalidArgument) else Success(Bounded([], maxSize, 0))
  }

  /** The blocking `push`: it waits until the counter is below the
      capacity, then pushes and counts. */
  function Push(q: Bounded, v: int): (r: Bounded)
    requires Valid(q) && q.count < q.maxSize
    ensures Valid(r) && r.maxSize == q.maxSize && r.count == q.count + 1
    ensures r.inner == q.inner + [v] && Size(r) <= r.maxSize
  {
    Bounded(q.inner + [v], q.maxSize, q.count + 1)
  }

  /** `try_push`: refused without change when the counter has reached the
      capacity. */
  function TryPush(q: Bounded, v: int): (r: (Bounded, bool))
    ensures r.0.maxSize == q.maxSize
    ensures r.1 <==> q.count < q.maxSize
    ensures !r.1 ==> r.0 == q
    ensures Valid(q) ==> Valid(r.0)
    ensures r.1 ==> r.0.inner == q.inner + [v]
  {
    if q.count >= q.maxSize then (q, false)
    else (Bounded(q.inner + [v], q.maxSize, q.count + 1), true)
  }

  /** The inner queue's `try_pop`. */
  function InnerTryPop(inner: seq<int>): (r: (seq<int>, Option<int>))
    ensures r.1.None? <==> |inner| == 0
    ensures r.1.Some? ==> inner == [r.1.value] + r.0
    ensures r.1.None? ==> r.0 == inner
  {
    if |inner| == 0 then (inner, None) else (inner[1..], Some(inner[0]))
  }

  /** `try_pop`, both overloads: a zero counter yields nothing without
      touching the inner queue; otherwise the inner queue is popped and the
      counter drops only if that succeeded. */
  function TryPop(q: Bounded): (r: (Bounded, Option<int>))
    ensures r.0.maxSize == q.maxSize
    ensures q.count == 0 ==> r == (q, None)
    ensures r.1.None? ==> r.0 == q
    ensures Valid(q) ==> Valid(r.0) && (r.1.None? <==> q.inner == [])
  {
    if q.count == 0 then (q, None)
    else
      var p := InnerTryPop(q.inner);
      if p.1.Some? then (Bounded(p.0, q.maxSize, q.count - 1), p.1) else (q, None)
  }

  /** `wait_and_pop`, both overloads: it waits until the counter is
      positive; the inner queue then holds an element, which is returned. */
  function WaitAndPop(q: Bounded): (r: (Bounded, int))
    requires Valid(q) && q.count > 0
    ensures Valid(r.0) && r.0.count == q.count - 1
    ensures q.inner == [r.1] + r.0.inner
  {
    var p := InnerTryPop(q.inner);
    (Bounded(p.0, q.maxSize, q.count - 1), p.1.value)
  }

  /** `size()`: the counter. */
  function Size(q: Bounded): nat
  {
    q.count
  }

  /** `empty()`: the counter is 0. */
  predicate Empty(q: Bounded)
  {
    q.count == 0
  }

  /** On a valid queue `size()` and `empty()` report the inner contents,
      though neither looks at the inner queue. */
  lemma SizeCounts(q: Bounded)
    requires Valid(q)
    ensures Size(q) == |q.inner| && Size(q) <= q.maxSize
    ensures Empty(q) <==> q.inner == []
  {
  }

  /** One operation of a history. */
  function Step(q: Bounded, op: Op): (r: (Bounded, Obs))
  {
    match op
    case PushOp(v) => var p := TryPush(q, v); (p.0, if p.1 then Pushed else Refused)
    case PopOp => var p := TryPop(q); (p.0, Popped(p.1))
    case SizeOp => (q, Sized(Size(q)))
  }

  function Run(q: Bounded, ops: seq<Op>): (r: (Bounded, seq<Obs>))
    ensures |r.1| == |ops|
    decreases |ops|
  {
    if |ops| == 0 then (q, [])
    else
      var step := Step(q, ops[0]);
      var rest := Run(step.0, ops[1..]);
      (rest.0, [step.1] + rest.1)
  }

  /** The reference bounded queue: a plain sequence that refuses a push
      once it holds `cap` elements. */
  function StepCapped(c: seq<int>, cap: nat, op: Op): (r: (seq<int>, Obs))
  {
    if op.PushOp? && |c| >= cap then (c, Refused) else StepFifo(c, op)
  }

  function RunCapped(c: seq<int>, cap: nat, ops: seq<Op>): (r: (seq<int>, seq<Obs>))
    decreases |ops|
  {
    if |ops| == 0 then (c, [])
    else
      var step := StepCapped(c, cap, ops[0]);
      var rest := RunCapped(step.0, cap, ops[1..]);
      (rest.0, [step.1] + rest.1)
  }

  /** Over every history the wrapper behaves as a first-in first-out queue
      that refuses pushes at `max_size` elements, and its counter keeps
      tracking the inner queue. */
  lemma {:induction false} RunRefinesCapped(q: Bounded, ops: seq<Op>)
    requires Valid(q)
    ensures Valid(Run(q, ops).0) && Run(q, ops).0.maxSize == q.maxSize
    ensures Run(q, ops).1 == RunCapped(q.inner, q.maxSize, ops).1
    ensures Run(q, ops).0.inner == RunCapped(q.inner, q.maxSize, ops).0
    decreases |ops|
  {
    if |ops| > 0 {
      var step := Step(q, ops[0]);
      assert step.1 == StepCapped(q.inner, q.maxSize, ops[0]).1;
      assert step.0.inner == StepCapped(q.inner, q.maxSize, ops[0]).0;
      RunRefinesCapped(step.0, ops[1..]);
    }
  }
}
