/** `ThreadSafeQueue::try_pop(T&)` as written. It moves the front into
    `value` and then tests `value` for truthiness: a front that converts to
    `false` (an integer 0) is copied out but neither removed nor reported,
    and the call returns `false` as if the queue were empty. The element
    then blocks every later `try_pop(T&)`, while the `shared_ptr` variant and
    `wait_and_pop` pop it normally. `CoarseQueue` uses the corrected
    overload. */
module CoarseFindings {
  import opened CoarseQueue

  /** `try_pop(T&)` as written, for integer elements. */
  function TryPopIntoAsWritten(q: Queue, value: int): (r: (Queue, bool, int))
    ensures |q.items| == 0 ==> r == (q, false, value)
    ensures |q.items| > 0 ==> r.2 == q.items[0]
    ensures r.1 <==> |q.items| > 0 && q.items[0] != 0
    ensures !r.1 ==> r.0 == q
  {
    if |q.items| == 0 then (q, false, value)
    else
      var front := q.items[0];
      if front != 0 then (Queue(q.items[1..]), true, front) else (q, false, front)
  }

  /** Where the front is not 0 the as-written overload is the corrected
      one. */
  lemma AsWrittenAgreesOnTruthyFront(q: Queue, value: int)
    requires |q.items| == 0 || q.items[0] != 0
    ensures TryPopIntoAsWritten(q, value).0 == TryPopInto(q, value).0
    ensures TryPopIntoAsWritten(q, value).1 == TryPopInto(q, value).1
    ensures TryPopIntoAsWritten(q, value).2 == TryPopInto(q, value).2
  {
  }

  /** Counterexample: with 0 at the front the as-written overload reports
      failure on a non-empty queue, overwrites `value` with 0, and leaves
      the queue as it was, so repeating the call never gets past the 0. */
  lemma ZeroFrontIsStuck(rest: seq<int>, value: int)
    ensures var q := Queue([0] + rest);
            var a := TryPopIntoAsWritten(q, value);
            && !a.1 && a.2 == 0 && a.0 == q && !Empty(q)
            && TryPopIntoAsWritten(a.0, a.2) == a
  {
  }

  /** The corrected overload pops the 0 like any other value. */
  lemma ZeroFrontIsPopped(rest: seq<int>, value: int)
    ensures TryPopInto(Queue([0] + rest), value) == (Queue(rest), true, 0)
  {
    assert ([0] + rest)[1..] == rest;
  }
}
