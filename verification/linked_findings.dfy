/** `try_pop(T&)` of the single-mutex linked queue as the code is written.
    Unlike `try_pop()`, it does not move `tail_` back to the dummy when it
    unlinks the last data node, so `tail_` is left on the freed node. The
    next `push` links its node after that freed node, where nothing can
    reach it: the element is lost, and so is every later one. `LinkedQueue`
    uses the corrected `TryPopInto`. */
module LinkedFindings {
  import opened Wrappers
  import opened LinkedQueue

  /** `try_pop(T&)` as written: the unlinking of `try_pop()` without the
      `tail_` reset. */
  function TryPopIntoAsWritten(q: Queue, value: int): (r: (Queue, bool, int))
    requires Allocated(q)
    ensures Allocated(r.0)
    ensures !r.1 ==> r.0 == q && r.2 == value
    ensures r.0.nodes == TryPopInto(q, value).0.nodes
    ensures r.1 == TryPopInto(q, value).1 && r.2 == TryPopInto(q, value).2
  {
    match q.nodes[0].next
    case None => (q, false, value)
    case Some(h) => (Queue(Unlink(q.nodes), q.tail), true, q.nodes[h].data)
  }

  /** Counterexample: after one push, the as-written `try_pop(T&)` returns
      the element but leaves `tail_` on the freed node, so the invariant is
      broken; a second push then disappears and the queue reports empty. */
  lemma LaterPushIsLost(v: int, w: int, value: int)
    ensures var q1 := Push(New(), v);
            var a := TryPopIntoAsWritten(q1, value);
            var q2 := Push(a.0, w);
            && a.1 && a.2 == v && !Valid(a.0)
            && Empty(q2) && TryPop(q2).1 == None
  {
    var q1 := Push(New(), v);
    assert q1 == Queue([Node(0, Some(1)), Node(v, None)], 1);
    var a := TryPopIntoAsWritten(q1, value);
    assert a.0 == Queue([Node(0, None), Node(v, None)], 1);
    assert Path(a.0) == [0];
  }

  /** With the reset, the same history keeps the second element. */
  lemma LaterPushIsKept(v: int, w: int, value: int)
    ensures var q1 := Push(New(), v);
            var a := TryPopInto(q1, value);
            var q2 := Push(a.0, w);
            && a.1 && a.2 == v && Valid(a.0)
            && Valid(q2) && Contents(q2) == [w] && TryPop(q2).1 == Some(w)
  {
    var q1 := Push(New(), v);
    var q2 := Push(TryPopInto(q1, value).0, w);
    TryPopTakesOldest(q2);
  }
}
