/** `DelayQueue`: elements that become available at an absolute expiry
    time, kept in a `std::priority_queue` whose inverted `operator<` puts
    the earliest expiry on top. The steady clock becomes a parameter `now`
    (in clock ticks) of every operation that reads it; the mutex and the
    condition variable are left out, and the blocking `pop` has the
    condition its loop waits for as a precondition. */
module DelayQueue {
  import opened Wrappers
  import PQ = PriorityQueue

  /** `DelayElement`: the data and its absolute expiry time. */
  datatype Element = Element(data: int, expire: int)

  /** The key of `DelayElement::operator<`: the earlier the expiry, the
      higher the priority. */
  function Urgency(e: Element): int
  {
    -e.expire
  }

  /** `queue_`. */
  datatype DelayQueue = DelayQueue(heap: seq<Element>)

  predicate Valid(q: DelayQueue)
  {
    PQ.Ordered(q.heap, Urgency)
  }

  function New(): (q: DelayQueue)
    ensures Valid(q) && |q.heap| == 0
  {
    DelayQueue([])
  }

  /** Some element has reached its expiry time at `now`. */
  predicate Due(q: DelayQueue, now: int)
  {
    exists i :: 0 <= i < |q.heap| && q.heap[i].expire <= now
  }

  /** `e` expires no later than any element of the queue. */
  ghost predicate Earliest(q: DelayQueue, e: Element)
  {
    e in q.heap && forall y :: y in q.heap ==> e.expire <= y.expire
  }

  /** `push`, both overloads: the data expires `delay` ticks after `now`. */
  function Push(q: DelayQueue, data: int, delay: int, now: int): (r: DelayQueue)
    requires Valid(q)
    ensures Valid(r)
    ensures multiset(r.heap) == multiset(q.heap) + multiset{Element(data, now + delay)}
  {
    DelayQueue(PQ.Insert(q.heap, Element(data, now + delay), Urgency))
  }

  /** On a valid queue an element is due exactly when the top is. */
  lemma DueIsTop(q: DelayQueue, now: int)
    requires Valid(q)
    ensures Due(q, now) <==> |q.heap| > 0 && q.heap[0].expire <= now
  {
    if Due(q, now) {
      var i :| 0 <= i < |q.heap| && q.heap[i].expire <= now;
      assert i == 0 || Urgency(q.heap[0]) >= Urgency(q.heap[i]);
    }
  }

  /** `try_pop`: nothing, and no change, unless some element is due;
      otherwise the element that expires first is removed and its data
      returned. */
  function TryPop(q: DelayQueue, now: int): (r: (DelayQueue, Option<int>))
    requires Valid(q)
    ensures Valid(r.0)
    ensures r.1.Some? <==> Due(q, now)
    ensures r.1.None? ==> r.0 == q
    ensures r.1.Some? ==> exists e :: Earliest(q, e) && e.data == r.1.value && e.expire <= now
                                      && multiset(r.0.heap) + multiset{e} == multiset(q.heap)
  {
    DueIsTop(q, now);
    if |q.heap| == 0 || now < q.heap[0].expire then (q, None)
    else
      PQ.PopRemovesTop(q.heap, Urgency);
      PQ.TopIsHighest(q.heap, Urgency);
      assert Earliest(q, q.heap[0]);
      (DelayQueue(q.heap[1..]), Some(q.heap[0].data))
  }

  /** The blocking `pop`: its loop waits until an element is due, then
      removes the element that expires first and returns its data. */
  function Pop(q: DelayQueue, now: int): (r: (DelayQueue, int))
    requires Valid(q) && Due(q, now)
    ensures Valid(r.0)
    ensures exists e :: Earliest(q, e) && e.data == r.1 && e.expire <= now
                        && multiset(r.0.heap) + multiset{e} == multiset(q.heap)
  {
    var p := TryPop(q, now);
    (p.0, p.1.value)
  }

  /** `next_delay`: nothing on an empty queue, zero once the earliest
      element is due, otherwise the ticks left until it is. */
  function NextDelay(q: DelayQueue, now: int): (r: Option<nat>)
    requires Valid(q)
    ensures r.None? <==> |q.heap| == 0
    ensures r.Some? ==> (r.value == 0 <==> Due(q, now))
    ensures r.Some? && r.value > 0 ==>
              (forall e :: e in q.heap ==> now + r.value <= e.expire)
              && exists e :: e in q.heap && now + r.value == e.expire
  {
    DueIsTop(q, now);
    if |q.heap| == 0 then None
    else
      PQ.TopIsHighest(q.heap, Urgency);
      var top := q.heap[0];
      if top.expire <= now then Some(0) else Some(top.expire - now)
  }

  /** `next_delay` reports zero exactly when `try_pop` would succeed. */
  lemma NextDelayZeroMeansTryPop(q: DelayQueue, now: int)
    requires Valid(q)
    ensures NextDelay(q, now) == Some(0) <==> TryPop(q, now).1.Some?
  {
  }

  /** `clear()`. */
  function Clear(q: DelayQueue): (r: DelayQueue)
    ensures Valid(r) && |r.heap| == 0
  {
    DelayQueue([])
  }

  /** `size()`. */
  function Size(q: DelayQueue): nat
  {
    |q.heap|
  }

  /** `empty()`. */
  predicate Empty(q: DelayQueue)
  {
    |q.heap| == 0
  }

  /** `empty()` holds exactly when `size()` is 0 and `next_delay` has
      nothing to report. */
  lemma EmptyReportsContents(q: DelayQueue, now: int)
    requires Valid(q)
    ensures Empty(q) <==> Size(q) == 0
    ensures Empty(q) <==> NextDelay(q, now).None?
  {
  }

  /** The three pushes of the delay queue test: 1 with a delay of three
      seconds at `t1`, 2 with one second at `t2` and 3 with five seconds at
      `t3`, the second push less than two seconds after the first, leave 2
      on top, then 1, then 3. */
  lemma ThreePushes(second: int, t1: int, t2: int, t3: int)
    requires 0 < second && t1 <= t2 <= t3 && t2 < t1 + 2 * second
    ensures Push(Push(Push(New(), 1, 3 * second, t1), 2, second, t2), 3, 5 * second, t3).heap
            == [Element(2, t2 + second), Element(1, t1 + 3 * second), Element(3, t3 + 5 * second)]
  {
    var e1, e2, e3 := Element(1, t1 + 3 * second), Element(2, t2 + second), Element(3, t3 + 5 * second);
    var q1 := Push(New(), 1, 3 * second, t1);
    assert q1.heap == [e1];
    var q2 := Push(q1, 2, second, t2);
    assert q2.heap == [e2, e1];
    assert PQ.Insert([], e3, Urgency) == [e3];
    assert [e1][1..] == [];
    assert PQ.Insert([e1], e3, Urgency) == [e1, e3];
    assert [e2, e1][1..] == [e1];
  }

  /** Three blocking pops, each at or after the time the earliest remaining
      element is due, return the elements in expiry order. */
  lemma PopsInExpiryOrder(q: DelayQueue, e1: Element, e2: Element, e3: Element, p1: int, p2: int, p3: int)
    requires Valid(q) && q.heap == [e1, e2, e3]
    requires e1.expire <= p1 && e2.expire <= p2 && e3.expire <= p3
    ensures Due(q, p1) && Pop(q, p1).1 == e1.data
    ensures Due(Pop(q, p1).0, p2) && Pop(Pop(q, p1).0, p2).1 == e2.data
    ensures Due(Pop(Pop(q, p1).0, p2).0, p3) && Pop(Pop(Pop(q, p1).0, p2).0, p3).1 == e3.data
  {
    DueIsTop(q, p1);
    var a := Pop(q, p1).0;
    assert a.heap == [e2, e3];
    DueIsTop(a, p2);
    var b := Pop(a, p2).0;
    assert b.heap == [e3];
    DueIsTop(b, p3);
  }

  /** The delay queue test: after the three pushes nothing can be taken
      before 2 is due, and three blocking pops, each at or after the time
      its element is due, return 2, 1 and 3. */
  lemma ThreeDelays(second: int, t1: int, t2: int, t3: int, p1: int, p2: int, p3: int)
    requires 0 < second && t1 <= t2 <= t3 && t2 < t1 + 2 * second
    requires t2 + second <= p1 && t1 + 3 * second <= p2 && t3 + 5 * second <= p3
    ensures var q := Push(Push(Push(New(), 1, 3 * second, t1), 2, second, t2), 3, 5 * second, t3);
            && TryPop(q, t2 + second - 1).1 == None
            && Due(q, p1) && Pop(q, p1).1 == 2
            && Due(Pop(q, p1).0, p2) && Pop(Pop(q, p1).0, p2).1 == 1
            && Due(Pop(Pop(q, p1).0, p2).0, p3) && Pop(Pop(Pop(q, p1).0, p2).0, p3).1 == 3
  {
    var q := Push(Push(Push(New(), 1, 3 * second, t1), 2, second, t2), 3, 5 * second, t3);
    ThreePushes(second, t1, t2, t3);
    DueIsTop(q, t2 + second - 1);
    PopsInExpiryOrder(q, Element(2, t2 + second), Element(1, t1 + 3 * second), Element(3, t3 + 5 * second), p1, p2, p3);
  }
}
