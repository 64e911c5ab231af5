/** `try_pop` of the segmented queue as written, run by one thread. Two
    slips sit in it. When a pop drains the head segment it moves the head
    on with no check against the tail (the blocking `pop` has that check):
    on a queue with a single segment the head then passes the tail, every
    later push lands in a segment the head has already left, and the queue
    reports itself empty while holding elements. And when the head segment
    is empty, `try_pop` calls `advance_head` while holding the segment's
    `std::mutex`, which `advance_head` locks again: the call deadlocks
    instead of returning `nullopt`. */
module SegmentedFindings {
  import opened Wrappers
  import SG = Segment
  import opened SegmentedQueue

  /** What a call of `try_pop` as written comes to: it returns, or it
      blocks for ever on a mutex its own thread already holds. */
  datatype PopOutcome = Returns(q: SQueue, value: Option<int>) | SelfDeadlock

  /** `try_pop()` as written. A pop from the head segment that drains it
      moves the head on with no check against the tail. When the head
      segment is empty, `try_pop` still holds that segment's `std::mutex`
      as it calls `advance_head`, which locks the same mutex again: the
      thread deadlocks on itself and the call never returns. */
  function TryPopAsWritten(q: SQueue): (r: PopOutcome)
    requires WellFormed(q)
    ensures r.SelfDeadlock? <==> Items(q, q.head) == []
    ensures r.Returns? ==> WellFormed(r.q) && r.q.tail == q.tail && r.q.n == q.n
    ensures r.Returns? ==> r.value.Some? && r.value.value == Items(q, q.head)[0]
    ensures r.Returns? ==> Items(r.q, q.head) == Items(q, q.head)[1..]
    ensures r.Returns? ==> (r.q.head == q.head + 1 <==> Items(q, q.head)[1..] == [])
    ensures r.Returns? ==> (r.q.head == q.head <==> Items(q, q.head)[1..] != [])
  {
    var q1 := Touch(q, q.head);
    var p := SG.Pop(Seg(q1, q.head), q.n);
    if p.1.Some? then
      var q2 := SetSeg(q1, q.head, p.0);
      SG.EmptyIffNoItems(p.0, q.n);
      if SG.IsEmpty(p.0) then Returns(q2.(head := q.head + 1), p.1) else Returns(q2, p.1)
    else SelfDeadlock
  }

  /** Counterexample: `try_pop` on a new queue, whose only segment is
      empty, never returns. */
  lemma EmptyPopDeadlocks(n: nat)
    requires n >= 1
    ensures TryPopAsWritten(New(n)) == SelfDeadlock
  {
    assert Items(New(n), 0) == [];
  }

  /** The corrected `try_pop` returns `nullopt` on the same queue and
      leaves it as it was. */
  lemma EmptyPopReturnsNone(n: nat)
    requires n >= 1
    ensures TryPop(New(n)).1 == None && TryPop(New(n)).0 == New(n)
  {
    assert Items(New(n), 0) == [];
  }

  /** Counterexample: draining the only segment with `try_pop` moves the head
      past the tail; the next pushed value is out of reach, the queue
      reports empty, and the next `try_pop` deadlocks on the empty
      segment the head now points at. */
  lemma DrainLosesLaterPush(n: nat, v: int, w: int)
    requires n >= 2
    ensures var q1 := Push(New(n), v);
            var a := TryPopAsWritten(q1);
            a.Returns? && a.value == Some(v) && a.q.head == 1 && a.q.tail == 0
    ensures var a := TryPopAsWritten(Push(New(n), v));
            var q := Push(a.q, w);
            && Items(q, 0) == [w] && Contents(q) == [] && Empty(q)
            && TryPopAsWritten(q) == SelfDeadlock
  {
    var q1 := Push(New(n), v);
    FirstPush(n, v);
    DrainPassesTail(q1, v);
    var a := TryPopAsWritten(q1);
    var q := Push(a.q, w);
    assert Items(q, 0) == [w] by {
      assert Items(a.q, 0) == [];
      SG.FullIffAtCapacity(Seg(a.q, 0), n);
    }
    HeadPastTailLoses(q);
  }

  /** The first push into a new queue lands in segment 0. */
  lemma FirstPush(n: nat, v: int)
    requires n >= 2
    ensures var q := Push(New(n), v);
            q.head == 0 && q.tail == 0 && Items(q, 0) == [v]
  {
    var q0 := New(n);
    PushAppends(q0, v);
    SG.FullIffAtCapacity(Seg(q0, 0), n);
  }

  /** Popping the only element of the tail segment moves the head past
      the tail. */
  lemma DrainPassesTail(q: SQueue, v: int)
    requires WellFormed(q) && q.head == 0 && q.tail == 0 && Items(q, 0) == [v]
    ensures var a := TryPopAsWritten(q);
            a.Returns? && a.value == Some(v) && a.q.head == 1 && a.q.tail == 0
  {
  }

  /** Once the head is past the tail nothing the queue holds is reachable:
      it reports empty, and `try_pop` meets the empty segment past the
      tail and deadlocks. */
  lemma HeadPastTailLoses(q: SQueue)
    requires WellFormed(q) && q.head == q.tail + 1
    ensures Contents(q) == [] && Empty(q) && TryPopAsWritten(q) == SelfDeadlock
  {
    ApproximateSizeCounts(q);
    BeyondTailEmpty(q, q.head);
  }

  /** The corrected `try_pop` returns the value pushed after an empty
      `try_pop`, and the value pushed after the only element was popped. */
  lemma LaterPushIsPopped(n: nat, v: int, w: int)
    requires n >= 2
    ensures TryPop(Push(TryPop(New(n)).0, v)).1 == Some(v)
    ensures TryPop(Push(TryPop(Push(New(n), v)).0, w)).1 == Some(w)
  {
    var q0 := New(n);
    TryPopTakesOldest(q0);
    var a := TryPop(q0);
    PushAppends(a.0, v);
    TryPopTakesOldest(Push(a.0, v));
    PushAppends(q0, v);
    var q1 := Push(q0, v);
    TryPopTakesOldest(q1);
    var b := TryPop(q1);
    PushAppends(b.0, w);
    TryPopTakesOldest(Push(b.0, w));
  }
}
