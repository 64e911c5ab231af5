/** The segmented queue, run by one thread: an unbounded FIFO made of
    ring-buffer segments indexed from 0, with a head index (where pops
    happen) and a tail index (where pushes happen). Segments are created on
    first access; an absent segment behaves as a fresh one. The queue's
    contents are the elements of the segments from head to tail, in order. */
module SegmentedQueue {
  import opened Wrappers
  import opened FifoSpec
  import SG = Segment

  datatype SQueue = SQueue(segs: map<nat, SG.Segment>, head: nat, tail: nat, n: nat)

  /** Every created segment is a valid ring buffer of `n` slots, and no
      segment past the tail holds anything (only the tail is pushed into). */
  predicate WellFormed(q: SQueue)
  {
    && q.n >= 1
    && (forall i :: i in q.segs ==> SG.Valid(q.segs[i], q.n))
    && (forall i :: i in q.segs && i > q.tail ==> q.segs[i].start == q.segs[i].end)
  }

  /** The single-thread invariant of the corrected queue: the head never
      passes the tail, and no segment from the head up to (not including)
      the tail is drained. */
  predicate Valid(q: SQueue)
  {
    && WellFormed(q)
    && q.head <= q.tail
    && (forall i: nat :: q.head <= i < q.tail ==> |Items(q, i)| > 0)
  }

  /** Nothing lies past the tail. */
  lemma BeyondTailEmpty(q: SQueue, i: nat)
    requires WellFormed(q) && i > q.tail
    ensures Items(q, i) == []
  {
    SG.EmptyIffNoItems(Seg(q, i), q.n);
  }

  /** Segment `i`, a fresh one when it was never created. */
  function Seg(q: SQueue, i: nat): (s: SG.Segment)
    requires WellFormed(q)
    ensures SG.Valid(s, q.n)
  {
    if i in q.segs then q.segs[i] else SG.New(q.n)
  }

  function Items(q: SQueue, i: nat): seq<int>
    requires WellFormed(q)
  {
    SG.Items(Seg(q, i), q.n)
  }

  /** The elements of segments `lo` to `hi`, in order. */
  function Span(q: SQueue, lo: nat, hi: int): seq<int>
    requires WellFormed(q)
    decreases hi + 1 - lo
  {
    if lo > hi then [] else Items(q, lo) + Span(q, lo + 1, hi)
  }

  /** What a pop can reach: segments head to tail. */
  function Contents(q: SQueue): seq<int>
    requires WellFormed(q)
  {
    Span(q, q.head, q.tail)
  }

  lemma {:induction false} SpanSnoc(q: SQueue, lo: nat, hi: int)
    requires WellFormed(q) && lo <= hi + 1
    ensures Span(q, lo, hi + 1) == Span(q, lo, hi) + Items(q, hi + 1)
    decreases hi + 1 - lo
  {
    if lo <= hi {
      SpanSnoc(q, lo + 1, hi);
    }
  }

  /** A span depends only on the segments inside it. */
  lemma {:induction false} SpanFrame(q: SQueue, q': SQueue, lo: nat, hi: int)
    requires WellFormed(q) && WellFormed(q')
    requires forall j: nat :: lo <= j <= hi ==> Items(q, j) == Items(q', j)
    ensures Span(q, lo, hi) == Span(q', lo, hi)
    decreases hi + 1 - lo
  {
    if lo <= hi {
      SpanFrame(q, q', lo + 1, hi);
    }
  }

  /** The constructor creates segment 0; `n` is `SEGMENT_SIZE`. */
  function New(n: nat): (q: SQueue)
    requires n >= 1
    ensures Valid(q) && Contents(q) == []
  {
    SQueue(map[0 := SG.New(n)], 0, 0, n)
  }

  /** `get_segment(idx)`: creates segment `idx` if absent. */
  function Touch(q: SQueue, i: nat): (r: SQueue)
    requires WellFormed(q)
    ensures WellFormed(r) && i in r.segs
    ensures r.head == q.head && r.tail == q.tail && r.n == q.n
    ensures forall j: nat :: Seg(r, j) == Seg(q, j)
  {
    if i in q.segs then q else q.(segs := q.segs[i := SG.New(q.n)])
  }

  /** Creating a segment changes no segment's contents. */
  lemma TouchKeeps(q: SQueue, i: nat)
    requires WellFormed(q)
    ensures forall j: nat :: Items(Touch(q, i), j) == Items(q, j)
    ensures Contents(Touch(q, i)) == Contents(q)
    ensures Valid(q) ==> Valid(Touch(q, i))
  {
    SpanFrame(Touch(q, i), q, q.head, q.tail);
  }

  /** Replaces segment `i`. */
  function SetSeg(q: SQueue, i: nat, s: SG.Segment): (r: SQueue)
    requires WellFormed(q) && SG.Valid(s, q.n)
    requires i > q.tail ==> s.start == s.end
    ensures WellFormed(r) && r.head == q.head && r.tail == q.tail && r.n == q.n
    ensures Items(r, i) == SG.Items(s, q.n)
    ensures forall j: nat :: j != i ==> Items(r, j) == Items(q, j)
  {
    q.(segs := q.segs[i := s])
  }

  /** `push(val)`: tries the tail segment; when it is full, moves the tail
      on by one and tries again. The segment after the tail is empty, so
      with two or more slots the retry succeeds. With one slot every
      segment is always full and the loop never ends, hence `n >= 2`. */
  function Push(q: SQueue, v: int): (r: SQueue)
    requires WellFormed(q) && q.n >= 2
    ensures WellFormed(r) && r.head == q.head && r.n == q.n
    ensures r.tail == q.tail || r.tail == q.tail + 1
    decreases if SG.IsFull(Seg(q, q.tail), q.n) then 1 else 0
  {
    var q1 := Touch(q, q.tail);
    var p := SG.Push(Seg(q1, q.tail), q.n, v);
    if p.1 then SetSeg(q1, q.tail, p.0)
    else
      var q2 := q1.(tail := q.tail + 1);
      assert !SG.IsFull(Seg(q2, q2.tail), q.n) by {
        SG.EmptyIffNoItems(Seg(q2, q2.tail), q.n);
        SG.FullIffAtCapacity(Seg(q2, q2.tail), q.n);
      }
      Push(q2, v)
  }

  /** Pushing appends the value to the contents and keeps the invariant. */
  lemma {:induction false} PushAppends(q: SQueue, v: int)
    requires Valid(q) && q.n >= 2
    ensures Valid(Push(q, v)) && Contents(Push(q, v)) == Contents(q) + [v]
    decreases if SG.IsFull(Seg(q, q.tail), q.n) then 1 else 0
  {
    var q1 := Touch(q, q.tail);
    TouchKeeps(q, q.tail);
    var p := SG.Push(Seg(q1, q.tail), q.n, v);
    if p.1 {
      PushIntoTail(q1, p.0, v);
    } else {
      AdvanceTail(q1);
      PushAppends(q1.(tail := q.tail + 1), v);
    }
  }

  /** Storing into the tail segment appends to the contents. */
  lemma PushIntoTail(q: SQueue, s: SG.Segment, v: int)
    requires Valid(q) && SG.Valid(s, q.n) && SG.Items(s, q.n) == Items(q, q.tail) + [v]
    ensures Valid(SetSeg(q, q.tail, s)) && Contents(SetSeg(q, q.tail, s)) == Contents(q) + [v]
  {
    var r := SetSeg(q, q.tail, s);
    SpanSnoc(q, q.head, q.tail - 1);
    SpanSnoc(r, q.head, q.tail - 1);
    SpanFrame(q, r, q.head, q.tail - 1);
  }

  /** Moving a full tail on by one adds an empty segment to the contents,
      and the new tail has room. */
  lemma AdvanceTail(q: SQueue)
    requires Valid(q) && q.n >= 2 && SG.IsFull(Seg(q, q.tail), q.n)
    ensures Valid(q.(tail := q.tail + 1)) && Contents(q.(tail := q.tail + 1)) == Contents(q)
    ensures !SG.IsFull(Seg(q.(tail := q.tail + 1), q.tail + 1), q.n)
  {
    AdvanceTailValid(q);
    AdvanceTailContents(q);
    AdvanceTailRoom(q);
  }

  lemma AdvanceTailValid(q: SQueue)
    requires Valid(q) && q.n >= 2 && SG.IsFull(Seg(q, q.tail), q.n)
    ensures Valid(q.(tail := q.tail + 1))
  {
    var r := q.(tail := q.tail + 1);
    SG.FullIffAtCapacity(Seg(q, q.tail), q.n);
    assert Items(r, q.tail) == Items(q, q.tail);
    forall i: nat | r.head <= i < r.tail
      ensures |Items(r, i)| > 0
    {
      assert Items(r, i) == Items(q, i);
    }
  }

  lemma AdvanceTailContents(q: SQueue)
    requires Valid(q)
    ensures WellFormed(q.(tail := q.tail + 1))
    ensures Contents(q.(tail := q.tail + 1)) == Contents(q)
  {
    var r := q.(tail := q.tail + 1);
    BeyondTailEmpty(q, q.tail + 1);
    assert Items(r, q.tail + 1) == Items(q, q.tail + 1);
    SpanSnoc(r, q.head, q.tail);
    SpanFrame(r, q, q.head, q.tail);
  }

  lemma AdvanceTailRoom(q: SQueue)
    requires Valid(q) && q.n >= 2
    ensures WellFormed(q.(tail := q.tail + 1))
    ensures !SG.IsFull(Seg(q.(tail := q.tail + 1), q.tail + 1), q.n)
  {
    var r := q.(tail := q.tail + 1);
    BeyondTailEmpty(q, q.tail + 1);
    assert Seg(r, q.tail + 1) == Seg(q, q.tail + 1);
    SG.FullIffAtCapacity(Seg(r, q.tail + 1), q.n);
  }

  /** `try_pop()` as it should behave: pops from the head segment and, like
      the blocking `pop()`, moves the head on only when that segment has
      drained and is not the tail. On an empty head segment it returns
      `nullopt` and nothing moves; the code as written deadlocks there
      (see `SegmentedFindings`). */
  function TryPop(q: SQueue): (r: (SQueue, Option<int>))
    requires WellFormed(q)
    ensures WellFormed(r.0) && r.0.tail == q.tail && r.0.n == q.n
  {
    var q1 := Touch(q, q.head);
    var p := SG.Pop(Seg(q1, q.head), q.n);
    if p.1.Some? then
      var q2 := SetSeg(q1, q.head, p.0);
      if SG.IsEmpty(p.0) && q.head != q.tail then (q2.(head := q.head + 1), p.1) else (q2, p.1)
    else (q1, None)
  }

  /** The corrected `try_pop` is a FIFO pop that keeps the invariant: none
      exactly when the queue is empty, otherwise the oldest element. */
  lemma TryPopTakesOldest(q: SQueue)
    requires Valid(q)
    ensures var r := TryPop(q);
            && Valid(r.0)
            && (r.1.None? <==> |Contents(q)| == 0)
            && (r.1.None? ==> Contents(r.0) == Contents(q))
            && (r.1.Some? ==> |Contents(q)| > 0 && r.1.value == Contents(q)[0] && Contents(r.0) == Contents(q)[1..])
  {
    var q1 := Touch(q, q.head);
    TouchKeeps(q, q.head);
    var p := SG.Pop(Seg(q1, q.head), q.n);
    if p.1.None? {
      HeadDrainedMeansEmpty(q1);
    } else if SG.IsEmpty(p.0) && q.head != q.tail {
      TryPopAdvances(q1, p.0, p.1.value);
      assert TryPop(q) == (SetSeg(q1, q.head, p.0).(head := q.head + 1), p.1);
    } else {
      TryPopStays(q1, p.0, p.1.value);
      assert TryPop(q) == (SetSeg(q1, q.head, p.0), p.1);
    }
  }

  /** The segment pop of `try_pop` takes the head segment's oldest element. */
  lemma HeadPop(q: SQueue, s: SG.Segment, x: int)
    requires WellFormed(q) && SG.Pop(Seg(q, q.head), q.n) == (s, Some(x))
    ensures SG.Valid(s, q.n) && |Items(q, q.head)| > 0
    ensures x == Items(q, q.head)[0] && SG.Items(s, q.n) == Items(q, q.head)[1..]
  {
  }

  lemma TryPopAdvances(q: SQueue, s: SG.Segment, x: int)
    requires Valid(q) && SG.Pop(Seg(q, q.head), q.n) == (s, Some(x))
    requires SG.IsEmpty(s) && q.head != q.tail
    ensures var r := SetSeg(q, q.head, s).(head := q.head + 1);
            Valid(r) && |Contents(q)| > 0 && x == Contents(q)[0] && Contents(r) == Contents(q)[1..]
  {
    HeadPop(q, s, x);
    SG.EmptyIffNoItems(s, q.n);
    PopAdvances(q, s);
  }

  lemma TryPopStays(q: SQueue, s: SG.Segment, x: int)
    requires Valid(q) && SG.Pop(Seg(q, q.head), q.n) == (s, Some(x))
    requires !(SG.IsEmpty(s) && q.head != q.tail)
    ensures var r := SetSeg(q, q.head, s);
            Valid(r) && |Contents(q)| > 0 && x == Contents(q)[0] && Contents(r) == Contents(q)[1..]
  {
    HeadPop(q, s, x);
    SG.EmptyIffNoItems(s, q.n);
    PopStays(q, s);
  }

  /** The contents are the head segment's elements, then the rest. */
  lemma ContentsAtHead(q: SQueue)
    requires WellFormed(q) && q.head <= q.tail
    ensures Contents(q) == Items(q, q.head) + Span(q, q.head + 1, q.tail)
  {
  }

  /** With the invariant, a drained head segment means an empty queue. */
  lemma HeadDrainedMeansEmpty(q: SQueue)
    requires Valid(q) && Items(q, q.head) == []
    ensures Contents(q) == []
  {
    ContentsAtHead(q);
  }

  /** A pop that leaves the head segment in place. */
  lemma PopStays(q: SQueue, s: SG.Segment)
    requires Valid(q) && SG.Valid(s, q.n) && |Items(q, q.head)| > 0
    requires SG.Items(s, q.n) == Items(q, q.head)[1..]
    requires q.head < q.tail ==> |SG.Items(s, q.n)| > 0
    requires q.head > q.tail ==> s.start == s.end
    ensures Valid(SetSeg(q, q.head, s))
    ensures Contents(SetSeg(q, q.head, s)) == Contents(q)[1..]
    ensures Contents(q)[0] == Items(q, q.head)[0]
  {
    PopStaysValid(q, s);
    PopStaysContents(q, s);
  }

  lemma PopStaysContents(q: SQueue, s: SG.Segment)
    requires Valid(q) && SG.Valid(s, q.n) && |Items(q, q.head)| > 0
    requires SG.Items(s, q.n) == Items(q, q.head)[1..]
    requires q.head > q.tail ==> s.start == s.end
    ensures Contents(SetSeg(q, q.head, s)) == Contents(q)[1..]
    ensures Contents(q)[0] == Items(q, q.head)[0]
  {
    var r := SetSeg(q, q.head, s);
    var x, rest := Items(q, q.head), Span(q, q.head + 1, q.tail);
    ContentsAtHead(q);
    ContentsAtHead(r);
    SpanFrame(q, r, q.head + 1, q.tail);
    assert (x + rest)[1..] == x[1..] + rest;
  }

  lemma PopStaysValid(q: SQueue, s: SG.Segment)
    requires Valid(q) && SG.Valid(s, q.n)
    requires q.head < q.tail ==> |SG.Items(s, q.n)| > 0
    requires q.head > q.tail ==> s.start == s.end
    ensures Valid(SetSeg(q, q.head, s))
  {
    var r := SetSeg(q, q.head, s);
    forall i: nat | r.head <= i < r.tail
      ensures |Items(r, i)| > 0
    {
      if i != q.head {
        assert Items(r, i) == Items(q, i);
      }
    }
  }

  /** A pop that drains a head segment behind the tail moves the head on. */
  lemma PopAdvances(q: SQueue, s: SG.Segment)
    requires Valid(q) && SG.Valid(s, q.n) && q.head < q.tail
    requires Items(q, q.head) != [] && SG.Items(s, q.n) == Items(q, q.head)[1..] == []
    ensures Valid(SetSeg(q, q.head, s).(head := q.head + 1))
    ensures Contents(SetSeg(q, q.head, s).(head := q.head + 1)) == Contents(q)[1..]
    ensures Contents(q)[0] == Items(q, q.head)[0]
  {
    var r := SetSeg(q, q.head, s);
    PopAdvancesRest(q, s);
    MoveHead(r, q.head + 1);
    SpanFrame(q, r, q.head + 1, q.tail);
    ContentsAtHead(q);
    assert Items(q, q.head) == [Items(q, q.head)[0]];
  }

  lemma PopAdvancesRest(q: SQueue, s: SG.Segment)
    requires Valid(q) && SG.Valid(s, q.n) && q.head < q.tail
    ensures forall i: nat :: q.head < i ==> Items(SetSeg(q, q.head, s), i) == Items(q, i)
    ensures forall i: nat :: q.head + 1 <= i < q.tail ==> |Items(SetSeg(q, q.head, s), i)| > 0
  {
  }

  /** Moving the head changes no segment and keeps the invariant as long as
      the segments from the new head up to the tail are not drained. */
  lemma MoveHead(q: SQueue, h: nat)
    requires WellFormed(q) && h <= q.tail
    requires forall i: nat :: h <= i < q.tail ==> |Items(q, i)| > 0
    ensures Valid(q.(head := h)) && Contents(q.(head := h)) == Span(q, h, q.tail)
  {
    var r := q.(head := h);
    assert forall i: nat :: Seg(r, i) == Seg(q, i);
    SpanFrame(q, r, h, q.tail);
  }

  /** `pop()` without the wait: a call that returns finds an element; it
      takes the oldest and moves the head on under the same guard. */
  function Pop(q: SQueue): (r: (SQueue, int))
    requires Valid(q) && |Contents(q)| > 0
    ensures Valid(r.0) && r.1 == Contents(q)[0] && Contents(r.0) == Contents(q)[1..]
  {
    TryPopTakesOldest(q);
    var p := TryPop(q);
    (p.0, p.1.value)
  }

  /** `approximate_size()`: the sizes of the created segments from head to
      tail; absent segments are skipped. */
  function ApproximateSize(q: SQueue): nat
    requires WellFormed(q)
  {
    SizeSum(q, q.head, q.tail)
  }

  function SizeSum(q: SQueue, lo: nat, hi: int): nat
    requires WellFormed(q)
    decreases hi + 1 - lo
  {
    if lo > hi then 0
    else (if lo in q.segs then SG.Size(q.segs[lo], q.n) else 0) + SizeSum(q, lo + 1, hi)
  }

  lemma {:induction false} SizeSumCounts(q: SQueue, lo: nat, hi: int)
    requires WellFormed(q)
    ensures SizeSum(q, lo, hi) == |Span(q, lo, hi)|
    decreases hi + 1 - lo
  {
    if lo <= hi {
      SizeSumCounts(q, lo + 1, hi);
    }
  }

  /** The size is the number of reachable elements, and `empty()` holds
      exactly when there are none. */
  lemma ApproximateSizeCounts(q: SQueue)
    requires WellFormed(q)
    ensures ApproximateSize(q) == |Contents(q)|
    ensures Empty(q) <==> Contents(q) == []
  {
    SizeSumCounts(q, q.head, q.tail);
  }

  /** `empty()`. */
  predicate Empty(q: SQueue)
    requires WellFormed(q)
  {
    ApproximateSize(q) == 0
  }

  /** One operation against the segmented queue, popping with `try_pop`. */
  function Step(q: SQueue, op: Op): (r: (SQueue, Obs))
    requires WellFormed(q) && q.n >= 2
    ensures WellFormed(r.0) && r.0.n == q.n
  {
    match op
    case PushOp(v) => (Push(q, v), Pushed)
    case PopOp => var p := TryPop(q); (p.0, Popped(p.1))
    case SizeOp => (q, Sized(ApproximateSize(q)))
  }

  /** Runs a history against the segmented queue, popping with `try_pop`. */
  function Run(q: SQueue, ops: seq<Op>): (r: (SQueue, seq<Obs>))
    requires WellFormed(q) && q.n >= 2
    ensures WellFormed(r.0) && r.0.n == q.n && |r.1| == |ops|
    decreases |ops|
  {
    if |ops| == 0 then (q, [])
    else
      var step := Step(q, ops[0]);
      var rest := Run(step.0, ops[1..]);
      (rest.0, [step.1] + rest.1)
  }

  /** The segmented queue, with the corrected `try_pop`, behaves as a plain
      FIFO on every single-thread history. */
  lemma {:induction false} RunRefinesFifo(q: SQueue, ops: seq<Op>)
    requires Valid(q) && q.n >= 2
    ensures Valid(Run(q, ops).0)
    ensures Run(q, ops).1 == RunFifo(Contents(q), ops).1
    ensures Contents(Run(q, ops).0) == RunFifo(Contents(q), ops).0
    decreases |ops|
  {
    if |ops| > 0 {
      match ops[0]
      case PushOp(v) =>
        PushAppends(q, v);
        RunRefinesFifo(Push(q, v), ops[1..]);
      case PopOp =>
        TryPopTakesOldest(q);
        RunRefinesFifo(TryPop(q).0, ops[1..]);
      case SizeOp =>
        ApproximateSizeCounts(q);
        RunRefinesFifo(q, ops[1..]);
    }
  }

  /** The history of the single-thread test, over the values it pushes:
      push three (size 3); pop two (size 1); push one; pop two; size. */
  function TestHistory(a: int, b: int, c: int, d: int): seq<Op>
  {
    [PushOp(a), PushOp(b), PushOp(c), SizeOp, PopOp, PopOp, SizeOp, PushOp(d), PopOp, PopOp, SizeOp]
  }

  /** The last five operations of the test, from a queue holding `c`. */
  lemma TestTailOnFifo(c: int, d: int)
    ensures RunFifo([c], [SizeOp, PushOp(d), PopOp, PopOp, SizeOp]).1
            == [Sized(1), Pushed, Popped(Some(c)), Popped(Some(d)), Sized(0)]
  {
    var h11: seq<Op> := [SizeOp];
    assert RunFifo([], h11).1 == [Sized(0)] by { RunFifoCons([], SizeOp, []); }
    var h10 := [PopOp] + h11;
    assert RunFifo([d], h10).1 == [Popped(Some(d)), Sized(0)] by {
      RunFifoCons([d], PopOp, h11);
      assert [d][1..] == [];
    }
    var h9 := [PopOp] + h10;
    assert RunFifo([c, d], h9).1 == [Popped(Some(c)), Popped(Some(d)), Sized(0)] by {
      RunFifoCons([c, d], PopOp, h10);
      assert [c, d][1..] == [d];
    }
    var h8 := [PushOp(d)] + h9;
    assert RunFifo([c], h8).1 == [Pushed, Popped(Some(c)), Popped(Some(d)), Sized(0)] by {
      RunFifoCons([c], PushOp(d), h9);
      assert [c] + [d] == [c, d];
    }
    RunFifoCons([c], SizeOp, h8);
    assert [SizeOp] + h8 == [SizeOp, PushOp(d), PopOp, PopOp, SizeOp];
  }

  /** The first four operations of the test: three pushes and a size. */
  lemma TestHeadOnFifo(a: int, b: int, c: int)
    ensures RunFifo([], [PushOp(a), PushOp(b), PushOp(c), SizeOp]).0 == [a, b, c]
    ensures RunFifo([], [PushOp(a), PushOp(b), PushOp(c), SizeOp]).1 == [Pushed, Pushed, Pushed, Sized(3)]
  {
    var h4: seq<Op> := [SizeOp];
    assert RunFifo([a, b, c], h4).0 == [a, b, c] && RunFifo([a, b, c], h4).1 == [Sized(3)] by {
      RunFifoOne([a, b, c], SizeOp);
    }
    var h3 := [PushOp(c)] + h4;
    assert RunFifo([a, b], h3).0 == [a, b, c] && RunFifo([a, b], h3).1 == [Pushed, Sized(3)] by {
      RunFifoCons([a, b], PushOp(c), h4);
      assert [a, b] + [c] == [a, b, c];
    }
    var h2 := [PushOp(b)] + h3;
    assert RunFifo([a], h2).0 == [a, b, c] && RunFifo([a], h2).1 == [Pushed, Pushed, Sized(3)] by {
      RunFifoCons([a], PushOp(b), h3);
      assert [a] + [b] == [a, b];
    }
    RunFifoCons([], PushOp(a), h2);
    assert [] + [a] == [a];
    assert [PushOp(a)] + h2 == [PushOp(a), PushOp(b), PushOp(c), SizeOp];
  }

  /** The two pops after it take the two oldest values. */
  lemma TestMiddleOnFifo(a: int, b: int, c: int)
    ensures RunFifo([a, b, c], [PopOp, PopOp]).0 == [c]
    ensures RunFifo([a, b, c], [PopOp, PopOp]).1 == [Popped(Some(a)), Popped(Some(b))]
  {
    var h2: seq<Op> := [PopOp];
    assert RunFifo([b, c], h2).0 == [c] && RunFifo([b, c], h2).1 == [Popped(Some(b))] by {
      RunFifoOne([b, c], PopOp);
      assert [b, c][1..] == [c];
    }
    RunFifoCons([a, b, c], PopOp, h2);
    assert [a, b, c][1..] == [b, c];
    assert [PopOp] + h2 == [PopOp, PopOp];
  }

  lemma TestHistoryOnFifo(a: int, b: int, c: int, d: int)
    ensures RunFifo([], TestHistory(a, b, c, d)).1
            == [Pushed, Pushed, Pushed, Sized(3)] + [Popped(Some(a)), Popped(Some(b))]
               + [Sized(1), Pushed, Popped(Some(c)), Popped(Some(d)), Sized(0)]
  {
    var h1: seq<Op> := [PushOp(a), PushOp(b), PushOp(c), SizeOp];
    var h2: seq<Op> := [PopOp, PopOp];
    var h3: seq<Op> := [SizeOp, PushOp(d), PopOp, PopOp, SizeOp];
    assert TestHistory(a, b, c, d) == h1 + (h2 + h3);
    TestHeadOnFifo(a, b, c);
    TestMiddleOnFifo(a, b, c);
    TestTailOnFifo(c, d);
    RunFifoAppend([], h1, h2 + h3);
    RunFifoAppend([a, b, c], h2, h3);
  }

  /** The single-thread test: push 10, 20, 30 (size 3); pop 10 and 20
      (size 1); push 40; pop 30 and 40; size 0, so the queue is empty. */
  lemma SingleThreadFifo(n: nat)
    requires n >= 2
    ensures Run(New(n), TestHistory(10, 20, 30, 40)).1
            == [Pushed, Pushed, Pushed, Sized(3)] + [Popped(Some(10)), Popped(Some(20))]
               + [Sized(1), Pushed, Popped(Some(30)), Popped(Some(40)), Sized(0)]
  {
    RunRefinesFifo(New(n), TestHistory(10, 20, 30, 40));
    TestHistoryOnFifo(10, 20, 30, 40);
  }
}
