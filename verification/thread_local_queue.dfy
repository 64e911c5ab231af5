/** `ThreadLocalQueue` of the hierarchical priority queue: one thread's
    priority queue together with its `is_non_empty` hint. The lock around
    every operation is left out; each operation is one state transition. */
module ThreadLocalQueue {
  import opened Wrappers
  import PQ = PriorityQueue

  /** `std::this_thread::get_id()`, passed in explicitly. */
  type ThreadId = nat

  datatype LocalQueue = LocalQueue(heap: seq<int>, isNonEmpty: bool, owner: ThreadId)

  predicate Valid(q: LocalQueue)
  {
    PQ.Ordered(q.heap, PQ.ByValue)
  }

  /** The hint is exact: set iff the queue holds an element. */
  predicate FlagAccurate(q: LocalQueue)
  {
    q.isNonEmpty == (|q.heap| > 0)
  }

  /** The constructor: empty, hint clear, owned by `id`. */
  function New(id: ThreadId): (q: LocalQueue)
    ensures Valid(q) && FlagAccurate(q) && q.owner == id && |q.heap| == 0
  {
    LocalQueue([], false, id)
  }

  /** `push(value)`: inserts the value and raises the hint if the queue was
      empty before. */
  function Push(q: LocalQueue, v: int): (r: LocalQueue)
    requires Valid(q)
    ensures Valid(r) && r.owner == q.owner
    ensures multiset(r.heap) == multiset(q.heap) + multiset{v}
    ensures |q.heap| == 0 ==> r.isNonEmpty
    ensures FlagAccurate(q) ==> FlagAccurate(r)
  {
    var wasEmpty := |q.heap| == 0;
    q.(heap := PQ.Insert(q.heap, v, PQ.ByValue), isNonEmpty := if wasEmpty then true else q.isNonEmpty)
  }

  /** Pushes each value of `xs` in turn through `Push`. */
  function PushAll(q: LocalQueue, xs: seq<int>): (r: LocalQueue)
    requires Valid(q)
    ensures Valid(r) && r.owner == q.owner
    ensures multiset(r.heap) == multiset(q.heap) + multiset(xs)
    ensures FlagAccurate(q) ==> FlagAccurate(r)
    decreases |xs|
  {
    if |xs| == 0 then q
    else
      assert xs == [xs[0]] + xs[1..];
      PushAll(Push(q, xs[0]), xs[1..])
  }

  /** `try_pop()`: on an empty queue clears the hint and yields nothing;
      otherwise removes and yields the top, clearing the hint when the queue
      has become empty. */
  function TryPop(q: LocalQueue): (r: (LocalQueue, Option<int>))
    requires Valid(q)
    ensures Valid(r.0) && r.0.owner == q.owner
    ensures r.1.None? <==> |q.heap| == 0
    ensures r.1.None? ==> r.0.heap == q.heap && !r.0.isNonEmpty
    ensures r.1.Some? ==> multiset(r.0.heap) + multiset{r.1.value} == multiset(q.heap)
    ensures |r.0.heap| == 0 ==> !r.0.isNonEmpty
    ensures FlagAccurate(q) ==> FlagAccurate(r.0)
  {
    if |q.heap| == 0 then
      (q.(isNonEmpty := false), None)
    else
      PQ.PopRemovesTop(q.heap, PQ.ByValue);
      var rest := q.heap[1..];
      (q.(heap := rest, isNonEmpty := if |rest| == 0 then false else q.isNonEmpty), Some(q.heap[0]))
  }

  /** The value `try_pop()` yields is a maximal element of the queue. */
  lemma TryPopTakesTop(q: LocalQueue)
    requires Valid(q)
    ensures TryPop(q).1.Some? ==> PQ.IsTop(q.heap, TryPop(q).1.value, PQ.ByValue)
  {
    if |q.heap| > 0 {
      PQ.TopIsHighest(q.heap, PQ.ByValue);
    }
  }

  function Min(a: nat, b: nat): nat { if a <= b then a else b }

  /** `steal(target, max_steal)`: moves the `min(max_steal, size)`
      highest-priority elements into `target` and yields how many moved. */
  function Steal(q: LocalQueue, target: seq<int>, maxSteal: nat): (r: (LocalQueue, seq<int>, nat))
    requires Valid(q) && PQ.Ordered(target, PQ.ByValue)
    ensures Valid(r.0) && r.0.owner == q.owner && PQ.Ordered(r.1, PQ.ByValue)
    ensures r.2 == Min(maxSteal, |q.heap|)
    ensures |r.0.heap| == |q.heap| - r.2 && |r.1| == |target| + r.2
    ensures multiset(r.0.heap) + multiset(r.1) == multiset(q.heap) + multiset(target)
    ensures |q.heap| == 0 ==> r.0.heap == q.heap && r.1 == target && !r.0.isNonEmpty
    ensures |r.0.heap| == 0 ==> !r.0.isNonEmpty
    ensures FlagAccurate(q) ==> FlagAccurate(r.0)
  {
    if |q.heap| == 0 then
      (q.(isNonEmpty := false), target, 0)
    else
      var k := Min(maxSteal, |q.heap|);
      SplitKeepsOrder(q.heap, k);
      var q' := q.(heap := q.heap[k..], isNonEmpty := if |q.heap[k..]| == 0 then false else q.isNonEmpty);
      var target' := PQ.InsertAll(target, q.heap[..k], PQ.ByValue);
      assert |multiset(target')| == |multiset(target)| + |multiset(q.heap[..k])|;
      assert multiset(q'.heap) + multiset(target') == multiset(q.heap) + multiset(target);
      (q', target', k)
  }

  /** What `steal` moves are the highest elements: each is at least every
      element left behind, and the source keeps the rest in order. */
  lemma StealTakesHighest(q: LocalQueue, target: seq<int>, maxSteal: nat)
    requires Valid(q) && PQ.Ordered(target, PQ.ByValue)
    ensures var r := Steal(q, target, maxSteal);
            && multiset(r.0.heap) <= multiset(q.heap)
            && (forall x, y :: x in multiset(q.heap) - multiset(r.0.heap) && y in r.0.heap ==> y <= x)
            && (r.2 == 0 ==> r.0.heap == q.heap)
  {
    if |q.heap| > 0 {
      var k := Min(maxSteal, |q.heap|);
      assert Steal(q, target, maxSteal).0.heap == q.heap[k..];
      LeftBehindIsLowest(q.heap, k);
    }
  }

  /** A steal into an empty buffer splits the queue in two: the buffer
      holds what was taken, each element of it at least as high as every
      element left behind, and a steal that takes nothing leaves the queue
      as it was. */
  lemma StealSplits(q: LocalQueue, maxSteal: nat)
    requires Valid(q)
    ensures var r := Steal(q, [], maxSteal);
            && multiset(r.0.heap) + multiset(r.1) == multiset(q.heap)
            && (forall x, y :: x in r.1 && y in r.0.heap ==> y <= x)
            && (|r.1| == 0 ==> r.0.heap == q.heap)
  {
    if |q.heap| > 0 {
      var r := Steal(q, [], maxSteal);
      var h, k := q.heap, Min(maxSteal, |q.heap|);
      assert r.0.heap == h[k..];
      assert multiset(r.1) == multiset(h[..k]) by {
        SplitKeepsOrder(h, k);
      }
      TakenAboveLeft(h, k, r.1);
    }
  }

  /** Elements that are the first `k` of an ordered queue, in any order,
      are each at least as high as every element after them. */
  lemma TakenAboveLeft(h: seq<int>, k: nat, taken: seq<int>)
    requires PQ.Ordered(h, PQ.ByValue) && k <= |h| && multiset(taken) == multiset(h[..k])
    ensures forall x, y :: x in taken && y in h[k..] ==> y <= x
  {
    PrefixAboveSuffix(h, k);
    forall x, y | x in taken && y in h[k..]
      ensures y <= x
    {
      assert x in multiset(h[..k]);
    }
  }

  /** Dropping the first `k` elements of an ordered queue drops elements
      at least as high as every one kept. */
  lemma LeftBehindIsLowest(h: seq<int>, k: nat)
    requires PQ.Ordered(h, PQ.ByValue) && k <= |h|
    ensures multiset(h[k..]) <= multiset(h)
    ensures forall x, y :: x in multiset(h) - multiset(h[k..]) && y in h[k..] ==> y <= x
    ensures k == 0 ==> h[k..] == h
  {
    SplitKeepsOrder(h, k);
    PrefixAboveSuffix(h, k);
    assert multiset(h) - multiset(h[k..]) == multiset(h[..k]);
  }

  /** Cutting an ordered queue after its first `k` elements: the suffix is
      ordered and the two parts together hold what the queue held. */
  lemma SplitKeepsOrder(h: seq<int>, k: nat)
    requires PQ.Ordered(h, PQ.ByValue) && k <= |h|
    ensures PQ.Ordered(h[k..], PQ.ByValue)
    ensures multiset(h[..k]) + multiset(h[k..]) == multiset(h)
  {
    assert h == h[..k] + h[k..];
  }

  lemma PrefixAboveSuffix(h: seq<int>, k: nat)
    requires PQ.Ordered(h, PQ.ByValue) && k <= |h|
    ensures forall x, y :: x in h[..k] && y in h[k..] ==> y <= x
  {
    forall x, y | x in h[..k] && y in h[k..]
      ensures y <= x
    {
      var i :| 0 <= i < k && h[..k][i] == x;
      var j :| 0 <= j < |h| - k && h[k..][j] == y;
      assert PQ.ByValue(h[i]) >= PQ.ByValue(h[k + j]);
    }
  }

  /** `merge_to(target)`: moves every element into `target` and clears the
      hint. */
  function MergeTo(q: LocalQueue, target: seq<int>): (r: (LocalQueue, seq<int>))
    requires Valid(q) && PQ.Ordered(target, PQ.ByValue)
    ensures Valid(r.0) && FlagAccurate(r.0) && r.0.owner == q.owner && PQ.Ordered(r.1, PQ.ByValue)
    ensures |r.0.heap| == 0
    ensures multiset(r.1) == multiset(target) + multiset(q.heap)
  {
    (q.(heap := [], isNonEmpty := false), PQ.InsertAll(target, q.heap, PQ.ByValue))
  }

  /** `empty_quick()`: reads the hint only. */
  predicate EmptyQuick(q: LocalQueue)
  {
    !q.isNonEmpty
  }

  /** `size()`: zero when the hint is clear, the element count otherwise. */
  function Size(q: LocalQueue): (n: nat)
  {
    if !q.isNonEmpty then 0 else |q.heap|
  }

  /** With an exact hint, `empty_quick()` and `size()` report the contents. */
  lemma HintReportsContents(q: LocalQueue)
    requires FlagAccurate(q)
    ensures EmptyQuick(q) <==> |q.heap| == 0
    ensures Size(q) == |q.heap|
  {
  }
}
