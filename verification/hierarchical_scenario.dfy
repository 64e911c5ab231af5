/** The single-thread scenario of the hierarchical priority queue: one
    thread pushes and pops with threshold 3 and `max_steal` 2. Each step is
    stated on concrete contents, for any thread id. */
module HierarchicalScenario {
  import opened Wrappers
  import PQ = PriorityQueue
  import LQ = ThreadLocalQueue
  import opened HierarchicalQueue

  /** The state with thread `t`'s local queue `heap` (hint exact), global
      queue `g` and index `ix`, with threshold 3 and `max_steal` 2. */
  function Snap(t: ThreadId, heap: seq<int>, g: seq<int>, ix: seq<ThreadId>): Hpq
  {
    Hpq(map[t := LQ.LocalQueue(heap, |heap| > 0, t)], g, ix, 3, 2)
  }

  lemma Overwrite(t: ThreadId, x: LQ.LocalQueue, y: LQ.LocalQueue)
    ensures map[t := x][t := y] == map[t := y]
  {
  }

  /** Such a state is well formed when both queues are ordered and the index
      lists at most the one thread. */
  lemma SnapWellFormed(t: ThreadId, heap: seq<int>, flag: bool, g: seq<int>, ix: seq<ThreadId>)
    requires PQ.Ordered(heap, PQ.ByValue) && PQ.Ordered(g, PQ.ByValue) && (ix == [] || ix == [t])
    ensures WellFormed(Hpq(map[t := LQ.LocalQueue(heap, flag, t)], g, ix, 3, 2))
  {
  }

  lemma ScenarioFirstPush(t: ThreadId, v: int)
    ensures Push(Snap(t, [], [], []), t, v) == Snap(t, [v], [], [t])
  {
    var s := Snap(t, [], [], []);
    assert InitLocalQueue(s, t) == s;
    assert PQ.Insert([], v, PQ.ByValue) == [v];
    var a := PushLocal(s, t, v);
    assert a.locals[t] == LQ.LocalQueue([v], true, t);
    assert a == Snap(t, [v], [], []);
    assert CheckAndMergeLocal(a, t) == a;
  }

  lemma ScenarioSecondPush(t: ThreadId, u: int, v: int, h: seq<int>)
    requires PQ.Insert([u], v, PQ.ByValue) == h
    ensures Push(Snap(t, [u], [], [t]), t, v) == Snap(t, h, [], [t])
  {
    var s := Snap(t, [u], [], [t]);
    assert InitLocalQueue(s, t) == s;
    var a := PushLocal(s, t, v);
    assert a.locals[t] == LQ.LocalQueue(h, true, t);
    assert a == Snap(t, h, [], [t]);
    assert CheckAndMergeLocal(a, t) == a;
  }

  lemma ScenarioInsert()
    ensures PQ.Insert([3, 1], 2, PQ.ByValue) == [3, 2, 1]
  {
    assert [3, 1][1..] == [1];
    assert PQ.Insert([1], 2, PQ.ByValue) == [2, 1];
  }

  lemma ScenarioSmallFacts()
    ensures PQ.Insert([3], 1, PQ.ByValue) == [3, 1]
    ensures PQ.Insert([10], 20, PQ.ByValue) == [20, 10]
    ensures PQ.Ordered([3, 2, 1], PQ.ByValue)
    ensures [3, 2, 1][1..] == [2, 1] && [2, 1][1..] == [1] && [1][1..] == []
  {
    assert [3][1..] == [];
  }

  /** A local push in a single-thread state inserts into the heap and sets
      the hint. */
  lemma LocalPushStep(t: ThreadId, h: seq<int>, g: seq<int>, ix: seq<ThreadId>, v: int)
    requires PQ.Ordered(h, PQ.ByValue) && PQ.Ordered(g, PQ.ByValue) && (ix == [] || ix == [t])
    ensures PushLocal(Snap(t, h, g, ix), t, v) == Hpq(map[t := LQ.LocalQueue(PQ.Insert(h, v, PQ.ByValue), true, t)], g, ix, 3, 2)
  {
    var s := Snap(t, h, g, ix);
    SnapWellFormed(t, h, |h| > 0, g, ix);
    assert InitLocalQueue(s, t) == s;
    Overwrite(t, s.locals[t], LQ.LocalQueue(PQ.Insert(h, v, PQ.ByValue), true, t));
  }

  /** A local queue at the threshold flushes into the global queue and
      leaves the index. */
  lemma FlushStep(t: ThreadId, h: seq<int>, g: seq<int>)
    requires PQ.Ordered(h, PQ.ByValue) && PQ.Ordered(g, PQ.ByValue) && |h| >= 3
    ensures CheckAndMergeLocal(Hpq(map[t := LQ.LocalQueue(h, true, t)], g, [t], 3, 2), t)
            == Hpq(map[t := LQ.LocalQueue([], false, t)], PQ.InsertAll(g, h, PQ.ByValue), [], 3, 2)
  {
    var q := LQ.LocalQueue(h, true, t);
    SnapWellFormed(t, h, true, g, [t]);
    Overwrite(t, q, LQ.LocalQueue([], false, t));
    ScenarioUnlist(t);
  }

  lemma ScenarioUnlist(t: ThreadId)
    ensures RemoveFromNonEmpty([t], t) == []
  {
    assert [t][..0] + [t][1..] == [];
  }

  lemma ScenarioThirdPushLocal(t: ThreadId)
    ensures PushLocal(Snap(t, [3, 1], [], [t]), t, 2) == Hpq(map[t := LQ.LocalQueue([3, 2, 1], true, t)], [], [t], 3, 2)
  {
    ScenarioInsert();
    LocalPushStep(t, [3, 1], [], [t], 2);
  }

  /** A full local queue that is already in order lands in an empty global
      queue in the same order. */
  lemma ScenarioFlush(t: ThreadId, h: seq<int>)
    requires PQ.Ordered(h, PQ.ByValue) && |h| >= 3
    ensures CheckAndMergeLocal(Hpq(map[t := LQ.LocalQueue(h, true, t)], [], [t], 3, 2), t)
            == Snap(t, [], h, [])
  {
    FlushStep(t, h, []);
    assert [] + h == h;
    PQ.InsertAllInOrder([], h, PQ.ByValue);
  }

  /** The third push reaches the threshold and flushes. */
  lemma ScenarioThirdPush(t: ThreadId)
    ensures Push(Snap(t, [3, 1], [], [t]), t, 2) == Snap(t, [], [3, 2, 1], [])
  {
    ScenarioThirdPushLocal(t);
    ScenarioSmallFacts();
    ScenarioFlush(t, [3, 2, 1]);
  }

  lemma ScenarioGlobalPop(t: ThreadId, g: seq<int>)
    requires PQ.Ordered(g, PQ.ByValue) && |g| > 0
    ensures TryPop(Snap(t, [], g, []), t) == (Snap(t, [], g[1..], []), Some(g[0]))
  {
    var s := Snap(t, [], g, []);
    assert PopLocal(s, t) == (s, None);
  }

  lemma ScenarioLocalPops(t: ThreadId)
    ensures TryPop(Snap(t, [20, 10], [], [t]), t) == (Snap(t, [10], [], [t]), Some(20))
    ensures TryPop(Snap(t, [10], [], [t]), t) == (Snap(t, [], [], []), Some(10))
  {
    assert [20, 10][1..] == [10];
    var s := Snap(t, [20, 10], [], [t]);
    Overwrite(t, LQ.LocalQueue([20, 10], true, t), LQ.LocalQueue([10], true, t));
    var u := Snap(t, [10], [], [t]);
    assert [10][1..] == [];
    Overwrite(t, LQ.LocalQueue([10], true, t), LQ.LocalQueue([], false, t));
    assert RemoveFromNonEmpty([t], t) == [];
  }

  /** Threshold 3, `max_steal` 2: pushing 3, 1, 2 flushes all three into the
      global queue on the third push; they pop as 3, 2, 1 and the queue is
      then empty. */
  lemma SingleThreadFirstRound(t: ThreadId)
    ensures var s3 := Push(Push(Push(New(3, 2, t), t, 3), t, 1), t, 2);
            var p1 := TryPop(s3, t);
            var p2 := TryPop(p1.0, t);
            var p3 := TryPop(p2.0, t);
            && p1.1 == Some(3) && p2.1 == Some(2) && p3.1 == Some(1)
            && p3.0 == Snap(t, [], [], []) && Empty(p3.0, t)
  {
    ScenarioSmallFacts();
    var s0 := New(3, 2, t);
    assert s0 == Snap(t, [], [], []);
    ScenarioFirstPush(t, 3);
    var s1 := Push(s0, t, 3);
    assert s1 == Snap(t, [3], [], [t]);
    ScenarioSecondPush(t, 3, 1, [3, 1]);
    var s2 := Push(s1, t, 1);
    assert s2 == Snap(t, [3, 1], [], [t]);
    ScenarioThirdPush(t);
    var s3 := Push(s2, t, 2);
    assert s3 == Snap(t, [], [3, 2, 1], []);
    ScenarioGlobalPop(t, [3, 2, 1]);
    var p1 := TryPop(s3, t);
    assert p1.0 == Snap(t, [], [2, 1], []);
    ScenarioGlobalPop(t, [2, 1]);
    var p2 := TryPop(p1.0, t);
    assert p2.0 == Snap(t, [], [1], []);
    ScenarioGlobalPop(t, [1]);
  }

  /** Pushing 10 and 20 afterwards keeps both local, and they pop as 20, 10. */
  lemma SingleThreadSecondRound(t: ThreadId)
    ensures var s5 := Push(Push(Snap(t, [], [], []), t, 10), t, 20);
            var q1 := TryPop(s5, t);
            q1.1 == Some(20) && TryPop(q1.0, t).1 == Some(10)
  {
    ScenarioSmallFacts();
    ScenarioFirstPush(t, 10);
    ScenarioSecondPush(t, 10, 20, [20, 10]);
    ScenarioLocalPops(t);
  }
}
