/** `std::priority_queue` as a sequence kept ordered from the highest to the
    lowest priority: `top()` is the first element and `pop()` drops it.
    Priority is given by a key function; `std::less` on integers is the key
    `x => x` (the largest value on top) and an inverted comparison such as
    the delay queue's is a negated key. */
module PriorityQueue {

  /** The default `std::less<int>` comparator: the largest value is on top. */
  function ByValue(x: int): int { x }

  /** Every element has at least the priority of every later element. */
  predicate Ordered<T>(s: seq<T>, prio: T -> int)
  {
    forall i, j :: 0 <= i < j < |s| ==> prio(s[i]) >= prio(s[j])
  }

  /** The top element has the highest priority in the queue. */
  ghost predicate IsTop<T>(s: seq<T>, x: T, prio: T -> int)
  {
    x in s && forall y :: y in s ==> prio(y) <= prio(x)
  }

  lemma TopIsHighest<T>(s: seq<T>, prio: T -> int)
    requires Ordered(s, prio)
    requires |s| > 0
    ensures IsTop(s, s[0], prio)
  {
    forall y | y in s
      ensures prio(y) <= prio(s[0])
    {
      var k :| 0 <= k < |s| && s[k] == y;
      if k > 0 {
        assert prio(s[0]) >= prio(s[k]);
      }
    }
  }

  /** `push`: the new element goes after every element of at least its
      priority, so equal priorities leave in insertion order. */
  function Insert<T>(s: seq<T>, x: T, prio: T -> int): (r: seq<T>)
    requires Ordered(s, prio)
    ensures Ordered(r, prio)
    ensures multiset(r) == multiset(s) + multiset{x}
    ensures |r| == |s| + 1
  {
    if |s| == 0 || prio(x) > prio(s[0]) then
      [x] + s
    else
      var rest := Insert(s[1..], x, prio);
      assert s == [s[0]] + s[1..];
      HeadBoundsInsertion(s, x, prio, rest);
      [s[0]] + rest
  }

  /** Every element of a reordering of the tail plus a value no higher than
      the head is no higher than the head. */
  lemma HeadBoundsInsertion<T>(s: seq<T>, x: T, prio: T -> int, rest: seq<T>)
    requires Ordered(s, prio) && |s| > 0 && prio(x) <= prio(s[0])
    requires Ordered(rest, prio)
    requires multiset(rest) == multiset(s[1..]) + multiset{x}
    ensures Ordered([s[0]] + rest, prio)
  {
    forall k | 0 <= k < |rest|
      ensures prio(rest[k]) <= prio(s[0])
    {
      assert rest[k] in multiset(rest);
      if rest[k] != x {
        assert rest[k] in s[1..];
        var j :| 0 <= j < |s| - 1 && s[1..][j] == rest[k];
        assert s[j + 1] == rest[k];
      }
    }
    var r := [s[0]] + rest;
    forall i, j | 0 <= i < j < |r|
      ensures prio(r[i]) >= prio(r[j])
    {
      if i > 0 {
        assert r[i] == rest[i - 1] && r[j] == rest[j - 1];
      } else {
        assert r[j] == rest[j - 1];
      }
    }
  }

  /** Pushes every element of `xs` in turn, as a loop of `target.push(...)`. */
  function InsertAll<T>(s: seq<T>, xs: seq<T>, prio: T -> int): (r: seq<T>)
    requires Ordered(s, prio)
    ensures Ordered(r, prio)
    ensures multiset(r) == multiset(s) + multiset(xs)
    decreases |xs|
  {
    if |xs| == 0 then
      s
    else
      assert xs == [xs[0]] + xs[1..];
      InsertAll(Insert(s, xs[0], prio), xs[1..], prio)
  }

  /** A value of no higher priority than anything queued goes last. */
  lemma {:induction false} InsertLowest<T>(s: seq<T>, x: T, prio: T -> int)
    requires Ordered(s, prio)
    requires forall i :: 0 <= i < |s| ==> prio(x) <= prio(s[i])
    ensures Insert(s, x, prio) == s + [x]
  {
    if |s| > 0 {
      if prio(x) == prio(s[0]) || prio(x) < prio(s[0]) {
        assert Ordered(s[1..], prio);
        InsertLowest(s[1..], x, prio);
        assert s == [s[0]] + s[1..];
      }
    }
  }

  /** Pushing values that already continue the order in sequence appends
      them: the order of equal priorities is the order of the pushes. */
  lemma {:induction false} InsertAllInOrder<T>(s: seq<T>, xs: seq<T>, prio: T -> int)
    requires Ordered(s + xs, prio)
    ensures Ordered(s, prio)
    ensures InsertAll(s, xs, prio) == s + xs
    decreases |xs|
  {
    OrderedSplit(s, xs, prio);
    if |xs| > 0 {
      InsertLowest(s, xs[0], prio);
      assert (s + [xs[0]]) + xs[1..] == s + xs;
      InsertAllInOrder(s + [xs[0]], xs[1..], prio);
    }
  }

  /** Both halves of an ordered sequence are ordered, and the first is no
      lower than the second. */
  lemma OrderedSplit<T>(s: seq<T>, xs: seq<T>, prio: T -> int)
    requires Ordered(s + xs, prio)
    ensures Ordered(s, prio)
    ensures forall i :: 0 <= i < |s| && |xs| > 0 ==> prio(xs[0]) <= prio(s[i])
  {
    var t := s + xs;
    forall i, j | 0 <= i < j < |s|
      ensures prio(s[i]) >= prio(s[j])
    {
      assert t[i] == s[i] && t[j] == s[j];
    }
    forall i | 0 <= i < |s| && |xs| > 0
      ensures prio(xs[0]) <= prio(s[i])
    {
      assert t[i] == s[i] && t[|s|] == xs[0];
    }
  }

  /** A non-empty sequence is its first element followed by the rest, as a
      multiset: what `pop()` takes off the front is all it removes. */
  lemma MultisetCons<T>(s: seq<T>)
    requires |s| > 0
    ensures multiset(s) == multiset{s[0]} + multiset(s[1..])
  {
    assert s == [s[0]] + s[1..];
  }

  /** `pop()` on a non-empty queue: the rest is still ordered and has lost
      exactly the top element. */
  lemma PopRemovesTop<T>(s: seq<T>, prio: T -> int)
    requires Ordered(s, prio)
    requires |s| > 0
    ensures Ordered(s[1..], prio)
    ensures multiset(s[1..]) == multiset(s) - multiset{s[0]}
  {
    assert s == [s[0]] + s[1..];
  }
}
