/** `my_for_each`, and the work split of `parallel_for_each_s`: how many
    threads it uses for a range and which contiguous block of the range
    each one walks. The threads, the join and the exception hand-off are
    left out; the blocks are applied one after another, which is what the
    threads compute since the blocks do not overlap. */
module ForEach {
  import A = Accumulate

  /** `my_for_each`: the function object is called on each element in turn
      and returned. Its state is `S`, and a call on an element gives its
      next state. */
  method MyForEach<S, E>(s: seq<E>, func: S, call: (S, E) -> S) returns (r: S)
    ensures r == A.FoldLeft(call, func, s)
  {
    r := func;
    var i := 0;
    while i < |s|
      invariant 0 <= i <= |s|
      invariant r == A.FoldLeft(call, func, s[..i])
    {
      assert s[..i + 1] == s[..i] + [s[i]];
      A.FoldLeftSnoc(call, func, s[..i], s[i]);
      r := call(r, s[i]);
      i := i + 1;
    }
    assert s[..i] == s;
  }

  /** A function object that records the elements it is called on. */
  function Record<E>(seen: seq<E>, x: E): seq<E>
  {
    seen + [x]
  }

  /** `my_for_each` calls the function object on every element exactly
      once and in order: a recorder ends up holding the range itself. */
  lemma {:induction false} EachElementOnceInOrder<E>(seen: seq<E>, s: seq<E>)
    ensures A.FoldLeft(Record, seen, s) == seen + s
    decreases |s|
  {
    if |s| > 0 {
      EachElementOnceInOrder(seen + [s[0]], s[1..]);
      assert seen + [s[0]] + s[1..] == seen + s;
    }
  }

  /** `min_per_thread`. */
  const MinPerThread: nat := 25

  /** `max_threads`: the range divided by `min_per_thread`, rounded up. */
  function MaxThreads(distance: nat): nat
  {
    (distance + MinPerThread - 1) / MinPerThread
  }

  /** `num_threads`: the hardware concurrency, or 2 when it reports 0,
      capped at `max_threads`. */
  function NumThreads(distance: nat, hardware: nat): (r: nat)
    requires distance > 0
    ensures 1 <= r <= distance
    ensures r <= MaxThreads(distance) && r <= (if hardware != 0 then hardware else 2)
    ensures r == MaxThreads(distance) || r == (if hardware != 0 then hardware else 2)
  {
    var h := if hardware != 0 then hardware else 2;
    var m := MaxThreads(distance);
    if h < m then h else m
  }

  /** The half-open index range `[lo, hi)` one thread walks. */
  datatype Block = Block(lo: nat, hi: nat)

  /** Blocks that follow one another from `lo` to `hi`. */
  predicate Contiguous(blocks: seq<Block>, lo: nat, hi: nat)
  {
    (|blocks| == 0 ==> lo == hi)
    && (|blocks| > 0 ==> blocks[0].lo == lo && blocks[|blocks| - 1].hi == hi)
    && (forall k :: 0 <= k < |blocks| - 1 ==> blocks[k].hi == blocks[k + 1].lo)
    && (forall k :: 0 <= k < |blocks| ==> blocks[k].lo <= blocks[k].hi)
  }

  /** The loop that hands out blocks: starting at `start`, `count - 1`
      blocks of `size` elements, then the last block up to `distance`. */
  function Chop(start: nat, count: nat, size: nat, distance: nat): (r: seq<Block>)
    requires count >= 1 && size >= 1 && start + count * size <= distance
    ensures |r| == count && r[0].lo == start && r[count - 1].hi == distance
    ensures forall i :: 0 <= i < count - 1 ==> r[i].hi == r[i + 1].lo
    ensures forall i :: 0 <= i < count ==> r[i].lo < r[i].hi <= distance
    ensures forall i :: 0 <= i < count - 1 ==> r[i].hi - r[i].lo == size
    ensures r[count - 1].hi - r[count - 1].lo >= size
    decreases count
  {
    if count == 1 then [Block(start, distance)]
    else
      assert count * size == size + (count - 1) * size;
      [Block(start, start + size)] + Chop(start + size, count - 1, size, distance)
  }

  lemma BlockArithmetic(distance: nat, n: nat)
    requires 0 < n <= distance
    ensures distance / n >= 1 && n * (distance / n) <= distance
  {
    var b := distance / n;
    assert distance == b * n + distance % n;
  }

  /** The blocks of `parallel_for_each_s`: none for an empty range;
      otherwise `num_threads - 1` blocks of `distance / num_threads`
      elements each from the front, then one more from there to the end. */
  function Blocks(distance: nat, hardware: nat): (r: seq<Block>)
    ensures distance == 0 ==> r == []
    ensures distance > 0 ==> |r| == NumThreads(distance, hardware)
    ensures Contiguous(r, 0, distance)
    ensures forall i :: 0 <= i < |r| ==> r[i].lo < r[i].hi
    ensures forall i :: 0 <= i < |r| - 1 ==> r[i].hi - r[i].lo == distance / |r|
    ensures distance > 0 ==> r[|r| - 1].hi - r[|r| - 1].lo >= distance / |r|
  {
    if distance == 0 then []
    else
      var n := NumThreads(distance, hardware);
      BlockArithmetic(distance, n);
      Chop(0, n, distance / n, distance)
  }

  /** The blocks come in order: every block ends before any later one
      starts. */
  lemma {:induction false} BlocksOrdered(blocks: seq<Block>, i: nat, j: nat)
    requires forall k :: 0 <= k < |blocks| - 1 ==> blocks[k].hi == blocks[k + 1].lo
    requires forall k :: 0 <= k < |blocks| ==> blocks[k].lo <= blocks[k].hi
    requires i < j < |blocks|
    ensures blocks[i].hi <= blocks[j].lo
    decreases j - i
  {
    if i + 1 < j {
      BlocksOrdered(blocks, i + 1, j);
    }
  }

  /** Every index below `hi` of blocks that follow one another from 0 to
      `hi` lies in exactly one of them. */
  lemma IndexInOneBlock(blocks: seq<Block>, hi: nat, x: nat)
    requires Contiguous(blocks, 0, hi) && x < hi
    ensures exists i :: 0 <= i < |blocks| && blocks[i].lo <= x < blocks[i].hi
    ensures forall i, j :: 0 <= i < |blocks| && 0 <= j < |blocks|
                           && blocks[i].lo <= x < blocks[i].hi && blocks[j].lo <= x < blocks[j].hi
                           ==> i == j
  {
    var i := 0;
    while blocks[i].hi <= x
      invariant 0 <= i < |blocks| && blocks[i].lo <= x
      decreases |blocks| - i
    {
      i := i + 1;
    }
    forall i, j | 0 <= i < |blocks| && 0 <= j < |blocks|
                  && blocks[i].lo <= x < blocks[i].hi && blocks[j].lo <= x < blocks[j].hi
      ensures i == j
    {
      if i < j {
        BlocksOrdered(blocks, i, j);
      } else if j < i {
        BlocksOrdered(blocks, j, i);
      }
    }
  }

  /** Every index of a non-empty range lies in exactly one block of
      `parallel_for_each_s`, so every element is processed by exactly one
      thread. */
  lemma EachIndexInOneBlock(distance: nat, hardware: nat, x: nat)
    requires x < distance
    ensures var r := Blocks(distance, hardware);
            && (exists i :: 0 <= i < |r| && r[i].lo <= x < r[i].hi)
            && (forall i, j :: 0 <= i < |r| && 0 <= j < |r| && r[i].lo <= x < r[i].hi && r[j].lo <= x < r[j].hi
                               ==> i == j)
  {
    IndexInOneBlock(Blocks(distance, hardware), distance, x);
  }

  /** The blocks of 26 elements on two or more hardware threads: two blocks
      of 13, so `min_per_thread` bounds the thread count but a block can
      still hold fewer than 25 elements. */
  lemma TwentySixElements(hardware: nat)
    requires hardware != 1
    ensures Blocks(26, hardware) == [Block(0, 13), Block(13, 26)]
  {
    assert MaxThreads(26) == 2;
  }

  /** One thread's `std::for_each` over its block with a function object
      that updates each element in place. */
  function ApplyBlock<E>(s: seq<E>, b: Block, f: E -> E): (r: seq<E>)
    requires b.lo <= b.hi <= |s|
    ensures |r| == |s|
    ensures forall k :: 0 <= k < |s| ==> r[k] == if b.lo <= k < b.hi then f(s[k]) else s[k]
  {
    s[..b.lo] + seq(b.hi - b.lo, k requires 0 <= k < b.hi - b.lo => f(s[b.lo + k])) + s[b.hi..]
  }

  /** Every block of `parallel_for_each_s` applied to the range. */
  function ApplyAll<E>(s: seq<E>, blocks: seq<Block>, f: E -> E): (r: seq<E>)
    requires forall k :: 0 <= k < |blocks| ==> blocks[k].lo <= blocks[k].hi <= |s|
    ensures |r| == |s|
    decreases |blocks|
  {
    if |blocks| == 0 then s else ApplyAll(ApplyBlock(s, blocks[0], f), blocks[1..], f)
  }

  /** Applying contiguous blocks from `lo` to the end to a range whose
      elements before `lo` are already done finishes the job. */
  lemma {:induction false} ApplyContiguous<E>(s: seq<E>, t: seq<E>, blocks: seq<Block>, f: E -> E, lo: nat)
    requires |t| == |s| && lo <= |s| && Contiguous(blocks, lo, |s|)
    requires forall k :: 0 <= k < lo ==> t[k] == f(s[k])
    requires forall k :: lo <= k < |s| ==> t[k] == s[k]
    ensures forall k :: 0 <= k < |blocks| ==> blocks[k].lo <= blocks[k].hi <= |s|
    ensures ApplyAll(t, blocks, f) == seq(|s|, k requires 0 <= k < |s| => f(s[k]))
    decreases |blocks|
  {
    forall k | 0 <= k < |blocks|
      ensures blocks[k].lo <= blocks[k].hi <= |s|
    {
      if k < |blocks| - 1 {
        BlocksOrdered(blocks, k, |blocks| - 1);
      }
    }
    if |blocks| == 0 {
    } else {
      var b := blocks[0];
      var t' := ApplyBlock(t, b, f);
      var rest := blocks[1..];
      assert Contiguous(rest, b.hi, |s|);
      ApplyContiguous(s, t', rest, f, b.hi);
    }
  }

  /** `parallel_for_each_s` with a function object that updates each
      element in place: every element is updated exactly once, as a serial
      walk over the range would; an empty range is left alone. */
  function ParallelForEach<E>(s: seq<E>, hardware: nat, f: E -> E): (r: seq<E>)
    ensures r == seq(|s|, k requires 0 <= k < |s| => f(s[k]))
  {
    var blocks := Blocks(|s|, hardware);
    ApplyContiguous(s, s, blocks, f, 0);
    ApplyAll(s, blocks, f)
  }
}
