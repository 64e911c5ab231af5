/** `BatchQueue`: a vector of integers filled by single or batch pushes and
    drained at most `max_batch_size_` elements at a time, oldest first. The
    mutex, condition variable and the waits of the timed pops are left out:
    once the wait ends, every pop extracts a batch from the buffer as it
    stands. */
module BatchQueue {

  /** The default `max_batch_size`. */
  const DefaultMaxBatch: nat := 1024

  /** `buffer_`, oldest first, and `max_batch_size_`. */
  datatype BatchQueue = BatchQueue(buffer: seq<int>, maxBatch: nat)

  /** The constructor asserts a positive batch size. */
  function New(maxBatch: nat): (q: BatchQueue)
    requires maxBatch > 0
    ensures q.maxBatch == maxBatch && |q.buffer| == 0
  {
    BatchQueue([], maxBatch)
  }

  /** `batch_push`, both overloads: the elements join the back in their
      order; an empty batch changes nothing. */
  function BatchPush(q: BatchQueue, elements: seq<int>): (r: BatchQueue)
    ensures |elements| == 0 ==> r == q
    ensures r.maxBatch == q.maxBatch
    ensures |r.buffer| == |q.buffer| + |elements|
    ensures r.buffer[..|q.buffer|] == q.buffer && r.buffer[|q.buffer|..] == elements
  {
    if |elements| == 0 then q else q.(buffer := q.buffer + elements)
  }

  /** `push`, both overloads. */
  function Push(q: BatchQueue, v: int): (r: BatchQueue)
    ensures r == BatchPush(q, [v])
  {
    q.(buffer := q.buffer + [v])
  }

  /** `extract_batch`, and with it `try_batch_pop`, `batch_pop` and
      `batch_pop_for`: the oldest `min(size, max_batch_size_)` elements
      leave in order; an empty buffer yields an empty batch. */
  function ExtractBatch(q: BatchQueue): (r: (BatchQueue, seq<int>))
    ensures r.0.maxBatch == q.maxBatch
    ensures |r.1| == if |q.buffer| < q.maxBatch then |q.buffer| else q.maxBatch
    ensures r.1 + r.0.buffer == q.buffer
  {
    if |q.buffer| == 0 then (q, [])
    else
      var take := if |q.buffer| < q.maxBatch then |q.buffer| else q.maxBatch;
      assert q.buffer[..take] + q.buffer[take..] == q.buffer;
      (q.(buffer := q.buffer[take..]), q.buffer[..take])
  }

  /** `size()`. */
  function Size(q: BatchQueue): nat
  {
    |q.buffer|
  }

  /** `empty()`. */
  predicate Empty(q: BatchQueue)
  {
    |q.buffer| == 0
  }

  /** `clear()`: every element is discarded. */
  function Clear(q: BatchQueue): (r: BatchQueue)
    ensures Empty(r) && r.maxBatch == q.maxBatch
  {
    q.(buffer := [])
  }

  /** `empty()` holds exactly when `size()` is 0 and a pop yields an empty
      batch. */
  lemma EmptyReportsContents(q: BatchQueue)
    requires q.maxBatch > 0
    ensures Empty(q) <==> Size(q) == 0
    ensures Empty(q) <==> |ExtractBatch(q).1| == 0
  {
  }

  /** The concatenation of a list of batches. */
  function Flatten(batches: seq<seq<int>>): seq<int>
    decreases |batches|
  {
    if |batches| == 0 then [] else batches[0] + Flatten(batches[1..])
  }

  /** Pops batches until the buffer is empty: every batch is non-empty, only
      the last may be short of `max_batch_size_`, and read in order the
      batches are the buffer, so no element is lost, duplicated or
      reordered. */
  function DrainAll(q: BatchQueue): (r: seq<seq<int>>)
    requires q.maxBatch > 0
    ensures Flatten(r) == q.buffer
    ensures forall i :: 0 <= i < |r| ==> 0 < |r[i]| <= q.maxBatch
    ensures forall i :: 0 <= i < |r| - 1 ==> |r[i]| == q.maxBatch
    decreases |q.buffer|
  {
    if |q.buffer| == 0 then []
    else
      var p := ExtractBatch(q);
      [p.1] + DrainAll(p.0)
  }

  /** Pushing a batch and draining the queue returns the old contents
      followed by the batch. */
  lemma BatchPushThenDrain(q: BatchQueue, elements: seq<int>)
    requires q.maxBatch > 0
    ensures Flatten(DrainAll(BatchPush(q, elements))) == q.buffer + elements
  {
  }
}
