# Concurrent containers and parallel algorithms, modelled in Dafny

This project models the data structures and algorithms of CppConcurrencyProject, a C++ library of thread-safe containers and parallel algorithms. Each container is modelled as an immutable state with pure transition functions. A lock-protected operation becomes one atomic step, and the calling thread is the only one running.

- `PriorityQueue`: `std::priority_queue` as a sequence ordered by priority.
- `ThreadLocalQueue` and `HierarchicalQueue`: the hierarchical priority queue. Each thread has a local queue, which spills into a shared global queue at a threshold. The queue also has a non-empty list and work stealing. The thread id is passed explicitly.
- `HierarchicalScenario`: the single-thread scenario of the HPQ test program.
- `Segment` and `SegmentedQueue`: a ring-buffer segment and the unbounded queue built from a growing list of segments.
- `BoundedPriorityQueue`: `ThreadSafePriorityQueue`, optionally bounded.
- `BoundedQueue`: `BoundedThreadSafeQueue`, a capacity wrapper.
- `LinkedQueue`: the single-mutex and two-mutex linked-list queues. Nodes live in an explicit heap of slots.
- `CoarseQueue`: `ThreadSafeQueue`, in both its value and `shared_ptr` forms.
- `Stack`: `thread_safe_stack`.
- `BatchQueue`: a queue drained in batches.
- `DelayQueue`: elements that become available at an expiry time.
- `FifoSpec`: a plain sequence, the reference every FIFO queue is checked against through histories of operations.
- `MergeSort`: `merge`, recursive `merge_sort` and `merge_sort_iterative`.
- `Accumulate`, `PrefixSum` and `ForEach`: `my_accumulate`, `compute_prefix`, `my_for_each` and the work split of `parallel_for_each_s`.
- `Matrix`: `matrix::Matrix` with its index mapping and its operators.
- Modules named `...Findings`: code as written, where it departs from what it evidently intends. They are listed under "## Findings".

Properties proved:
- every queue refines its reference (FIFO, capped FIFO, or priority order);
- the hierarchical queue conserves its elements and keeps its non-empty hint exact;
- merge sort returns a sorted, stable permutation that is unique;
- prefix sums satisfy their recurrence and end in the accumulate result;
- the `parallel_for_each_s` blocks partition the range;
- the matrix index is a bijection.

Two behaviours of the code are kept as they are:
- the hierarchical queue's constructor (hierarchical_priority_queue.h lines 161-171) accepts any `local_threshold` and `max_steal`, including 0, and `HierarchicalQueue.New` does the same;
- `ThreadSafeQueue::try_pop(T&)` keeps its truthiness test in the as-written model (`CoarseFindings`).

## Model

| member | source | states |
|---|---|---|
| PriorityQueue.Insert | include/hierarchical_priority_queue.h:29-49 | `std::priority_queue::push`: the result stays ordered from the highest priority down, holds one more element, and holds exactly the old elements plus the new one |
| PriorityQueue.InsertAll | include/hierarchical_priority_queue.h:105-114 | pushing a batch (the `merge_to` and `steal` loops) gives an ordered queue that holds the old elements plus the batch |
| PriorityQueue.TopIsHighest | include/hierarchical_priority_queue.h:61-62 | `top()` of an ordered non-empty queue is an element with the highest priority in it |
| PriorityQueue.PopRemovesTop | include/hierarchical_priority_queue.h:61-62 | `pop()` leaves an ordered queue that has lost exactly the top element |
| PriorityQueue.InsertLowest | include/hierarchical_priority_queue.h:29-49 | a value no higher than anything queued is placed last |
| PriorityQueue.InsertAllInOrder | include/hierarchical_priority_queue.h:105-114 | pushing values that already continue the order appends them in push order |
| ThreadLocalQueue.New | include/hierarchical_priority_queue.h:26 | a new local queue is empty, with the hint clear and the given owner |
| ThreadLocalQueue.Push | include/hierarchical_priority_queue.h:29-49 | push adds exactly the one value, sets the hint when the queue was empty, and keeps an exact hint exact |
| ThreadLocalQueue.PushAll | include/hierarchical_priority_queue.h:29-49 | pushing a sequence one by one adds exactly its elements and keeps an exact hint exact |
| ThreadLocalQueue.TryPop | include/hierarchical_priority_queue.h:52-70 | on an empty queue: none, queue unchanged, hint cleared; otherwise one element removed and returned; the hint is clear whenever the queue is left empty |
| ThreadLocalQueue.TryPopTakesTop | include/hierarchical_priority_queue.h:52-70 | the value `try_pop` returns is a maximal element of the queue |
| ThreadLocalQueue.Steal | include/hierarchical_priority_queue.h:73-96 | exactly `min(max_steal, size)` elements move, that count is returned, the union of source and target is unchanged, and an empty source returns 0 with nothing changed |
| ThreadLocalQueue.StealTakesHighest | include/hierarchical_priority_queue.h:83-88 | the elements `steal` moves are the highest ones: each is at least every element left behind |
| ThreadLocalQueue.MergeTo | include/hierarchical_priority_queue.h:105-114 | `merge_to` moves every element into the target, leaving the source empty with its hint clear |
| ThreadLocalQueue.HintReportsContents | include/hierarchical_priority_queue.h:99-125 | with an exact hint, `empty_quick()` holds iff the queue is empty and `size()` is its element count |
| HierarchicalQueue.Find | include/hierarchical_priority_queue.h:448-450 | `std::find` gives the first position holding the thread, or the end exactly when it is absent |
| HierarchicalQueue.AddToNonEmpty | include/hierarchical_priority_queue.h:444-455 | the thread is listed afterwards, nothing else is added, a listed thread leaves the index unchanged, and an index without duplicates keeps none |
| HierarchicalQueue.AddIsIdempotent | include/hierarchical_priority_queue.h:444-455 | adding the same thread twice is the same as adding it once |
| HierarchicalQueue.RemoveFromNonEmpty | include/hierarchical_priority_queue.h:458-468 | an absent thread leaves the index unchanged; otherwise its first entry is erased and the other entries keep their order; without duplicates the thread is gone and none appear |
| HierarchicalQueue.New | include/hierarchical_priority_queue.h:161-171 | the constructor keeps its arguments unvalidated, registers the constructing thread, holds nothing and satisfies the invariant |
| HierarchicalQueue.InitLocalQueue | include/hierarchical_priority_queue.h:412-423 | the caller is registered afterwards, with an empty queue if it was new; nothing else changes |
| HierarchicalQueue.InitLocalQueueKeeps | include/hierarchical_priority_queue.h:412-423 | registration neither adds nor loses elements and keeps the invariant |
| HierarchicalQueue.CheckAndMergeConserves | include/hierarchical_priority_queue.h:426-441 | the threshold merge moves elements without creating or losing any |
| HierarchicalQueue.CheckAndMergeEmpties | include/hierarchical_priority_queue.h:426-441 | at the threshold the caller's queue is emptied, its hint is exact and it leaves the index; below the threshold nothing changes; other threads are untouched |
| HierarchicalQueue.CheckAndMergeKeepsInv | include/hierarchical_priority_queue.h:426-441 | the threshold merge keeps the invariant |
| HierarchicalQueue.PushConserves | include/hierarchical_priority_queue.h:241-255 | `push` adds exactly the pushed value to the structure |
| HierarchicalQueue.PushStaysBelowThreshold | include/hierarchical_priority_queue.h:241-255 | with a positive threshold, after `push` the caller's local queue holds fewer than `local_threshold` elements |
| HierarchicalQueue.PushKeepsInv | include/hierarchical_priority_queue.h:241-255 | `push` keeps every hint exact and every non-empty local queue listed |
| HierarchicalQueue.PopGlobal | include/hierarchical_priority_queue.h:290-299 | step 2 of `try_pop`: none exactly when the global queue is empty; otherwise its maximum, removed |
| HierarchicalQueue.PopLocalConserves | include/hierarchical_priority_queue.h:276-288 | step 1 of `try_pop` removes exactly the value it returns |
| HierarchicalQueue.PopLocalKeepsInv | include/hierarchical_priority_queue.h:276-288 | step 1 of `try_pop` keeps the invariant, unlisting a drained queue |
| HierarchicalQueue.PopLocalServesOwnQueue | include/hierarchical_priority_queue.h:276-288 | a caller with elements gets its own highest element; otherwise step 1 changes nothing |
| HierarchicalQueue.GiveRestConserves | include/hierarchical_priority_queue.h:514-528 | the corrected hand-over (Findings include/hierarchical_priority_queue.h:514-528 and include/hierarchical_priority_queue.h:515) adds exactly the stolen remainder, where the code as written drops it for an unregistered caller |
| HierarchicalQueue.GiveRestFrames | include/hierarchical_priority_queue.h:514-528 | the hand-over touches no other thread's queue and only adds to the caller's |
| HierarchicalQueue.GiveRestKeepsInv | include/hierarchical_priority_queue.h:514-528 | the corrected hand-over (Findings include/hierarchical_priority_queue.h:514-528 and include/hierarchical_priority_queue.h:515) keeps the invariant: the caller's hint is raised and it is listed, which the code as written does not do |
| HierarchicalQueue.StealVictim | include/hierarchical_priority_queue.h:495-508 | one candidate of the steal loop: `min(max_steal, size)` elements are taken, highest first; together with what the victim keeps they are exactly its old elements, each taken element is at least every element left behind, a steal that takes nothing leaves the victim's queue as it was, and no other queue changes |
| ThreadLocalQueue.StealSplits | include/hierarchical_priority_queue.h:73-96 | a `steal` into an empty buffer splits the queue into what is taken and what is left, every taken element at least every element left, and taking nothing changes nothing |
| HierarchicalQueue.StealVictimConserves | include/hierarchical_priority_queue.h:495-508 | what leaves the victim is exactly what lands in the buffer |
| HierarchicalQueue.StealVictimKeepsInv | include/hierarchical_priority_queue.h:502-508 | a victim left empty is unlisted and the invariant holds |
| HierarchicalQueue.StealFromConserves | include/hierarchical_priority_queue.h:471-535 | the corrected steal loop (Findings include/hierarchical_priority_queue.h:495-502, include/hierarchical_priority_queue.h:514-528 and include/hierarchical_priority_queue.h:515) removes exactly the value it returns and nothing when it returns none |
| HierarchicalQueue.StealFromKeepsInv | include/hierarchical_priority_queue.h:471-535 | the corrected steal loop (Findings include/hierarchical_priority_queue.h:495-502, include/hierarchical_priority_queue.h:514-528 and include/hierarchical_priority_queue.h:515) keeps the invariant |
| HierarchicalQueue.StealFromFinds | include/hierarchical_priority_queue.h:471-535 | with a positive `max_steal`, the corrected steal loop (Findings include/hierarchical_priority_queue.h:495-502) returns an element whenever a candidate other than the caller holds one; as written it never does |
| HierarchicalQueue.StealFromSparesCaller | include/hierarchical_priority_queue.h:489-493 | the caller's own queue is skipped: stealing never takes its elements |
| HierarchicalQueue.StealFromOthersConserves | include/hierarchical_priority_queue.h:471-535 | the corrected `steal_from_others` (Findings include/hierarchical_priority_queue.h:495-502, include/hierarchical_priority_queue.h:514-528 and include/hierarchical_priority_queue.h:515) conserves the total with the returned value |
| HierarchicalQueue.StealFromOthersKeepsInv | include/hierarchical_priority_queue.h:471-535 | the corrected `steal_from_others` (Findings include/hierarchical_priority_queue.h:495-502, include/hierarchical_priority_queue.h:514-528 and include/hierarchical_priority_queue.h:515) keeps the invariant |
| HierarchicalQueue.StealFromOthersSparesCaller | include/hierarchical_priority_queue.h:489-493 | the corrected `steal_from_others` (Findings include/hierarchical_priority_queue.h:495-502) leaves the caller's own elements in place |
| HierarchicalQueue.TryPopConserves | include/hierarchical_priority_queue.h:274-303 | the corrected `try_pop`, with the steal and hand-over of (Findings include/hierarchical_priority_queue.h:495-502, include/hierarchical_priority_queue.h:514-528 and include/hierarchical_priority_queue.h:515), removes exactly the value it returns, and nothing when it returns none; as written a steal discards what it takes |
| HierarchicalQueue.TryPopKeepsInv | include/hierarchical_priority_queue.h:274-303 | the corrected `try_pop` (Findings include/hierarchical_priority_queue.h:495-502, include/hierarchical_priority_queue.h:514-528 and include/hierarchical_priority_queue.h:515) keeps the invariant |
| HierarchicalQueue.TryPopServesLocalFirst | include/hierarchical_priority_queue.h:276-288 | a caller whose own queue holds elements gets its highest one |
| HierarchicalQueue.TryPopServesGlobalNext | include/hierarchical_priority_queue.h:290-299 | with its own queue empty, the caller gets the global maximum |
| HierarchicalQueue.TryPopStealsLast | include/hierarchical_priority_queue.h:301-302 | only with both its own and the global queue empty does the caller steal |
| HierarchicalQueue.TryPopNoneIffEmpty | include/hierarchical_priority_queue.h:274-303 | with a positive `max_steal`, the corrected `try_pop` (Findings include/hierarchical_priority_queue.h:495-502) returns none exactly when the structure holds nothing; as written it returns none whenever the caller's own and the global queue are empty |
| HierarchicalQueue.WaitAndPop | include/hierarchical_priority_queue.h:306-354 | a `wait_and_pop` that returns, with the corrected steal (Findings include/hierarchical_priority_queue.h:495-502, include/hierarchical_priority_queue.h:514-528 and include/hierarchical_priority_queue.h:515), removes exactly the element it returns and keeps the invariant |
| HierarchicalQueue.EmptyReportsContents | include/hierarchical_priority_queue.h:357-375 | under the invariant `empty()` holds iff nothing is held and the index is clear |
| HierarchicalQueue.Teardown | include/hierarchical_priority_queue.h:173-191 | the destructor removes the caller from the registry and the index and leaves every other local queue as it was |
| HierarchicalQueue.TeardownConserves | include/hierarchical_priority_queue.h:173-191 | the caller's elements end up in the global queue; nothing is lost |
| HierarchicalQueue.TeardownKeepsInv | include/hierarchical_priority_queue.h:173-191 | teardown keeps the invariant |
| HierarchicalScenario.SingleThreadFirstRound | src/hpq_test.cpp:7-19 | threshold 3, `max_steal` 2: pushing 3, 1, 2 and popping three times gives 3, 2, 1, and the queue is then empty |
| HierarchicalScenario.SingleThreadSecondRound | src/hpq_test.cpp:22-25 | pushing 10 then 20 into the emptied queue pops 20, then 10 |
| HierarchicalFindings.StealAllAsWritten | include/hierarchical_priority_queue.h:485-534 | the steal loop as written: the count it checks is always zero, so every candidate other than the caller is stolen into one buffer |
| HierarchicalFindings.StealAllAsWrittenConserves | include/hierarchical_priority_queue.h:485-534 | whatever leaves the local queues in that loop is in the buffer |
| HierarchicalFindings.StealFromOthersAsWritten | include/hierarchical_priority_queue.h:471-535 | `steal_from_others` as written always returns none |
| HierarchicalFindings.StolenElementIsLost | include/hierarchical_priority_queue.h:495-502 | counterexample: one element in thread `t`'s queue; thread `u`'s `try_pop` returns none and the structure is left holding nothing |
| HierarchicalFindings.StolenElementIsReturned | include/hierarchical_priority_queue.h:471-535 | on that state the corrected `try_pop` returns the element |
| HierarchicalFindings.GiveRestAsWritten | include/hierarchical_priority_queue.h:514-528 | the hand-over as written pushes into the caller's heap directly and does nothing for a caller without a local queue |
| HierarchicalFindings.HandOverHidesElement | include/hierarchical_priority_queue.h:514-528 | counterexample: a registered caller with an empty queue receives one element, but its hint stays clear, the invariant breaks and its own pop skips the element |
| HierarchicalFindings.HandOverRaisesHint | include/hierarchical_priority_queue.h:514-528 | the corrected hand-over keeps the invariant on that state |
| HierarchicalFindings.HandOverDropsElement | include/hierarchical_priority_queue.h:515 | counterexample: a caller that never pushed has no local queue, so the remainder handed to it disappears |
| HierarchicalFindings.HandOverKeepsElement | include/hierarchical_priority_queue.h:514-528 | the corrected hand-over keeps that element |
| HierarchicalQueue.PushLocal | include/hierarchical_priority_queue.h:243-245 | the first half of `push` registers the caller when it has no local queue yet and leaves the global queue and the index alone; `PushConserves` states what it adds |
| HierarchicalQueue.Push | include/hierarchical_priority_queue.h:241-255 | `push` keeps the structure well formed, registers the caller and keeps the threshold and steal limit; `PushConserves` and `PushKeepsInv` state the rest |
| HierarchicalQueue.CheckAndMergeLocal | include/hierarchical_priority_queue.h:426-441 | `check_and_merge_local` keeps the structure well formed and the set of registered threads; `CheckAndMergeConserves` and `CheckAndMergeEmpties` state what moves |
| HierarchicalQueue.PopLocal | include/hierarchical_priority_queue.h:276-288 | the local step of `try_pop` touches neither the global queue nor the set of registered threads |
| HierarchicalQueue.GiveRest | include/hierarchical_priority_queue.h:514-528 | the corrected hand-over of the rest of a steal (Findings include/hierarchical_priority_queue.h:514-528 and include/hierarchical_priority_queue.h:515) registers the caller if needed, raises its hint and leaves the global queue alone; as written it pushes into the heap directly and skips an unregistered caller |
| HierarchicalQueue.StealFrom | include/hierarchical_priority_queue.h:484-533 | the corrected candidate loop keeps the structure well formed and registers no thread other than the caller |
| HierarchicalQueue.StealFromTakesHighest | include/hierarchical_priority_queue.h:509-512 | the element the corrected loop returns is the highest-priority element stolen: it comes from a candidate other than the caller, was in that victim's queue, and nothing the victim held, taken or left behind, is higher |
| HierarchicalQueue.StealFromOthers | include/hierarchical_priority_queue.h:471-535 | the corrected `steal_from_others` (Findings include/hierarchical_priority_queue.h:495-502, include/hierarchical_priority_queue.h:514-528 and include/hierarchical_priority_queue.h:515) keeps the structure well formed and registers no thread other than the caller |
| HierarchicalQueue.TryPop | include/hierarchical_priority_queue.h:274-303 | the corrected `try_pop` (Findings include/hierarchical_priority_queue.h:495-502, include/hierarchical_priority_queue.h:514-528 and include/hierarchical_priority_queue.h:515) keeps the structure well formed and registers no thread other than the caller; the `TryPop…` lemmas state what it returns |
| HierarchicalFindings.TryPopAsWritten | include/hierarchical_priority_queue.h:274-303 | `try_pop` with the steal as written keeps the structure well formed |
| HierarchicalFindings.TryPopAsWrittenSteals | include/hierarchical_priority_queue.h:290-302 | a caller without a local queue facing an empty global queue goes straight to the steal loop, and as written gets nothing back from it |
| HierarchicalFindings.StealOneCandidate | include/hierarchical_priority_queue.h:489-502 | with one candidate other than the caller, the loop as written is exactly one `steal` from that candidate |
| Segment.New | include/segmented_queue.h:13-18 | a fresh segment, with `start` and `end` both 0, is well formed and holds no elements |
| Segment.EmptyIffNoItems | include/segmented_queue.h:20-21 | `empty()` holds exactly when the ring between `start` and `end` holds no element |
| Segment.FullIffAtCapacity | include/segmented_queue.h:23-24 | a segment of `SEGMENT_SIZE` slots never holds more than `SEGMENT_SIZE - 1` elements, and `full()` holds exactly when it holds that many (one slot is kept free to tell full from empty) |
| Segment.Push | include/segmented_queue.h:26-42 | `push` is refused, leaving the segment unchanged, exactly when it is full; otherwise the value becomes the newest element and the older ones keep their order; the same for the identical second copy of the segment (include/thread_safe_queue/segmented_queue.h lines 26-42) |
| Segment.PushAppends | include/segmented_queue.h:30-31 | writing at `end` and moving `end` on modulo the segment size appends the value to the ring's contents |
| Segment.Pop | include/segmented_queue.h:44-51 | `pop` returns nothing exactly when the segment holds nothing, and otherwise returns the oldest element and leaves the rest in order; the same for the identical second copy of the segment (include/thread_safe_queue/segmented_queue.h lines 44-51) |
| Segment.PopTakesOldest | include/segmented_queue.h:48-49 | the slot at `start` holds the oldest element, and moving `start` on modulo the size drops exactly that element |
| Segment.Size | include/segmented_queue.h:53-58 | both branches of `size()` count the elements of the ring, which is less than the segment size |
| SegmentedQueue.New | include/segmented_queue.h:104-108 | the constructor, which creates segment 0, gives a valid queue with no elements |
| SegmentedQueue.Touch | include/segmented_queue.h:74-87 | `get_segment` creates a missing segment empty: the segment exists afterwards and every segment's contents, and so the queue's, are as before |
| SegmentedQueue.TouchKeeps | include/segmented_queue.h:74-87 | creating a segment on demand leaves each segment's elements, the queue's contents and its validity unchanged |
| SegmentedQueue.Push | include/segmented_queue.h:110-129 | `push` never moves the head, and moves the tail on by at most one segment |
| SegmentedQueue.PushAppends | include/segmented_queue.h:110-151 | both `push` overloads keep the queue valid and append the value to its contents, whether it lands in the tail segment or the tail first moves to a new one; the same for the identical second copy of the queue (include/thread_safe_queue/segmented_queue.h lines 110-151) |
| SegmentedQueue.AdvanceTail | include/segmented_queue.h:126-127 | moving the tail on past a full segment keeps the queue valid and its contents unchanged, and the new tail segment has room |
| SegmentedQueue.TryPopTakesOldest | include/segmented_queue.h:188-207 | the corrected `try_pop` (both corrections under Findings: the tail check of `pop` restored, and `nullopt` on an empty head segment where the code as written deadlocks) returns nothing exactly when the queue is empty and then loses nothing; otherwise it returns the oldest element and leaves the rest in order, and the queue stays valid |
| SegmentedQueue.TryPopAdvances | include/segmented_queue.h:195-200 | popping the last element of the head segment while later segments exist moves the head on and removes exactly the oldest element |
| SegmentedQueue.TryPopStays | include/segmented_queue.h:195-201 | popping from the head segment without moving the head removes exactly the oldest element |
| SegmentedQueue.HeadDrainedMeansEmpty | include/segmented_queue.h:188-206 | on a valid queue an empty head segment means the whole queue is empty, so the `nullopt` that `try_pop` promises for that case (the comment at line 188) loses nothing; the code as written deadlocks there instead (Findings) |
| SegmentedQueue.Pop | include/segmented_queue.h:153-186 | the blocking `pop` on a non-empty queue returns the oldest element and leaves the rest in order; the head moves on only while it is behind the tail |
| SegmentedQueue.PopStays | include/segmented_queue.h:176-183 | popping from the head segment keeps the queue valid and removes the oldest element, which is the head segment's first |
| SegmentedQueue.PopAdvances | include/segmented_queue.h:179-181 | emptying the head segment while it is behind the tail and moving the head on keeps the queue valid and removes the oldest element |
| SegmentedQueue.SizeSumCounts | include/segmented_queue.h:217-223 | the loop over the segments from head to tail adds up to the number of elements they hold |
| SegmentedQueue.ApproximateSizeCounts | include/segmented_queue.h:209-231 | without concurrent updates `approximate_size()` is the exact element count, and `empty()` holds exactly when the queue holds nothing |
| SegmentedQueue.RunRefinesFifo | include/segmented_queue.h:110-231 | with the corrected `try_pop`, every single-thread history of `push`, `try_pop` and `approximate_size` reports exactly what a plain first-in first-out sequence reports, and ends holding the same contents |
| SegmentedQueue.TestHistoryOnFifo | src/test_segment_queue.cpp:20-38 | the basic test's history, run on a plain first-in first-out sequence, reports three pushes, size 3, the first two values, size 1, a push, the last two values and size 0 |
| SegmentedQueue.SingleThreadFifo | src/test_segment_queue.cpp:20-38 | the segmented queue, for any segment size of at least 2, passes the basic single-thread test: 10 and 20 come out first, then 30 and 40, and the sizes read 3, 1 and 0 |
| SegmentedFindings.TryPopAsWritten | include/segmented_queue.h:188-207 | `try_pop` as written, run by one thread: on an empty head segment it deadlocks (it holds the segment mutex at line 193 and `advance_head` locks it again at line 94); otherwise it returns the head segment's oldest element and moves the head on exactly when that drains the segment, with no check against the tail |
| SegmentedFindings.EmptyPopDeadlocks | include/segmented_queue.h:189-206 | counterexample: `try_pop` on a new queue, whose only segment is empty, never returns |
| SegmentedFindings.EmptyPopReturnsNone | include/segmented_queue.h:188-206 | the corrected `try_pop` on a new queue returns `nullopt` and leaves the queue as it was |
| SegmentedFindings.DrainLosesLaterPush | include/segmented_queue.h:195-200 | counterexample: popping the only element of a one-segment queue moves the head past the tail; a value pushed next lands in segment 0, the queue reports empty, and the next `try_pop` deadlocks on the empty segment past the tail |
| SegmentedFindings.HeadPastTailLoses | include/segmented_queue.h:188-231 | once the head is one past the tail, the queue's reachable contents are empty, `empty()` holds and `try_pop` as written deadlocks |
| SegmentedFindings.LaterPushIsPopped | include/segmented_queue.h:179-182 | with `try_pop` corrected (the tail check of `pop` applied, `nullopt` on an empty head segment), a value pushed after an empty `try_pop`, or after the only element was popped, is the next one returned |
| SegmentedQueue.TryPop | include/segmented_queue.h:188-207 | the corrected `try_pop` keeps the queue well formed and never moves the tail; `SegmentedQueue.TryPopTakesOldest` states what it returns |
| BoundedPriorityQueue.NewUnbounded | include/thread_safe_priority_queue.h:26-29 | the default constructor gives an empty, unbounded, valid queue |
| BoundedPriorityQueue.NewBounded | include/thread_safe_priority_queue.h:31-39 | a maximum size of 0 is rejected with `invalid_argument`; any other gives an empty bounded queue of that capacity |
| BoundedPriorityQueue.Push | include/thread_safe_priority_queue.h:53-83 | the blocking `push`, once there is room, keeps the queue ordered and within its capacity and adds exactly the value |
| BoundedPriorityQueue.TryPush | include/thread_safe_priority_queue.h:88-114 | `try_push` succeeds exactly when the queue is unbounded or below its maximum size; a refusal changes nothing, a success adds exactly the value; the same for the identical second copy of the queue (include/thread_safe_queue/thread_safe_priority_queue.h lines 88-114) |
| BoundedPriorityQueue.TryPop | include/thread_safe_priority_queue.h:159-195 | both `try_pop` overloads fail exactly on an empty queue, changing nothing; otherwise they remove exactly the returned element; the same for the identical second copy of the queue (include/thread_safe_queue/thread_safe_priority_queue.h lines 159-195) |
| BoundedPriorityQueue.TryPopTakesLargest | include/thread_safe_priority_queue.h:168-169 | the element `try_pop` returns is a largest one in the queue |
| BoundedPriorityQueue.WaitAndPop | include/thread_safe_priority_queue.h:119-154 | both `wait_and_pop` overloads, once the queue holds something, remove and return a largest element |
| BoundedPriorityQueue.EmptyReportsContents | include/thread_safe_priority_queue.h:199-209 | `empty()` holds exactly when `size()` is 0, when `try_pop` fails and when the queue holds no element |
| BoundedPriorityQueue.RemainingCapacity | include/thread_safe_priority_queue.h:212-220 | an unbounded queue throws `logic_error`; a bounded one reports the capacity minus the element count |
| BoundedPriorityQueue.CapacityMeansRoom | include/thread_safe_priority_queue.h:92-94 | on a bounded queue `try_push` succeeds exactly when the remaining capacity is positive |
| BoundedPriorityQueue.BoundNeverExceeded | include/thread_safe_priority_queue.h:88-195 | no history of `try_push` and `try_pop` on a bounded queue ever takes it above its maximum size or changes its capacity |
| BoundedPriorityQueue.CapacityTwo | include/thread_safe_priority_queue.h:31-220 | with room for two, pushing 3, 1 and 2 keeps 3 and 1 and refuses 2, the remaining capacity is then 0, and the values leave largest first |
| BoundedQueue.New | include/bounded_threadsafe_queue.h:16-23 | a capacity of 0 is rejected with `invalid_argument`; any other gives an empty wrapper with a zero counter |
| BoundedQueue.Push | include/bounded_threadsafe_queue.h:25-38 | the blocking `push`, once the counter is below the capacity, appends the value and counts it, keeping the counter at most the capacity |
| BoundedQueue.TryPush | include/bounded_threadsafe_queue.h:40-53 | `try_push` succeeds exactly when the counter is below the capacity; a refusal changes nothing, a success appends the value; the same for the identical second copy of the wrapper (include/thread_safe_queue/bounded_threadsafe_queue.h lines 40-53) |
| BoundedQueue.InnerTryPop | include/bounded_threadsafe_queue.h:64 | the inner queue's `try_pop` fails exactly when it is empty and otherwise hands out its oldest element |
| BoundedQueue.TryPop | include/bounded_threadsafe_queue.h:55-104 | both `try_pop` overloads return nothing on a zero counter without touching the inner queue; on a consistent wrapper they fail exactly when it is empty, and a failure changes nothing; the same for the identical second copy of the wrapper (include/thread_safe_queue/bounded_threadsafe_queue.h lines 55-104) |
| BoundedQueue.WaitAndPop | include/bounded_threadsafe_queue.h:73-117 | both `wait_and_pop` overloads, once the counter is positive, return the oldest element and count it out |
| BoundedQueue.SizeCounts | include/bounded_threadsafe_queue.h:119-131 | `size()` and `empty()`, which read only the counter, report the inner queue's element count, never above the capacity |
| BoundedQueue.RunRefinesCapped | include/bounded_threadsafe_queue.h:40-131 | every history of `try_push`, `try_pop` and `size` reports exactly what a first-in first-out sequence that refuses pushes at `max_size` elements reports, and the counter keeps tracking the inner queue |
| LinkedQueue.New | include/thread_safe_queue/threadsafe_linked_queue.h:23-26 | the constructor, a lone dummy node with `tail_` on it, gives a valid queue with no elements; the same for the double-mutex queue's constructor (lines 166-169) |
| LinkedQueue.Push | include/thread_safe_queue/threadsafe_linked_queue.h:32-42 | `push` links a new node after `tail_` and moves `tail_` to it: the queue stays valid and the value is appended to its contents |
| LinkedQueue.PushAppends | include/thread_safe_queue/threadsafe_linked_queue.h:175-186 | the double-mutex `push`, the same linking, keeps the list well formed with `tail_` on its last node and appends the value |
| LinkedQueue.PushExtendsPath | include/thread_safe_queue/threadsafe_linked_queue.h:38-39 | after `push` the new node is the last one reachable from the dummy and `tail_` points to it |
| LinkedQueue.EmptyReportsContents | include/thread_safe_queue/threadsafe_linked_queue.h:105-122 | `empty()`, a null `next` on the dummy, holds exactly when the queue holds nothing, and the walk of `size()` counts its elements; the same for the double-mutex queue's `empty()` and `size()` (lines 243-260) |
| LinkedQueue.PopHead | include/thread_safe_queue/threadsafe_linked_queue.h:149-163 | `pop_head` returns nothing, changing nothing, exactly when the dummy has no successor; otherwise it returns an allocated node |
| LinkedQueue.PopHeadShortens | include/thread_safe_queue/threadsafe_linked_queue.h:149-163 | on a valid non-empty queue `pop_head` leaves the list without its first data node, with `tail_` back on the dummy when nothing remains |
| LinkedQueue.TryPop | include/thread_safe_queue/threadsafe_linked_queue.h:44-68 | `try_pop()` fails, changing nothing, exactly when the dummy has no successor |
| LinkedQueue.TryPopTakesOldest | include/thread_safe_queue/threadsafe_linked_queue.h:44-68 | on a valid queue `try_pop()` returns nothing exactly when the queue is empty, and otherwise the oldest element, leaving the rest in order and `tail_` on the last node; the same for both `try_pop` overloads of the double-mutex queue, which go through `pop_head` (lines 188-207) |
| LinkedQueue.TryPopInto | include/thread_safe_queue/threadsafe_linked_queue.h:70-89 | `try_pop(T&)` with the `tail_` reset: on an empty queue it fails and leaves `value` as it was; otherwise `value` receives the oldest element, the rest stay in order and the queue stays valid |
| LinkedQueue.RunRefinesFifo | include/thread_safe_queue/threadsafe_linked_queue.h:32-122 | every single-thread history of `push`, `try_pop` and `size` on either linked queue reports exactly what a plain first-in first-out sequence reports, and ends holding the same contents |
| LinkedFindings.TryPopIntoAsWritten | include/thread_safe_queue/threadsafe_linked_queue.h:70-89 | `try_pop(T&)` as written unlinks the same node and reports the same value as `try_pop()`, and a failure leaves `value` as it was |
| LinkedFindings.LaterPushIsLost | include/thread_safe_queue/threadsafe_linked_queue.h:84-88 | after one push, `try_pop(T&)` as written returns the element but leaves `tail_` on the freed node; the next push is then unreachable and the queue reports empty |
| LinkedFindings.LaterPushIsKept | include/thread_safe_queue/threadsafe_linked_queue.h:61-65 | with the `tail_` reset of `try_pop()`, the same history keeps the queue valid and the second element is the next one popped |
| CoarseQueue.New | include/threadsafequeue.h:15 | a new queue holds nothing |
| CoarseQueue.Push | include/threadsafequeue.h:40-46 | `push` places the value at the back and keeps every older element in its place; the same for the `shared_ptr` variant's `push` (lines 162-170) |
| CoarseQueue.TryPop | include/threadsafequeue.h:63-72 | `try_pop()` returns a null pointer, changing nothing, exactly on an empty queue; otherwise it returns the oldest element and removes exactly it; the same for the `shared_ptr` variant's `try_pop()` (lines 143-151) |
| CoarseQueue.TryPopInto | include/threadsafequeue.h:133-141 | the `shared_ptr` variant's `try_pop(T&)` fails, leaving the queue and `value` untouched, exactly on an empty queue; otherwise `value` receives the oldest element, which is removed |
| CoarseQueue.TryPopOverloadsAgree | include/threadsafequeue.h:133-151 | both `try_pop` overloads remove the same element and report the same outcome |
| CoarseQueue.WaitAndPop | include/threadsafequeue.h:74-90 | both `wait_and_pop` overloads, once the queue holds something, return the oldest element and remove exactly it; the same for the `shared_ptr` variant's `wait_and_pop` overloads (lines 125-160) |
| CoarseQueue.EmptyReportsContents | include/threadsafequeue.h:92-104 | `empty()` holds exactly when `size()` is 0 and exactly when `try_pop` finds nothing; the same for the `shared_ptr` variant's `empty()` and `size()` (lines 172-182) |
| CoarseQueue.RunRefinesFifo | include/threadsafequeue.h:40-104 | every single-thread history of `push`, `try_pop` and `size` reports exactly what a plain first-in first-out sequence reports, and ends holding the same contents |
| CoarseFindings.TryPopIntoAsWritten | include/threadsafequeue.h:49-61 | `try_pop(T&)` as written copies the front into `value` but succeeds, and removes it, only when that front is not 0; an empty queue returns `false` with `value` untouched |
| CoarseFindings.AsWrittenAgreesOnTruthyFront | include/threadsafequeue.h:55-60 | where the front is not 0, or the queue is empty, the as-written overload behaves exactly as the corrected one |
| CoarseFindings.ZeroFrontIsStuck | include/threadsafequeue.h:56-59 | with 0 at the front, `try_pop(T&)` as written reports failure on a non-empty queue, overwrites `value` with 0 and leaves the queue unchanged, so repeating the call never gets past the 0 |
| CoarseFindings.ZeroFrontIsPopped | include/threadsafequeue.h:133-141 | the corrected overload pops a 0 at the front like any other value |
| Stack.New | include/threadsafestack.h:23 | a new stack holds nothing |
| Stack.Push | include/threadsafestack.h:42-46 | `push` places the value on top and keeps everything beneath it in place |
| Stack.Pop | include/threadsafestack.h:48-69 | both `pop` overloads throw `stack_empty` exactly on an empty stack; otherwise they return the top and the stack beneath it |
| Stack.TryPop | include/threadsafestack.h:71-93 | both `try_pop` overloads fail, leaving the stack and `value` untouched, exactly on an empty stack; otherwise they deliver what `pop` would |
| Stack.EmptyMeansPopThrows | include/threadsafestack.h:95-99 | `empty()` holds exactly when `pop` would throw `stack_empty` |
| Stack.PopUndoesPush | include/threadsafestack.h:42-58 | last in, first out: a `pop` right after a `push` returns that value and restores the stack |
| Stack.PushUndoesPop | include/threadsafestack.h:42-58 | pushing back the value a successful `pop` returned restores the stack |
| Stack.PopNReversesPushAll | include/threadsafestack.h:42-58 | values pushed in turn come back out of the same number of pops in the reverse order, and the stack underneath is restored |
| BatchQueue.New | include/batch_queue.h:27-32 | the constructor, given the positive batch size it asserts, gives an empty buffer with that batch size |
| BatchQueue.BatchPush | include/batch_queue.h:34-52 | both `batch_push` overloads leave an empty batch without effect and otherwise append the elements, in their order, behind everything already buffered |
| BatchQueue.Push | include/batch_queue.h:54-67 | a single `push` is a batch push of one element |
| BatchQueue.ExtractBatch | include/batch_queue.h:116-136 | `extract_batch` takes the oldest `min(size, max_batch_size_)` elements in order and leaves exactly the rest; an empty buffer yields an empty batch; and at lines 69-92: `batch_pop`, `try_batch_pop` and `batch_pop_for` hand back what `extract_batch` takes once their wait ends |
| BatchQueue.Clear | include/batch_queue.h:108-113 | `clear()` leaves the buffer empty and keeps the batch size |
| BatchQueue.EmptyReportsContents | include/batch_queue.h:94-106 | `empty()` holds exactly when `size()` is 0 and exactly when a pop yields an empty batch |
| BatchQueue.DrainAll | include/batch_queue.h:116-136 | popping batches until the buffer is empty yields non-empty batches, all but the last of exactly `max_batch_size_` elements, which read in order are the buffer: nothing is lost, duplicated or reordered |
| BatchQueue.BatchPushThenDrain | include/batch_queue.h:34-52 | after a batch push, draining the queue returns the old contents followed by the batch |
| DelayQueue.New | include/delay_queue.h:34 | a new delay queue is ordered and holds nothing |
| DelayQueue.Push | include/delay_queue.h:39-57 | both `push` overloads add exactly one element, expiring `delay` after the current time, and keep the earliest expiry on top |
| DelayQueue.DueIsTop | include/delay_queue.h:17-22 | with the inverted `operator<`, some element is due exactly when the top one is, so checking the top suffices |
| DelayQueue.TryPop | include/delay_queue.h:87-103 | `try_pop` returns something exactly when some element is due, and then the data of an element that expires no later than any other, removing exactly it; otherwise nothing changes; the same for the identical second copy of the queue (include/thread_safe_queue/delay_queue.h lines 87-103) |
| DelayQueue.Pop | include/delay_queue.h:59-85 | the blocking `pop`, once an element is due, removes and returns the data of an element that expires first; the same for the identical second copy of the queue (include/thread_safe_queue/delay_queue.h lines 59-85) |
| DelayQueue.NextDelay | include/delay_queue.h:105-120 | `next_delay` reports nothing exactly on an empty queue, zero exactly when an element is due, and otherwise the time until the earliest expiry |
| DelayQueue.NextDelayZeroMeansTryPop | include/delay_queue.h:88-120 | `next_delay` reports zero exactly when `try_pop` would succeed |
| DelayQueue.Clear | include/delay_queue.h:122-130 | `clear()` leaves an empty queue |
| DelayQueue.EmptyReportsContents | include/delay_queue.h:132-144 | `empty()` holds exactly when `size()` is 0 and exactly when `next_delay` has nothing to report |
| DelayQueue.ThreePushes | src/test_delay_queue.cpp:6-10 | pushing 1 with three seconds, 2 with one and 3 with five, the second push less than two seconds after the first, orders them 2, 1, 3 by expiry |
| DelayQueue.PopsInExpiryOrder | include/delay_queue.h:59-85 | three blocking pops, each at or after the time the earliest remaining element is due, return the elements in expiry order |
| DelayQueue.ThreeDelays | src/test_delay_queue.cpp:4-17 | in the test, nothing can be taken before 2 is due, and the three pops return 2, 1 and 3 |
| MergeSort.Merge | include/parallel_algorithm/merge_sort.h:89-111 | `merge` of two runs keeps every element: the result is as long as both runs together |
| MergeSort.MergePermutes | include/parallel_algorithm/merge_sort.h:96-109 | `merge` neither loses nor invents elements: the result is a permutation of the two runs together |
| MergeSort.MergeSorted | include/parallel_algorithm/merge_sort.h:96-109 | merging two sorted runs gives a sorted run |
| MergeSort.MergeStable | include/parallel_algorithm/merge_sort.h:98-105 | because the left element goes first unless the right one is strictly smaller, among equal keys the left run's elements come first and each run keeps its own order |
| MergeSort.MergeAtIsMerge | include/parallel_algorithm/merge_sort.h:92-109 | walking the positions `left` and `right` through the range is merging the two runs they delimit |
| MergeSort.MergeRange | include/parallel_algorithm/merge_sort.h:89-111 | the loop of `merge` over the range, with both leftovers copied, writes exactly the merge of `a[..mid]` and `a[mid..]` |
| MergeSort.MergeSortRec | include/parallel_algorithm/merge_sort.h:77-86 | the recursive `merge_sort` leaves ranges of at most one element alone and keeps the length |
| MergeSort.MergeSortRecSorts | include/parallel_algorithm/merge_sort.h:50-86 | the recursive sort returns a sorted permutation of its input |
| MergeSort.MergeSortRecStable | include/parallel_algorithm/merge_sort.h:77-111 | the recursive sort is stable: the elements of each key keep their original order |
| MergeSort.RunsOfOne | include/parallel_algorithm/merge_sort.h:122 | before the first pass, with blocks of width 1, every block is sorted |
| MergeSort.PassDoublesRuns | include/parallel_algorithm/merge_sort.h:125-132 | one pass of the inner loop over sorted blocks of width `w` leaves sorted blocks of width `2w` |
| MergeSort.PassPermutes | include/parallel_algorithm/merge_sort.h:125-132 | one pass neither loses nor invents elements |
| MergeSort.PassStable | include/parallel_algorithm/merge_sort.h:125-132 | one pass over sorted blocks keeps the elements of each key in their order |
| MergeSort.MergeSortIterative | include/parallel_algorithm/merge_sort.h:114-134 | `merge_sort_iterative` returns a sorted permutation of its input, is stable, and returns exactly what the recursive sort returns |
| MergeSort.SortIsUnique | include/parallel_algorithm/merge_sort.h:114-134 | a sorted sequence with the same elements of each key in the same order as the input is the recursive sort's result |
| MergeSort.StableSortUnique | include/parallel_algorithm/merge_sort.h:77-134 | two sorted sequences that agree on the order of the elements of every key are equal |
| MergeSort.SortedIntsUnique | include/parallel_algorithm/merge_sort.h:39-48 | with `SafeComparator` on integers, two sorted sequences with the same elements are equal |
| MergeSort.MatchesStdSort | tests/test_merge_sort.cpp:10-95 | on integers the sort returns the sorted permutation of its input, which is what the integer tests compare against: the basic, empty, one-element, sorted, reverse-sorted and duplicate cases |
| MergeSort.BasicIntSort | tests/test_merge_sort.cpp:10-25 | the recursive sort turns 38, 27, 43, 3, 9, 82, 10 into 3, 9, 10, 27, 38, 43, 82 |
| MergeSort.StableTaggedSort | tests/test_merge_sort.cpp:131-183 | sorting the test's records under the value-only key keeps the two records with value 3 in their original order (stability); the test's own `operator<` breaks ties by index, so the test as written does not exercise this |
| Accumulate.MyAccumulate | include/parallel_algorithm/accumulate.h:24-39 | the four-argument `my_accumulate` starts from `init` and combines each element in turn into the result: the left fold of `op` over the range |
| Accumulate.FoldLeftSnoc | include/parallel_algorithm/accumulate.h:34-37 | folding one more element at the end applies `op` once more to the result so far |
| Accumulate.MyAccumulatePlus | include/parallel_algorithm/accumulate.h:41-52 | the three-argument `my_accumulate` returns `init` plus the sum of the range |
| Accumulate.PlusIsFoldOfAdd | include/parallel_algorithm/accumulate.h:31-52 | the three-argument overload is the four-argument one with addition |
| Accumulate.EmptyRangeIsInit | tests/test_accumulate.cpp:89-95 | an empty range returns `init` unchanged with either overload |
| Accumulate.IntegerResults | tests/test_accumulate.cpp:10-41 | the sum of 1..5 from 0 and from 10 is 15 and 25; the product of 2, 3, 4 from 1 is 24, 10 minus them is 1 and their maximum from 0 is 4; and at lines 65-115: the sum and count of 3, 1, 4, 1, 5 are 14 and 5, and 10 plus the single element 5 is 15 |
| PrefixSum.ComputePrefix | include/parallel_algorithm/prefix_sum.h:12-31 | an empty operation throws `invalid_argument`; otherwise the result has one more entry than the input, starts at `identity`, and each next entry is the operation applied to the entry before it and the next element |
| PrefixSum.PrefixesRecurrence | include/parallel_algorithm/prefix_sum.h:23-28 | entry `i` of the scan, the fold of the first `i` elements, starts at `identity` and obeys the loop's recurrence |
| PrefixSum.PrefixesUnique | include/parallel_algorithm/prefix_sum.h:22-28 | the start value and the recurrence determine the scan: any sequence with both is the fold of the prefixes |
| PrefixSum.LastIsAccumulate | include/parallel_algorithm/prefix_sum.h:26-28 | the last entry is what `my_accumulate` returns with the same operation and initial value |
| PrefixSum.MinPrefixIsLeast | include/parallel_algorithm/prefix_sum.h:47-51 | with `PrefixOps::min` from a value above every element, entry `i` is the least of the first `i` elements |
| PrefixSum.BasicAddition | tests/test_prefix_sum.cpp:8-15 | the addition scan of 1..5 from 0 is 0, 1, 3, 6, 10, 15 |
| PrefixSum.MinAndMax | tests/test_prefix_sum.cpp:28-45 | the `min` scan of 5, 3, 7, 2, 8 from `INT_MAX` and the `max` scan of 10, 5, 20, 15, 25 from `LONG_MIN` give the test's expected vectors |
| PrefixSum.PointSums | tests/test_prefix_sum.cpp:81-113 | the scan of three points added coordinate by coordinate gives (0,0), (1,2), (4,6), (9,12) |
| PrefixSum.EmptyInput | tests/test_prefix_sum.cpp:61-68 | an empty input gives the identity alone, whatever the operation |
| ForEach.MyForEach | include/parallel_algorithm/for_each.h:8-17 | `my_for_each` calls the function object on each element in turn and returns it in its final state |
| ForEach.EachElementOnceInOrder | include/parallel_algorithm/for_each.h:12-15 | the function object is called on every element exactly once and in order: a recorder ends up holding the range itself |
| ForEach.NumThreads | include/parallel_algorithm/for_each.h:26-32 | the thread count is the smaller of the hardware concurrency (2 when it reports 0) and the range divided by 25 rounded up, so between 1 and the range's length |
| ForEach.Blocks | include/parallel_algorithm/for_each.h:34-66 | an empty range has no blocks; otherwise there is one block per thread, they follow one another from the start to the end of the range, all but the last hold `distance / num_threads` elements and the last holds at least that many |
| ForEach.EachIndexInOneBlock | include/parallel_algorithm/for_each.h:42-66 | every index of the range lies in exactly one block, so every element is handled by exactly one thread |
| ForEach.TwentySixElements | include/parallel_algorithm/for_each.h:27-35 | 26 elements on two or more hardware threads split into two blocks of 13 |
| ForEach.ApplyBlock | include/parallel_algorithm/for_each.h:51 | `std::for_each` over a block applies the function object to the elements inside the block and to no other |
| ForEach.ParallelForEach | include/parallel_algorithm/for_each.h:20-95 | `parallel_for_each_s` with a function object that updates each element in place updates every element exactly once, as a serial walk would; an empty range is left alone |
| Matrix.Index | include/matrix/matrix.h:114-119 | `calculate_index` of an in-range position, in either layout, is an offset into the `rows * cols` storage |
| Matrix.Position | include/matrix/matrix.h:114-119 | every storage offset belongs to an in-range position |
| Matrix.IndexRoundTrip | include/matrix/matrix.h:114-119 | `calculate_index` is one-to-one and onto: recovering the position of an offset and indexing it again gives the offset back, and the other way round |
| Matrix.IndexInjective | include/matrix/matrix.h:114-119 | two distinct positions never share a storage slot, so writing one element never changes another |
| Matrix.LeadingDimIsStride | include/matrix/matrix.h:126-132 | with the corrected leading dimension, the next row of a row-major matrix, or the next column of a column-major one, lies exactly `leading_dim()` further on in storage |
| Matrix.Default | include/matrix/matrix.h:122-123 | the default constructor gives an empty `0 x 0` row-major matrix |
| Matrix.New | include/matrix/matrix.h:125-132 | the constructor with dimensions gives `rows * cols` elements in the requested layout, every one `T()`, with the corrected leading dimension, the storage stride (Findings include/matrix/matrix.h:128); as written it is `row_major ? rows : cols` |
| Matrix.Fill | include/matrix/matrix.h:168-172 | `fill` sets every element to the value and keeps the shape, layout and leading dimension |
| Matrix.Build | include/matrix/matrix.h:181-188 | a fresh row-major result followed by one assignment per position holds exactly the assigned values, with the corrected leading dimension `cols` (Findings include/matrix/matrix.h:128); as written the result reports `rows` |
| Matrix.Plus | include/matrix/matrix.h:177-191 | `operator+` on matrices of the same shape returns a row-major matrix of that shape holding the element-wise sums, whatever the operands' layouts |
| Matrix.Minus | include/matrix/matrix.h:193-208 | `operator-` returns the element-wise differences in the same way |
| Matrix.PlusScalar | include/matrix/matrix.h:230-244 | `operator+` with a scalar adds it to every element |
| Matrix.MinusUndoesPlus | include/matrix/matrix.h:177-244 | subtracting `b` undoes adding it, and adding a scalar's negation undoes adding the scalar |
| Matrix.Times | include/matrix/matrix.h:210-228 | `operator*` on conforming matrices returns a row-major `a.rows x b.cols` matrix whose element `(i, j)` is the sum over `k` of `a(i, k) * b(k, j)` |
| Matrix.IdentityTimes | include/matrix/matrix.h:210-228 | the identity is a left unit of `operator*`: the product holds the other operand's elements |
| MatrixFindings.NewAsWritten | include/matrix/matrix.h:126-132 | the constructor as written gives the same storage as the corrected one but sets `leading_dim_` to the row count of a row-major matrix and the column count of a column-major one |
| MatrixFindings.AsWrittenLeadingDimIsNotStride | include/matrix/matrix.h:128 | in a row-major `2 x 3` matrix as constructed, consecutive rows lie 3 apart but `leading_dim()` reports 2; the same for a column-major `3 x 2` matrix; the corrected constructor reports 3 |
| MatrixFindings.AsWrittenAgreesOnSquare | include/matrix/matrix.h:128 | the two constructors agree exactly on square matrices, which is why a square test cannot tell them apart |

## Left out

- SegmentedQueue.TryPop: returns `nullopt` on an empty head segment, where the code as written deadlocks on the segment mutex it already holds (Findings). SegmentedQueue.TryPopTakesOldest, SegmentedQueue.HeadDrainedMeansEmpty and SegmentedQueue.RunRefinesFifo are stated about this corrected `try_pop`, not about the code as written, which never returns from such a call.
- SegmentedQueue.TryPopTakesOldest: on an empty queue it promises `nullopt`; the code as written deadlocks there (see the line above).
- SegmentedQueue.HeadDrainedMeansEmpty: justifies the corrected `nullopt` return; the code as written never reaches its `return std::nullopt` single-threaded.
- SegmentedQueue.RunRefinesFifo: holds for the corrected `try_pop`; a history that pops an empty queue deadlocks in the code as written.
- SegmentedFindings.TryPopAsWritten: a call from one thread only; with other threads moving the head between its lock and `advance_head`, the second lock can be on another segment, and that interleaving is not modelled.
- SegmentedQueue.Push: requires a `SEGMENT_SIZE` of at least 2. With 1 slot, every segment is full at once, and the source's push loop allocates segments forever.
- Segment.New: requires at least one slot. The source computes indices modulo `SEGMENT_SIZE`, which is undefined for 0.
- HierarchicalQueue.WaitAndPop: models only calls that return, so it requires a positive `max_steal` and a non-empty structure. With `max_steal` 0, the source waits forever while elements sit in other threads' local queues.
- BoundedPriorityQueue.WaitAndPop, BoundedQueue.WaitAndPop, CoarseQueue.WaitAndPop, DelayQueue.Pop and SegmentedQueue.Pop: the blocking waits are preconditions (an element is there, or the top has expired), so they model only calls that return.
- BoundedPriorityQueue.Push and BoundedQueue.Push: the wait for room is a precondition, for the same reason.
- BatchQueue.New: the source's `assert` on a positive batch size is a precondition.
- Matrix.Plus, Matrix.Minus and Matrix.Times: the dimension `assert`s are preconditions.
- Matrix.Plus, Matrix.Minus, Matrix.PlusScalar and Matrix.Times: their results are built with the corrected leading dimension (`Matrix.Build`, Findings row include/matrix/matrix.h:128); as written each result's `leading_dim()` is its row count.
- LinkedQueue.Chain: follows `next` links with fuel `|nodes|`. The fuel suffices for any list of distinct nodes, and lists that are not in that form are not modelled.
- BoundedQueue: the inner queue is taken to be an exact FIFO, so it is modelled by its contents.
- DelayQueue: the order among elements with equal expiry times is not stated; `std::priority_queue` leaves it unspecified.
- Threads and synchronisation are not modelled, because each locked operation is one atomic step in the model. This covers:
  - mutexes, condition variables and notifications;
  - atomics;
  - timed waits (`wait_for`, `wait_until`, `try_pop_for`, `batch_pop`, `batch_pop_for`, `max_wait_time`);
  - the interleavings they allow.
- Both linked queue classes deadlock on themselves in their waiting pops, which are not modelled because this is a locking matter. The single-mutex class's `wait_and_pop` overloads (include/thread_safe_queue/threadsafe_linked_queue.h lines 91-102) hold `mutex_` and call `try_pop`, which locks it again at lines 46 and 72. The double-mutex class's `wait_and_pop` overloads (lines 209-221) and both `try_pop_for` overloads (lines 223-241) hold `head_mutex_` and call `try_pop`, whose `pop_head` locks it again at line 151.
- The HPQ `size()` is a racy estimate across threads and is not modelled; `HierarchicalQueue.Total` is the exact contents instead. `empty()` is modelled, as the calling thread sees it (`HierarchicalQueue.EmptyReportsContents`). The global-order assertion of the HPQ test program is not modelled either, because the local-first pop policy does not guarantee it.
- The `HierarchicalQueue` model covers one live `HierarchicalPriorityQueue` object per element type. `local_queue_` is a static `thread_local` member (include/hierarchical_priority_queue.h line 140), so all objects of one type share a thread's local queue. A thread that already holds one skips registration in `init_local_queue` (line 414), so a second object of the same type works through a local queue its own `all_local_queues_` never lists. Keeping `locals` inside each `Hpq` value cannot express that sharing.
- `thread_local` lifetime and `std::this_thread::get_id()`: the thread id is a parameter. The destructor deletes local queues still owned by their `thread_local` pointers (a double free); it is not modelled, because it is about lifetime.
- Move constructors and move assignments of the HPQ, the coarse queue and the stack are not modelled, because they only transfer ownership.
- The HPQ's `wait_timeout_` and custom `Compare` parameters: elements are integers under `std::less`.
- `lock_guard<std::mutex>` on a `recursive_mutex`, and `unique_lock<std::mutex>` and `shared_lock<std::mutex>` on a `shared_mutex`, would not compile if instantiated. The model takes the evident intent: one exclusive or shared step.
- The lock-free queues (`LockFreeQueue`, `LockFreeArrayQueue`) are not modelled, because their behaviour is their memory ordering.
- `MatrixAllocator` is not modelled, because it is a foreign aligned-allocation call.
- `SafeComparator`'s address fallback, `has_less_operator` and the SFINAE fallback of `my_accumulate` are not modelled, because they are template metaprogramming with no run-time behaviour of their own.
- Floating-point, string and character test cases are not modelled. This covers the accumulate and prefix-sum tests on `double`, `float`, `std::string` and `char`, and the merge-sort tests on strings and doubles. Elements are unbounded integers, and the integer tests are stated.
- The large and duplicate-heavy merge-sort tests are covered by `MergeSort.MatchesStdSort` and the uniqueness lemmas, not by concrete runs.
- `parallel_for_each_d`, used by the for-each test, is not defined in `for_each.h` and is not part of this model.
- The threads, joins and `exception_ptr` rethrow of `parallel_for_each_s` are not modelled. The hardware concurrency is a parameter.
- The steady clock `Clock::now()` is a parameter `now`.
- Integer widths: `size_t` and `int` are unbounded, so no overflow is modelled.
- The output-stream helpers, `AtomicCounter`, the `AbstractThreadSafeQueue` interfaces and the demo drivers are not modelled, because they do no container or algorithm work.

## Findings

| source | as written | input that shows it | evidently intended | confidence | as-written member | corrected member |
|---|---|---|---|---|---|---|
| include/hierarchical_priority_queue.h:495-502 | the inner `size_t stolen` shadows the outer one, so `stolen > 0` never holds, and stolen elements stay in a local buffer that is then discarded | thread t pushes one element; another thread u calls `try_pop` and gets nothing, and the element is gone | test the count `steal` returns and hand the stolen top over | not executed | HierarchicalFindings.StolenElementIsLost | HierarchicalFindings.StolenElementIsReturned |
| include/hierarchical_priority_queue.h:514-528 | with the shadowing fixed, the remainder is pushed straight into the caller's heap, and the caller's `is_non_empty` hint stays clear | a registered caller with an empty local queue receives one element; its own `try_pop` skips the local queue | raise the hint with the push | not executed | HierarchicalFindings.HandOverHidesElement | HierarchicalFindings.HandOverRaisesHint |
| include/hierarchical_priority_queue.h:515 | a caller with no local queue skips the hand-over, so the remainder is dropped | thread t holds one element; a thread u that never pushed receives a remainder, and the remainder disappears | keep the remainder | not executed | HierarchicalFindings.HandOverDropsElement | HierarchicalFindings.HandOverKeepsElement |
| include/segmented_queue.h:189-206 | on an empty head segment `try_pop` still holds that segment's `std::mutex` (line 193) when it calls `advance_head`, which locks the same mutex again (line 94): the thread deadlocks on itself, which for `std::mutex` is undefined behaviour; the identical copy in include/thread_safe_queue/ does the same | `try_pop` on a new queue never returns | return `nullopt` without relocking, as the comment at line 188 says | not executed | SegmentedFindings.EmptyPopDeadlocks | SegmentedFindings.EmptyPopReturnsNone |
| include/segmented_queue.h:195-200 | a pop that drains the head segment moves the head on with no check against the tail, unlike `pop()` at line 179, so draining the only segment moves the head past the tail | `push(1)`, `try_pop`, `push(2)`: the queue reports empty while holding 2, and the next `try_pop` deadlocks | move the head on only while it is behind the tail | not executed | SegmentedFindings.DrainLosesLaterPush | SegmentedFindings.LaterPushIsPopped |
| include/thread_safe_queue/threadsafe_linked_queue.h:84-88 | `try_pop(T&)` unlinks the last node without resetting `tail_` to the dummy | `push(1)`, `try_pop(v)`, `push(2)`: the new node hangs off the freed node, and the queue reports empty | reset `tail_` as `try_pop()` does | not executed | LinkedFindings.LaterPushIsLost | LinkedFindings.LaterPushIsKept |
| include/threadsafequeue.h:56-59 | `try_pop(T&)` pops only when the moved value is truthy | a queue whose front is 0: every `try_pop(T&)` returns `false` and leaves it there | pop the front whatever its value | not executed | CoarseFindings.ZeroFrontIsStuck | CoarseFindings.ZeroFrontIsPopped |
| include/matrix/matrix.h:128 | `leading_dim_` is the row count for row-major storage and the column count otherwise | a row-major 2 x 3 matrix has leading dimension 2 while its rows lie 3 apart | the stride between rows (row-major) or columns (column-major) | not executed | MatrixFindings.AsWrittenLeadingDimIsNotStride | Matrix.LeadingDimIsStride |
