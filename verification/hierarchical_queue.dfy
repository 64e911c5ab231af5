/** `HierarchicalPriorityQueue`, run by one thread at a time. Each operation
    takes the calling thread's id instead of reading `thread_local` storage.
    The map `locals` is both the registry `all_local_queues_` and each
    thread's `local_queue_` slot; `nonEmpty` is `non_empty_local_queues_`,
    holding thread ids in place of pointers. `local_queue_` is a static
    `thread_local` member, shared by every queue object of the same type on
    a thread; keeping it inside the `Hpq` value models one live queue object
    per element type. */
module HierarchicalQueue {
  import opened Wrappers
  import PQ = PriorityQueue
  import LQ = ThreadLocalQueue

  type ThreadId = LQ.ThreadId

  datatype Hpq = Hpq(
    locals: map<ThreadId, LQ.LocalQueue>,
    global: seq<int>,
    nonEmpty: seq<ThreadId>,
    localThreshold: nat,
    maxSteal: nat)

  // ---------------------------------------------------------------------
  // The non-empty index
  // ---------------------------------------------------------------------

  predicate NoDuplicates(ix: seq<ThreadId>)
  {
    forall i, j :: 0 <= i < j < |ix| ==> ix[i] != ix[j]
  }

  /** `std::find`: the position of the first `t`, or `|ix|` when absent. */
  function Find(ix: seq<ThreadId>, t: ThreadId): (i: nat)
    ensures i <= |ix|
    ensures i < |ix| ==> ix[i] == t
    ensures forall j :: 0 <= j < i ==> ix[j] != t
    ensures i == |ix| <==> t !in ix
  {
    if |ix| == 0 then 0
    else if ix[0] == t then 0
    else 1 + Find(ix[1..], t)
  }

  /** `add_to_non_empty`: appends `t` unless it is already listed. */
  function AddToNonEmpty(ix: seq<ThreadId>, t: ThreadId): (r: seq<ThreadId>)
    ensures t in r
    ensures forall u :: u in r <==> u in ix || u == t
    ensures t in ix ==> r == ix
    ensures t !in ix ==> |r| == |ix| + 1 && r[..|ix|] == ix
    ensures NoDuplicates(ix) ==> NoDuplicates(r)
  {
    if Find(ix, t) == |ix| then ix + [t] else ix
  }

  /** Adding the same thread twice is the same as adding it once. */
  lemma AddIsIdempotent(ix: seq<ThreadId>, t: ThreadId)
    ensures AddToNonEmpty(AddToNonEmpty(ix, t), t) == AddToNonEmpty(ix, t)
  {
  }

  /** `remove_from_non_empty`: erases the first occurrence of `t`, keeping
      the order of the other entries. */
  function RemoveFromNonEmpty(ix: seq<ThreadId>, t: ThreadId): (r: seq<ThreadId>)
    ensures t !in ix ==> r == ix
    ensures t in ix ==> exists i :: 0 <= i < |ix| && ix[i] == t && t !in ix[..i] && r == ix[..i] + ix[i + 1..]
    ensures forall u :: u != t ==> (u in r <==> u in ix)
    ensures NoDuplicates(ix) ==> NoDuplicates(r) && t !in r
  {
    var i := Find(ix, t);
    if i == |ix| then ix
    else
      EraseAt(ix, i);
      assert t !in ix[..i];
      ix[..i] + ix[i + 1..]
  }

  /** Erasing position `i` keeps every other entry and, without duplicates,
      removes the erased value altogether. */
  lemma EraseAt(ix: seq<ThreadId>, i: nat)
    requires i < |ix|
    ensures forall u :: u != ix[i] ==> (u in ix[..i] + ix[i + 1..] <==> u in ix)
    ensures NoDuplicates(ix) ==> NoDuplicates(ix[..i] + ix[i + 1..]) && ix[i] !in ix[..i] + ix[i + 1..]
  {
    var r := ix[..i] + ix[i + 1..];
    assert forall k :: 0 <= k < |r| ==> r[k] == if k < i then ix[k] else ix[k + 1];
    forall u | u != ix[i] && u in ix
      ensures u in r
    {
      var k :| 0 <= k < |ix| && ix[k] == u;
      if k < i { assert r[k] == u; } else { assert r[k - 1] == u; }
    }
  }

  // ---------------------------------------------------------------------
  // Invariants and the total contents
  // ---------------------------------------------------------------------

  /** Structural facts every operation keeps: ordered queues, each local
      queue owned by the thread it is registered under, and an index of
      registered threads without duplicates. */
  predicate WellFormed(s: Hpq)
  {
    && PQ.Ordered(s.global, PQ.ByValue)
    && (forall t :: t in s.locals ==> s.locals[t].owner == t && LQ.Valid(s.locals[t]))
    && (forall t :: t in s.nonEmpty ==> t in s.locals)
    && NoDuplicates(s.nonEmpty)
  }

  /** The single-thread invariant: every hint is exact and every non-empty
      local queue is listed in the index. */
  predicate Inv(s: Hpq)
  {
    && WellFormed(s)
    && forall t :: t in s.locals ==>
         LQ.FlagAccurate(s.locals[t]) && (|s.locals[t].heap| > 0 ==> t in s.nonEmpty)
  }

  ghost function Pick(m: map<ThreadId, LQ.LocalQueue>): ThreadId
    requires |m| > 0
  {
    assert m.Keys != {};
    var t :| t in m; t
  }

  lemma RemoveKeyShrinks(m: map<ThreadId, LQ.LocalQueue>, t: ThreadId)
    requires t in m
    ensures |m - {t}| == |m| - 1
  {
    assert (m - {t}).Keys == m.Keys - {t};
    assert m.Keys == (m.Keys - {t}) + {t};
  }

  /** Every element held by some thread's local queue. */
  ghost function Bag(m: map<ThreadId, LQ.LocalQueue>): multiset<int>
    decreases |m|
  {
    if |m| == 0 then multiset{}
    else
      var t := Pick(m);
      RemoveKeyShrinks(m, t);
      multiset(m[t].heap) + Bag(m - {t})
  }

  lemma {:induction false} BagRemove(m: map<ThreadId, LQ.LocalQueue>, t: ThreadId)
    requires t in m
    ensures Bag(m) == multiset(m[t].heap) + Bag(m - {t})
    decreases |m|
  {
    var p := Pick(m);
    if p != t {
      RemoveKeyShrinks(m, p);
      RemoveKeyShrinks(m, t);
      BagRemove(m - {p}, t);
      BagRemove(m - {t}, p);
      assert m - {p} - {t} == m - {t} - {p};
    }
  }

  lemma BagUpdate(m: map<ThreadId, LQ.LocalQueue>, t: ThreadId, q: LQ.LocalQueue)
    requires t in m
    ensures Bag(m[t := q]) == Bag(m - {t}) + multiset(q.heap)
    ensures Bag(m) == Bag(m - {t}) + multiset(m[t].heap)
  {
    var m' := m[t := q];
    assert (m' - {t}).Keys == (m - {t}).Keys;
    assert forall k :: k in m - {t} ==> (m' - {t})[k] == (m - {t})[k];
    assert m' - {t} == m - {t};
    BagRemove(m', t);
    BagRemove(m, t);
  }

  /** Growing one local queue by `extra` grows the local contents by `extra`. */
  lemma BagGrow(m: map<ThreadId, LQ.LocalQueue>, t: ThreadId, q: LQ.LocalQueue, extra: multiset<int>)
    requires t in m && multiset(q.heap) == multiset(m[t].heap) + extra
    ensures Bag(m[t := q]) == Bag(m) + extra
  {
    BagUpdate(m, t, q);
  }

  /** Shrinking one local queue by `gone` shrinks the local contents by `gone`. */
  lemma BagShrink(m: map<ThreadId, LQ.LocalQueue>, t: ThreadId, q: LQ.LocalQueue, gone: multiset<int>)
    requires t in m && multiset(q.heap) + gone == multiset(m[t].heap)
    ensures Bag(m[t := q]) + gone == Bag(m)
  {
    BagUpdate(m, t, q);
  }

  /** The same for the whole structure. */
  lemma TotalGrow(s: Hpq, t: ThreadId, q: LQ.LocalQueue, extra: multiset<int>)
    requires t in s.locals && multiset(q.heap) == multiset(s.locals[t].heap) + extra
    ensures Total(s.(locals := s.locals[t := q])) == Total(s) + extra
  {
    BagGrow(s.locals, t, q, extra);
  }

  lemma BagAdd(m: map<ThreadId, LQ.LocalQueue>, t: ThreadId, q: LQ.LocalQueue)
    requires t !in m
    ensures Bag(m[t := q]) == Bag(m) + multiset(q.heap)
  {
    BagRemove(m[t := q], t);
    assert m[t := q] - {t} == m;
  }

  /** The local queues hold nothing iff each of them is empty. */
  lemma {:induction false} BagEmpty(m: map<ThreadId, LQ.LocalQueue>)
    ensures Bag(m) == multiset{} <==> forall t :: t in m ==> |m[t].heap| == 0
    decreases |m|
  {
    if |m| > 0 {
      var p := Pick(m);
      RemoveKeyShrinks(m, p);
      BagEmpty(m - {p});
      if forall t :: t in m ==> |m[t].heap| == 0 {
        assert multiset(m[p].heap) == multiset{};
      } else {
        var t :| t in m && |m[t].heap| > 0;
        BagRemove(m, t);
        assert m[t].heap[0] in multiset(m[t].heap);
      }
    }
  }

  /** Every element in the structure: the global queue and all local queues. */
  ghost function Total(s: Hpq): multiset<int>
  {
    multiset(s.global) + Bag(s.locals)
  }

  /** Replacing one registered local queue by a valid one owned by the same
      thread keeps the structure well formed. */
  lemma WellFormedAfterUpdate(s: Hpq, tid: ThreadId, q: LQ.LocalQueue)
    requires WellFormed(s) && tid in s.locals
    requires q.owner == tid && LQ.Valid(q)
    ensures WellFormed(s.(locals := s.locals[tid := q]))
  {
  }

  /** The same for the invariant, when the new queue's hint is exact and it
      is listed in the index whenever it holds an element. */
  lemma InvAfterUpdate(s: Hpq, tid: ThreadId, q: LQ.LocalQueue)
    requires Inv(s) && tid in s.locals
    requires q.owner == tid && LQ.Valid(q) && LQ.FlagAccurate(q)
    requires |q.heap| > 0 ==> tid in s.nonEmpty
    ensures Inv(s.(locals := s.locals[tid := q]))
  {
  }

  // ---------------------------------------------------------------------
  // Construction and push
  // ---------------------------------------------------------------------

  /** The constructor, run by thread `tid`: no validation of its arguments,
      and the constructing thread's local queue is registered at once. */
  function New(localThreshold: nat, maxSteal: nat, tid: ThreadId): (s: Hpq)
    ensures Inv(s) && tid in s.locals
    ensures Total(s) == multiset{}
    ensures s.localThreshold == localThreshold && s.maxSteal == maxSteal
  {
    var s := Hpq(map[tid := LQ.New(tid)], [], [], localThreshold, maxSteal);
    BagEmpty(s.locals);
    s
  }

  /** `init_local_queue`: registers an empty local queue for `tid` on first use. */
  function InitLocalQueue(s: Hpq, tid: ThreadId): (r: Hpq)
    requires WellFormed(s)
    ensures WellFormed(r)
    ensures tid in r.locals && r.locals.Keys == s.locals.Keys + {tid}
    ensures tid in s.locals ==> r == s
    ensures tid !in s.locals ==> |r.locals[tid].heap| == 0 && LQ.FlagAccurate(r.locals[tid])
    ensures r.global == s.global && r.nonEmpty == s.nonEmpty
    ensures forall t :: t in s.locals ==> r.locals[t] == s.locals[t]
    ensures r.localThreshold == s.localThreshold && r.maxSteal == s.maxSteal
  {
    if tid in s.locals then s
    else s.(locals := s.locals[tid := LQ.New(tid)])
  }

  /** Registering adds nothing and keeps the invariant. */
  lemma InitLocalQueueKeeps(s: Hpq, tid: ThreadId)
    requires WellFormed(s)
    ensures Total(InitLocalQueue(s, tid)) == Total(s)
    ensures Inv(s) ==> Inv(InitLocalQueue(s, tid))
  {
    if tid !in s.locals {
      BagAdd(s.locals, tid, LQ.New(tid));
    }
  }

  /** `check_and_merge_local`: once the caller's local queue has reached the
      threshold it leaves the index and all its elements move to the global
      queue. */
  function CheckAndMergeLocal(s: Hpq, tid: ThreadId): (r: Hpq)
    requires WellFormed(s) && tid in s.locals
    ensures WellFormed(r) && r.locals.Keys == s.locals.Keys
    ensures r.localThreshold == s.localThreshold && r.maxSteal == s.maxSteal
  {
    var q := s.locals[tid];
    if |q.heap| >= s.localThreshold then
      var m := LQ.MergeTo(q, s.global);
      WellFormedAfterUpdate(s, tid, m.0);
      s.(locals := s.locals[tid := m.0], global := m.1, nonEmpty := RemoveFromNonEmpty(s.nonEmpty, tid))
    else s
  }

  /** A merge moves elements without creating or losing any. */
  lemma CheckAndMergeConserves(s: Hpq, tid: ThreadId)
    requires WellFormed(s) && tid in s.locals
    ensures Total(CheckAndMergeLocal(s, tid)) == Total(s)
  {
    var q := s.locals[tid];
    if |q.heap| >= s.localThreshold {
      var m := LQ.MergeTo(q, s.global);
      BagUpdate(s.locals, tid, m.0);
      var r := CheckAndMergeLocal(s, tid);
      assert r.locals == s.locals[tid := m.0] && r.global == m.1;
      assert Bag(r.locals) + multiset(q.heap) == Bag(s.locals);
      assert multiset(m.1) == multiset(s.global) + multiset(q.heap);
      assert Total(r) == multiset(m.1) + Bag(r.locals);
    }
  }

  /** When the merge fires the caller's queue is left empty, with an exact
      hint, and out of the index; otherwise nothing changes. */
  lemma CheckAndMergeEmpties(s: Hpq, tid: ThreadId)
    requires WellFormed(s) && tid in s.locals
    ensures |s.locals[tid].heap| >= s.localThreshold ==>
              var r := CheckAndMergeLocal(s, tid);
              |r.locals[tid].heap| == 0 && LQ.FlagAccurate(r.locals[tid]) && tid !in r.nonEmpty
    ensures |s.locals[tid].heap| < s.localThreshold ==> CheckAndMergeLocal(s, tid) == s
    ensures forall t :: t in s.locals && t != tid ==> CheckAndMergeLocal(s, tid).locals[t] == s.locals[t]
    ensures forall t :: t != tid ==> (t in CheckAndMergeLocal(s, tid).nonEmpty <==> t in s.nonEmpty)
  {
  }

  lemma CheckAndMergeKeepsInv(s: Hpq, tid: ThreadId)
    requires Inv(s) && tid in s.locals
    ensures Inv(CheckAndMergeLocal(s, tid))
  {
    CheckAndMergeEmpties(s, tid);
    var r := CheckAndMergeLocal(s, tid);
    forall t | t in r.locals
      ensures LQ.FlagAccurate(r.locals[t]) && (|r.locals[t].heap| > 0 ==> t in r.nonEmpty)
    {
    }
  }

  /** The first half of `push`: registers the caller if needed and pushes
      into its local queue. */
  function PushLocal(s: Hpq, tid: ThreadId, v: int): (r: Hpq)
    requires WellFormed(s)
    ensures WellFormed(r) && tid in r.locals
    ensures r.locals.Keys == s.locals.Keys + {tid}
    ensures r.global == s.global && r.nonEmpty == s.nonEmpty
    ensures r.localThreshold == s.localThreshold && r.maxSteal == s.maxSteal
  {
    var s1 := InitLocalQueue(s, tid);
    var q := LQ.Push(s1.locals[tid], v);
    WellFormedAfterUpdate(s1, tid, q);
    s1.(locals := s1.locals[tid := q])
  }

  /** The last step of `push`: lists the caller in the index when its local
      queue reports exactly one element. */
  function IndexIfSingle(s: Hpq, tid: ThreadId): (r: Hpq)
    requires WellFormed(s) && tid in s.locals
    ensures WellFormed(r) && r.locals == s.locals && r.global == s.global
    ensures r.localThreshold == s.localThreshold && r.maxSteal == s.maxSteal
  {
    if LQ.Size(s.locals[tid]) == 1 then s.(nonEmpty := AddToNonEmpty(s.nonEmpty, tid)) else s
  }

  /** `push(value)` by thread `tid`. */
  function Push(s: Hpq, tid: ThreadId, v: int): (r: Hpq)
    requires WellFormed(s)
    ensures WellFormed(r) && tid in r.locals
    ensures r.locals.Keys == s.locals.Keys + {tid}
    ensures r.localThreshold == s.localThreshold && r.maxSteal == s.maxSteal
  {
    IndexIfSingle(CheckAndMergeLocal(PushLocal(s, tid, v), tid), tid)
  }

  /** The local push adds exactly the pushed value. */
  lemma PushLocalAdds(s: Hpq, tid: ThreadId, v: int)
    requires WellFormed(s)
    ensures Total(PushLocal(s, tid, v)) == Total(s) + multiset{v}
  {
    var s1 := InitLocalQueue(s, tid);
    InitLocalQueueKeeps(s, tid);
    var q := LQ.Push(s1.locals[tid], v);
    assert PushLocal(s, tid, v) == s1.(locals := s1.locals[tid := q]);
    TotalGrow(s1, tid, q, multiset{v});
  }

  /** The local push grows the caller's queue by one, leaves its hint exact,
      and touches no other thread's queue. */
  lemma PushLocalFrames(s: Hpq, tid: ThreadId, v: int)
    requires WellFormed(s)
    ensures var q0 := InitLocalQueue(s, tid).locals[tid];
            var q := PushLocal(s, tid, v).locals[tid];
            |q.heap| == |q0.heap| + 1 && (LQ.FlagAccurate(q0) ==> LQ.FlagAccurate(q))
    ensures forall t :: t in s.locals && t != tid ==> PushLocal(s, tid, v).locals[t] == s.locals[t]
  {
    var s1 := InitLocalQueue(s, tid);
    var q := LQ.Push(s1.locals[tid], v);
    assert |multiset(q.heap)| == |multiset(s1.locals[tid].heap)| + 1;
  }

  /** A push adds exactly the pushed value to the structure. */
  lemma PushConserves(s: Hpq, tid: ThreadId, v: int)
    requires WellFormed(s)
    ensures Total(Push(s, tid, v)) == Total(s) + multiset{v}
  {
    PushLocalAdds(s, tid, v);
    CheckAndMergeConserves(PushLocal(s, tid, v), tid);
  }

  /** With a positive threshold, after `push` returns the caller's local
      queue holds fewer than `local_threshold` elements: reaching the
      threshold flushes it whole into the global queue. */
  lemma PushStaysBelowThreshold(s: Hpq, tid: ThreadId, v: int)
    requires WellFormed(s) && s.localThreshold > 0
    ensures |Push(s, tid, v).locals[tid].heap| < s.localThreshold
  {
    CheckAndMergeEmpties(PushLocal(s, tid, v), tid);
  }

  /** Push keeps the single-thread invariant. */
  lemma PushKeepsInv(s: Hpq, tid: ThreadId, v: int)
    requires Inv(s)
    ensures Inv(Push(s, tid, v))
  {
    var s1 := InitLocalQueue(s, tid);
    InitLocalQueueKeeps(s, tid);
    var s2 := PushLocal(s, tid, v);
    PushLocalFrames(s, tid, v);
    var q := s2.locals[tid];
    assert LQ.FlagAccurate(q);
    var s3 := CheckAndMergeLocal(s2, tid);
    CheckAndMergeEmpties(s2, tid);
    var r := Push(s, tid, v);
    assert r == IndexIfSingle(s3, tid);
    forall t | t in r.locals
      ensures LQ.FlagAccurate(r.locals[t]) && (|r.locals[t].heap| > 0 ==> t in r.nonEmpty)
    {
      if t != tid {
        assert r.locals[t] == s.locals[t];
        assert t in s.nonEmpty ==> t in s3.nonEmpty;
      } else if |q.heap| < s.localThreshold {
        assert s3 == s2;
        if |s1.locals[tid].heap| > 0 {
          assert tid in s1.nonEmpty;
        }
      }
    }
  }

  // ---------------------------------------------------------------------
  // Popping
  // ---------------------------------------------------------------------

  /** Step 1 of `try_pop`: pops the caller's local queue unless its hint
      says it is empty, and takes the caller out of the index once the hint
      says the queue has drained. */
  function PopLocal(s: Hpq, tid: ThreadId): (r: (Hpq, Option<int>))
    requires WellFormed(s)
    ensures WellFormed(r.0) && r.0.locals.Keys == s.locals.Keys && r.0.global == s.global
    ensures r.0.localThreshold == s.localThreshold && r.0.maxSteal == s.maxSteal
  {
    if tid in s.locals && !LQ.EmptyQuick(s.locals[tid]) then
      var p := LQ.TryPop(s.locals[tid]);
      WellFormedAfterUpdate(s, tid, p.0);
      var s1 := s.(locals := s.locals[tid := p.0]);
      if p.1.Some? then
        (if LQ.EmptyQuick(p.0) then s1.(nonEmpty := RemoveFromNonEmpty(s1.nonEmpty, tid)) else s1, p.1)
      else (s1, None)
    else (s, None)
  }

  /** Step 2 of `try_pop`: the top of the global queue. */
  function PopGlobal(s: Hpq): (r: (Hpq, Option<int>))
    requires WellFormed(s)
    ensures WellFormed(r.0) && r.0.locals == s.locals && r.0.nonEmpty == s.nonEmpty
    ensures r.0.localThreshold == s.localThreshold && r.0.maxSteal == s.maxSteal
    ensures r.1.None? <==> |s.global| == 0
    ensures r.1.None? ==> r.0 == s
    ensures r.1.Some? ==> PQ.IsTop(s.global, r.1.value, PQ.ByValue)
                          && multiset(r.0.global) + multiset{r.1.value} == multiset(s.global)
  {
    if |s.global| == 0 then (s, None)
    else
      PQ.TopIsHighest(s.global, PQ.ByValue);
      PQ.PopRemovesTop(s.global, PQ.ByValue);
      (s.(global := s.global[1..]), Some(s.global[0]))
  }

  /** Hands the stolen elements other than the returned one to the caller:
      they go through the local queue's `push`, so its hint is raised, and
      the caller is listed in the index when its queue was empty before,
      which is what comparing the new size with `stolen - 1` tests. A
      caller without a local queue is given one first. */
  function GiveRest(s: Hpq, tid: ThreadId, rest: seq<int>): (r: Hpq)
    requires WellFormed(s)
    ensures WellFormed(r) && tid in r.locals && r.locals.Keys == s.locals.Keys + {tid}
    ensures r.global == s.global
    ensures r.localThreshold == s.localThreshold && r.maxSteal == s.maxSteal
  {
    var s1 := InitLocalQueue(s, tid);
    var q := LQ.PushAll(s1.locals[tid], rest);
    WellFormedAfterUpdate(s1, tid, q);
    var s2 := s1.(locals := s1.locals[tid := q]);
    if |q.heap| == |rest| then s2.(nonEmpty := AddToNonEmpty(s2.nonEmpty, tid)) else s2
  }

  /** Handing over adds exactly the handed elements. */
  lemma GiveRestConserves(s: Hpq, tid: ThreadId, rest: seq<int>)
    requires WellFormed(s)
    ensures Total(GiveRest(s, tid, rest)) == Total(s) + multiset(rest)
  {
    var s1 := InitLocalQueue(s, tid);
    InitLocalQueueKeeps(s, tid);
    var q := LQ.PushAll(s1.locals[tid], rest);
    GiveRestLocals(s, tid, rest);
    BagGrow(s1.locals, tid, q, multiset(rest));
  }

  lemma GiveRestLocals(s: Hpq, tid: ThreadId, rest: seq<int>)
    requires WellFormed(s)
    ensures var s1 := InitLocalQueue(s, tid);
            GiveRest(s, tid, rest).locals == s1.locals[tid := LQ.PushAll(s1.locals[tid], rest)]
  {
  }

  /** Handing over touches no other thread's queue and only adds to the
      caller's own. */
  lemma GiveRestFrames(s: Hpq, tid: ThreadId, rest: seq<int>)
    requires WellFormed(s)
    ensures forall t :: t in s.locals && t != tid ==> GiveRest(s, tid, rest).locals[t] == s.locals[t]
    ensures tid in s.locals ==> multiset(s.locals[tid].heap) <= multiset(GiveRest(s, tid, rest).locals[tid].heap)
  {
    GiveRestLocals(s, tid, rest);
  }

  lemma GiveRestKeepsInv(s: Hpq, tid: ThreadId, rest: seq<int>)
    requires Inv(s)
    ensures Inv(GiveRest(s, tid, rest))
  {
    var s1 := InitLocalQueue(s, tid);
    InitLocalQueueKeeps(s, tid);
    var q0 := s1.locals[tid];
    var q := LQ.PushAll(q0, rest);
    assert |multiset(q.heap)| == |multiset(q0.heap)| + |multiset(rest)|;
    var r := GiveRest(s, tid, rest);
    forall t | t in r.locals
      ensures LQ.FlagAccurate(r.locals[t]) && (|r.locals[t].heap| > 0 ==> t in r.nonEmpty)
    {
      if t != tid {
        assert r.locals[t] == s1.locals[t];
      } else if |q.heap| != |rest| {
        assert |q0.heap| > 0 && tid in s1.nonEmpty;
      }
    }
  }

  /** One candidate of the loop in `steal_from_others`: `steal` into an
      empty buffer, then the victim leaves the index if something was taken
      and its hint now says it is empty. Yields the stolen elements, highest
      first. */
  function StealVictim(s: Hpq, c: ThreadId): (r: (Hpq, seq<int>))
    requires WellFormed(s) && c in s.locals
    ensures WellFormed(r.0) && r.0.locals.Keys == s.locals.Keys && r.0.global == s.global
    ensures r.0.localThreshold == s.localThreshold && r.0.maxSteal == s.maxSteal
    ensures PQ.Ordered(r.1, PQ.ByValue)
    ensures forall t :: t in s.locals && t != c ==> r.0.locals[t] == s.locals[t]
    ensures |r.1| == LQ.Min(s.maxSteal, |s.locals[c].heap|)
    ensures multiset(r.0.locals[c].heap) + multiset(r.1) == multiset(s.locals[c].heap)
    ensures forall x, y :: x in r.1 && y in r.0.locals[c].heap ==> y <= x
    ensures |r.1| == 0 ==> r.0.locals[c].heap == s.locals[c].heap
  {
    var st := LQ.Steal(s.locals[c], [], s.maxSteal);
    LQ.StealSplits(s.locals[c], s.maxSteal);
    WellFormedAfterUpdate(s, c, st.0);
    var s1 := s.(locals := s.locals[c := st.0]);
    if st.2 > 0 && LQ.EmptyQuick(st.0) then (s1.(nonEmpty := RemoveFromNonEmpty(s1.nonEmpty, c)), st.1)
    else (s1, st.1)
  }

  /** A steal moves elements from the victim into the buffer, creating and
      losing none. */
  lemma StealVictimConserves(s: Hpq, c: ThreadId)
    requires WellFormed(s) && c in s.locals
    ensures var r := StealVictim(s, c); Total(r.0) + multiset(r.1) == Total(s)
  {
    var q := s.locals[c];
    var st := LQ.Steal(q, [], s.maxSteal);
    StealVictimShape(s, c);
    BagShrink(s.locals, c, st.0, multiset(st.1));
  }

  lemma StealVictimShape(s: Hpq, c: ThreadId)
    requires WellFormed(s) && c in s.locals
    ensures var st := LQ.Steal(s.locals[c], [], s.maxSteal);
            var r := StealVictim(s, c);
            r.0.locals == s.locals[c := st.0] && r.1 == st.1
  {
  }

  lemma StealVictimKeepsInv(s: Hpq, c: ThreadId)
    requires Inv(s) && c in s.locals
    ensures Inv(StealVictim(s, c).0)
  {
    var q := s.locals[c];
    var st := LQ.Steal(q, [], s.maxSteal);
    var s1 := s.(locals := s.locals[c := st.0]);
    if |st.0.heap| > 0 {
      assert c in s.nonEmpty;
    }
    InvAfterUpdate(s, c, st.0);
    if st.2 > 0 && LQ.EmptyQuick(st.0) {
      InvAfterUnlist(s1, c);
    }
  }

  /** The corrected loop of `steal_from_others` over the snapshot `cands` of
      the index: skips the caller's own queue and stops at the first
      candidate that yields something, returning the highest stolen element
      and handing the rest to the caller. */
  function StealFrom(s: Hpq, tid: ThreadId, cands: seq<ThreadId>): (r: (Hpq, Option<int>))
    requires WellFormed(s) && forall c :: c in cands ==> c in s.locals
    ensures WellFormed(r.0) && s.locals.Keys <= r.0.locals.Keys <= s.locals.Keys + {tid}
    ensures r.0.localThreshold == s.localThreshold && r.0.maxSteal == s.maxSteal
    decreases |cands|
  {
    if |cands| == 0 then (s, None)
    else
      var c := cands[0];
      if c == tid then StealFrom(s, tid, cands[1..])
      else
        var v := StealVictim(s, c);
        if |v.1| > 0 then (GiveRest(v.0, tid, v.1[1..]), Some(v.1[0]))
        else StealFrom(v.0, tid, cands[1..])
  }

  /** The element the corrected loop returns is the highest of the victim
      it was stolen from: it was in that victim's queue, and nothing in
      the queue, taken or left behind, is higher. */
  lemma {:induction false} StealFromTakesHighest(s: Hpq, tid: ThreadId, cands: seq<ThreadId>)
    requires WellFormed(s) && forall c :: c in cands ==> c in s.locals
    ensures var r := StealFrom(s, tid, cands);
            r.1.Some? ==> exists c :: c in cands && c != tid && IsHighestOf(r.1.value, s.locals[c].heap)
    decreases |cands|
  {
    if |cands| > 0 {
      var c := cands[0];
      if c == tid {
        StealFromTakesHighest(s, tid, cands[1..]);
        ExistsInTail(s, s, tid, cands);
      } else {
        var v := StealVictim(s, c);
        if |v.1| > 0 {
          StolenTopIsHighest(s, c);
        } else {
          StealFromTakesHighest(v.0, tid, cands[1..]);
          assert forall t :: t in s.locals ==> v.0.locals[t].heap == s.locals[t].heap;
          ExistsInTail(v.0, s, tid, cands);
        }
      }
    }
  }

  /** `x` is in `heap` and no element of `heap` is higher. */
  predicate IsHighestOf(x: int, heap: seq<int>)
  {
    x in heap && forall y :: y in heap ==> y <= x
  }

  /** The first element a steal yields is the highest of its victim. */
  lemma StolenTopIsHighest(s: Hpq, c: ThreadId)
    requires WellFormed(s) && c in s.locals && |StealVictim(s, c).1| > 0
    ensures IsHighestOf(StealVictim(s, c).1[0], s.locals[c].heap)
  {
    var v := StealVictim(s, c);
    TopOfTakenIsHighest(s.locals[c].heap, v.0.locals[c].heap, v.1);
  }

  /** A queue split into what is left and what is taken, with the taken
      part ordered and above the rest: the first element taken is the
      highest of the whole queue. */
  lemma TopOfTakenIsHighest(heap: seq<int>, left: seq<int>, taken: seq<int>)
    requires multiset(left) + multiset(taken) == multiset(heap)
    requires PQ.Ordered(taken, PQ.ByValue) && |taken| > 0
    requires forall x, y :: x in taken && y in left ==> y <= x
    ensures IsHighestOf(taken[0], heap)
  {
    PQ.TopIsHighest(taken, PQ.ByValue);
    assert taken[0] in multiset(heap);
    forall y | y in heap
      ensures y <= taken[0]
    {
      assert y in multiset(left) + multiset(taken);
      if y in taken {
        assert PQ.ByValue(y) <= PQ.ByValue(taken[0]);
      } else {
        assert y in left && taken[0] in taken;
      }
    }
  }

  /** A witness found among the later candidates, in a state whose queues
      hold what they held in `s`, is a witness for the whole list. */
  lemma ExistsInTail(s': Hpq, s: Hpq, tid: ThreadId, cands: seq<ThreadId>)
    requires |cands| > 0 && WellFormed(s') && WellFormed(s)
    requires forall c :: c in cands ==> c in s.locals && c in s'.locals
    requires forall c :: c in cands ==> s'.locals[c].heap == s.locals[c].heap
    requires StealFrom(s', tid, cands[1..]).1.Some? ==>
               exists c :: c in cands[1..] && c != tid && IsHighestOf(StealFrom(s', tid, cands[1..]).1.value, s'.locals[c].heap)
    ensures StealFrom(s', tid, cands[1..]).1.Some? ==>
              exists c :: c in cands && c != tid && IsHighestOf(StealFrom(s', tid, cands[1..]).1.value, s.locals[c].heap)
  {
    if StealFrom(s', tid, cands[1..]).1.Some? {
      var c :| c in cands[1..] && c != tid && IsHighestOf(StealFrom(s', tid, cands[1..]).1.value, s'.locals[c].heap);
      assert c in cands;
    }
  }

  /** `steal_from_others`, as its comments describe it. */
  function StealFromOthers(s: Hpq, tid: ThreadId): (r: (Hpq, Option<int>))
    requires WellFormed(s)
    ensures WellFormed(r.0) && s.locals.Keys <= r.0.locals.Keys <= s.locals.Keys + {tid}
    ensures r.0.localThreshold == s.localThreshold && r.0.maxSteal == s.maxSteal
  {
    if |s.nonEmpty| == 0 then (s, None) else StealFrom(s, tid, s.nonEmpty)
  }

  /** `try_pop()` by thread `tid`: the caller's local queue first, then the
      global queue, then stealing. */
  function TryPop(s: Hpq, tid: ThreadId): (r: (Hpq, Option<int>))
    requires WellFormed(s)
    ensures WellFormed(r.0) && s.locals.Keys <= r.0.locals.Keys <= s.locals.Keys + {tid}
    ensures r.0.localThreshold == s.localThreshold && r.0.maxSteal == s.maxSteal
  {
    var p1 := PopLocal(s, tid);
    if p1.1.Some? then p1
    else
      var p2 := PopGlobal(p1.0);
      if p2.1.Some? then p2 else StealFromOthers(p2.0, tid)
  }

  /** Dropping an empty local queue from the index keeps the invariant. */
  lemma InvAfterUnlist(s: Hpq, t: ThreadId)
    requires Inv(s) && t in s.locals && |s.locals[t].heap| == 0
    ensures Inv(s.(nonEmpty := RemoveFromNonEmpty(s.nonEmpty, t)))
  {
  }

  /** Popping the caller's local queue removes exactly the value returned. */
  lemma PopLocalConserves(s: Hpq, tid: ThreadId)
    requires WellFormed(s)
    ensures var r := PopLocal(s, tid);
            (r.1.None? ==> Total(r.0) == Total(s)) && (r.1.Some? ==> Total(r.0) + multiset{r.1.value} == Total(s))
  {
    if tid in s.locals && !LQ.EmptyQuick(s.locals[tid]) {
      var p := LQ.TryPop(s.locals[tid]);
      PopLocalShape(s, tid);
      var gone := if p.1.Some? then multiset{p.1.value} else multiset{};
      BagShrink(s.locals, tid, p.0, gone);
    }
  }

  lemma PopLocalShape(s: Hpq, tid: ThreadId)
    requires WellFormed(s) && tid in s.locals && !LQ.EmptyQuick(s.locals[tid])
    ensures var p := LQ.TryPop(s.locals[tid]);
            var r := PopLocal(s, tid);
            r.0.locals == s.locals[tid := p.0] && r.0.global == s.global && r.1 == p.1
  {
  }

  lemma PopLocalKeepsInv(s: Hpq, tid: ThreadId)
    requires Inv(s)
    ensures Inv(PopLocal(s, tid).0)
  {
    if tid in s.locals && !LQ.EmptyQuick(s.locals[tid]) {
      var p := LQ.TryPop(s.locals[tid]);
      var s1 := s.(locals := s.locals[tid := p.0]);
      if |p.0.heap| > 0 {
        assert tid in s.nonEmpty;
      }
      InvAfterUpdate(s, tid, p.0);
      if p.1.Some? && LQ.EmptyQuick(p.0) {
        InvAfterUnlist(s1, tid);
      }
    }
  }

  /** Under the invariant the caller's own queue is served first, by its top
      element, and when it has nothing to give the state is untouched. */
  lemma PopLocalServesOwnQueue(s: Hpq, tid: ThreadId)
    requires Inv(s)
    ensures tid in s.locals && |s.locals[tid].heap| > 0 ==>
              PopLocal(s, tid).1.Some? && PQ.IsTop(s.locals[tid].heap, PopLocal(s, tid).1.value, PQ.ByValue)
    ensures !(tid in s.locals && |s.locals[tid].heap| > 0) ==> PopLocal(s, tid) == (s, None)
  {
    if tid in s.locals {
      LQ.TryPopTakesTop(s.locals[tid]);
    }
  }

  /** Returning the first stolen element and handing the rest over loses
      nothing. */
  lemma HandOverConserves(s: Hpq, tid: ThreadId, buf: seq<int>, before: multiset<int>)
    requires WellFormed(s) && |buf| > 0 && Total(s) + multiset(buf) == before
    ensures Total(GiveRest(s, tid, buf[1..])) + multiset{buf[0]} == before
  {
    var rest := buf[1..];
    GiveRestConserves(s, tid, rest);
    PQ.MultisetCons(buf);
    Regroup(Total(GiveRest(s, tid, rest)), Total(s), multiset(rest), multiset{buf[0]}, before);
  }

  /** `a == b + rest` and `b + (first + rest) == total` give `a + first == total`. */
  lemma Regroup(a: multiset<int>, b: multiset<int>, rest: multiset<int>, first: multiset<int>, total: multiset<int>)
    requires a == b + rest && b + (first + rest) == total
    ensures a + first == total
  {
  }

  lemma {:induction false} StealFromConserves(s: Hpq, tid: ThreadId, cands: seq<ThreadId>)
    requires WellFormed(s) && forall c :: c in cands ==> c in s.locals
    ensures var r := StealFrom(s, tid, cands);
            (r.1.None? ==> Total(r.0) == Total(s)) && (r.1.Some? ==> Total(r.0) + multiset{r.1.value} == Total(s))
    decreases |cands|
  {
    if |cands| > 0 {
      var c := cands[0];
      if c == tid {
        StealFromConserves(s, tid, cands[1..]);
      } else {
        var v := StealVictim(s, c);
        StealVictimConserves(s, c);
        if |v.1| > 0 {
          HandOverConserves(v.0, tid, v.1, Total(s));
        } else {
          StealFromConserves(v.0, tid, cands[1..]);
        }
      }
    }
  }

  lemma {:induction false} StealFromKeepsInv(s: Hpq, tid: ThreadId, cands: seq<ThreadId>)
    requires Inv(s) && forall c :: c in cands ==> c in s.locals
    ensures Inv(StealFrom(s, tid, cands).0)
    decreases |cands|
  {
    if |cands| > 0 {
      var c := cands[0];
      if c == tid {
        StealFromKeepsInv(s, tid, cands[1..]);
      } else {
        var v := StealVictim(s, c);
        StealVictimKeepsInv(s, c);
        if |v.1| > 0 {
          GiveRestKeepsInv(v.0, tid, v.1[1..]);
        } else {
          StealFromKeepsInv(v.0, tid, cands[1..]);
        }
      }
    }
  }

  /** With a positive `max_steal`, stealing yields an element whenever some
      candidate other than the caller holds one. */
  lemma {:induction false} StealFromFinds(s: Hpq, tid: ThreadId, cands: seq<ThreadId>, w: ThreadId)
    requires WellFormed(s) && forall c :: c in cands ==> c in s.locals
    requires s.maxSteal > 0 && w in cands && w != tid && |s.locals[w].heap| > 0
    ensures StealFrom(s, tid, cands).1.Some?
    decreases |cands|
  {
    var c := cands[0];
    if c == tid {
      assert w in cands[1..];
      StealFromFinds(s, tid, cands[1..], w);
    } else {
      var v := StealVictim(s, c);
      if |v.1| == 0 {
        assert w != c && w in cands[1..];
        StealFromFinds(v.0, tid, cands[1..], w);
      }
    }
  }

  /** Stealing never takes from the caller's own queue. */
  lemma {:induction false} StealFromSparesCaller(s: Hpq, tid: ThreadId, cands: seq<ThreadId>)
    requires WellFormed(s) && forall c :: c in cands ==> c in s.locals
    requires tid in s.locals
    ensures multiset(s.locals[tid].heap) <= multiset(StealFrom(s, tid, cands).0.locals[tid].heap)
    decreases |cands|
  {
    if |cands| > 0 {
      var c := cands[0];
      if c == tid {
        StealFromSparesCaller(s, tid, cands[1..]);
      } else {
        var v := StealVictim(s, c);
        if |v.1| > 0 {
          GiveRestFrames(v.0, tid, v.1[1..]);
        } else {
          StealFromSparesCaller(v.0, tid, cands[1..]);
        }
      }
    }
  }

  lemma StealFromOthersConserves(s: Hpq, tid: ThreadId)
    requires WellFormed(s)
    ensures var r := StealFromOthers(s, tid);
            (r.1.None? ==> Total(r.0) == Total(s)) && (r.1.Some? ==> Total(r.0) + multiset{r.1.value} == Total(s))
  {
    if |s.nonEmpty| > 0 {
      StealFromConserves(s, tid, s.nonEmpty);
    }
  }

  lemma StealFromOthersKeepsInv(s: Hpq, tid: ThreadId)
    requires Inv(s)
    ensures Inv(StealFromOthers(s, tid).0)
  {
    if |s.nonEmpty| > 0 {
      StealFromKeepsInv(s, tid, s.nonEmpty);
    }
  }

  /** `try_pop` removes exactly the value it returns, and nothing when it
      returns none. */
  lemma TryPopConserves(s: Hpq, tid: ThreadId)
    requires WellFormed(s)
    ensures var r := TryPop(s, tid);
            (r.1.None? ==> Total(r.0) == Total(s)) && (r.1.Some? ==> Total(r.0) + multiset{r.1.value} == Total(s))
  {
    var p1 := PopLocal(s, tid);
    PopLocalConserves(s, tid);
    if p1.1.None? {
      var p2 := PopGlobal(p1.0);
      if p2.1.None? {
        StealFromOthersConserves(p2.0, tid);
      }
    }
  }

  lemma TryPopKeepsInv(s: Hpq, tid: ThreadId)
    requires Inv(s)
    ensures Inv(TryPop(s, tid).0)
  {
    var p1 := PopLocal(s, tid);
    PopLocalKeepsInv(s, tid);
    if p1.1.None? {
      var p2 := PopGlobal(p1.0);
      if p2.1.None? {
        StealFromOthersKeepsInv(p2.0, tid);
      }
    }
  }

  /** The caller's own queue is served first, by its highest element. */
  lemma TryPopServesLocalFirst(s: Hpq, tid: ThreadId)
    requires Inv(s) && tid in s.locals && |s.locals[tid].heap| > 0
    ensures TryPop(s, tid).1.Some?
    ensures PQ.IsTop(s.locals[tid].heap, TryPop(s, tid).1.value, PQ.ByValue)
  {
    PopLocalServesOwnQueue(s, tid);
  }

  /** With nothing in its own queue, the caller gets the global maximum. */
  lemma TryPopServesGlobalNext(s: Hpq, tid: ThreadId)
    requires Inv(s) && !(tid in s.locals && |s.locals[tid].heap| > 0) && |s.global| > 0
    ensures TryPop(s, tid).1 == Some(s.global[0])
    ensures PQ.IsTop(s.global, s.global[0], PQ.ByValue)
  {
    PopLocalServesOwnQueue(s, tid);
    PQ.TopIsHighest(s.global, PQ.ByValue);
  }

  /** Only with both of those empty does the caller steal. */
  lemma TryPopStealsLast(s: Hpq, tid: ThreadId)
    requires Inv(s) && !(tid in s.locals && |s.locals[tid].heap| > 0) && |s.global| == 0
    ensures TryPop(s, tid) == StealFromOthers(s, tid)
  {
    PopLocalServesOwnQueue(s, tid);
  }

  /** Stealing leaves the caller's own elements where they are. */
  lemma StealFromOthersSparesCaller(s: Hpq, tid: ThreadId)
    requires WellFormed(s) && tid in s.locals
    ensures multiset(s.locals[tid].heap) <= multiset(StealFromOthers(s, tid).0.locals[tid].heap)
  {
    if |s.nonEmpty| > 0 {
      StealFromSparesCaller(s, tid, s.nonEmpty);
    }
  }

  /** With a positive `max_steal`, `try_pop` returns none exactly when the
      structure holds nothing. */
  lemma TryPopNoneIffEmpty(s: Hpq, tid: ThreadId)
    requires Inv(s) && s.maxSteal > 0
    ensures TryPop(s, tid).1.None? <==> Total(s) == multiset{}
  {
    TryPopConserves(s, tid);
    if Total(s) != multiset{} && !(tid in s.locals && |s.locals[tid].heap| > 0) && |s.global| == 0 {
      TryPopStealsLast(s, tid);
      assert Bag(s.locals) != multiset{};
      BagEmpty(s.locals);
      var w :| w in s.locals && |s.locals[w].heap| > 0;
      assert w != tid && w in s.nonEmpty;
      StealFromFinds(s, tid, s.nonEmpty, w);
    } else if Total(s) != multiset{} && !(tid in s.locals && |s.locals[tid].heap| > 0) {
      TryPopServesGlobalNext(s, tid);
    } else if Total(s) != multiset{} {
      TryPopServesLocalFirst(s, tid);
    }
  }

  /** `wait_and_pop()`, for a call that returns: some element is available
      to the caller. */
  function WaitAndPop(s: Hpq, tid: ThreadId): (r: (Hpq, int))
    requires Inv(s) && s.maxSteal > 0 && Total(s) != multiset{}
    ensures Inv(r.0) && Total(r.0) + multiset{r.1} == Total(s)
  {
    TryPopNoneIffEmpty(s, tid);
    TryPopConserves(s, tid);
    TryPopKeepsInv(s, tid);
    var p := TryPop(s, tid);
    (p.0, p.1.value)
  }

  /** `empty()` as seen by thread `tid`: its own hint, the global queue and
      the index. */
  predicate Empty(s: Hpq, tid: ThreadId)
  {
    && !(tid in s.locals && !LQ.EmptyQuick(s.locals[tid]))
    && |s.global| == 0
    && |s.nonEmpty| == 0
  }

  /** Under the invariant `empty()` holds iff nothing is held and the index
      is clear. The index may still list a drained queue (the steal path
      lists a caller that received nothing), so an empty structure can
      report non-empty until that entry is dropped. */
  lemma EmptyReportsContents(s: Hpq, tid: ThreadId)
    requires Inv(s)
    ensures Empty(s, tid) <==> Total(s) == multiset{} && |s.nonEmpty| == 0
  {
    BagEmpty(s.locals);
    if Empty(s, tid) {
      forall t | t in s.locals ensures |s.locals[t].heap| == 0 {
        if |s.locals[t].heap| > 0 {
          assert t in s.nonEmpty;
        }
      }
    }
    if Total(s) == multiset{} {
      assert multiset(s.global) == multiset{};
    }
  }

  // ---------------------------------------------------------------------
  // Destruction
  // ---------------------------------------------------------------------

  /** The destructor run by thread `tid`: its local queue is merged into the
      global queue, then it leaves the index and the registry. */
  function Teardown(s: Hpq, tid: ThreadId): (r: Hpq)
    requires WellFormed(s)
    ensures WellFormed(r) && r.locals.Keys == s.locals.Keys - {tid} && tid !in r.nonEmpty
    ensures forall t :: t in r.locals ==> r.locals[t] == s.locals[t]
  {
    if tid in s.locals then
      var m := LQ.MergeTo(s.locals[tid], s.global);
      s.(locals := s.locals - {tid}, global := m.1, nonEmpty := RemoveFromNonEmpty(s.nonEmpty, tid))
    else s
  }

  /** Teardown moves the caller's elements into the global queue and loses
      none. */
  lemma TeardownConserves(s: Hpq, tid: ThreadId)
    requires WellFormed(s)
    ensures Total(Teardown(s, tid)) == Total(s)
    ensures tid in s.locals ==> multiset(Teardown(s, tid).global) == multiset(s.global) + multiset(s.locals[tid].heap)
  {
    if tid in s.locals {
      BagRemove(s.locals, tid);
    }
  }

  lemma TeardownKeepsInv(s: Hpq, tid: ThreadId)
    requires Inv(s)
    ensures Inv(Teardown(s, tid))
  {
  }
}
