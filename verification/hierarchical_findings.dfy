/** The stealing path of the hierarchical priority queue as the code is
    written, next to the corrected path of `HierarchicalQueue`.

    Two slips sit in `steal_from_others`. The count returned by `steal` goes
    into a second variable declared in an inner block, so the count the
    function tests is always zero: it never returns what it stole, and the
    buffer holding the stolen elements is destroyed on return. Behind that
    dead branch, the hand-over of the remainder pushes straight into the
    caller's heap, so the caller's hint is not raised, and a caller without
    a local queue drops the remainder. */
module HierarchicalFindings {
  import opened Wrappers
  import PQ = PriorityQueue
  import LQ = ThreadLocalQueue
  import opened HierarchicalQueue

  /** The loop of `steal_from_others` as written: every candidate other than
      the caller is stolen from into one shared buffer `buf`, and since the
      count it checks is always zero the loop never stops early. */
  function StealAllAsWritten(s: Hpq, tid: ThreadId, cands: seq<ThreadId>, buf: seq<int>): (r: (Hpq, seq<int>))
    requires WellFormed(s) && PQ.Ordered(buf, PQ.ByValue)
    requires forall c :: c in cands ==> c in s.locals
    ensures WellFormed(r.0) && r.0.locals.Keys == s.locals.Keys
    ensures r.0.global == s.global && r.0.nonEmpty == s.nonEmpty
    ensures r.0.localThreshold == s.localThreshold && r.0.maxSteal == s.maxSteal
    ensures PQ.Ordered(r.1, PQ.ByValue) && |r.1| >= |buf|
    decreases |cands|
  {
    if |cands| == 0 then (s, buf)
    else
      var c := cands[0];
      if c == tid then StealAllAsWritten(s, tid, cands[1..], buf)
      else
        var st := LQ.Steal(s.locals[c], buf, s.maxSteal);
        WellFormedAfterUpdate(s, c, st.0);
        StealAllAsWritten(s.(locals := s.locals[c := st.0]), tid, cands[1..], st.1)
  }

  /** Whatever leaves the local queues ends up in the buffer. */
  lemma {:induction false} StealAllAsWrittenConserves(s: Hpq, tid: ThreadId, cands: seq<ThreadId>, buf: seq<int>)
    requires WellFormed(s) && PQ.Ordered(buf, PQ.ByValue)
    requires forall c :: c in cands ==> c in s.locals
    ensures var r := StealAllAsWritten(s, tid, cands, buf);
            Total(r.0) + multiset(r.1) == Total(s) + multiset(buf)
    decreases |cands|
  {
    if |cands| > 0 {
      var c := cands[0];
      if c == tid {
        StealAllAsWrittenConserves(s, tid, cands[1..], buf);
      } else {
        var st := LQ.Steal(s.locals[c], buf, s.maxSteal);
        var s1 := s.(locals := s.locals[c := st.0]);
        WellFormedAfterUpdate(s, c, st.0);
        StealAllAsWrittenConserves(s1, tid, cands[1..], st.1);
        StealStepConserves(s, c, st.0, buf, st.1);
      }
    }
  }

  lemma StealStepConserves(s: Hpq, c: ThreadId, q: LQ.LocalQueue, buf: seq<int>, buf': seq<int>)
    requires c in s.locals
    requires multiset(q.heap) + multiset(buf') == multiset(s.locals[c].heap) + multiset(buf)
    ensures Total(s.(locals := s.locals[c := q])) + multiset(buf') == Total(s) + multiset(buf)
  {
    BagUpdate(s.locals, c, q);
    var rest := multiset(s.global) + Bag(s.locals - {c});
    assert Total(s.(locals := s.locals[c := q])) == rest + multiset(q.heap);
    assert Total(s) == rest + multiset(s.locals[c].heap);
    calc {
      Total(s.(locals := s.locals[c := q])) + multiset(buf');
      rest + (multiset(q.heap) + multiset(buf'));
      rest + (multiset(s.locals[c].heap) + multiset(buf));
      Total(s) + multiset(buf);
    }
  }

  /** With a single candidate other than the caller, the loop is one steal. */
  lemma StealOneCandidate(s: Hpq, tid: ThreadId, c: ThreadId, buf: seq<int>)
    requires WellFormed(s) && PQ.Ordered(buf, PQ.ByValue) && c in s.locals && c != tid
    ensures StealAllAsWritten(s, tid, [c], buf).1 == LQ.Steal(s.locals[c], buf, s.maxSteal).1
  {
    assert [c][0] == c && [c][1..] == [];
  }

  /** `steal_from_others` as written: it always yields nothing. */
  function StealFromOthersAsWritten(s: Hpq, tid: ThreadId): (r: (Hpq, Option<int>))
    requires WellFormed(s)
    ensures WellFormed(r.0) && r.0.locals.Keys == s.locals.Keys && r.0.nonEmpty == s.nonEmpty
    ensures r.1.None?
  {
    if |s.nonEmpty| == 0 then (s, None)
    else (StealAllAsWritten(s, tid, s.nonEmpty, []).0, None)
  }

  /** `try_pop` as written. */
  function TryPopAsWritten(s: Hpq, tid: ThreadId): (r: (Hpq, Option<int>))
    requires WellFormed(s)
    ensures WellFormed(r.0)
  {
    var p1 := PopLocal(s, tid);
    if p1.1.Some? then p1
    else
      var p2 := PopGlobal(p1.0);
      if p2.1.Some? then p2 else StealFromOthersAsWritten(p2.0, tid)
  }

  /** A caller with no local queue, facing an empty global queue, goes
      straight to stealing. */
  lemma TryPopAsWrittenSteals(s: Hpq, tid: ThreadId)
    requires WellFormed(s) && tid !in s.locals && |s.global| == 0 && |s.nonEmpty| > 0
    ensures TryPopAsWritten(s, tid) == (StealAllAsWritten(s, tid, s.nonEmpty, []).0, None)
  {
  }

  /** Thread `t` holds one element `v` in its local queue, listed in the
      index: the state after its first push. */
  function OneLocal(t: ThreadId, v: int): Hpq
  {
    Hpq(map[t := LQ.LocalQueue([v], true, t)], [], [t], 3, 2)
  }

  lemma OneLocalHolds(t: ThreadId, v: int)
    ensures Inv(OneLocal(t, v)) && Total(OneLocal(t, v)) == multiset{v}
  {
    var s := OneLocal(t, v);
    BagAdd(map[], t, s.locals[t]);
    BagEmpty(map[]);
  }

  /** Counterexample to the code as written: another thread `u` calling
      `try_pop` on that state gets nothing, and the element is gone from the
      structure. */
  lemma StolenElementIsLost(t: ThreadId, u: ThreadId, v: int)
    requires t != u
    ensures var s := OneLocal(t, v);
            && Total(s) == multiset{v}
            && TryPopAsWritten(s, u).1 == None
            && Total(TryPopAsWritten(s, u).0) == multiset{}
  {
    var s := OneLocal(t, v);
    OneLocalHolds(t, v);
    var r := StealAllAsWritten(s, u, [t], []);
    TryPopAsWrittenSteals(s, u);
    assert |r.1| >= 1 by {
      StealOneCandidate(s, u, t, []);
    }
    StealAllAsWrittenConserves(s, u, [t], []);
    assert |Total(r.0) + multiset(r.1)| == 1;
  }

  /** On the same state the corrected `try_pop` hands the element over. */
  lemma StolenElementIsReturned(t: ThreadId, u: ThreadId, v: int)
    requires t != u
    ensures TryPop(OneLocal(t, v), u).1 == Some(v)
  {
    var s := OneLocal(t, v);
    OneLocalHolds(t, v);
    TryPopNoneIffEmpty(s, u);
    TryPopConserves(s, u);
    assert TryPop(s, u).1.value in multiset{v};
  }

  /** The hand-over of the remainder as written, with the count fixed: the
      elements are pushed straight into the caller's heap, leaving its hint
      as it was, and the caller is listed when its heap holds just those
      elements. A caller without a local queue drops them. */
  function GiveRestAsWritten(s: Hpq, tid: ThreadId, rest: seq<int>): (r: Hpq)
    requires WellFormed(s)
    ensures WellFormed(r) && r.locals.Keys == s.locals.Keys && r.global == s.global
  {
    if tid in s.locals then
      var q := s.locals[tid];
      var q' := q.(heap := PQ.InsertAll(q.heap, rest, PQ.ByValue));
      WellFormedAfterUpdate(s, tid, q');
      var s1 := s.(locals := s.locals[tid := q']);
      if |q'.heap| == |rest| then s1.(nonEmpty := AddToNonEmpty(s1.nonEmpty, tid)) else s1
    else s
  }

  /** Counterexample: a registered caller with an empty local queue receives
      one element, but its hint stays clear, so its own `try_pop` skips the
      local queue and reports nothing although the element is there. */
  lemma HandOverHidesElement(t: ThreadId, a: int)
    ensures var s := Hpq(map[t := LQ.New(t)], [], [], 3, 2);
            var r := GiveRestAsWritten(s, t, [a]);
            && Inv(s)
            && r.locals[t].heap == [a] && !Inv(r)
            && PopLocal(r, t).1 == None
  {
    assert [] + [a] == [a];
    PQ.InsertAllInOrder([], [a], PQ.ByValue);
  }

  /** The corrected hand-over keeps the hint exact. */
  lemma HandOverRaisesHint(t: ThreadId, a: int)
    ensures Inv(GiveRest(Hpq(map[t := LQ.New(t)], [], [], 3, 2), t, [a]))
  {
    GiveRestKeepsInv(Hpq(map[t := LQ.New(t)], [], [], 3, 2), t, [a]);
  }

  /** Counterexample: a caller that never pushed has no local queue, and the
      remainder handed to it disappears. */
  lemma HandOverDropsElement(t: ThreadId, u: ThreadId, v: int, a: int)
    requires t != u
    ensures Total(OneLocal(t, v)) == multiset{v}
    ensures GiveRestAsWritten(OneLocal(t, v), u, [a]) == OneLocal(t, v)
  {
    OneLocalHolds(t, v);
  }

  /** The corrected hand-over keeps it. */
  lemma HandOverKeepsElement(t: ThreadId, u: ThreadId, v: int, a: int)
    ensures Total(GiveRest(OneLocal(t, v), u, [a])) == multiset{v, a}
  {
    OneLocalHolds(t, v);
    GiveRestConserves(OneLocal(t, v), u, [a]);
  }
}
