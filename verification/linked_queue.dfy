/** The two linked-list queues of `threadsafe_linked_queue.h`, run by one
    thread. Both keep a dummy head node that owns the chain of data nodes
    through `next` pointers, and a raw `tail_` pointer to the last node.

    Memory is a sequence of nodes indexed by address; the dummy is node 0
    and a new node takes the next free address. Freeing a node only makes
    it unreachable: its slot keeps its last contents, so a write through a
    stale `tail_` lands in a node nobody can reach. The mutexes and the
    condition variable are left out. */
module LinkedQueue {
  import opened Wrappers
  import opened FifoSpec

  type Addr = nat

  datatype Node = Node(data: int, next: Option<Addr>)

  /** `head_` is always node 0; `tail_` is an address. */
  datatype Queue = Queue(nodes: seq<Node>, tail: Addr)

  /** Every `next` pointer is to an allocated slot. */
  predicate InRange(nodes: seq<Node>)
  {
    forall a :: 0 <= a < |nodes| && nodes[a].next.Some? ==> nodes[a].next.value < |nodes|
  }

  /** Every pointer in the structure is to an allocated slot. */
  predicate Allocated(q: Queue)
  {
    |q.nodes| >= 1 && q.tail < |q.nodes| && InRange(q.nodes)
  }

  /** The addresses reached from node `from` by following `next`, at most
      `fuel` steps. */
  function Chain(nodes: seq<Node>, from: Addr, fuel: nat): (c: seq<Addr>)
    requires InRange(nodes) && from < |nodes|
    ensures |c| <= fuel
    ensures forall i :: 0 <= i < |c| ==> c[i] < |nodes|
    decreases fuel
  {
    if fuel == 0 then []
    else match nodes[from].next
      case None => []
      case Some(n) => [n] + Chain(nodes, n, fuel - 1)
  }

  /** The dummy followed by the nodes reachable from it. */
  function Path(q: Queue): (p: seq<Addr>)
    requires Allocated(q)
    ensures |p| >= 1 && p[0] == 0
  {
    [0] + Chain(q.nodes, 0, |q.nodes|)
  }

  /** `p` is a linked list from the dummy: each node points to the next,
      the last has no successor, and no node repeats. */
  predicate LinkedPath(nodes: seq<Node>, p: seq<Addr>)
  {
    && 1 <= |p| <= |nodes|
    && p[0] == 0
    && (forall i :: 0 <= i < |p| ==> p[i] < |nodes|)
    && (forall i :: 0 <= i < |p| - 1 ==> nodes[p[i]].next == Some(p[i + 1]))
    && nodes[p[|p| - 1]].next == None
    && (forall i, j :: 0 <= i < j < |p| ==> p[i] != p[j])
  }

  /** The representation invariant: the nodes reachable from the dummy form
      a list, and `tail_` is its last node. */
  predicate Valid(q: Queue)
  {
    && Allocated(q)
    && LinkedPath(q.nodes, Path(q))
    && q.tail == Path(q)[|Path(q)| - 1]
  }

  /** The data of the listed nodes, in order. */
  function Values(nodes: seq<Node>, p: seq<Addr>): (vs: seq<int>)
    requires forall i :: 0 <= i < |p| ==> p[i] < |nodes|
    ensures |vs| == |p|
  {
    seq(|p|, i requires 0 <= i < |p| => nodes[p[i]].data)
  }

  /** The queue's contents, oldest first. */
  function Contents(q: Queue): seq<int>
    requires Valid(q)
  {
    Values(q.nodes, Path(q)[1..])
  }

  /** Following the pointers of a linked list walks exactly that list. */
  lemma {:induction false} PathIsChain(nodes: seq<Node>, p: seq<Addr>, k: nat, fuel: nat)
    requires InRange(nodes) && LinkedPath(nodes, p) && k < |p| && fuel >= |p| - 1 - k
    ensures Chain(nodes, p[k], fuel) == p[k + 1..]
    decreases |p| - k
  {
    if k < |p| - 1 {
      PathIsChain(nodes, p, k + 1, fuel - 1);
      assert p[k + 1..] == [p[k + 1]] + p[k + 2..];
    }
  }

  /** A queue is valid as soon as some linked list from the dummy ends at
      `tail_`; that list is then the reachable one. */
  lemma ValidFromPath(q: Queue, p: seq<Addr>)
    requires Allocated(q) && LinkedPath(q.nodes, p) && q.tail == p[|p| - 1]
    ensures Valid(q) && Path(q) == p
  {
    PathIsChain(q.nodes, p, 0, |q.nodes|);
    assert [0] + p[1..] == p;
  }

  /** The constructor: a lone dummy node, with `tail_` pointing at it. */
  function New(): (q: Queue)
    ensures Valid(q) && Contents(q) == []
  {
    var q := Queue([Node(0, None)], 0);
    ValidFromPath(q, [0]);
    q
  }

  /** The memory after `push` links a new node, at the next free address,
      after node `t`. */
  function Link(nodes: seq<Node>, t: Addr, v: int): (r: seq<Node>)
    requires InRange(nodes) && t < |nodes|
    ensures InRange(r) && |r| == |nodes| + 1
  {
    nodes[t := nodes[t].(next := Some(|nodes|))] + [Node(v, None)]
  }

  /** `push`: a new node is linked after `tail_`, which then moves to it. */
  function Push(q: Queue, v: int): (r: Queue)
    requires Allocated(q)
    ensures Allocated(r)
    ensures Valid(q) ==> Valid(r) && Contents(r) == Contents(q) + [v]
  {
    var r := Queue(Link(q.nodes, q.tail, v), |q.nodes|);
    if Valid(q) then PushAppends(q, v, r); r else r
  }

  /** Linking after the last node of a list extends the list. */
  lemma LinkExtends(nodes: seq<Node>, p: seq<Addr>, v: int)
    requires InRange(nodes) && LinkedPath(nodes, p)
    ensures LinkedPath(Link(nodes, p[|p| - 1], v), p + [|nodes|])
  {
    var t := p[|p| - 1];
    var m := Link(nodes, t, v);
    var p' := p + [|nodes|];
    forall i | 0 <= i < |p'| - 1
      ensures m[p'[i]].next == Some(p'[i + 1])
    {
      if i < |p| - 1 {
        assert p'[i] == p[i] && p'[i + 1] == p[i + 1] && p[i] != t;
      }
    }
    forall i, j | 0 <= i < j < |p'|
      ensures p'[i] != p'[j]
    {
      if j < |p| {
        assert p'[i] == p[i] && p'[j] == p[j];
      }
    }
  }

  /** Linking changes no stored value and adds `v`. */
  lemma LinkKeepsValues(nodes: seq<Node>, t: Addr, ids: seq<Addr>, v: int)
    requires InRange(nodes) && t < |nodes|
    requires forall i :: 0 <= i < |ids| ==> ids[i] < |nodes|
    ensures Values(Link(nodes, t, v), ids + [|nodes|]) == Values(nodes, ids) + [v]
  {
  }

  lemma PushAppends(q: Queue, v: int, r: Queue)
    requires Valid(q)
    requires r == Queue(Link(q.nodes, q.tail, v), |q.nodes|)
    ensures Valid(r) && Contents(r) == Contents(q) + [v]
  {
    var p := Path(q);
    PushExtendsPath(q, v, r);
    assert Path(r)[1..] == p[1..] + [|q.nodes|];
    LinkKeepsValues(q.nodes, q.tail, p[1..], v);
  }

  /** After `push` the new node ends the reachable list. */
  lemma PushExtendsPath(q: Queue, v: int, r: Queue)
    requires Valid(q)
    requires r == Queue(Link(q.nodes, q.tail, v), |q.nodes|)
    ensures Valid(r) && Path(r) == Path(q) + [|q.nodes|]
  {
    LinkExtends(q.nodes, Path(q), v);
    ValidFromPath(r, Path(q) + [|q.nodes|]);
  }

  /** `empty()`: the dummy has no successor. */
  predicate Empty(q: Queue)
    requires Allocated(q)
  {
    q.nodes[0].next.None?
  }

  /** `size()`: the number of nodes after the dummy. */
  function Size(q: Queue): nat
    requires Allocated(q)
  {
    |Path(q)| - 1
  }

  /** `empty()` and `size()` report the contents. */
  lemma EmptyReportsContents(q: Queue)
    requires Valid(q)
    ensures Empty(q) <==> Contents(q) == []
    ensures Size(q) == |Contents(q)|
  {
  }

  /** The memory after the first data node is unlinked from the dummy. */
  function Unlink(nodes: seq<Node>): (r: seq<Node>)
    requires |nodes| >= 1 && InRange(nodes) && nodes[0].next.Some?
    ensures InRange(r) && |r| == |nodes|
  {
    nodes[0 := nodes[0].(next := nodes[nodes[0].next.value].next)]
  }

  /** `pop_head` of the double-mutex queue, which is also the body of the
      first queue's `try_pop()`: on an empty queue nothing; otherwise the
      first data node is unlinked from the dummy, and `tail_` returns to the
      dummy when that leaves the queue empty. The unlinked node's address is
      returned. */
  function PopHead(q: Queue): (r: (Queue, Option<Addr>))
    requires Allocated(q)
    ensures Allocated(r.0)
    ensures r.1.None? <==> Empty(q)
    ensures r.1.None? ==> r.0 == q
    ensures r.1.Some? ==> r.1.value < |q.nodes|
  {
    match q.nodes[0].next
    case None => (q, None)
    case Some(h) =>
      var m := Unlink(q.nodes);
      (Queue(m, if m[0].next.None? then 0 else q.tail), Some(h))
  }

  /** `try_pop()` of both queues, and `try_pop(T&)` of the double-mutex
      queue: the data of the node `pop_head` unlinks. */
  function TryPop(q: Queue): (r: (Queue, Option<int>))
    requires Allocated(q)
    ensures Allocated(r.0)
    ensures r.1.None? <==> Empty(q)
    ensures r.1.None? ==> r.0 == q
  {
    var p := PopHead(q);
    (p.0, if p.1.None? then None else Some(q.nodes[p.1.value].data))
  }

  /** Unlinking the first data node of a list leaves the rest a list. */
  lemma UnlinkShortens(nodes: seq<Node>, p: seq<Addr>)
    requires InRange(nodes) && LinkedPath(nodes, p) && |p| >= 2
    requires nodes[0].next == Some(p[1])
    ensures LinkedPath(Unlink(nodes), [0] + p[2..])
    ensures |p| == 2 ==> Unlink(nodes)[0].next.None?
    ensures |p| > 2 ==> Unlink(nodes)[0].next.Some? && ([0] + p[2..])[|p| - 2] == p[|p| - 1]
  {
    var m := Unlink(nodes);
    var p' := [0] + p[2..];
    forall i | 0 <= i < |p'| - 1
      ensures m[p'[i]].next == Some(p'[i + 1])
    {
      if i > 0 {
        assert p'[i] == p[i + 1] && p'[i + 1] == p[i + 2] && p[i + 1] != p[0];
      }
    }
    if |p| > 2 {
      assert nodes[p[1]].next == Some(p[2]);
      assert p'[|p'| - 1] == p[|p| - 1] && p[|p| - 1] != p[0];
    }
    forall i, j | 0 <= i < j < |p'|
      ensures p'[i] != p'[j]
    {
      assert p'[j] == p[j + 1];
      if i > 0 {
        assert p'[i] == p[i + 1];
      }
    }
  }

  /** Unlinking changes no stored value. */
  lemma UnlinkKeepsValues(nodes: seq<Node>, ids: seq<Addr>)
    requires |nodes| >= 1 && InRange(nodes) && nodes[0].next.Some?
    requires forall i :: 0 <= i < |ids| ==> ids[i] < |nodes|
    ensures Values(Unlink(nodes), ids) == Values(nodes, ids)
  {
  }

  /** On a valid, non-empty queue `try_pop` leaves the list without its
      first data node, with `tail_` on the last node of what remains. */
  lemma PopHeadShortens(q: Queue)
    requires Valid(q) && !Empty(q)
    ensures Valid(PopHead(q).0) && Path(PopHead(q).0) == [0] + Path(q)[2..]
  {
    var p := Path(q);
    assert q.nodes[0].next == Some(p[1]);
    UnlinkShortens(q.nodes, p);
    ValidFromPath(PopHead(q).0, [0] + p[2..]);
  }

  /** On a valid queue `try_pop` yields the oldest value and keeps the
      invariant, `tail_` included. */
  lemma TryPopTakesOldest(q: Queue)
    requires Valid(q)
    ensures Valid(TryPop(q).0)
    ensures TryPop(q).1.None? <==> Contents(q) == []
    ensures TryPop(q).1.Some? ==> Contents(q) == [TryPop(q).1.value] + Contents(TryPop(q).0)
  {
    if !Empty(q) {
      PopKeepsRest(q);
      ContentsCons(q);
    }
  }

  /** What `pop_head` leaves holds the data nodes after the first. */
  lemma PopKeepsRest(q: Queue)
    requires Valid(q) && !Empty(q)
    ensures Valid(PopHead(q).0) && Contents(PopHead(q).0) == Values(q.nodes, Path(q)[2..])
  {
    var p := Path(q);
    PopHeadShortens(q);
    assert ([0] + p[2..])[1..] == p[2..];
    UnlinkKeepsValues(q.nodes, p[2..]);
  }

  /** A non-empty queue holds the data of the dummy's successor, then the
      rest. */
  lemma ContentsCons(q: Queue)
    requires Valid(q) && !Empty(q)
    ensures q.nodes[0].next == Some(Path(q)[1])
    ensures Contents(q) == [q.nodes[Path(q)[1]].data] + Values(q.nodes, Path(q)[2..])
  {
    var p := Path(q);
    assert q.nodes[0].next == Some(p[1]);
    assert p[1..] == [p[1]] + p[2..];
  }

  /** `try_pop(T&)` with `tail_` reset as in `try_pop()`: on an empty queue
      it fails and leaves `value` as it was; otherwise `value` receives the
      oldest element. */
  function TryPopInto(q: Queue, value: int): (r: (Queue, bool, int))
    requires Allocated(q)
    ensures Allocated(r.0)
    ensures !r.1 ==> r.0 == q && r.2 == value
    ensures Valid(q) ==> Valid(r.0) && (r.1 <==> Contents(q) != [])
    ensures Valid(q) && r.1 ==> Contents(q) == [r.2] + Contents(r.0)
  {
    var p := TryPop(q);
    var r := if p.1.None? then (p.0, false, value) else (p.0, true, p.1.value);
    if Valid(q) then TryPopTakesOldest(q); r else r
  }

  /** One operation of a history, popping with `try_pop()`. */
  function Step(q: Queue, op: Op): (r: (Queue, Obs))
    requires Allocated(q)
    ensures Allocated(r.0)
  {
    match op
    case PushOp(v) => (Push(q, v), Pushed)
    case PopOp => var p := TryPop(q); (p.0, Popped(p.1))
    case SizeOp => (q, Sized(Size(q)))
  }

  function Run(q: Queue, ops: seq<Op>): (r: (Queue, seq<Obs>))
    requires Allocated(q)
    ensures |r.1| == |ops|
    decreases |ops|
  {
    if |ops| == 0 then (q, [])
    else
      var step := Step(q, ops[0]);
      var rest := Run(step.0, ops[1..]);
      (rest.0, [step.1] + rest.1)
  }

  /** Either linked queue behaves as a plain first-in first-out sequence on
      every single-thread history. */
  lemma {:induction false} RunRefinesFifo(q: Queue, ops: seq<Op>)
    requires Valid(q)
    ensures Valid(Run(q, ops).0)
    ensures Run(q, ops).1 == RunFifo(Contents(q), ops).1
    ensures Contents(Run(q, ops).0) == RunFifo(Contents(q), ops).0
    decreases |ops|
  {
    if |ops| > 0 {
      match ops[0]
      case PushOp(v) =>
        RunRefinesFifo(Push(q, v), ops[1..]);
      case PopOp =>
        TryPopTakesOldest(q);
        RunRefinesFifo(TryPop(q).0, ops[1..]);
      case SizeOp =>
        RunRefinesFifo(q, ops[1..]);
    }
  }
}
