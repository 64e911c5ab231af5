/** The reference every first-in first-out queue of the model is compared
    with: a plain sequence, oldest first, and the histories of single-thread
    operations run against it. */
module FifoSpec {
  import opened Wrappers

  /** A single-thread history: each operation and what it reports. A push
      into a bounded queue may be refused. */
  datatype Op = PushOp(v: int) | PopOp | SizeOp
  datatype Obs = Pushed | Refused | Popped(value: Option<int>) | Sized(count: nat)

  /** One operation against a plain first-in first-out sequence. */
  function StepFifo(c: seq<int>, op: Op): (r: (seq<int>, Obs))
  {
    match op
    case PushOp(v) => (c + [v], Pushed)
    case PopOp => if |c| == 0 then (c, Popped(None)) else (c[1..], Popped(Some(c[0])))
    case SizeOp => (c, Sized(|c|))
  }

  /** A history against a plain first-in first-out sequence. */
  function RunFifo(c: seq<int>, ops: seq<Op>): (r: (seq<int>, seq<Obs>))
    decreases |ops|
  {
    if |ops| == 0 then (c, [])
    else
      var step := StepFifo(c, ops[0]);
      var rest := RunFifo(step.0, ops[1..]);
      (rest.0, [step.1] + rest.1)
  }

  lemma RunFifoCons(c: seq<int>, op: Op, ops: seq<Op>)
    ensures var step := StepFifo(c, op);
            RunFifo(c, [op] + ops) == (RunFifo(step.0, ops).0, [step.1] + RunFifo(step.0, ops).1)
  {
    assert ([op] + ops)[0] == op && ([op] + ops)[1..] == ops;
  }

  lemma RunFifoOne(c: seq<int>, op: Op)
    ensures RunFifo(c, [op]).0 == StepFifo(c, op).0
    ensures RunFifo(c, [op]).1 == [StepFifo(c, op).1]
  {
    assert [op][1..] == [];
    assert [StepFifo(c, op).1] + [] == [StepFifo(c, op).1];
  }

  /** Running two histories in turn is running their concatenation. */
  lemma {:induction false} RunFifoAppend(c: seq<int>, xs: seq<Op>, ys: seq<Op>)
    ensures RunFifo(c, xs + ys).0 == RunFifo(RunFifo(c, xs).0, ys).0
    ensures RunFifo(c, xs + ys).1 == RunFifo(c, xs).1 + RunFifo(RunFifo(c, xs).0, ys).1
    decreases |xs|
  {
    if |xs| == 0 {
      assert xs + ys == ys;
    } else {
      var step := StepFifo(c, xs[0]);
      assert (xs + ys)[0] == xs[0] && (xs + ys)[1..] == xs[1..] + ys;
      RunFifoAppend(step.0, xs[1..], ys);
    }
  }
}
