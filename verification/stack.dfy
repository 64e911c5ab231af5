/** `thread_safe_stack`: a `std::stack` of integers behind a shared mutex.
    The lock is left out; every operation is one state transition. */
module Stack {
  import opened Wrappers

  /** `stack_`, bottom first: the top is the last element. */
  datatype Stack = Stack(items: seq<int>)

  function New(): (s: Stack)
    ensures |s.items| == 0
  {
    Stack([])
  }

  /** `push`: the value becomes the top. */
  function Push(s: Stack, v: int): (r: Stack)
    ensures |r.items| == |s.items| + 1 && r.items[|s.items|] == v
    ensures r.items[..|s.items|] == s.items
  {
    Stack(s.items + [v])
  }

  /** `pop`, both overloads: `stack_empty` is thrown on an empty stack,
      which is left as it was; otherwise the top is removed and returned. */
  function Pop(s: Stack): (r: Result<(Stack, int), Exception>)
    ensures r.Failure? <==> |s.items| == 0
    ensures r.Failure? ==> r.error == StackEmpty
    ensures r.Success? ==> s.items == r.value.0.items + [r.value.1]
  {
    if |s.items| == 0 then Failure(StackEmpty)
    else
      var n := |s.items| - 1;
      assert s.items == s.items[..n] + [s.items[n]];
      Success((Stack(s.items[..n]), s.items[n]))
  }

  /** `try_pop`, both overloads: `false` and `value` untouched on an empty
      stack, otherwise the top is moved into `value` and removed. */
  function TryPop(s: Stack, value: int): (r: (Stack, bool, int))
    ensures r.1 <==> |s.items| > 0
    ensures !r.1 ==> r.0 == s && r.2 == value
    ensures r.1 ==> Pop(s) == Success((r.0, r.2))
  {
    match Pop(s)
    case Failure(_) => (s, false, value)
    case Success(p) => (p.0, true, p.1)
  }

  /** `empty()`. */
  predicate Empty(s: Stack)
  {
    |s.items| == 0
  }

  /** `empty()` holds exactly when `pop` would throw. */
  lemma EmptyMeansPopThrows(s: Stack)
    ensures Empty(s) <==> Pop(s) == Failure(StackEmpty)
  {
  }

  /** Last in, first out: a pop undoes the push before it. */
  lemma PopUndoesPush(s: Stack, v: int)
    ensures Pop(Push(s, v)) == Success((s, v))
  {
    assert (s.items + [v])[..|s.items|] == s.items;
  }

  /** A successful pop is undone by pushing the value back. */
  lemma PushUndoesPop(s: Stack)
    requires |s.items| > 0
    ensures Pop(s).Success? && Push(Pop(s).value.0, Pop(s).value.1) == s
  {
  }

  /** Pushes the values in order. */
  function PushAll(s: Stack, xs: seq<int>): (r: Stack)
    ensures |r.items| == |s.items| + |xs|
    decreases |xs|
  {
    if |xs| == 0 then s else PushAll(Push(s, xs[0]), xs[1..])
  }

  /** Pops `n` times, collecting the values in the order they come out. */
  function PopN(s: Stack, n: nat): (r: (Stack, seq<int>))
    requires n <= |s.items|
    ensures |r.1| == n && |r.0.items| == |s.items| - n
    decreases n
  {
    if n == 0 then (s, [])
    else
      var p := Pop(s).value;
      var rest := PopN(p.0, n - 1);
      (rest.0, [p.1] + rest.1)
  }

  function Reverse(xs: seq<int>): (r: seq<int>)
    ensures |r| == |xs|
    ensures forall i :: 0 <= i < |xs| ==> r[i] == xs[|xs| - 1 - i]
  {
    if |xs| == 0 then [] else Reverse(xs[1..]) + [xs[0]]
  }

  /** Pushing one more value after a sequence is pushing the longer
      sequence. */
  lemma {:induction false} PushAllLast(s: Stack, xs: seq<int>, x: int)
    ensures PushAll(s, xs + [x]) == Push(PushAll(s, xs), x)
    decreases |xs|
  {
    if |xs| == 0 {
      assert xs + [x] == [x] && [x][1..] == [];
    } else {
      assert (xs + [x])[0] == xs[0] && (xs + [x])[1..] == xs[1..] + [x];
      PushAllLast(Push(s, xs[0]), xs[1..], x);
    }
  }

  /** Values pushed in turn come back out in the reverse order, and the
      stack underneath is restored. */
  lemma {:induction false} PopNReversesPushAll(s: Stack, xs: seq<int>)
    ensures |xs| <= |PushAll(s, xs).items|
    ensures PopN(PushAll(s, xs), |xs|).0 == s
    ensures PopN(PushAll(s, xs), |xs|).1 == Reverse(xs)
    decreases |xs|
  {
    if |xs| > 0 {
      var init, x := xs[..|xs| - 1], xs[|xs| - 1];
      assert xs == init + [x];
      PushAllLast(s, init, x);
      PopNReversesPushAll(s, init);
      var u := PushAll(s, init);
      PopUndoesPush(u, x);
      assert PopN(PushAll(s, xs), |xs|).1 == [x] + PopN(u, |init|).1;
      assert Reverse(xs) == [x] + Reverse(init);
    }
  }
}
