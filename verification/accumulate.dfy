/** `my_accumulate`: the serial left fold over an iterator range, modelled
    as a sequence. Elements and results of the `+=` overload are unbounded
    integers. */
module Accumulate {

  /** The left fold `op(... op(op(init, s[0]), s[1]) ..., s[|s| - 1])`,
      the reference both overloads are checked against. */
  function FoldLeft<A, E>(op: (A, E) -> A, init: A, s: seq<E>): A
    decreases |s|
  {
    if |s| == 0 then init else FoldLeft(op, op(init, s[0]), s[1..])
  }

  /** Folding one more element applies `op` once more at the end. */
  lemma {:induction false} FoldLeftSnoc<A, E>(op: (A, E) -> A, init: A, s: seq<E>, x: E)
    ensures FoldLeft(op, init, s + [x]) == op(FoldLeft(op, init, s), x)
    decreases |s|
  {
    if |s| == 0 {
      assert s + [x] == [x] && [x][1..] == [];
    } else {
      assert (s + [x])[0] == s[0] && (s + [x])[1..] == s[1..] + [x];
      FoldLeftSnoc(op, op(init, s[0]), s[1..], x);
    }
  }

  /** `my_accumulate(first, last, init, op)`: the result starts as `init`
      and each element in turn is combined into it with `op`. */
  method MyAccumulate<A, E>(s: seq<E>, init: A, op: (A, E) -> A) returns (r: A)
    ensures r == FoldLeft(op, init, s)
  {
    r := init;
    var i := 0;
    while i < |s|
      invariant 0 <= i <= |s|
      invariant r == FoldLeft(op, init, s[..i])
    {
      assert s[..i + 1] == s[..i] + [s[i]];
      FoldLeftSnoc(op, init, s[..i], s[i]);
      r := op(r, s[i]);
      i := i + 1;
    }
    assert s[..i] == s;
  }

  /** The sum of a sequence, first element plus the sum of the rest. */
  function Sum(s: seq<int>): int
    decreases |s|
  {
    if |s| == 0 then 0 else s[0] + Sum(s[1..])
  }

  lemma {:induction false} SumSnoc(s: seq<int>, x: int)
    ensures Sum(s + [x]) == Sum(s) + x
    decreases |s|
  {
    if |s| == 0 {
      assert s + [x] == [x] && [x][1..] == [];
    } else {
      assert (s + [x])[0] == s[0] && (s + [x])[1..] == s[1..] + [x];
      SumSnoc(s[1..], x);
    }
  }

  /** The addition `+=` applies. */
  function Add(a: int, b: int): int
  {
    a + b
  }

  /** `my_accumulate(first, last, init)`: every element is added to the
      result with `+=`, so the result is `init` plus the sum of the range. */
  method MyAccumulatePlus(s: seq<int>, init: int) returns (r: int)
    ensures r == init + Sum(s)
  {
    r := init;
    var i := 0;
    while i < |s|
      invariant 0 <= i <= |s|
      invariant r == init + Sum(s[..i])
    {
      assert s[..i + 1] == s[..i] + [s[i]];
      SumSnoc(s[..i], s[i]);
      r := r + s[i];
      i := i + 1;
    }
    assert s[..i] == s;
  }

  /** The three-argument overload is the four-argument one with addition:
      the left fold of `+` from `init` is `init` plus the sum. */
  lemma {:induction false} PlusIsFoldOfAdd(s: seq<int>, init: int)
    ensures FoldLeft(Add, init, s) == init + Sum(s)
    decreases |s|
  {
    if |s| > 0 {
      PlusIsFoldOfAdd(s[1..], init + s[0]);
    }
  }

  /** An empty range returns `init` unchanged, with either overload. */
  lemma EmptyRangeIsInit<A, E>(op: (A, E) -> A, init: A, n: int)
    ensures FoldLeft(op, init, []) == init
    ensures n + Sum([]) == n
  {
  }

  function Multiply(a: int, b: int): int
  {
    a * b
  }

  function Minus(a: int, b: int): int
  {
    a - b
  }

  function Max(a: int, b: int): int
  {
    if a < b then b else a
  }

  /** The running total and element count of the custom-type test. */
  datatype Aggregate = Aggregate(sum: int, count: nat)

  function Count(a: Aggregate, v: int): Aggregate
  {
    Aggregate(a.sum + v, a.count + 1)
  }

  /** The integer tests: the sum of 1..5 from 0 and from 10, the product of
      2, 3, 4 from 1, 10 minus 2, 3 and 4, their maximum from 0, and the sum
      and count of 3, 1, 4, 1, 5. */
  lemma IntegerResults()
    ensures 0 + Sum([1, 2, 3, 4, 5]) == 15
    ensures 10 + Sum([1, 2, 3, 4, 5]) == 25
    ensures FoldLeft(Multiply, 1, [2, 3, 4]) == 24
    ensures FoldLeft(Minus, 10, [2, 3, 4]) == 1
    ensures FoldLeft(Max, 0, [2, 3, 4]) == 4
    ensures FoldLeft(Count, Aggregate(0, 0), [3, 1, 4, 1, 5]) == Aggregate(14, 5)
    ensures 10 + Sum([5]) == 15
  {
    assert [1, 2, 3, 4, 5][1..] == [2, 3, 4, 5] && [2, 3, 4, 5][1..] == [3, 4, 5];
    assert [3, 4, 5][1..] == [4, 5] && [4, 5][1..] == [5] && [5][1..] == [];
    assert [2, 3, 4][1..] == [3, 4] && [3, 4][1..] == [4] && [4][1..] == [];
    assert [3, 1, 4, 1, 5][1..] == [1, 4, 1, 5] && [1, 4, 1, 5][1..] == [4, 1, 5];
    assert [4, 1, 5][1..] == [1, 5] && [1, 5][1..] == [5];
  }
}
