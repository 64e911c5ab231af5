/** `compute_prefix`: the serial exclusive scan of a vector under a binary
    operation, starting from an identity, and the `PrefixOps` wrappers for
    integers. The `std::function` operation is an `Option` of a function,
    `None` standing for an empty one. */
module PrefixSum {
  import opened Wrappers
  import A = Accumulate

  /** The scan the source computes, stated through the left fold: entry
      `i` folds the first `i` elements into `identity`. */
  function Prefixes<T>(op: (T, T) -> T, identity: T, arr: seq<T>): (r: seq<T>)
    ensures |r| == |arr| + 1
  {
    seq(|arr| + 1, i requires 0 <= i <= |arr| => A.FoldLeft(op, identity, arr[..i]))
  }

  /** The scan starts at `identity` and each entry combines the one before
      it with the next element. */
  lemma PrefixesRecurrence<T>(op: (T, T) -> T, identity: T, arr: seq<T>)
    ensures Prefixes(op, identity, arr)[0] == identity
    ensures forall i :: 0 <= i < |arr| ==>
              Prefixes(op, identity, arr)[i + 1] == op(Prefixes(op, identity, arr)[i], arr[i])
  {
    var p := Prefixes(op, identity, arr);
    assert arr[..0] == [];
    forall i | 0 <= i < |arr|
      ensures p[i + 1] == op(p[i], arr[i])
    {
      assert arr[..i + 1] == arr[..i] + [arr[i]];
      A.FoldLeftSnoc(op, identity, arr[..i], arr[i]);
    }
  }

  /** The start and the recurrence determine the scan: any sequence of
      length `|arr| + 1` with both is `Prefixes`. */
  lemma PrefixesUnique<T>(op: (T, T) -> T, identity: T, arr: seq<T>, p: seq<T>)
    requires |p| == |arr| + 1 && p[0] == identity
    requires forall i :: 0 <= i < |arr| ==> p[i + 1] == op(p[i], arr[i])
    ensures p == Prefixes(op, identity, arr)
  {
    var q := Prefixes(op, identity, arr);
    PrefixesRecurrence(op, identity, arr);
    var i := 0;
    while i < |arr|
      invariant 0 <= i <= |arr|
      invariant forall j :: 0 <= j <= i ==> p[j] == q[j]
    {
      assert p[i + 1] == op(q[i], arr[i]) == q[i + 1];
      i := i + 1;
    }
  }

  /** The last entry is the result of `my_accumulate` with the same
      operation and initial value. */
  lemma LastIsAccumulate<T>(op: (T, T) -> T, identity: T, arr: seq<T>)
    ensures Prefixes(op, identity, arr)[|arr|] == A.FoldLeft(op, identity, arr)
  {
    assert arr[..|arr|] == arr;
  }

  /** `compute_prefix`: an empty operation throws `invalid_argument`;
      otherwise the result holds `|arr| + 1` entries, the first
      `identity`, each next one the operation applied to the entry before
      it and the next element. */
  method ComputePrefix<T>(arr: seq<T>, op: Option<(T, T) -> T>, identity: T)
    returns (r: Result<seq<T>, Exception>)
    ensures r.Failure? <==> op.None?
    ensures r.Failure? ==> r.error == InvalidArgument
    ensures r.Success? ==> |r.value| == |arr| + 1 && r.value[0] == identity
    ensures r.Success? ==> forall i :: 0 <= i < |arr| ==> r.value[i + 1] == op.value(r.value[i], arr[i])
    ensures r.Success? ==> r.value == Prefixes(op.value, identity, arr)
  {
    if op.None? {
      return Failure(InvalidArgument);
    }
    var f := op.value;
    var prefix := [identity];
    var i := 0;
    while i < |arr|
      invariant 0 <= i <= |arr|
      invariant |prefix| == i + 1 && prefix[0] == identity
      invariant forall j :: 0 <= j < i ==> prefix[j + 1] == f(prefix[j], arr[j])
    {
      prefix := prefix + [f(prefix[i], arr[i])];
      i := i + 1;
    }
    PrefixesUnique(f, identity, arr, prefix);
    return Success(prefix);
  }

  /** `PrefixOps::min` for integers; `add`, `multiply` and `max` are
      `Accumulate.Add`, `Accumulate.Multiply` and `Accumulate.Max`. */
  function Min(a: int, b: int): int
  {
    if b < a then b else a
  }

  /** `INT_MAX` and `LONG_MIN` of the tests' 32-bit `int` and 64-bit
      `long`. */
  const IntMax: int := 0x7fff_ffff
  const LongMin: int := -0x8000_0000_0000_0000

  /** With `min` from a value above every element, entry `i` is the least
      of the first `i` elements: it is one of them and no larger than any. */
  lemma {:induction false} MinPrefixIsLeast(identity: int, arr: seq<int>, i: nat)
    requires 0 < i <= |arr|
    requires forall x :: x in arr ==> x <= identity
    ensures Prefixes(Min, identity, arr)[i] in arr[..i]
    ensures forall j :: 0 <= j < i ==> Prefixes(Min, identity, arr)[i] <= arr[j]
  {
    var p := Prefixes(Min, identity, arr);
    PrefixesRecurrence(Min, identity, arr);
    if i > 1 {
      MinPrefixIsLeast(identity, arr, i - 1);
      assert arr[..i] == arr[..i - 1] + [arr[i - 1]];
    } else {
      assert arr[..1] == [arr[0]] && arr[0] in arr;
    }
  }

  /** The addition test: 1..5 from 0. */
  lemma BasicAddition()
    ensures Prefixes(A.Add, 0, [1, 2, 3, 4, 5]) == [0, 1, 3, 6, 10, 15]
  {
    PrefixesUnique(A.Add, 0, [1, 2, 3, 4, 5], [0, 1, 3, 6, 10, 15]);
  }

  /** The minimum test from `INT_MAX` and the maximum test from
      `LONG_MIN`. */
  lemma MinAndMax()
    ensures Prefixes(Min, IntMax, [5, 3, 7, 2, 8]) == [IntMax, 5, 3, 3, 2, 2]
    ensures Prefixes(A.Max, LongMin, [10, 5, 20, 15, 25]) == [LongMin, 10, 10, 20, 20, 25]
  {
    PrefixesUnique(Min, IntMax, [5, 3, 7, 2, 8], [IntMax, 5, 3, 3, 2, 2]);
    PrefixesUnique(A.Max, LongMin, [10, 5, 20, 15, 25], [LongMin, 10, 10, 20, 20, 25]);
  }

  /** The custom-type test: points added coordinate by coordinate. */
  datatype Point = Point(x: int, y: int)

  function PointAdd(a: Point, b: Point): Point
  {
    Point(a.x + b.x, a.y + b.y)
  }

  lemma PointSums()
    ensures Prefixes(PointAdd, Point(0, 0), [Point(1, 2), Point(3, 4), Point(5, 6)])
            == [Point(0, 0), Point(1, 2), Point(4, 6), Point(9, 12)]
  {
    PrefixesUnique(PointAdd, Point(0, 0), [Point(1, 2), Point(3, 4), Point(5, 6)],
                   [Point(0, 0), Point(1, 2), Point(4, 6), Point(9, 12)]);
  }

  /** An empty input gives the identity alone, whatever the operation. */
  lemma EmptyInput<T>(op: (T, T) -> T, identity: T)
    ensures Prefixes(op, identity, []) == [identity]
  {
    PrefixesRecurrence(op, identity, []);
  }
}
