/** `merge`, the recursive `merge_sort` and `merge_sort_iterative` on a
    vector, modelled as a sequence. The comparator is a strict order given
    by an integer key: `comp(a, b)` is `key(a) < key(b)`. For integers the
    key is the value itself, which is `SafeComparator` on a type with `<`;
    a record compared on one field uses that field, and then the order of
    records with equal keys shows whether the sort is stable. */
module MergeSort {
  import PQ = PriorityQueue

  /** Ascending by key. */
  predicate Sorted<T>(s: seq<T>, key: T -> int)
  {
    forall i, j :: 0 <= i < j < |s| ==> key(s[i]) <= key(s[j])
  }

  /** `x` alone if its key is `k`, otherwise nothing. */
  function Keep<T>(x: T, key: T -> int, k: int): seq<T>
  {
    if key(x) == k then [x] else []
  }

  /** The elements of `s` whose key is `k`, in their order in `s`. */
  function WithKey<T>(s: seq<T>, key: T -> int, k: int): seq<T>
    decreases |s|
  {
    if |s| == 0 then [] else Keep(s[0], key, k) + WithKey(s[1..], key, k)
  }

  lemma WithKeyCons<T>(x: T, t: seq<T>, key: T -> int, k: int)
    ensures WithKey([x] + t, key, k) == Keep(x, key, k) + WithKey(t, key, k)
  {
    assert ([x] + t)[0] == x && ([x] + t)[1..] == t;
  }

  lemma {:induction false} WithKeyAppend<T>(a: seq<T>, b: seq<T>, key: T -> int, k: int)
    ensures WithKey(a + b, key, k) == WithKey(a, key, k) + WithKey(b, key, k)
    decreases |a|
  {
    if |a| == 0 {
      assert a + b == b;
    } else {
      var head := Keep(a[0], key, k);
      assert (a + b)[0] == a[0] && (a + b)[1..] == a[1..] + b;
      assert WithKey(a + b, key, k) == head + WithKey(a[1..] + b, key, k);
      WithKeyAppend(a[1..], b, key, k);
      assert head + (WithKey(a[1..], key, k) + WithKey(b, key, k))
          == (head + WithKey(a[1..], key, k)) + WithKey(b, key, k);
    }
  }

  lemma {:induction false} WithKeyMembers<T>(s: seq<T>, key: T -> int, k: int)
    ensures forall x :: x in WithKey(s, key, k) ==> x in s && key(x) == k
    decreases |s|
  {
    if |s| > 0 {
      WithKeyMembers(s[1..], key, k);
    }
  }

  /** No element of a sorted sequence has a key below its first key. */
  lemma {:induction false} WithKeyBelowHead<T>(s: seq<T>, key: T -> int, k: int)
    requires Sorted(s, key) && |s| > 0 && k < key(s[0])
    ensures WithKey(s, key, k) == []
    decreases |s|
  {
    if |s| > 1 {
      assert key(s[0]) <= key(s[1]) && s[1..][0] == s[1];
      WithKeyBelowHead(s[1..], key, k);
    }
  }

  lemma SortedTail<T>(s: seq<T>, key: T -> int)
    requires Sorted(s, key) && |s| > 0
    ensures Sorted(s[1..], key)
  {
    forall i, j | 0 <= i < j < |s| - 1
      ensures key(s[1..][i]) <= key(s[1..][j])
    {
      assert s[1..][i] == s[i + 1] && s[1..][j] == s[j + 1];
    }
  }

  /** A head no greater than every element of a sorted tail. */
  lemma SortedCons<T>(h: T, t: seq<T>, key: T -> int)
    requires Sorted(t, key)
    requires forall x :: x in t ==> key(h) <= key(x)
    ensures Sorted([h] + t, key)
  {
    var s := [h] + t;
    forall i, j | 0 <= i < j < |s|
      ensures key(s[i]) <= key(s[j])
    {
      if i == 0 {
        assert s[j] == t[j - 1] && s[j] in t;
      } else {
        assert s[i] == t[i - 1] && s[j] == t[j - 1];
      }
    }
  }

  /** The merge of `merge`, as a function: while both runs have elements,
      the left head goes first unless the right head is strictly smaller,
      then the rest of whichever run is left over. */
  function Merge<T>(xs: seq<T>, ys: seq<T>, key: T -> int): (r: seq<T>)
    ensures |r| == |xs| + |ys|
    decreases |xs| + |ys|
  {
    if |xs| == 0 then ys
    else if |ys| == 0 then xs
    else if !(key(ys[0]) < key(xs[0])) then [xs[0]] + Merge(xs[1..], ys, key)
    else [ys[0]] + Merge(xs, ys[1..], key)
  }

  /** `merge` neither loses nor invents elements. */
  lemma {:induction false} MergePermutes<T>(xs: seq<T>, ys: seq<T>, key: T -> int)
    ensures multiset(Merge(xs, ys, key)) == multiset(xs) + multiset(ys)
    decreases |xs| + |ys|
  {
    if |xs| > 0 && |ys| > 0 {
      if !(key(ys[0]) < key(xs[0])) {
        var t := Merge(xs[1..], ys, key);
        assert Merge(xs, ys, key) == [xs[0]] + t;
        MergePermutes(xs[1..], ys, key);
        PQ.MultisetCons(xs);
      } else {
        var t := Merge(xs, ys[1..], key);
        assert Merge(xs, ys, key) == [ys[0]] + t;
        MergePermutes(xs, ys[1..], key);
        PQ.MultisetCons(ys);
      }
    }
  }

  /** Merging two sorted runs gives a sorted run. */
  lemma {:induction false} MergeSorted<T>(xs: seq<T>, ys: seq<T>, key: T -> int)
    requires Sorted(xs, key) && Sorted(ys, key)
    ensures Sorted(Merge(xs, ys, key), key)
    decreases |xs| + |ys|
  {
    if |xs| > 0 && |ys| > 0 {
      if !(key(ys[0]) < key(xs[0])) {
        var t := Merge(xs[1..], ys, key);
        MergeSorted(xs[1..], ys, key);
        MergePermutes(xs[1..], ys, key);
        forall x | x in t
          ensures key(xs[0]) <= key(x)
        {
          assert x in multiset(t);
          if x in xs[1..] {
            var i :| 0 <= i < |xs[1..]| && xs[1..][i] == x;
            assert xs[i + 1] == x;
          } else {
            assert x in ys;
            var i :| 0 <= i < |ys| && ys[i] == x;
            assert i == 0 || key(ys[0]) <= key(ys[i]);
          }
        }
        SortedCons(xs[0], t, key);
      } else {
        var t := Merge(xs, ys[1..], key);
        MergeSorted(xs, ys[1..], key);
        MergePermutes(xs, ys[1..], key);
        forall x | x in t
          ensures key(ys[0]) <= key(x)
        {
          assert x in multiset(t);
          if x in ys[1..] {
            var i :| 0 <= i < |ys[1..]| && ys[1..][i] == x;
            assert ys[i + 1] == x;
          } else {
            assert x in xs;
            var i :| 0 <= i < |xs| && xs[i] == x;
            assert i == 0 || key(xs[0]) <= key(xs[i]);
          }
        }
        SortedCons(ys[0], t, key);
      }
    }
  }

  /** `merge` is stable: among equal keys, the elements of the left run
      come first, each run in its own order. */
  lemma {:induction false} MergeStable<T>(xs: seq<T>, ys: seq<T>, key: T -> int, k: int)
    requires Sorted(xs, key) && Sorted(ys, key)
    ensures WithKey(Merge(xs, ys, key), key, k) == WithKey(xs, key, k) + WithKey(ys, key, k)
    decreases |xs| + |ys|
  {
    if |xs| == 0 {
      assert WithKey(xs, key, k) == [];
    } else if |ys| == 0 {
      assert WithKey(ys, key, k) == [];
    } else if !(key(ys[0]) < key(xs[0])) {
      MergeStable(xs[1..], ys, key, k);
      MergeStableLeft(xs, ys, key, k);
    } else {
      MergeStable(xs, ys[1..], key, k);
      if key(ys[0]) == k {
        WithKeyBelowHead(xs, key, k);
      }
      MergeStableRight(xs, ys, key, k);
    }
  }

  /** The step of `MergeStable` that emits the left head. */
  lemma {:induction false} MergeStableLeft<T>(xs: seq<T>, ys: seq<T>, key: T -> int, k: int)
    requires |xs| > 0 && |ys| > 0 && !(key(ys[0]) < key(xs[0]))
    requires WithKey(Merge(xs[1..], ys, key), key, k) == WithKey(xs[1..], key, k) + WithKey(ys, key, k)
    ensures WithKey(Merge(xs, ys, key), key, k) == WithKey(xs, key, k) + WithKey(ys, key, k)
  {
    var x, t := xs[0], Merge(xs[1..], ys, key);
    assert Merge(xs, ys, key) == [x] + t;
    WithKeyCons(x, t, key, k);
    WithKeyCons(x, xs[1..], key, k);
    assert [x] + xs[1..] == xs;
    Reassociate(Keep(x, key, k), WithKey(xs[1..], key, k), WithKey(ys, key, k));
  }

  lemma Reassociate<T>(h: seq<T>, a: seq<T>, b: seq<T>)
    ensures h + (a + b) == (h + a) + b
  {
  }

  /** The step of `MergeStable` that emits the right head, whose key is
      strictly below every key of the sorted left run. */
  lemma {:induction false} MergeStableRight<T>(xs: seq<T>, ys: seq<T>, key: T -> int, k: int)
    requires |xs| > 0 && |ys| > 0 && key(ys[0]) < key(xs[0])
    requires key(ys[0]) == k ==> WithKey(xs, key, k) == []
    requires WithKey(Merge(xs, ys[1..], key), key, k) == WithKey(xs, key, k) + WithKey(ys[1..], key, k)
    ensures WithKey(Merge(xs, ys, key), key, k) == WithKey(xs, key, k) + WithKey(ys, key, k)
  {
    var y, t := ys[0], Merge(xs, ys[1..], key);
    assert Merge(xs, ys, key) == [y] + t;
    WithKeyCons(y, t, key, k);
    WithKeyCons(y, ys[1..], key, k);
    assert [y] + ys[1..] == ys;
    Commute(Keep(y, key, k), WithKey(xs, key, k), WithKey(ys[1..], key, k));
  }

  /** A piece moves past an empty one. */
  lemma Commute<T>(h: seq<T>, a: seq<T>, b: seq<T>)
    requires h == [] || a == []
    ensures h + (a + b) == a + (h + b)
  {
  }

  /** The merge of the runs `a[left..mid]` and `a[right..]`, stated on
      positions as the loop of `merge` walks them. */
  function MergeAt<T>(a: seq<T>, left: nat, mid: nat, right: nat, key: T -> int): seq<T>
    requires left <= mid <= right <= |a|
    decreases mid - left + |a| - right
  {
    if left == mid then a[right..]
    else if right == |a| then a[left..mid]
    else if !(key(a[right]) < key(a[left])) then [a[left]] + MergeAt(a, left + 1, mid, right, key)
    else [a[right]] + MergeAt(a, left, mid, right + 1, key)
  }

  /** Walking positions is merging the runs they delimit. */
  lemma {:induction false} MergeAtIsMerge<T>(a: seq<T>, left: nat, mid: nat, right: nat, key: T -> int)
    requires left <= mid <= right <= |a|
    ensures MergeAt(a, left, mid, right, key) == Merge(a[left..mid], a[right..], key)
    decreases mid - left + |a| - right
  {
    var xs, ys := a[left..mid], a[right..];
    if left == mid {
      assert xs == [];
    } else if right == |a| {
      assert ys == [];
    } else {
      assert xs[0] == a[left] && xs[1..] == a[left + 1..mid];
      assert ys[0] == a[right] && ys[1..] == a[right + 1..];
      if !(key(a[right]) < key(a[left])) {
        assert Merge(xs, ys, key) == [a[left]] + Merge(a[left + 1..mid], ys, key);
        MergeAtIsMerge(a, left + 1, mid, right, key);
      } else {
        assert Merge(xs, ys, key) == [a[right]] + Merge(xs, a[right + 1..], key);
        MergeAtIsMerge(a, left, mid, right + 1, key);
      }
    }
  }

  /** `merge(first, mid, last, buffer, comp)` on the range `a`, whose runs
      are `a[..mid]` and `a[mid..]`: while both runs have elements the left
      one is written unless the right one is strictly smaller, then both
      leftovers are copied. */
  method MergeRange<T>(a: seq<T>, mid: nat, key: T -> int) returns (r: seq<T>)
    requires mid <= |a|
    ensures r == Merge(a[..mid], a[mid..], key)
  {
    var left, right := 0, mid;
    var out: seq<T> := [];
    while left < mid && right < |a|
      invariant 0 <= left <= mid <= right <= |a|
      invariant out + MergeAt(a, left, mid, right, key) == MergeAt(a, 0, mid, mid, key)
      decreases mid - left + |a| - right
    {
      if !(key(a[right]) < key(a[left])) {
        assert out + MergeAt(a, left, mid, right, key) == (out + [a[left]]) + MergeAt(a, left + 1, mid, right, key);
        out := out + [a[left]];
        left := left + 1;
      } else {
        assert out + MergeAt(a, left, mid, right, key) == (out + [a[right]]) + MergeAt(a, left, mid, right + 1, key);
        out := out + [a[right]];
        right := right + 1;
      }
    }
    r := out + a[left..mid] + a[right..];
    assert r == out + MergeAt(a, left, mid, right, key) by {
      if left == mid {
        assert a[left..mid] == [];
      } else {
        assert a[right..] == [];
      }
    }
    MergeAtIsMerge(a, 0, mid, mid, key);
    assert a[0..mid] == a[..mid];
  }

  /** The recursive `merge_sort`: ranges of at most one element are left
      alone, longer ones are split at half their length, both halves are
      sorted and the halves merged. */
  function MergeSortRec<T>(s: seq<T>, key: T -> int): (r: seq<T>)
    ensures |s| <= 1 ==> r == s
    ensures |r| == |s|
    decreases |s|
  {
    if |s| <= 1 then s
    else
      var m := |s| / 2;
      Merge(MergeSortRec(s[..m], key), MergeSortRec(s[m..], key), key)
  }

  /** The recursive sort returns a sorted sequence. */
  lemma {:induction false} MergeSortRecSorted<T>(s: seq<T>, key: T -> int)
    ensures Sorted(MergeSortRec(s, key), key)
    decreases |s|
  {
    if |s| > 1 {
      var m := |s| / 2;
      var l, h := MergeSortRec(s[..m], key), MergeSortRec(s[m..], key);
      assert MergeSortRec(s, key) == Merge(l, h, key);
      MergeSortRecSorted(s[..m], key);
      MergeSortRecSorted(s[m..], key);
      MergeSorted(l, h, key);
    }
  }

  /** The recursive sort returns a permutation of its input. */
  lemma {:induction false} MergeSortRecPermutes<T>(s: seq<T>, key: T -> int)
    ensures multiset(MergeSortRec(s, key)) == multiset(s)
    decreases |s|
  {
    if |s| > 1 {
      var m := |s| / 2;
      var l, h := MergeSortRec(s[..m], key), MergeSortRec(s[m..], key);
      assert MergeSortRec(s, key) == Merge(l, h, key);
      MergeSortRecPermutes(s[..m], key);
      MergeSortRecPermutes(s[m..], key);
      MergePermutes(l, h, key);
      assert s == s[..m] + s[m..];
    }
  }

  /** The recursive sort returns a sorted permutation of its input. */
  lemma MergeSortRecSorts<T>(s: seq<T>, key: T -> int)
    ensures Sorted(MergeSortRec(s, key), key)
    ensures multiset(MergeSortRec(s, key)) == multiset(s)
  {
    MergeSortRecSorted(s, key);
    MergeSortRecPermutes(s, key);
  }

  /** The recursive sort is stable. */
  lemma {:induction false} MergeSortRecStable<T>(s: seq<T>, key: T -> int, k: int)
    ensures WithKey(MergeSortRec(s, key), key, k) == WithKey(s, key, k)
    decreases |s|
  {
    if |s| > 1 {
      var m := |s| / 2;
      var l, h := MergeSortRec(s[..m], key), MergeSortRec(s[m..], key);
      calc {
        WithKey(MergeSortRec(s, key), key, k);
        WithKey(Merge(l, h, key), key, k);
        { MergeSortRecSorts(s[..m], key);
          MergeSortRecSorts(s[m..], key);
          MergeStable(l, h, key, k); }
        WithKey(l, key, k) + WithKey(h, key, k);
        { MergeSortRecStable(s[..m], key, k);
          MergeSortRecStable(s[m..], key, k); }
        WithKey(s[..m], key, k) + WithKey(s[m..], key, k);
        { WithKeyAppend(s[..m], s[m..], key, k);
          assert s == s[..m] + s[m..]; }
        WithKey(s, key, k);
      }
    }
  }

  /** One pass of the outer loop of `merge_sort_iterative` with width `w`:
      the inner loop merges `[left, min(left + w, n))` with
      `[min(left + w, n), min(left + 2w, n))` for `left` = 0, 2w, 4w, …;
      a last block of at most `w` elements is merged with nothing and stays
      as it is. */
  function Pass<T>(s: seq<T>, w: nat, key: T -> int): (r: seq<T>)
    requires w > 0
    ensures |r| == |s|
    decreases |s|
  {
    if |s| <= w then s
    else
      var e := if |s| < 2 * w then |s| else 2 * w;
      Merge(s[..w], s[w..e], key) + Pass(s[e..], w, key)
  }

  /** Every aligned block of `w` elements, the last one possibly shorter, is
      sorted. */
  predicate RunsSorted<T>(s: seq<T>, w: nat, key: T -> int)
    requires w > 0
    decreases |s|
  {
    if |s| <= w then Sorted(s, key) else Sorted(s[..w], key) && RunsSorted(s[w..], w, key)
  }

  /** Before the first pass every block of one element is sorted. */
  lemma {:induction false} RunsOfOne<T>(s: seq<T>, key: T -> int)
    ensures RunsSorted(s, 1, key)
    decreases |s|
  {
    if |s| > 1 {
      RunsOfOne(s[1..], key);
    }
  }

  /** After the pass with width `w`, every aligned block of `2w` elements is
      sorted. */
  lemma {:induction false} PassDoublesRuns<T>(s: seq<T>, w: nat, key: T -> int)
    requires w > 0 && RunsSorted(s, w, key)
    ensures RunsSorted(Pass(s, w, key), 2 * w, key)
    decreases |s|
  {
    if |s| > w {
      var e := if |s| < 2 * w then |s| else 2 * w;
      var rest := s[w..];
      assert s[w..e] == rest[..e - w];
      assert Sorted(s[w..e], key) by {
        if e == |s| {
          assert s[w..e] == rest;
        } else {
          assert rest[..w] == s[w..e];
        }
      }
      var m := Merge(s[..w], s[w..e], key);
      MergeSorted(s[..w], s[w..e], key);
      if e < |s| {
        assert rest[w..] == s[e..];
        PassDoublesRuns(s[e..], w, key);
        var t := m + Pass(s[e..], w, key);
        assert t[..2 * w] == m && t[2 * w..] == Pass(s[e..], w, key);
      } else {
        assert s[e..] == [];
        assert Pass(s, w, key) == m + [] == m;
      }
    }
  }

  /** A pass neither loses nor invents elements. */
  lemma {:induction false} PassPermutes<T>(s: seq<T>, w: nat, key: T -> int)
    requires w > 0
    ensures multiset(Pass(s, w, key)) == multiset(s)
    decreases |s|
  {
    if |s| > w {
      var e := if |s| < 2 * w then |s| else 2 * w;
      var m, p := Merge(s[..w], s[w..e], key), Pass(s[e..], w, key);
      assert Pass(s, w, key) == m + p;
      assert multiset(m) == multiset(s[..w]) + multiset(s[w..e]) by {
        MergePermutes(s[..w], s[w..e], key);
      }
      assert multiset(p) == multiset(s[e..]) by {
        PassPermutes(s[e..], w, key);
      }
      assert s == s[..w] + s[w..e] + s[e..];
    }
  }

  /** A pass over sorted blocks is stable. */
  lemma {:induction false} PassStable<T>(s: seq<T>, w: nat, key: T -> int, k: int)
    requires w > 0 && RunsSorted(s, w, key)
    ensures WithKey(Pass(s, w, key), key, k) == WithKey(s, key, k)
    decreases |s|
  {
    if |s| > w {
      var e := if |s| < 2 * w then |s| else 2 * w;
      var x, y, z := s[..w], s[w..e], s[e..];
      PassFirstBlocks(s, w, key);
      calc {
        WithKey(Pass(s, w, key), key, k);
        WithKey(Merge(x, y, key) + Pass(z, w, key), key, k);
        { WithKeyAppend(Merge(x, y, key), Pass(z, w, key), key, k); }
        WithKey(Merge(x, y, key), key, k) + WithKey(Pass(z, w, key), key, k);
        { MergeStable(x, y, key, k);
          PassStable(z, w, key, k); }
        WithKey(x, key, k) + WithKey(y, key, k) + WithKey(z, key, k);
        { WithKeyThree(x, y, z, key, k); }
        WithKey(x + y + z, key, k);
        { assert x + y + z == s; }
        WithKey(s, key, k);
      }
    }
  }

  /** One step of a pass: the first two blocks are sorted and merged, and
      the pass goes on with the rest, whose blocks are still sorted. */
  lemma PassFirstBlocks<T>(s: seq<T>, w: nat, key: T -> int)
    requires w > 0 && RunsSorted(s, w, key) && |s| > w
    ensures var e := if |s| < 2 * w then |s| else 2 * w;
            && Sorted(s[..w], key) && Sorted(s[w..e], key) && RunsSorted(s[e..], w, key)
            && Pass(s, w, key) == Merge(s[..w], s[w..e], key) + Pass(s[e..], w, key)
  {
    var e := if |s| < 2 * w then |s| else 2 * w;
    var rest := s[w..];
    if e == |s| {
      assert s[w..e] == rest;
      assert s[e..] == [];
    } else {
      assert rest[..w] == s[w..e];
      assert rest[w..] == s[e..];
    }
  }

  /** `WithKeyAppend` for three pieces. */
  lemma WithKeyThree<T>(x: seq<T>, y: seq<T>, z: seq<T>, key: T -> int, k: int)
    ensures WithKey(x + y + z, key, k) == WithKey(x, key, k) + WithKey(y, key, k) + WithKey(z, key, k)
  {
    WithKeyAppend(x, y, key, k);
    WithKeyAppend(x + y, z, key, k);
  }

  /** `merge_sort_iterative`: passes of width 1, 2, 4, … while the width is
      below the length. The result is sorted, a permutation of the input,
      stable, and equal to what the recursive sort returns. */
  method MergeSortIterative<T>(s: seq<T>, key: T -> int) returns (r: seq<T>)
    ensures Sorted(r, key) && multiset(r) == multiset(s)
    ensures forall k :: WithKey(r, key, k) == WithKey(s, key, k)
    ensures r == MergeSortRec(s, key)
  {
    r := s;
    if |r| == 0 {
      return;
    }
    var width := 1;
    RunsOfOne(r, key);
    while width < |r|
      invariant width > 0 && |r| == |s| && multiset(r) == multiset(s)
      invariant RunsSorted(r, width, key)
      invariant forall k :: WithKey(r, key, k) == WithKey(s, key, k)
      decreases |r| - width
    {
      forall k
        ensures WithKey(Pass(r, width, key), key, k) == WithKey(r, key, k)
      {
        PassStable(r, width, key, k);
      }
      PassDoublesRuns(r, width, key);
      PassPermutes(r, width, key);
      r := Pass(r, width, key);
      width := 2 * width;
    }
    SortIsUnique(r, MergeSortRec(s, key), s, key);
  }

  /** A sorted stable reordering is unique: two of them are equal. So both
      sorts return what any stable sort returns. */
  lemma SortIsUnique<T>(a: seq<T>, b: seq<T>, s: seq<T>, key: T -> int)
    requires Sorted(a, key) && forall k :: WithKey(a, key, k) == WithKey(s, key, k)
    ensures b == MergeSortRec(s, key) ==> a == b
  {
    if b == MergeSortRec(s, key) {
      MergeSortRecSorts(s, key);
      forall k
        ensures WithKey(a, key, k) == WithKey(b, key, k)
      {
        MergeSortRecStable(s, key, k);
      }
      StableSortUnique(a, b, key);
    }
  }

  /** Two sequences sorted by key, with the same elements of each key in
      the same order, are equal. */
  lemma {:induction false} StableSortUnique<T>(a: seq<T>, b: seq<T>, key: T -> int)
    requires Sorted(a, key) && Sorted(b, key)
    requires forall k :: WithKey(a, key, k) == WithKey(b, key, k)
    ensures a == b
    decreases |a|
  {
    EmptyTogether(a, b, key);
    if |a| > 0 {
      HeadsEqual(a, b, key);
      TailsAgreeAll(a, b, key);
      SortedTail(a, key);
      SortedTail(b, key);
      StableSortUnique(a[1..], b[1..], key);
      assert a == [a[0]] + a[1..] && b == [b[0]] + b[1..];
    }
  }

  /** With the same elements of each key, one sequence is empty exactly
      when the other is. */
  lemma EmptyTogether<T>(a: seq<T>, b: seq<T>, key: T -> int)
    requires forall k :: WithKey(a, key, k) == WithKey(b, key, k)
    ensures |a| == 0 <==> |b| == 0
  {
    if |a| > 0 {
      HeadKeyPresent(a, key);
      assert WithKey(b, key, key(a[0])) != [];
    }
    if |b| > 0 {
      HeadKeyPresent(b, key);
      assert WithKey(a, key, key(b[0])) != [];
    }
  }

  /** Two sorted non-empty sequences with the same elements of each key in
      the same order start with the same element. */
  lemma HeadsEqual<T>(a: seq<T>, b: seq<T>, key: T -> int)
    requires Sorted(a, key) && Sorted(b, key) && |a| > 0 && |b| > 0
    requires forall k :: WithKey(a, key, k) == WithKey(b, key, k)
    ensures a[0] == b[0]
  {
    var ka := key(a[0]);
    HeadKeyIsLeast(a, b, key);
    HeadKeyIsLeast(b, a, key);
    assert WithKey(a, key, ka) == WithKey(b, key, ka);
    assert WithKey(a, key, ka)[0] == a[0] && WithKey(b, key, ka)[0] == b[0];
  }

  /** After equal heads, the tails keep the same elements of each key. */
  lemma TailsAgreeAll<T>(a: seq<T>, b: seq<T>, key: T -> int)
    requires |a| > 0 && |b| > 0 && a[0] == b[0]
    requires forall k :: WithKey(a, key, k) == WithKey(b, key, k)
    ensures forall k :: WithKey(a[1..], key, k) == WithKey(b[1..], key, k)
  {
    forall k
      ensures WithKey(a[1..], key, k) == WithKey(b[1..], key, k)
    {
      TailsAgree(a, b, key, k);
    }
  }

  /** A non-empty sequence has an element with the key of its head. */
  lemma HeadKeyPresent<T>(s: seq<T>, key: T -> int)
    requires |s| > 0
    ensures WithKey(s, key, key(s[0])) != []
  {
  }

  /** Equal heads and equal elements of key `k` leave equal elements of
      key `k` in the tails. */
  lemma TailsAgree<T>(a: seq<T>, b: seq<T>, key: T -> int, k: int)
    requires |a| > 0 && |b| > 0 && a[0] == b[0]
    requires WithKey(a, key, k) == WithKey(b, key, k)
    ensures WithKey(a[1..], key, k) == WithKey(b[1..], key, k)
  {
    var p := Keep(a[0], key, k);
    assert WithKey(a[1..], key, k) == WithKey(a, key, k)[|p|..];
    assert WithKey(b[1..], key, k) == WithKey(b, key, k)[|p|..];
  }

  /** The head of `b` has a key no greater than that of `a`'s head when
      both hold the same elements of each key. */
  lemma HeadKeyIsLeast<T>(a: seq<T>, b: seq<T>, key: T -> int)
    requires Sorted(b, key) && |a| > 0 && |b| > 0
    requires forall k :: WithKey(a, key, k) == WithKey(b, key, k)
    ensures key(b[0]) <= key(a[0])
  {
    var k := key(a[0]);
    assert WithKey(a, key, k) != [];
    var x := WithKey(b, key, k)[0];
    WithKeyMembers(b, key, k);
    assert x in WithKey(b, key, k);
    var i :| 0 <= i < |b| && b[i] == x;
    assert i == 0 || key(b[0]) <= key(b[i]);
  }

  /** Sorted integer sequences with the same elements are equal: on
      integers both sorts return what `std::sort` returns. */
  lemma SortedIntsUnique(a: seq<int>, b: seq<int>)
    requires Sorted(a, PQ.ByValue) && Sorted(b, PQ.ByValue)
    requires multiset(a) == multiset(b)
    ensures a == b
  {
    forall k
      ensures WithKey(a, PQ.ByValue, k) == WithKey(b, PQ.ByValue, k)
    {
      CopiesOf(a, k);
      CopiesOf(b, k);
    }
    StableSortUnique(a, b, PQ.ByValue);
  }

  /** Under the integer order the elements with key `k` are the copies of
      `k`. */
  lemma {:induction false} CopiesOf(s: seq<int>, k: int)
    ensures WithKey(s, PQ.ByValue, k) == seq(multiset(s)[k], _ => k)
    decreases |s|
  {
    if |s| > 0 {
      CopiesOf(s[1..], k);
      assert s == [s[0]] + s[1..];
      var n := multiset(s[1..])[k];
      assert multiset(s)[k] == (if s[0] == k then 1 else 0) + n;
      if s[0] == k {
        assert [k] + seq(n, _ => k) == seq(n + 1, _ => k);
      }
    }
  }

  /** On integers, the recursive sort (and with it the iterative one)
      returns the sorted permutation, as `std::sort` does. */
  lemma MatchesStdSort(s: seq<int>, sorted: seq<int>)
    requires Sorted(sorted, PQ.ByValue) && multiset(sorted) == multiset(s)
    ensures MergeSortRec(s, PQ.ByValue) == sorted
  {
    MergeSortRecSorts(s, PQ.ByValue);
    SortedIntsUnique(MergeSortRec(s, PQ.ByValue), sorted);
  }

  /** The integer test: the sort of 38, 27, 43, 3, 9, 82, 10, computed
      as the recursion splits and merges it. */
  lemma BasicIntSort()
    ensures MergeSortRec([38, 27, 43, 3, 9, 82, 10], PQ.ByValue) == [3, 9, 10, 27, 38, 43, 82]
  {
    var s := [38, 27, 43, 3, 9, 82, 10];
    SortLeftHalf();
    SortRightHalf();
    MergeHalves();
    SplitAt(s, [38, 27, 43], [3, 9, 82, 10], PQ.ByValue);
  }

  /** One step of the recursion, for a sequence whose halves are known. */
  lemma SplitAt<T>(s: seq<T>, l: seq<T>, r: seq<T>, key: T -> int)
    requires s == l + r && |l| == |s| / 2 && |s| > 1
    ensures MergeSortRec(s, key) == Merge(MergeSortRec(l, key), MergeSortRec(r, key), key)
  {
    assert s[..|l|] == l && s[|l|..] == r;
  }

  lemma SortLeftHalf()
    ensures MergeSortRec([38, 27, 43], PQ.ByValue) == [27, 38, 43]
  {
    var key := PQ.ByValue;
    SplitAt([27, 43], [27], [43], key);
    SplitAt([38, 27, 43], [38], [27, 43], key);
    assert Merge([27], [43], key) == [27, 43] by {
      assert [27][1..] == [];
    }
    assert Merge([38], [43], key) == [38, 43] by {
      assert [38][1..] == [];
    }
    assert Merge([38], [27, 43], key) == [27] + Merge([38], [43], key) by {
      assert [27, 43][1..] == [43];
    }
  }

  lemma SortRightHalf()
    ensures MergeSortRec([3, 9, 82, 10], PQ.ByValue) == [3, 9, 10, 82]
  {
    var key := PQ.ByValue;
    SplitAt([3, 9, 82, 10], [3, 9], [82, 10], key);
    SplitAt([3, 9], [3], [9], key);
    assert Merge([3], [9], key) == [3, 9] by {
      assert [3][1..] == [];
    }
    SplitAt([82, 10], [82], [10], key);
    assert Merge([82], [10], key) == [10, 82] by {
      assert [10][1..] == [];
    }
    assert Merge([9], [10, 82], key) == [9, 10, 82] by {
      assert [9][1..] == [];
    }
    assert Merge([3, 9], [10, 82], key) == [3] + Merge([9], [10, 82], key) by {
      assert [3, 9][1..] == [9];
    }
  }

  lemma MergeHalves()
    ensures Merge([27, 38, 43], [3, 9, 10, 82], PQ.ByValue) == [3, 9, 10, 27, 38, 43, 82]
  {
    var key := PQ.ByValue;
    assert Merge([43], [82], key) == [43, 82] by {
      assert [43][1..] == [];
    }
    assert Merge([38, 43], [82], key) == [38, 43, 82] by {
      assert [38, 43][1..] == [43];
    }
    assert Merge([27, 38, 43], [82], key) == [27, 38, 43, 82] by {
      assert [27, 38, 43][1..] == [38, 43];
    }
    assert Merge([27, 38, 43], [10, 82], key) == [10, 27, 38, 43, 82] by {
      assert [10, 82][1..] == [82];
    }
    assert Merge([27, 38, 43], [9, 10, 82], key) == [9, 10, 27, 38, 43, 82] by {
      assert [9, 10, 82][1..] == [10, 82];
    }
    assert [3, 9, 10, 82][1..] == [9, 10, 82];
  }

  /** The record of the custom-type test: a value and its original
      position. */
  datatype Tagged = Tagged(value: int, index: int)

  function Value(t: Tagged): int
  {
    t.value
  }

  /** The records and expected order of the custom-type test, sorted under
      the value-only key: the two records with value 3 keep their original
      order, so this states stability. The test's own `operator<` breaks
      ties by index (tests/test_merge_sort.cpp:139-145), so under that
      ordering no two records compare equal and the test as written does
      not exercise stability; this lemma is not a model of that run. */
  lemma StableTaggedSort()
    ensures MergeSortRec([Tagged(3, 0), Tagged(1, 1), Tagged(3, 2), Tagged(2, 3)], Value)
            == [Tagged(1, 1), Tagged(2, 3), Tagged(3, 0), Tagged(3, 2)]
  {
    var a, b, c, d := Tagged(3, 0), Tagged(1, 1), Tagged(3, 2), Tagged(2, 3);
    SplitAt([a, b], [a], [b], Value);
    assert Merge([a], [b], Value) == [b, a] by {
      assert [b][1..] == [];
    }
    SplitAt([c, d], [c], [d], Value);
    assert Merge([c], [d], Value) == [d, c] by {
      assert [d][1..] == [];
    }
    SplitAt([a, b, c, d], [a, b], [c, d], Value);
    assert Merge([a], [c], Value) == [a, c] by {
      assert [a][1..] == [];
    }
    assert Merge([a], [d, c], Value) == [d, a, c] by {
      assert [d, c][1..] == [c];
    }
    assert Merge([b, a], [d, c], Value) == [b, d, a, c] by {
      assert [b, a][1..] == [a];
    }
  }
}
