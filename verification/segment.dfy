/** One segment of the segmented queue: a ring buffer of `n` slots
    (`SEGMENT_SIZE`) with a start and an end index. One slot is kept free to
    tell a full segment from an empty one, so a segment holds at most
    `n - 1` elements. */
module Segment {
  import opened Wrappers

  datatype Segment = Segment(buffer: seq<int>, start: nat, end: nat)

  predicate Valid(s: Segment, n: nat)
  {
    n >= 1 && |s.buffer| == n && s.start < n && s.end < n
  }

  /** The stored elements, oldest first: the slots from `start` up to `end`,
      wrapping around the end of the buffer. */
  function Items(s: Segment, n: nat): seq<int>
    requires Valid(s, n)
  {
    if s.start <= s.end then s.buffer[s.start..s.end]
    else s.buffer[s.start..] + s.buffer[..s.end]
  }

  /** A fresh segment: value-initialised slots, both indices at 0. */
  function New(n: nat): (s: Segment)
    requires n >= 1
    ensures Valid(s, n) && Items(s, n) == []
  {
    Segment(seq(n, _ => 0), 0, 0)
  }

  /** `empty()`. */
  predicate IsEmpty(s: Segment)
  {
    s.start == s.end
  }

  /** `full()`: advancing `end` would meet `start`. */
  predicate IsFull(s: Segment, n: nat)
    requires n >= 1
  {
    (s.end + 1) % n == s.start
  }

  lemma EmptyIffNoItems(s: Segment, n: nat)
    requires Valid(s, n)
    ensures IsEmpty(s) <==> |Items(s, n)| == 0
  {
  }

  /** Full means holding `n - 1` elements, and never more. */
  lemma FullIffAtCapacity(s: Segment, n: nat)
    requires Valid(s, n)
    ensures |Items(s, n)| <= n - 1
    ensures IsFull(s, n) <==> |Items(s, n)| == n - 1
  {
    NextIndex(s.end, n);
  }

  /** `push(val)`: refused without change when full; otherwise the value is
      stored at `end`, which advances modulo `n`. */
  function Push(s: Segment, n: nat, v: int): (r: (Segment, bool))
    requires Valid(s, n)
    ensures Valid(r.0, n)
    ensures r.1 <==> !IsFull(s, n)
    ensures !r.1 ==> r.0 == s
    ensures r.1 ==> Items(r.0, n) == Items(s, n) + [v]
  {
    if IsFull(s, n) then (s, false)
    else
      var r := Segment(s.buffer[s.end := v], s.start, (s.end + 1) % n);
      PushAppends(s, n, v, r);
      (r, true)
  }

  /** Advancing an index modulo `n` wraps only at the last slot. */
  lemma NextIndex(i: nat, n: nat)
    requires i < n
    ensures (i + 1) % n == if i + 1 == n then 0 else i + 1
  {
  }

  lemma PushAppends(s: Segment, n: nat, v: int, r: Segment)
    requires Valid(s, n) && !IsFull(s, n)
    requires r == Segment(s.buffer[s.end := v], s.start, (s.end + 1) % n)
    ensures Valid(r, n) && Items(r, n) == Items(s, n) + [v]
  {
    var b := s.buffer[s.end := v];
    NextIndex(s.end, n);
    if s.start <= s.end {
      if s.end + 1 < n {
        assert b[s.start..s.end + 1] == s.buffer[s.start..s.end] + [v];
      } else {
        assert b[s.start..] == s.buffer[s.start..s.end] + [v];
        assert b[..0] == [];
      }
    } else {
      assert b[s.start..] == s.buffer[s.start..];
      assert b[..s.end + 1] == s.buffer[..s.end] + [v];
    }
  }

  /** `pop()`: nothing from an empty segment; otherwise the oldest element,
      with `start` advancing modulo `n`. */
  function Pop(s: Segment, n: nat): (r: (Segment, Option<int>))
    requires Valid(s, n)
    ensures Valid(r.0, n)
    ensures r.1.None? <==> |Items(s, n)| == 0
    ensures r.1.None? ==> r.0 == s
    ensures r.1.Some? ==> r.1.value == Items(s, n)[0] && Items(r.0, n) == Items(s, n)[1..]
  {
    if IsEmpty(s) then (s, None)
    else
      var r := s.(start := (s.start + 1) % n);
      PopTakesOldest(s, n, r);
      (r, Some(s.buffer[s.start]))
  }

  lemma PopTakesOldest(s: Segment, n: nat, r: Segment)
    requires Valid(s, n) && !IsEmpty(s)
    requires r == s.(start := (s.start + 1) % n)
    ensures Valid(r, n) && |Items(s, n)| > 0
    ensures Items(s, n)[0] == s.buffer[s.start] && Items(r, n) == Items(s, n)[1..]
  {
    NextIndex(s.start, n);
    if s.start < s.end {
    } else if s.start + 1 < n {
      assert s.buffer[s.start..] == [s.buffer[s.start]] + s.buffer[s.start + 1..];
    } else {
      assert s.buffer[s.start..] == [s.buffer[s.start]];
      assert s.buffer[0..s.end] == s.buffer[..s.end];
    }
  }

  /** `size()`: `end - start`, or the wrapped distance when `end` is behind. */
  function Size(s: Segment, n: nat): (k: nat)
    requires Valid(s, n)
    ensures k == |Items(s, n)| && k < n
  {
    if s.end >= s.start then s.end - s.start else (n - s.start) + s.end
  }
}
