/**
 * The merge engine of `TimSortController` (timsort-internal.h): the galloping
 * count `findCopiesCount` and the buffered merge `simpleMerge`.
 *
 * `simpleMerge` moves its first run into a buffer area and merges it with the
 * second run back into place, one swap at a time; what it writes into the
 * merged range is described by the pure function `GallopMerge`, which follows
 * the same comparisons and the same galloping bursts. On sorted runs
 * `GallopMerge` is the reference `Merge`.
 */
module Merge {
  import opened SortSpec
  import opened Runs

  // ---------------------------------------------------------------------
  // findCopiesCount
  // ---------------------------------------------------------------------

  /** The test `comparator(w[k], pivot) == expected`. */
  predicate Holds(v: int, pivot: int, expected: bool)
  {
    (v < pivot) == expected
  }

  /**
   * The exponential phase of `findCopiesCount`: doubles `r` while `w[r]` still
   * passes the test, clamping to `|w|` once the doubled bound reaches it.
   */
  function ExpBound(w: seq<int>, pivot: int, expected: bool, r: nat): (res: nat)
    requires 1 <= r <= |w|
    ensures r <= res <= |w|
    ensures res == |w| || !Holds(w[res], pivot, expected)
    decreases |w| - r
  {
    if r < |w| && Holds(w[r], pivot, expected) then
      if |w| <= 2 * r then |w| else ExpBound(w, pivot, expected, 2 * r)
    else r
  }

  /** The binary phase of `findCopiesCount` on `[l, r)`. */
  function BinSearch(w: seq<int>, pivot: int, expected: bool, l: nat, r: nat): (res: nat)
    requires l <= r <= |w|
    ensures l <= res <= r
    decreases r - l
  {
    if l < r then
      var m := (l + r) / 2;
      if Holds(w[m], pivot, expected) then BinSearch(w, pivot, expected, m + 1, r)
      else BinSearch(w, pivot, expected, l, m)
    else l
  }

  /**
   * `findCopiesCount(b, e, pivot, expected)` over the elements `w` of `[b, e)`:
   * one less than the length of the passing prefix the two searches find
   * (zero when that prefix is empty).
   */
  function FindCopies(w: seq<int>, pivot: int, expected: bool): (c: nat)
    requires |w| >= 1
    ensures c < |w|
  {
    var l := BinSearch(w, pivot, expected, 0, ExpBound(w, pivot, expected, 1));
    if l > 0 then l - 1 else 0
  }

  /** One halving step of the binary search, at the midpoint `m`. */
  lemma BinSearchStep(w: seq<int>, pivot: int, expected: bool, l: nat, r: nat, m: nat)
    requires l < r <= |w| && m == (l + r) / 2
    ensures l <= m < r
    ensures BinSearch(w, pivot, expected, l, r)
      == if Holds(w[m], pivot, expected) then BinSearch(w, pivot, expected, m + 1, r)
         else BinSearch(w, pivot, expected, l, m)
  {
  }

  /**
   * On a sorted range the binary search finds the exact boundary between the
   * elements below the pivot and the rest, as long as the window `[l, r)`
   * brackets it.
   */
  lemma {:induction false} BinSearchSorted(w: seq<int>, pivot: int, l: nat, r: nat)
    requires l <= r <= |w| && Sorted(w)
    requires forall k :: 0 <= k < l ==> w[k] < pivot
    requires forall k :: r <= k < |w| ==> !(w[k] < pivot)
    ensures var res := BinSearch(w, pivot, true, l, r);
      (forall k :: 0 <= k < res ==> w[k] < pivot) && (forall k :: res <= k < |w| ==> !(w[k] < pivot))
    decreases r - l
  {
    if l < r {
      var m := (l + r) / 2;
      BinSearchStep(w, pivot, true, l, r, m);
      if w[m] < pivot {
        BelowThrough(w, pivot, m);
        BinSearchSorted(w, pivot, m + 1, r);
      } else {
        NotBelowFrom(w, pivot, m);
        BinSearchSorted(w, pivot, l, m);
      }
    }
  }

  /** In a sorted sequence everything up to an element below the pivot is below it too. */
  lemma BelowThrough(w: seq<int>, pivot: int, m: int)
    requires Sorted(w) && 0 <= m < |w| && w[m] < pivot
    ensures forall k :: 0 <= k <= m ==> w[k] < pivot
  {
    forall k | 0 <= k <= m ensures w[k] < pivot {
      assert w[k] <= w[m];
    }
  }

  /** In a sorted sequence nothing from an element not below the pivot on is below it. */
  lemma NotBelowFrom(w: seq<int>, pivot: int, m: int)
    requires Sorted(w) && 0 <= m < |w| && !(w[m] < pivot)
    ensures forall k :: m <= k < |w| ==> !(w[k] < pivot)
  {
    forall k | m <= k < |w| ensures !(w[k] < pivot) {
      assert w[m] <= w[k];
    }
  }

  /**
   * On a sorted range `findCopiesCount(..., true)` counts all but one of the
   * leading elements below the pivot: every one of the first `c` is below it,
   * and the element after the next one is not.
   */
  lemma FindCopiesSorted(w: seq<int>, pivot: int)
    requires |w| >= 1 && Sorted(w)
    ensures var c := FindCopies(w, pivot, true);
      && (forall k :: 0 <= k < c ==> w[k] < pivot)
      && (c + 1 < |w| ==> !(w[c + 1] < pivot))
  {
    var r := ExpBound(w, pivot, true, 1);
    assert forall k :: r <= k < |w| ==> !(w[k] < pivot) by {
      forall k | r <= k < |w| ensures !(w[k] < pivot) {
        assert w[r] <= w[k];
      }
    }
    BinSearchSorted(w, pivot, 0, r);
  }

  /**
   * `findCopiesCount`: the doubling loop and the halving loop of the source,
   * over the elements `a[lo..hi]`.
   */
  method FindCopiesCount(a: array<int>, lo: int, hi: int, pivot: int, expected: bool) returns (c: nat)
    requires 0 <= lo < hi <= a.Length
    ensures c == FindCopies(a[lo..hi], pivot, expected)
  {
    var r := ExpPhase(a, lo, hi, pivot, expected);
    var l := BinPhase(a, lo, hi, pivot, expected, r);
    c := if l > 0 then l - 1 else 0;
  }

  /** The doubling loop of `findCopiesCount`, clamped to the range. */
  method ExpPhase(a: array<int>, lo: int, hi: int, pivot: int, expected: bool) returns (r: nat)
    requires 0 <= lo < hi <= a.Length
    ensures r == ExpBound(a[lo..hi], pivot, expected, 1)
  {
    ghost var w := a[lo..hi];
    r := 1;
    while lo + r < hi && Holds(a[lo + r], pivot, expected)
      invariant 1 <= r <= hi - lo
      invariant ExpBound(w, pivot, expected, r) == ExpBound(w, pivot, expected, 1)
      decreases hi - lo - r
    {
      assert a[lo + r] == w[r];
      r := 2 * r;
      if hi - lo <= r {
        r := hi - lo;
        break;
      }
    }
    if r < hi - lo {
      assert a[lo + r] == w[r];
    }
  }

  /** The halving loop of `findCopiesCount` on `[0, r)`. */
  method BinPhase(a: array<int>, lo: int, hi: int, pivot: int, expected: bool, r: nat) returns (l: nat)
    requires 0 <= lo <= hi <= a.Length && r <= hi - lo
    ensures l == BinSearch(a[lo..hi], pivot, expected, 0, r)
  {
    ghost var w := a[lo..hi];
    var r' := r;
    l := 0;
    while l < r'
      invariant l <= r' <= hi - lo
      invariant BinSearch(w, pivot, expected, l, r') == BinSearch(w, pivot, expected, 0, r)
      decreases r' - l
    {
      var m := (l + r') / 2;
      BinSearchStep(w, pivot, expected, l, r', m);
      var v := a[lo + m];
      SliceAt(a, lo, hi, m);
      if Holds(v, pivot, expected) {
        l := m + 1;
      } else {
        r' := m;
      }
    }
  }

  /** An element of an array slice is the array's element at the shifted index. */
  lemma SliceAt(a: array<int>, lo: int, hi: int, k: int)
    requires 0 <= lo && lo + k < hi <= a.Length && 0 <= k
    ensures a[lo..hi][k] == a[lo + k]
  {
  }

  // ---------------------------------------------------------------------
  // What simpleMerge writes
  // ---------------------------------------------------------------------

  /**
   * How many elements the winning side hands over in one step: one, or, when
   * the run of equal comparisons has just reached the gallop threshold,
   * `findCopiesCount` of the winner's remaining elements against the other
   * head (at least one, because the step's own move follows the burst).
   */
  function BurstLen(w: seq<int>, pivot: int, gallopNow: bool): (t: nat)
    requires |w| >= 1
    ensures 1 <= t <= |w|
  {
    if gallopNow then
      var c := FindCopies(w, pivot, true);
      if c == 0 then 1 else c
    else 1
  }

  /**
   * The loop state of `simpleMerge`'s merge phase: `i` elements of the first
   * run and `j` of the second have been moved, `last` is the previous
   * comparison and `same` counts its repeats (-1 before the first comparison).
   */
  datatype Cursor = Cursor(i: nat, j: nat, last: bool, same: int)

  /** The cursor before the first step. */
  const Start := Cursor(0, 0, false, -1)

  /** One iteration of the merge loop: the elements it moves, in order, and the new state. */
  datatype Step = Step(chunk: seq<int>, next: Cursor)

  /** The cursor points inside both runs. */
  predicate InRange(x: seq<int>, y: seq<int>, cur: Cursor)
  {
    cur.i <= |x| && cur.j <= |y|
  }

  /** Both runs are used up. */
  predicate Done(x: seq<int>, y: seq<int>, cur: Cursor)
  {
    cur.i == |x| && cur.j == |y|
  }

  /**
   * One iteration of `simpleMerge`'s loop with gallop threshold `g`: when a
   * run is used up the other one's head moves; otherwise the head of `x` wins
   * only when strictly smaller than the head of `y`. A comparison equal to the
   * previous one counts a repeat; the repeat that reaches `g` moves a
   * `BurstLen` of the winner's elements instead of one. Every step moves a
   * non-empty stretch from exactly one of the runs.
   */
  function NextStep(x: seq<int>, y: seq<int>, g: nat, cur: Cursor): (s: Step)
    requires InRange(x, y, cur) && !Done(x, y, cur)
    ensures InRange(x, y, s.next)
    ensures || (s.next.j == cur.j && cur.i < s.next.i && s.chunk == x[cur.i..s.next.i])
            || (s.next.i == cur.i && cur.j < s.next.j && s.chunk == y[cur.j..s.next.j])
  {
    var i, j := cur.i, cur.j;
    if i == |x| then Step([y[j]], cur.(j := j + 1))
    else if j == |y| then Step([x[i]], cur.(i := i + 1))
    else
      var c := x[i] < y[j];
      var repeat := c == cur.last && cur.same != -1;
      var same := if repeat then cur.same + 1 else 0;
      var gallopNow := repeat && same == g;
      if c then
        var t := BurstLen(x[i..], y[j], gallopNow);
        Step(x[i..i + t], Cursor(i + t, j, c, same))
      else
        var t := BurstLen(y[j..], x[i], gallopNow);
        Step(y[j..j + t], Cursor(i, j + t, c, same))
  }

  /** What the merge loop writes from state `cur` on. */
  function GallopFrom(x: seq<int>, y: seq<int>, g: nat, cur: Cursor): (r: seq<int>)
    requires InRange(x, y, cur)
    ensures |r| == |x| - cur.i + |y| - cur.j
    decreases |x| - cur.i + |y| - cur.j, 1
  {
    if Done(x, y, cur) then [] else GallopStep(x, y, g, cur)
  }

  /** What the merge loop writes from a state with elements left: one step, then the rest. */
  function GallopStep(x: seq<int>, y: seq<int>, g: nat, cur: Cursor): (r: seq<int>)
    requires InRange(x, y, cur) && !Done(x, y, cur)
    ensures |r| == |x| - cur.i + |y| - cur.j
    decreases |x| - cur.i + |y| - cur.j, 0
  {
    var s := NextStep(x, y, g, cur);
    s.chunk + GallopFrom(x, y, g, s.next)
  }

  /**
   * Everything `simpleMerge(x, y)` writes into the merged range, with gallop
   * threshold `g`: a rearrangement of the two runs, whatever their order.
   */
  function GallopMerge(x: seq<int>, y: seq<int>, g: nat): (r: seq<int>)
    ensures |r| == |x| + |y|
    ensures multiset(r) == multiset(x + y)
  {
    GallopFromPerm(x, y, g, Start);
    assert x[0..] == x && y[0..] == y;
    GallopFrom(x, y, g, Start)
  }

  /** One step moves a stretch of one run into the output. */
  lemma StepPerm(x: seq<int>, y: seq<int>, g: nat, cur: Cursor)
    requires InRange(x, y, cur) && !Done(x, y, cur)
    ensures var s := NextStep(x, y, g, cur);
      multiset(x[cur.i..]) + multiset(y[cur.j..]) == multiset(s.chunk) + multiset(x[s.next.i..]) + multiset(y[s.next.j..])
  {
    var s := NextStep(x, y, g, cur);
    if s.next.j == cur.j && cur.i < s.next.i && s.chunk == x[cur.i..s.next.i] {
      assert x[cur.i..] == s.chunk + x[s.next.i..];
    } else {
      assert y[cur.j..] == s.chunk + y[s.next.j..];
    }
  }

  /** The galloping merge rearranges the elements it is given. */
  lemma {:induction false} GallopFromPerm(x: seq<int>, y: seq<int>, g: nat, cur: Cursor)
    requires InRange(x, y, cur)
    ensures multiset(GallopFrom(x, y, g, cur)) == multiset(x[cur.i..]) + multiset(y[cur.j..])
    decreases |x| - cur.i + |y| - cur.j
  {
    if Done(x, y, cur) {
      assert x[cur.i..] == [] && y[cur.j..] == [];
    } else {
      var s := NextStep(x, y, g, cur);
      GallopFromPerm(x, y, g, s.next);
      StepPerm(x, y, g, cur);
      assert GallopFrom(x, y, g, cur) == s.chunk + GallopFrom(x, y, g, s.next);
    }
  }

  /** A leading stretch of `x` below the head of `y` comes out of `Merge` first. */
  lemma {:induction false} MergeTakeX(x: seq<int>, y: seq<int>, t: nat)
    requires t <= |x| && y != []
    requires forall k :: 0 <= k < t ==> x[k] < y[0]
    ensures Merge(x, y) == x[..t] + Merge(x[t..], y)
  {
    if t == 0 {
      assert x[..0] == [] && x[0..] == x;
    } else {
      var tail := x[1..];
      assert x[0] < y[0];
      assert Merge(x, y) == [x[0]] + Merge(tail, y);
      forall k | 0 <= k < t - 1
        ensures tail[k] < y[0]
      {
        assert tail[k] == x[k + 1];
      }
      MergeTakeX(tail, y, t - 1);
      assert tail[t - 1..] == x[t..];
      calc {
        Merge(x, y);
        [x[0]] + (tail[..t - 1] + Merge(x[t..], y));
        ([x[0]] + tail[..t - 1]) + Merge(x[t..], y);
        { assert [x[0]] + tail[..t - 1] == x[..t]; }
        x[..t] + Merge(x[t..], y);
      }
    }
  }


  /** A leading stretch of `y` not above the head of `x` comes out of `Merge` first. */
  lemma {:induction false} MergeTakeY(x: seq<int>, y: seq<int>, t: nat)
    requires t <= |y| && x != []
    requires forall k :: 0 <= k < t ==> !(x[0] < y[k])
    ensures Merge(x, y) == y[..t] + Merge(x, y[t..])
  {
    if t == 0 {
      assert y[..0] == [] && y[0..] == y;
    } else {
      var tail := y[1..];
      assert !(x[0] < y[0]);
      assert Merge(x, y) == [y[0]] + Merge(x, tail);
      forall k | 0 <= k < t - 1
        ensures !(x[0] < tail[k])
      {
        assert tail[k] == y[k + 1];
      }
      MergeTakeY(x, tail, t - 1);
      assert tail[t - 1..] == y[t..];
      calc {
        Merge(x, y);
        [y[0]] + (tail[..t - 1] + Merge(x, y[t..]));
        ([y[0]] + tail[..t - 1]) + Merge(x, y[t..]);
        { assert [y[0]] + tail[..t - 1] == y[..t]; }
        y[..t] + Merge(x, y[t..]);
      }
    }
  }


  /**
   * On sorted runs one step of the loop emits exactly what the reference
   * merge emits first: a burst moves only elements that `Merge` would also
   * take from the same side before switching.
   */
  lemma StepIsMerge(x: seq<int>, y: seq<int>, g: nat, cur: Cursor)
    requires InRange(x, y, cur) && !Done(x, y, cur)
    requires Sorted(x) && Sorted(y)
    ensures var s := NextStep(x, y, g, cur);
      Merge(x[cur.i..], y[cur.j..]) == s.chunk + Merge(x[s.next.i..], y[s.next.j..])
  {
    var i, j := cur.i, cur.j;
    var s := NextStep(x, y, g, cur);
    if i == |x| {
      assert x[i..] == [] && y[j..] == [y[j]] + y[j + 1..];
    } else if j == |y| {
      assert y[j..] == [] && x[i..] == [x[i]] + x[i + 1..];
    } else if s.next.j == j {
      StepXBelow(x, y, g, cur);
      StepIsMergeX(x, y, i, j, s.next.i);
      assert s.chunk == x[i..s.next.i];
    } else {
      StepYNotAbove(x, y, g, cur);
      StepIsMergeY(x, y, i, j, s.next.j);
      assert s.chunk == y[j..s.next.j];
    }
  }

  /** A burst `x[i..e]` below the head of `y` is what `Merge` emits first. */
  lemma StepIsMergeX(x: seq<int>, y: seq<int>, i: nat, j: nat, e: nat)
    requires i <= e <= |x| && j < |y|
    requires forall k :: i <= k < e ==> x[k] < y[j]
    ensures Merge(x[i..], y[j..]) == x[i..e] + Merge(x[e..], y[j..])
  {
    var w := x[i..];
    var t := e - i;
    assert forall k :: 0 <= k < t ==> w[k] < y[j] by {
      forall k | 0 <= k < t ensures w[k] < y[j] {
        assert w[k] == x[i + k];
      }
    }
    MergeTakeX(w, y[j..], t);
    assert w[..t] == x[i..e] && w[t..] == x[e..];
  }

  /** A burst `y[j..e]` not above the head of `x` is what `Merge` emits first. */
  lemma StepIsMergeY(x: seq<int>, y: seq<int>, i: nat, j: nat, e: nat)
    requires i < |x| && j <= e <= |y|
    requires forall k :: j <= k < e ==> !(x[i] < y[k])
    ensures Merge(x[i..], y[j..]) == y[j..e] + Merge(x[i..], y[e..])
  {
    var w := y[j..];
    var t := e - j;
    assert forall k :: 0 <= k < t ==> !(x[i] < w[k]) by {
      forall k | 0 <= k < t ensures !(x[i] < w[k]) {
        assert w[k] == y[j + k];
      }
    }
    MergeTakeY(x[i..], w, t);
    assert w[..t] == y[j..e] && w[t..] == y[e..];
  }

  /** On sorted runs, every element a step moves from `x` is below the head of `y`. */
  lemma StepXBelow(x: seq<int>, y: seq<int>, g: nat, cur: Cursor)
    requires InRange(x, y, cur) && cur.i < |x| && cur.j < |y|
    requires Sorted(x)
    requires NextStep(x, y, g, cur).next.j == cur.j
    ensures forall k :: cur.i <= k < NextStep(x, y, g, cur).next.i ==> x[k] < y[cur.j]
  {
    var i, j := cur.i, cur.j;
    var s := NextStep(x, y, g, cur);
    var w := x[i..];
    var t := s.next.i - i;
    assert x[i] < y[j];
    if t > 1 {
      FindCopiesSorted(w, y[j]);
      assert forall k :: 0 <= k < t ==> w[k] < y[j];
    }
  }

  /** On sorted runs, no element a step moves from `y` is above the head of `x`. */
  lemma StepYNotAbove(x: seq<int>, y: seq<int>, g: nat, cur: Cursor)
    requires InRange(x, y, cur) && cur.i < |x| && cur.j < |y|
    requires Sorted(y)
    requires NextStep(x, y, g, cur).next.j != cur.j
    ensures forall k :: cur.j <= k < NextStep(x, y, g, cur).next.j ==> !(x[cur.i] < y[k])
  {
    var i, j := cur.i, cur.j;
    var s := NextStep(x, y, g, cur);
    var w := y[j..];
    var t := s.next.j - j;
    assert !(x[i] < y[j]);
    if t > 1 {
      FindCopiesSorted(w, x[i]);
      assert forall k :: 0 <= k < t ==> w[k] < x[i];
    }
  }

  /**
   * Galloping changes only how many elements move per step, never which
   * element comes next: on sorted runs the galloping merge from any state is
   * the reference merge of what is left.
   */
  lemma {:induction false} GallopFromIsMerge(x: seq<int>, y: seq<int>, g: nat, cur: Cursor)
    requires InRange(x, y, cur)
    requires Sorted(x) && Sorted(y)
    ensures GallopFrom(x, y, g, cur) == Merge(x[cur.i..], y[cur.j..])
    decreases |x| - cur.i + |y| - cur.j
  {
    if Done(x, y, cur) {
      assert x[cur.i..] == [] && y[cur.j..] == [];
    } else {
      var s := NextStep(x, y, g, cur);
      GallopFromIsMerge(x, y, g, s.next);
      StepIsMerge(x, y, g, cur);
    }
  }

  /** On sorted runs `simpleMerge` writes their sorted arrangement, whatever the gallop threshold. */
  lemma GallopMergeSorted(x: seq<int>, y: seq<int>, g: nat)
    requires Sorted(x) && Sorted(y)
    ensures GallopMerge(x, y, g) == Merge(x, y) == SortSeq(x + y)
  {
    GallopFromIsMerge(x, y, g, Start);
    assert x[0..] == x && y[0..] == y;
    MergeIsSortSeq(x, y);
  }

  // ---------------------------------------------------------------------
  // simpleMerge
  // ---------------------------------------------------------------------

  /**
   * The layout during `simpleMerge`'s merge phase after `i` elements of the
   * first run `x` and `j` of the second run `y` have moved: the first run's
   * iterator `m1` is at `buffer + i`, the second's `m2` at `e1 + j`, and the
   * output `out` fills `[b1, res)` with `res == b1 + i + j`. The rest of `x`
   * waits at the end of the buffer area, the rest of `y` at the end of
   * `[e1, e2)`, and the displaced buffer contents `B` sit in the used-up part
   * of the buffer area and in the gap `[res, m2)`. Outside the two areas
   * nothing differs from `o`.
   */
  ghost predicate Merging(t: seq<int>, o: seq<int>, x: seq<int>, y: seq<int>, B: seq<int>,
                          b1: int, e1: int, e2: int, buffer: int,
                          m1: int, m2: int, res: int, i: int, j: int, out: seq<int>)
  {
    && |t| == |o| && 0 <= b1 && b1 + |x| == e1 && e1 + |y| == e2 && e2 <= buffer
    && |B| == |x| && buffer + |x| <= |t|
    && 0 <= i <= |x| && 0 <= j <= |y|
    && m1 == buffer + i && m2 == e1 + j && res == b1 + i + j
    && t[b1..res] == out
    && t[m1..buffer + |x|] == x[i..]
    && t[m2..e2] == y[j..]
    && multiset(t[buffer..m1]) + multiset(t[res..m2]) == multiset(B)
    && t[..b1] == o[..b1] && t[e2..buffer] == o[e2..buffer] && t[buffer + |x|..] == o[buffer + |x|..]
  }

  /** Swapping `p <= q` leaves every slice that contains neither position unchanged. */
  lemma SwapOutside(t: seq<int>, u: seq<int>, p: int, q: int, lo: int, hi: int)
    requires 0 <= p <= q < |t| && 0 <= lo <= hi <= |t| && u == t[p := t[q]][q := t[p]]
    requires hi <= p || q < lo || (p < lo && hi <= q)
    ensures u[lo..hi] == t[lo..hi]
  {
  }

  /** Swapping `p <= q` leaves the prefix before `p` unchanged. */
  lemma SwapTake(t: seq<int>, u: seq<int>, p: int, q: int, hi: int)
    requires 0 <= hi <= p <= q < |t| && u == t[p := t[q]][q := t[p]]
    ensures u[..hi] == t[..hi]
  {
  }

  /** Swapping `p <= q` leaves the suffix after `q` unchanged. */
  lemma SwapDrop(t: seq<int>, u: seq<int>, p: int, q: int, lo: int)
    requires 0 <= p <= q < lo <= |t| && u == t[p := t[q]][q := t[p]]
    ensures u[lo..] == t[lo..]
  {
  }

  /** After swapping `p <= q`, the slice ending at `p` gains `t[q]`. */
  lemma SwapFront(t: seq<int>, u: seq<int>, p: int, q: int, lo: int, p1: int)
    requires 0 <= lo <= p <= q < |t| && u == t[p := t[q]][q := t[p]] && p1 == p + 1
    ensures u[lo..p1] == t[lo..p] + [t[q]]
  {
  }

  /** After swapping `p < q`, the slice ending at `q`, starting after `p`, gains `t[p]`. */
  lemma SwapBack(t: seq<int>, u: seq<int>, p: int, q: int, lo: int, q1: int)
    requires 0 <= p < lo <= q < |t| && u == t[p := t[q]][q := t[p]] && q1 == q + 1
    ensures u[lo..q1] == t[lo..q] + [t[p]]
  {
  }

  /** Swapping `p <= q` rotates the stretch `[p, q]` by one: what lay in `[p, q)` now lies in `(p, q]`. */
  lemma SwapGap(t: seq<int>, u: seq<int>, p: int, q: int, p1: int, q1: int)
    requires 0 <= p <= q < |t| && u == t[p := t[q]][q := t[p]] && p1 == p + 1 && q1 == q + 1
    ensures multiset(u[p1..q1]) == multiset(t[p..q])
  {
    if p < q {
      SwapBack(t, u, p, q, p1, q1);
      assert t[p..q] == [t[p]] + t[p1..q];
    }
  }

  /** Swapping the next element of `x` (from the buffer area) into the output position `res`. */
  lemma TakeX(t: seq<int>, o: seq<int>, x: seq<int>, y: seq<int>, B: seq<int>, b1: int, e1: int, e2: int, buffer: int,
              m1: int, m2: int, res: int, i: int, j: int, out: seq<int>,
              u: seq<int>, m1': int, res': int, i': int, out': seq<int>)
    requires Merging(t, o, x, y, B, b1, e1, e2, buffer, m1, m2, res, i, j, out) && i < |x|
    requires u == t[res := t[m1]][m1 := t[res]] && m1' == m1 + 1 && res' == res + 1 && i' == i + 1
    requires out' == out + [t[m1]]
    ensures t[m1] == x[i]
    ensures Merging(u, o, x, y, B, b1, e1, e2, buffer, m1', m2, res', i', j, out')
  {
    var bx := buffer + |x|;
    DropHead(t, m1, bx, m1', x, i, i');
    SwapFront(t, u, res, m1, b1, res');
    SwapOutside(t, u, res, m1, m1', bx);
    SwapOutside(t, u, res, m1, m2, e2);
    SwapTake(t, u, res, m1, b1);
    SwapOutside(t, u, res, m1, e2, buffer);
    SwapDrop(t, u, res, m1, bx);
    SwapBack(t, u, res, m1, buffer, m1');
    SwapOutside(t, u, res, m1, res', m2);
    HeadMultiset(t, res, res', m2);
    assert multiset(u[buffer..m1']) == multiset(t[buffer..m1]) + multiset{t[res]};
  }

  /** A slice equal to a suffix loses its head in step with the suffix. */
  lemma DropHead(t: seq<int>, lo: int, hi: int, lo1: int, s: seq<int>, k: int, k1: int)
    requires 0 <= lo < hi <= |t| && 0 <= k <= |s| && t[lo..hi] == s[k..] && lo1 == lo + 1 && k1 == k + 1
    ensures t[lo] == s[k] && t[lo1..hi] == s[k1..]
  {
    assert t[lo] == t[lo..hi][0] == s[k..][0];
    assert t[lo1..hi] == t[lo..hi][1..];
    assert s[k1..] == s[k..][1..];
  }

  /** The multiset of a non-empty slice is its head plus the rest. */
  lemma HeadMultiset(t: seq<int>, lo: int, lo1: int, hi: int)
    requires 0 <= lo < hi <= |t| && lo1 == lo + 1
    ensures multiset(t[lo..hi]) == multiset{t[lo]} + multiset(t[lo1..hi])
  {
    assert t[lo..hi] == [t[lo]] + t[lo1..hi];
  }

  /** Swapping the next element of `y` into the output position `res`; the displaced element fills the gap. */
  lemma TakeY(t: seq<int>, o: seq<int>, x: seq<int>, y: seq<int>, B: seq<int>, b1: int, e1: int, e2: int, buffer: int,
              m1: int, m2: int, res: int, i: int, j: int, out: seq<int>,
              u: seq<int>, m2': int, res': int, j': int, out': seq<int>)
    requires Merging(t, o, x, y, B, b1, e1, e2, buffer, m1, m2, res, i, j, out) && j < |y|
    requires u == t[res := t[m2]][m2 := t[res]] && m2' == m2 + 1 && res' == res + 1 && j' == j + 1
    requires out' == out + [t[m2]]
    ensures t[m2] == y[j]
    ensures Merging(u, o, x, y, B, b1, e1, e2, buffer, m1, m2', res', i, j', out')
  {
    var bx := buffer + |x|;
    DropHead(t, m2, e2, m2', y, j, j');
    SwapFront(t, u, res, m2, b1, res');
    SwapOutside(t, u, res, m2, m2', e2);
    SwapOutside(t, u, res, m2, m1, bx);
    SwapOutside(t, u, res, m2, buffer, m1);
    SwapTake(t, u, res, m2, b1);
    SwapOutside(t, u, res, m2, e2, buffer);
    SwapDrop(t, u, res, m2, bx);
    SwapGap(t, u, res, m2, res', m2');
  }

  /** After the first run is swapped into the buffer area, the merge phase starts from an empty output. */
  lemma MergingStart(o: seq<int>, t: seq<int>, x: seq<int>, y: seq<int>, B: seq<int>, b1: int, e1: int, e2: int, buffer: int, bx: int)
    requires 0 <= b1 <= e1 <= e2 <= buffer && bx == buffer + |x| && bx <= |o| == |t|
    requires x == o[b1..e1] && y == o[e1..e2] && B == o[buffer..bx]
    requires t[b1..e1] == B && t[buffer..bx] == x
    requires t[..b1] == o[..b1] && t[e1..buffer] == o[e1..buffer] && t[bx..] == o[bx..]
    ensures Merging(t, o, x, y, B, b1, e1, e2, buffer, buffer, e1, b1, 0, 0, [])
  {
    assert t[b1..b1] == [];
    assert x[0..] == x && y[0..] == y;
    SliceOfSlice(t, e1, buffer, e2);
    SliceOfSlice(o, e1, buffer, e2);
    assert multiset(t[buffer..buffer]) == multiset{};
  }

  /** A slice `[lo, hi)` splits at `mid` into two slices of itself. */
  lemma SliceOfSlice(s: seq<int>, lo: int, hi: int, mid: int)
    requires 0 <= lo <= mid <= hi <= |s|
    ensures s[lo..mid] == s[lo..hi][..mid - lo] && s[mid..hi] == s[lo..hi][mid - lo..]
  {
  }

  /** When both runs are used up, the merged range holds the output and the buffer area the displaced elements. */
  lemma MergingEnd(t: seq<int>, o: seq<int>, x: seq<int>, y: seq<int>, B: seq<int>, b1: int, e1: int, e2: int, buffer: int,
                   m1: int, m2: int, res: int, out: seq<int>, bx: int)
    requires Merging(t, o, x, y, B, b1, e1, e2, buffer, m1, m2, res, |x|, |y|, out) && bx == buffer + |x|
    ensures t[b1..e2] == out
    ensures multiset(t[buffer..bx]) == multiset(B)
    ensures t[..b1] == o[..b1] && t[e2..buffer] == o[e2..buffer] && t[bx..] == o[bx..]
  {
    assert t[e2..e2] == [];
  }

  /** `swapIterators(itRes++, itMain1++)`: the head of the first run goes to the output. */
  method MoveX(a: array<int>, b1: int, e1: int, e2: int, buffer: int, m1: int, m2: int, res: int,
               ghost i: nat, ghost j: nat,
               ghost t: seq<int>, ghost o: seq<int>, ghost x: seq<int>, ghost y: seq<int>, ghost B: seq<int>, ghost out: seq<int>)
    returns (m1': int, res': int, ghost i': nat, ghost t': seq<int>, ghost out': seq<int>)
    requires a[..] == t && Merging(t, o, x, y, B, b1, e1, e2, buffer, m1, m2, res, i, j, out) && i < |x|
    modifies a
    ensures m1' == m1 + 1 && res' == res + 1 && i' == i + 1 && out' == out + [x[i]]
    ensures a[..] == t' && Merging(t', o, x, y, B, b1, e1, e2, buffer, m1', m2, res', i', j, out')
  {
    t' := t[res := t[m1]][m1 := t[res]];
    m1', res', i', out' := m1 + 1, res + 1, i + 1, out + [t[m1]];
    TakeX(t, o, x, y, B, b1, e1, e2, buffer, m1, m2, res, i, j, out, t', m1', res', i', out');
    SwapIterators(a, res, m1);
  }

  /** `swapIterators(itRes++, itMain2++)`: the head of the second run goes to the output. */
  method MoveY(a: array<int>, b1: int, e1: int, e2: int, buffer: int, m1: int, m2: int, res: int,
               ghost i: nat, ghost j: nat,
               ghost t: seq<int>, ghost o: seq<int>, ghost x: seq<int>, ghost y: seq<int>, ghost B: seq<int>, ghost out: seq<int>)
    returns (m2': int, res': int, ghost j': nat, ghost t': seq<int>, ghost out': seq<int>)
    requires a[..] == t && Merging(t, o, x, y, B, b1, e1, e2, buffer, m1, m2, res, i, j, out) && j < |y|
    modifies a
    ensures m2' == m2 + 1 && res' == res + 1 && j' == j + 1 && out' == out + [y[j]]
    ensures a[..] == t' && Merging(t', o, x, y, B, b1, e1, e2, buffer, m1, m2', res', i, j', out')
  {
    t' := t[res := t[m2]][m2 := t[res]];
    m2', res', j', out' := m2 + 1, res + 1, j + 1, out + [t[m2]];
    TakeY(t, o, x, y, B, b1, e1, e2, buffer, m1, m2, res, i, j, out, t', m2', res', j', out');
    SwapIterators(a, res, m2);
  }

  /**
   * `simpleMerge(b1, e1, b2, e2, buffer)` for adjacent runs (`e1 == b2`), the
   * first no longer than the second, and a buffer area after them: the first
   * run is swapped into the buffer area, then `MergePhase` swaps the winning
   * head into the output position one element (or one galloping burst) at a
   * time. Afterwards `[b1, e2)` holds `GallopMerge` of the two runs, the buffer
   * area holds its old elements in some order, and nothing else has changed.
   */
  method SimpleMerge(a: array<int>, b1: int, e1: int, b2: int, e2: int, buffer: int, g: nat)
    requires 0 <= b1 <= e1 == b2 <= e2 <= buffer
    requires e1 - b1 <= e2 - b2
    requires buffer + (e1 - b1) <= a.Length
    modifies a
    ensures a[b1..e2] == GallopMerge(old(a[b1..e1]), old(a[b2..e2]), g)
    ensures multiset(a[buffer..buffer + (e1 - b1)]) == multiset(old(a[buffer..buffer + (e1 - b1)]))
    ensures a[..b1] == old(a[..b1]) && a[e2..buffer] == old(a[e2..buffer])
    ensures a[buffer + (e1 - b1)..] == old(a[buffer + (e1 - b1)..])
  {
    ghost var o := a[..];
    ghost var x, y := a[b1..e1], a[b2..e2];
    ghost var B := a[buffer..buffer + (e1 - b1)];
    var itBuf := SwapIntoBuffer(a, b1, e1, buffer);
    ghost var t := a[..];
    MergingStart(o, t, x, y, B, b1, e1, e2, buffer, itBuf);
    t := MergePhase(a, b1, e1, b2, e2, buffer, itBuf, g, t, o, x, y, B);
    assert a[buffer..itBuf] == t[buffer..itBuf] && a[itBuf..] == t[itBuf..];
  }

  /**
   * The first loop of `simpleMerge`: the first run and the start of the
   * buffer area trade places, element by element.
   */
  method SwapIntoBuffer(a: array<int>, b1: int, e1: int, buffer: int) returns (itBuf: int)
    requires 0 <= b1 <= e1 <= buffer && buffer + (e1 - b1) <= a.Length
    modifies a
    ensures itBuf == buffer + (e1 - b1)
    ensures a[b1..e1] == old(a[buffer..itBuf]) && a[buffer..itBuf] == old(a[b1..e1])
    ensures a[..b1] == old(a[..b1]) && a[e1..buffer] == old(a[e1..buffer]) && a[itBuf..] == old(a[itBuf..])
  {
    ghost var o := a[..];
    ghost var n: nat := 0;
    var itMain1 := b1;
    itBuf := buffer;
    while itMain1 < e1
      invariant itMain1 == b1 + n && itBuf == buffer + n && itMain1 <= e1
      invariant a[..] == SwapPrefix(o, b1, buffer, n)
    {
      SwapPrefixNext(o, b1, buffer, n, itMain1, itBuf);
      SwapIterators(a, itMain1, itBuf);
      itMain1, itBuf, n := itMain1 + 1, itBuf + 1, n + 1;
    }
    SwapPrefixSlices(o, b1, buffer, n, e1, itBuf);
  }

  /**
   * The merge loop of `simpleMerge`: the first run waits in
   * `[buffer, buffer + |x|)`, the second in `[b2, e2)`, and the output is
   * written from `b1` on. Each iteration is one `NextStep`. The ghost `t`
   * mirrors the array's contents. Afterwards the layout is the one
   * `MergingEnd` reads off.
   */
  method MergePhase(a: array<int>, b1: int, e1: int, b2: int, e2: int, buffer: int, itBuf: int, g: nat,
                    ghost t0: seq<int>, ghost o: seq<int>, ghost x: seq<int>, ghost y: seq<int>, ghost B: seq<int>)
    returns (ghost t: seq<int>)
    requires e1 == b2 && itBuf == buffer + |x|
    requires a[..] == t0 && Merging(t0, o, x, y, B, b1, e1, e2, buffer, buffer, e1, b1, 0, 0, [])
    modifies a
    ensures a[..] == t && t[b1..e2] == GallopMerge(x, y, g)
    ensures multiset(t[buffer..itBuf]) == multiset(B)
    ensures t[..b1] == o[..b1] && t[e2..buffer] == o[e2..buffer] && t[itBuf..] == o[itBuf..]
  {
    var itMain1 := buffer;
    var itMain2, itRes := b2, b1;
    var lastComparison, sameComparisonCount := false, -1;
    ghost var out: seq<int> := [];
    ghost var i: nat, j: nat := 0, 0;
    t := t0;
    while itMain1 < itBuf || itMain2 < e2
      invariant itBuf == buffer + |x|
      invariant a[..] == t && Merging(t, o, x, y, B, b1, e1, e2, buffer, itMain1, itMain2, itRes, i, j, out)
      invariant out + GallopFrom(x, y, g, Cursor(i, j, lastComparison, sameComparisonCount)) == GallopMerge(x, y, g)
      decreases |x| - i + |y| - j
    {
      ghost var cur, out0 := Cursor(i, j, lastComparison, sameComparisonCount), out;
      itMain1, itMain2, itRes, lastComparison, sameComparisonCount, i, j, t, out :=
        PhaseStep(a, b1, e1, b2, e2, buffer, g, itMain1, itBuf, itMain2, itRes,
                  lastComparison, sameComparisonCount, i, j, t, o, x, y, B, out);
      Advance(x, y, g, cur, out0, out, Cursor(i, j, lastComparison, sameComparisonCount));
    }
    MergingEnd(t, o, x, y, B, b1, e1, e2, buffer, itMain1, itMain2, itRes, out, itBuf);
    assert GallopFrom(x, y, g, Cursor(i, j, lastComparison, sameComparisonCount)) == [];
  }

  /** What is still to be written shrinks by the step's chunk, which the output gains. */
  lemma Advance(x: seq<int>, y: seq<int>, g: nat, cur: Cursor, out0: seq<int>, out: seq<int>, next: Cursor)
    requires InRange(x, y, cur) && !Done(x, y, cur)
    requires out0 + GallopFrom(x, y, g, cur) == GallopMerge(x, y, g)
    requires NextStep(x, y, g, cur).next == next && out == out0 + NextStep(x, y, g, cur).chunk
    ensures out + GallopFrom(x, y, g, next) == GallopMerge(x, y, g)
  {
    var st := NextStep(x, y, g, cur);
    var rest := GallopFrom(x, y, g, next);
    assert GallopFrom(x, y, g, cur) == st.chunk + rest;
    Regroup(out0, st.chunk, rest);
  }

  /** Concatenation regrouped: the output grows by the step's chunk. */
  lemma Regroup(out: seq<int>, chunk: seq<int>, rest: seq<int>)
    ensures out + chunk + rest == out + (chunk + rest)
  {
  }

  /**
   * One iteration of the merge loop: when a run is used up the other one's
   * head moves, otherwise `CompareStep`; then the output position skips the
   * gap between the runs. The output gains the chunk of `NextStep` and the
   * loop state becomes its cursor.
   */
  method PhaseStep(a: array<int>, b1: int, e1: int, b2: int, e2: int, buffer: int, g: nat,
                   itMain1: int, itBuf: int, itMain2: int, itRes: int, lastComparison: bool, sameComparisonCount: int,
                   ghost i: nat, ghost j: nat,
                   ghost t0: seq<int>, ghost o: seq<int>, ghost x: seq<int>, ghost y: seq<int>, ghost B: seq<int>, ghost out: seq<int>)
    returns (itMain1': int, itMain2': int, itRes': int, lastComparison': bool, sameComparisonCount': int,
             ghost i': nat, ghost j': nat, ghost t: seq<int>, ghost out': seq<int>)
    requires e1 == b2 && itBuf == buffer + |x| && (itMain1 < itBuf || itMain2 < e2)
    requires a[..] == t0 && Merging(t0, o, x, y, B, b1, e1, e2, buffer, itMain1, itMain2, itRes, i, j, out)
    modifies a
    ensures InRange(x, y, Cursor(i, j, lastComparison, sameComparisonCount)) && !Done(x, y, Cursor(i, j, lastComparison, sameComparisonCount))
    ensures i + j < i' + j'
    ensures var step := NextStep(x, y, g, Cursor(i, j, lastComparison, sameComparisonCount));
      && step.next == Cursor(i', j', lastComparison', sameComparisonCount')
      && out' == out + step.chunk
    ensures a[..] == t && Merging(t, o, x, y, B, b1, e1, e2, buffer, itMain1', itMain2', itRes', i', j', out')
  {
    itMain1', itMain2', lastComparison', sameComparisonCount', i', j' := itMain1, itMain2, lastComparison, sameComparisonCount, i, j;
    if itMain1 == itBuf {
      itMain2', itRes', j', t, out' := MoveY(a, b1, e1, e2, buffer, itMain1, itMain2, itRes, i, j, t0, o, x, y, B, out);
      NextStepRestY(x, y, g, Cursor(i, j, lastComparison, sameComparisonCount), j');
    } else if itMain2 == e2 {
      itMain1', itRes', i', t, out' := MoveX(a, b1, e1, e2, buffer, itMain1, itMain2, itRes, i, j, t0, o, x, y, B, out);
      NextStepRestX(x, y, g, Cursor(i, j, lastComparison, sameComparisonCount), i');
    } else {
      itMain1', itMain2', itRes', lastComparison', sameComparisonCount', i', j', t, out' :=
        CompareStep(a, b1, e1, b2, e2, buffer, g, itMain1, itBuf, itMain2, itRes,
                    lastComparison, sameComparisonCount, i, j, t0, o, x, y, B, out);
    }
    // Lines 258-260: the output skips from the end of the first run to the
    // start of the second, which for adjacent runs is the same position.
    if itRes' == e1 {
      itRes' := b2;
    }
  }

  /** The loop step once the first run is used up. */
  lemma NextStepRestY(x: seq<int>, y: seq<int>, g: nat, cur: Cursor, j1: nat)
    requires cur.i == |x| && cur.j < |y| && j1 == cur.j + 1
    ensures NextStep(x, y, g, cur) == Step([y[cur.j]], Cursor(cur.i, j1, cur.last, cur.same))
  {
  }

  /** The loop step once the second run is used up. */
  lemma NextStepRestX(x: seq<int>, y: seq<int>, g: nat, cur: Cursor, i1: nat)
    requires cur.i < |x| && cur.j == |y| && i1 == cur.i + 1
    ensures NextStep(x, y, g, cur) == Step([x[cur.i]], Cursor(i1, cur.j, cur.last, cur.same))
  {
  }

  /**
   * One iteration of the merge loop while both runs have elements left:
   * compare the heads, count a repeated comparison, and let the winning side
   * move its head, galloping when the count reaches the threshold.
   */
  method CompareStep(a: array<int>, b1: int, e1: int, b2: int, e2: int, buffer: int, g: nat,
                     itMain1: int, itBuf: int, itMain2: int, itRes: int, lastComparison: bool, sameComparisonCount: int,
                     ghost i: nat, ghost j: nat,
                     ghost t0: seq<int>, ghost o: seq<int>, ghost x: seq<int>, ghost y: seq<int>, ghost B: seq<int>, ghost out: seq<int>)
    returns (itMain1': int, itMain2': int, itRes': int, lastComparison': bool, sameComparisonCount': int,
             ghost i': nat, ghost j': nat, ghost t: seq<int>, ghost out': seq<int>)
    requires itBuf == buffer + |x| && itMain1 < itBuf && itMain2 < e2
    requires a[..] == t0 && Merging(t0, o, x, y, B, b1, e1, e2, buffer, itMain1, itMain2, itRes, i, j, out)
    modifies a
    ensures var step := NextStep(x, y, g, Cursor(i, j, lastComparison, sameComparisonCount));
      && step.next == Cursor(i', j', lastComparison', sameComparisonCount')
      && out' == out + step.chunk
    ensures a[..] == t && Merging(t, o, x, y, B, b1, e1, e2, buffer, itMain1', itMain2', itRes', i', j', out')
  {
    Heads(t0, o, x, y, B, b1, e1, e2, buffer, itMain1, itMain2, itRes, i, j, out);
    var comparison := a[itMain1] < a[itMain2];
    var gallopNow := false;
    lastComparison', sameComparisonCount' := lastComparison, sameComparisonCount;
    if comparison == lastComparison && sameComparisonCount != -1 {
      sameComparisonCount' := sameComparisonCount + 1;
      gallopNow := sameComparisonCount' == g;
    } else {
      lastComparison' := comparison;
      sameComparisonCount' := 0;
    }
    assert comparison == (x[i] < y[j]) && lastComparison' == comparison;
    itMain1', itMain2', i', j' := itMain1, itMain2, i, j;
    if comparison {
      itMain1', itRes', i', t, out' := GallopX(a, b1, e1, e2, buffer, gallopNow, itMain1, itBuf, itMain2, itRes, i, j, t0, o, x, y, B, out);
      NextStepX(x, y, g, Cursor(i, j, lastComparison, sameComparisonCount), sameComparisonCount', gallopNow, i');
    } else {
      itMain2', itRes', j', t, out' := GallopY(a, b1, e1, e2, buffer, gallopNow, itMain1, itMain2, itRes, i, j, t0, o, x, y, B, out);
      NextStepY(x, y, g, Cursor(i, j, lastComparison, sameComparisonCount), sameComparisonCount', gallopNow, j');
    }
  }

  /** The loop step when the head of `x` wins, given the updated repeat count and gallop decision. */
  lemma NextStepX(x: seq<int>, y: seq<int>, g: nat, cur: Cursor, same: int, gallopNow: bool, i1: nat)
    requires cur.i < |x| && cur.j < |y| && x[cur.i] < y[cur.j]
    requires same == if cur.last && cur.same != -1 then cur.same + 1 else 0
    requires gallopNow == (cur.last && cur.same != -1 && same == g)
    requires i1 == cur.i + BurstLen(x[cur.i..], y[cur.j], gallopNow)
    ensures NextStep(x, y, g, cur) == Step(x[cur.i..i1], Cursor(i1, cur.j, true, same))
  {
  }

  /** The loop step when the head of `y` wins. */
  lemma NextStepY(x: seq<int>, y: seq<int>, g: nat, cur: Cursor, same: int, gallopNow: bool, j1: nat)
    requires cur.i < |x| && cur.j < |y| && !(x[cur.i] < y[cur.j])
    requires same == if !cur.last && cur.same != -1 then cur.same + 1 else 0
    requires gallopNow == (!cur.last && cur.same != -1 && same == g)
    requires j1 == cur.j + BurstLen(y[cur.j..], x[cur.i], gallopNow)
    ensures NextStep(x, y, g, cur) == Step(y[cur.j..j1], Cursor(cur.i, j1, false, same))
  {
  }

  /** The heads of the two runs in the merge-phase layout. */
  lemma Heads(t: seq<int>, o: seq<int>, x: seq<int>, y: seq<int>, B: seq<int>, b1: int, e1: int, e2: int, buffer: int,
              m1: int, m2: int, res: int, i: int, j: int, out: seq<int>)
    requires Merging(t, o, x, y, B, b1, e1, e2, buffer, m1, m2, res, i, j, out) && i < |x| && j < |y|
    ensures t[m1..buffer + |x|] == x[i..] && t[m2..e2] == y[j..]
    ensures t[m1] == x[i] && t[m2] == y[j]
  {
    assert t[m1..buffer + |x|][0] == x[i..][0];
    assert t[m2..e2][0] == y[j..][0];
  }

  /**
   * The first run wins the comparison: with `gallopNow`, `findCopiesCount`
   * over its remaining elements against the other head gives the length of
   * the burst; then its head moves. In all, `BurstLen` elements move.
   */
  method GallopX(a: array<int>, b1: int, e1: int, e2: int, buffer: int, gallopNow: bool,
                 itMain1: int, itBuf: int, itMain2: int, itRes: int, ghost i: nat, ghost j: nat,
                 ghost t0: seq<int>, ghost o: seq<int>, ghost x: seq<int>, ghost y: seq<int>, ghost B: seq<int>, ghost out: seq<int>)
    returns (itMain1': int, itRes': int, ghost i': nat, ghost t: seq<int>, ghost out': seq<int>)
    requires itBuf == buffer + |x| && itMain1 < itBuf && itMain2 < e2
    requires a[..] == t0 && Merging(t0, o, x, y, B, b1, e1, e2, buffer, itMain1, itMain2, itRes, i, j, out)
    modifies a
    ensures i' == i + BurstLen(x[i..], y[j], gallopNow)
    ensures out' == out + x[i..i']
    ensures a[..] == t && Merging(t, o, x, y, B, b1, e1, e2, buffer, itMain1', itMain2, itRes', i', j, out')
  {
    Heads(t0, o, x, y, B, b1, e1, e2, buffer, itMain1, itMain2, itRes, i, j, out);
    var needCopies: nat := 0;
    if gallopNow {
      assert a[itMain1..itBuf] == x[i..];
      needCopies := FindCopiesCount(a, itMain1, itBuf, a[itMain2], true);
    }
    assert BurstLen(x[i..], y[j], gallopNow) == if needCopies == 0 then 1 else needCopies;
    itMain1', itRes', i', t, out' := BurstX(a, b1, e1, e2, buffer, needCopies, itMain1, itMain2, itRes, i, j, t0, o, x, y, B, out);
    ghost var iPrev, outPrev := i', out';
    itMain1', itRes', i', t, out' := MoveX(a, b1, e1, e2, buffer, itMain1', itMain2, itRes', i', j, t, o, x, y, B, out');
    AppendStep(out, x, i, iPrev, i', outPrev, out');
  }

  /** The second run wins the comparison; the mirror image of `GallopX`. */
  method GallopY(a: array<int>, b1: int, e1: int, e2: int, buffer: int, gallopNow: bool,
                 itMain1: int, itMain2: int, itRes: int, ghost i: nat, ghost j: nat,
                 ghost t0: seq<int>, ghost o: seq<int>, ghost x: seq<int>, ghost y: seq<int>, ghost B: seq<int>, ghost out: seq<int>)
    returns (itMain2': int, itRes': int, ghost j': nat, ghost t: seq<int>, ghost out': seq<int>)
    requires itMain1 < buffer + |x| && itMain2 < e2
    requires a[..] == t0 && Merging(t0, o, x, y, B, b1, e1, e2, buffer, itMain1, itMain2, itRes, i, j, out)
    modifies a
    ensures j' == j + BurstLen(y[j..], x[i], gallopNow)
    ensures out' == out + y[j..j']
    ensures a[..] == t && Merging(t, o, x, y, B, b1, e1, e2, buffer, itMain1, itMain2', itRes', i, j', out')
  {
    Heads(t0, o, x, y, B, b1, e1, e2, buffer, itMain1, itMain2, itRes, i, j, out);
    var needCopies: nat := 0;
    if gallopNow {
      assert a[itMain2..e2] == y[j..];
      needCopies := FindCopiesCount(a, itMain2, e2, a[itMain1], true);
    }
    assert BurstLen(y[j..], x[i], gallopNow) == if needCopies == 0 then 1 else needCopies;
    itMain2', itRes', j', t, out' := BurstY(a, b1, e1, e2, buffer, needCopies, itMain1, itMain2, itRes, i, j, t0, o, x, y, B, out);
    ghost var jPrev, outPrev := j', out';
    itMain2', itRes', j', t, out' := MoveY(a, b1, e1, e2, buffer, itMain1, itMain2', itRes', i, j', t, o, x, y, B, out');
    AppendStep(out, y, j, jPrev, j', outPrev, out');
  }

  /** A moved stretch `s[lo..hi]` of a run, extended by the run's next element. */
  lemma AppendStep(out: seq<int>, s: seq<int>, lo: int, hi: int, hi1: int, prev: seq<int>, next: seq<int>)
    requires 0 <= lo <= hi < |s| && hi1 == hi + 1
    requires prev == out + s[lo..hi] && next == prev + [s[hi]]
    ensures next == out + s[lo..hi1]
  {
    assert s[lo..hi1] == s[lo..hi] + [s[hi]];
  }

  /**
   * The galloping burst `while (needCopies && --needCopies)` when the first
   * run wins: moves `needCopies - 1` of its elements (none when
   * `needCopies` is zero); the step's own move follows it.
   */
  method BurstX(a: array<int>, b1: int, e1: int, e2: int, buffer: int,
                needCopies: nat, itMain1: int, itMain2: int, itRes: int, ghost i: nat, ghost j: nat,
                ghost t0: seq<int>, ghost o: seq<int>, ghost x: seq<int>, ghost y: seq<int>, ghost B: seq<int>, ghost out: seq<int>)
    returns (itMain1': int, itRes': int, ghost i': nat, ghost t: seq<int>, ghost out': seq<int>)
    requires a[..] == t0 && Merging(t0, o, x, y, B, b1, e1, e2, buffer, itMain1, itMain2, itRes, i, j, out)
    requires needCopies < |x| - i
    modifies a
    ensures i' == i + (if needCopies == 0 then 0 else needCopies - 1)
    ensures out' == out + x[i..i']
    ensures a[..] == t && Merging(t, o, x, y, B, b1, e1, e2, buffer, itMain1', itMain2, itRes', i', j, out')
  {
    itMain1', itRes', i', t, out' := itMain1, itRes, i, t0, out;
    assert out + x[i..i] == out;
    var remaining := needCopies;
    if remaining != 0 {
      remaining := remaining - 1;
      while remaining != 0
        invariant a[..] == t && Merging(t, o, x, y, B, b1, e1, e2, buffer, itMain1', itMain2, itRes', i', j, out')
        invariant i' + remaining == i + needCopies - 1 && out' == out + x[i..i']
      {
        ghost var iPrev, outPrev := i', out';
        itMain1', itRes', i', t, out' := MoveX(a, b1, e1, e2, buffer, itMain1', itMain2, itRes', i', j, t, o, x, y, B, out');
        AppendStep(out, x, i, iPrev, i', outPrev, out');
        remaining := remaining - 1;
      }
    }
  }

  /** The galloping burst when the second run wins; the mirror image of `BurstX`. */
  method BurstY(a: array<int>, b1: int, e1: int, e2: int, buffer: int,
                needCopies: nat, itMain1: int, itMain2: int, itRes: int, ghost i: nat, ghost j: nat,
                ghost t0: seq<int>, ghost o: seq<int>, ghost x: seq<int>, ghost y: seq<int>, ghost B: seq<int>, ghost out: seq<int>)
    returns (itMain2': int, itRes': int, ghost j': nat, ghost t: seq<int>, ghost out': seq<int>)
    requires a[..] == t0 && Merging(t0, o, x, y, B, b1, e1, e2, buffer, itMain1, itMain2, itRes, i, j, out)
    requires needCopies < |y| - j
    modifies a
    ensures j' == j + (if needCopies == 0 then 0 else needCopies - 1)
    ensures out' == out + y[j..j']
    ensures a[..] == t && Merging(t, o, x, y, B, b1, e1, e2, buffer, itMain1, itMain2', itRes', i, j', out')
  {
    itMain2', itRes', j', t, out' := itMain2, itRes, j, t0, out;
    assert out + y[j..j] == out;
    var remaining := needCopies;
    if remaining != 0 {
      remaining := remaining - 1;
      while remaining != 0
        invariant a[..] == t && Merging(t, o, x, y, B, b1, e1, e2, buffer, itMain1, itMain2', itRes', i, j', out')
        invariant j' + remaining == j + needCopies - 1 && out' == out + y[j..j']
      {
        ghost var jPrev, outPrev := j', out';
        itMain2', itRes', j', t, out' := MoveY(a, b1, e1, e2, buffer, itMain1, itMain2', itRes', i, j', t, o, x, y, B, out');
        AppendStep(out, y, j, jPrev, j', outPrev, out');
        remaining := remaining - 1;
      }
    }
  }
}
