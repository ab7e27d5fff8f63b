/**
 * An input on which the block path of `inplaceMerge` as written leaves
 * `[b, e)` unsorted: two sorted halves `[3, 3, 3, 3, 4, 4]` and
 * `[0, 1, 1, 2, 4, 5, 6]` (thirteen elements, so five blocks of three).
 *
 * The backward pass merges `[1, 5)`, which holds `3, 4, 3, 3` and is not
 * sorted, with `[5, 9)`, and the last insertion sort only covers the scratch
 * tail `[9, 13)`, so the `4, 3` the merge leaves at positions 6 and 7 stays.
 * The lemmas below follow the phases one at a time.
 */
module Counterexample {
  import opened SortSpec
  import opened Runs
  import opened Merge
  import opened BlockMerge

  /** The two sorted halves, meeting at position 6. */
  const Input: seq<int> := [3, 3, 3, 3, 4, 4, 0, 1, 1, 2, 4, 5, 6]

  /** The integer square root is the only `r` with `r * r <= n < (r + 1) * (r + 1)`. */
  lemma ISqrtUnique(n: nat, r: nat)
    requires r * r <= n < (r + 1) * (r + 1)
    ensures ISqrt(n) == r
  {
    var q := ISqrt(n);
    if q < r {
      MulLe(q + 1, q + 1, r);
      MulLe(r, q + 1, r);
    } else if q > r {
      MulLe(r + 1, r + 1, q);
      MulLe(q, r + 1, q);
    }
  }

  /** Thirteen elements: blocks of three, five of them, the middle in block 2, a tail of four. */
  lemma InputGeometry()
    ensures BlockSize(0, 13) == 3 && BlockCount(0, 13) == 5
    ensures PathGeometry(0, 6, 13) == Geometry(3, 2, 3, 4)
  {
    ISqrtUnique(13, 3);
  }

  /** Lines 158-160: block 2 (`[6, 9)`, holding the middle) trades places with the scratch block 3. */
  lemma ExchangeStage()
    ensures Tail(0, 13, 3, 3, 4)
    ensures ToScratch(Input, 0, 13, 3, 2, 3, 4) == [3, 3, 3, 3, 4, 4, 2, 4, 5, 0, 1, 1, 6]
  {
    InputGeometry();
  }

  /** Lines 161-176: block 2 has the smallest head and moves to the front; the other two stay. */
  lemma SelectStage()
    ensures Tail(0, 13, 3, 3, 4)
    ensures SelectPhase([3, 3, 3, 3, 4, 4, 2, 4, 5, 0, 1, 1, 6], 0, 13, 3, 3, 4)
      == [2, 4, 5, 3, 4, 4, 3, 3, 3, 0, 1, 1, 6]
  {
    ExchangeStage();
    SelectFits();
    var t := [3, 3, 3, 3, 4, 4, 2, 4, 5, 0, 1, 1, 6];
    var u := [2, 4, 5, 3, 4, 4, 3, 3, 3, 0, 1, 1, 6];
    FirstRound();
    LaterRounds();
    assert SelectFrom(t, 0, 3, 0, 3) == SelectFrom(u, 0, 3, 1, 3);
  }

  /** The heads of the first four blocks of three. */
  lemma SelectHeads()
    ensures Head(0, 3, 0) == 0 && Head(0, 3, 1) == 3 && Head(0, 3, 2) == 6 && Head(0, 3, 3) == 9
  {
  }

  /** The three blocks before the scratch block lie inside the thirteen elements. */
  lemma SelectFits()
    ensures HeadsFit(0, 3, 3, 13)
  {
    forall k | 0 <= k < 3
      ensures 0 <= Head(0, 3, k) && Head(0, 3, k) + 3 <= 13
    {
      SelectHeads();
      assert k == 0 || k == 1 || k == 2;
    }
  }

  /** Block 2 (head 2) trades places with block 0 (head 3). */
  lemma FirstSwap()
    ensures SwapPrefix([3, 3, 3, 3, 4, 4, 2, 4, 5, 0, 1, 1, 6], 0, 6, 3)
      == [2, 4, 5, 3, 4, 4, 3, 3, 3, 0, 1, 1, 6]
  {
    var t := [3, 3, 3, 3, 4, 4, 2, 4, 5, 0, 1, 1, 6];
    assert SwapPrefix(t, 0, 6, 1) == [2, 3, 3, 3, 4, 4, 3, 4, 5, 0, 1, 1, 6];
    assert SwapPrefix(t, 0, 6, 2) == [2, 4, 3, 3, 4, 4, 3, 3, 5, 0, 1, 1, 6];
  }

  /** The first round of the selection: block 2 has the smallest head and moves to the front. */
  lemma FirstRound()
    requires HeadsFit(0, 3, 3, 13)
    ensures SelectSwap([3, 3, 3, 3, 4, 4, 2, 4, 5, 0, 1, 1, 6], 0, 3, 0, 3)
      == [2, 4, 5, 3, 4, 4, 3, 3, 3, 0, 1, 1, 6]
  {
    var t := [3, 3, 3, 3, 4, 4, 2, 4, 5, 0, 1, 1, 6];
    SelectHeads();
    assert MinHeadFrom(t, 0, 3, 1, 3, 0) == 2;
    FirstSwap();
  }

  /** The later rounds: blocks 1 and 2 both have head 3, so nothing moves. */
  lemma LaterRounds()
    requires HeadsFit(0, 3, 3, 13)
    ensures var u := [2, 4, 5, 3, 4, 4, 3, 3, 3, 0, 1, 1, 6];
      SelectSwap(u, 0, 3, 1, 3) == u && SelectSwap(u, 0, 3, 2, 3) == u
  {
    var u := [2, 4, 5, 3, 4, 4, 3, 3, 3, 0, 1, 1, 6];
    SelectHeads();
    assert MinHeadFrom(u, 0, 3, 2, 3, 1) == 1;
    assert MinHeadFrom(u, 0, 3, 3, 3, 2) == 2;
  }

  /** Sorting `[lo, hi)` when it is made of two sorted runs is merging them. */
  lemma SortTailMerges(t: seq<int>, lo: int, mid: int, hi: int, r: seq<int>)
    requires 0 <= lo <= mid <= hi <= |t|
    requires Sorted(t[lo..mid]) && Sorted(t[mid..hi]) && r == SortSpec.Merge(t[lo..mid], t[mid..hi])
    ensures SortTail(t, 0, lo, hi) == t[..lo] + r + t[hi..]
  {
    var x, y := t[lo..mid], t[mid..hi];
    assert x + y == t[lo..hi];
    MergeIsSortSeq(x, y);
    assert SortRange(t, lo, hi) == t[..lo] + SortSeq(t[lo..hi]) + t[hi..];
  }

  /** Sorting a range that is already sorted changes nothing. */
  lemma SortTailSorted(t: seq<int>, lo: int, hi: int)
    requires 0 <= lo <= hi <= |t| && Sorted(t[lo..hi])
    ensures SortTail(t, 0, lo, hi) == t
  {
    var r := SortRange(t, lo, hi);
    SortedUnique(r[lo..hi], t[lo..hi]);
    assert r == r[..lo] + r[lo..hi] + r[hi..];
    assert t == t[..lo] + t[lo..hi] + t[hi..];
  }

  /**
   * When no element left in `y` is above the head of `x`, the merge loop
   * moves the rest of `y` and then the rest of `x`, whatever order `x` is in.
   */
  lemma {:induction false} YThenX(x: seq<int>, y: seq<int>, g: nat, cur: Cursor)
    requires InRange(x, y, cur)
    requires cur.i < |x| ==> forall k :: cur.j <= k < |y| ==> !(x[cur.i] < y[k])
    ensures GallopFrom(x, y, g, cur) == y[cur.j..] + x[cur.i..]
    decreases |x| - cur.i + |y| - cur.j
  {
    if !Done(x, y, cur) {
      var s := NextStep(x, y, g, cur);
      YThenXStep(x, y, g, cur);
      YThenX(x, y, g, s.next);
    }
  }

  /** One step of `YThenX`: the step moves the head of `y` (or of `x` once `y` is used up) and keeps the premise. */
  lemma YThenXStep(x: seq<int>, y: seq<int>, g: nat, cur: Cursor)
    requires InRange(x, y, cur) && !Done(x, y, cur)
    requires cur.i < |x| ==> forall k :: cur.j <= k < |y| ==> !(x[cur.i] < y[k])
    ensures var s := NextStep(x, y, g, cur);
      && (s.next.i < |x| ==> forall k :: s.next.j <= k < |y| ==> !(x[s.next.i] < y[k]))
      && s.chunk + (y[s.next.j..] + x[s.next.i..]) == y[cur.j..] + x[cur.i..]
  {
    var s := NextStep(x, y, g, cur);
    if cur.i < |x| && cur.j < |y| {
      assert !(x[cur.i] < y[cur.j]);
      assert s.next.i == cur.i && s.chunk == y[cur.j..s.next.j];
      assert y[cur.j..] == s.chunk + y[s.next.j..];
    } else if cur.i < |x| {
      assert x[cur.i..] == s.chunk + x[s.next.i..];
    } else {
      assert y[cur.j..] == s.chunk + y[s.next.j..];
    }
  }

  /** The reference merge of blocks 0 and 1 after the selection. */
  lemma FirstNeighbourMerge()
    ensures SortSpec.Merge([2, 4, 5], [3, 4, 4]) == [2, 3, 4, 4, 4, 5]
  {
    assert SortSpec.Merge([5], [4]) == [4, 5];
    assert SortSpec.Merge([4, 5], [4]) == [4, 4, 5];
    assert SortSpec.Merge([4, 5], [4, 4]) == [4, 4, 4, 5];
    assert SortSpec.Merge([4, 5], [3, 4, 4]) == [3, 4, 4, 4, 5];
  }

  /** Blocks 0 and 1 after the selection: two sorted blocks, so galloping changes nothing. */
  lemma FirstNeighbourRuns(g: nat)
    ensures GallopMerge([2, 4, 5], [3, 4, 4], g) == [2, 3, 4, 4, 4, 5]
  {
    GallopMergeSorted([2, 4, 5], [3, 4, 4], g);
    FirstNeighbourMerge();
  }

  /** The reference merge of blocks 1 and 2 after the first neighbour merge. */
  lemma SecondNeighbourMerge()
    ensures SortSpec.Merge([4, 4, 5], [3, 3, 3]) == [3, 3, 3, 4, 4, 5]
  {
    assert SortSpec.Merge([4, 4, 5], [3]) == [3, 4, 4, 5];
    assert SortSpec.Merge([4, 4, 5], [3, 3]) == [3, 3, 4, 4, 5];
  }

  /** Blocks 1 and 2 after the first neighbour merge. */
  lemma SecondNeighbourRuns(g: nat)
    ensures GallopMerge([4, 4, 5], [3, 3, 3], g) == [3, 3, 3, 4, 4, 5]
  {
    GallopMergeSorted([4, 4, 5], [3, 3, 3], g);
    SecondNeighbourMerge();
  }

  /** Line 181 for blocks 0 and 1. */
  lemma FirstNeighbourStep(g: nat)
    ensures MergeAt([2, 4, 5, 3, 4, 4, 3, 3, 3, 0, 1, 1, 6], 0, 3, 6, g)
      == [2, 3, 4, 4, 4, 5, 3, 3, 3, 0, 1, 1, 6]
  {
    FirstNeighbourRuns(g);
    FirstNeighbourLayout();
    MergeAtIs([2, 4, 5, 3, 4, 4, 3, 3, 3, 0, 1, 1, 6], 0, 3, 6, g, [2, 4, 5], [3, 4, 4], [2, 3, 4, 4, 4, 5],
      [2, 3, 4, 4, 4, 5, 3, 3, 3, 0, 1, 1, 6]);
  }

  /** Where blocks 0 and 1 lie in the selected array, and what follows them. */
  lemma FirstNeighbourLayout()
    ensures var t := [2, 4, 5, 3, 4, 4, 3, 3, 3, 0, 1, 1, 6];
      t[0..3] == [2, 4, 5] && t[3..6] == [3, 4, 4]
      && t[..0] + [2, 3, 4, 4, 4, 5] + t[6..] == [2, 3, 4, 4, 4, 5, 3, 3, 3, 0, 1, 1, 6]
  {
    var t := [2, 4, 5, 3, 4, 4, 3, 3, 3, 0, 1, 1, 6];
    assert t[..0] == [] && t[6..] == [3, 3, 3, 0, 1, 1, 6];
  }

  /** Line 181 for blocks 1 and 2. */
  lemma SecondNeighbourStep(g: nat)
    ensures MergeAt([2, 3, 4, 4, 4, 5, 3, 3, 3, 0, 1, 1, 6], 3, 6, 9, g)
      == [2, 3, 4, 3, 3, 3, 4, 4, 5, 0, 1, 1, 6]
  {
    SecondNeighbourRuns(g);
    SecondNeighbourLayout();
    MergeAtIs([2, 3, 4, 4, 4, 5, 3, 3, 3, 0, 1, 1, 6], 3, 6, 9, g, [4, 4, 5], [3, 3, 3], [3, 3, 3, 4, 4, 5],
      [2, 3, 4, 3, 3, 3, 4, 4, 5, 0, 1, 1, 6]);
  }

  /** Where blocks 1 and 2 lie after the first neighbour merge, and what surrounds them. */
  lemma SecondNeighbourLayout()
    ensures var t := [2, 3, 4, 4, 4, 5, 3, 3, 3, 0, 1, 1, 6];
      t[3..6] == [4, 4, 5] && t[6..9] == [3, 3, 3]
      && t[..3] + [3, 3, 3, 4, 4, 5] + t[9..] == [2, 3, 4, 3, 3, 3, 4, 4, 5, 0, 1, 1, 6]
  {
    var t := [2, 3, 4, 4, 4, 5, 3, 3, 3, 0, 1, 1, 6];
    assert t[..3] == [2, 3, 4] && t[9..] == [0, 1, 1, 6];
  }

  /** Lines 178-183: blocks 0 and 1, then blocks 1 and 2, are merged. */
  lemma NeighbourStage(g: nat)
    ensures Tail(0, 13, 3, 3, 4)
    ensures NeighbourPhase([2, 4, 5, 3, 4, 4, 3, 3, 3, 0, 1, 1, 6], 0, 13, 3, 3, 4, g)
      == [2, 3, 4, 3, 3, 3, 4, 4, 5, 0, 1, 1, 6]
  {
    ExchangeStage();
    FirstNeighbourStep(g);
    SecondNeighbourStep(g);
  }

  /** The last `2 s = 8` elements before the sort: two sorted runs of four. */
  lemma TailRuns()
    ensures SortSpec.Merge([3, 4, 4, 5], [0, 1, 1, 6]) == [0, 1, 1, 3, 4, 4, 5, 6]
  {
    assert SortSpec.Merge([], [6]) == [6];
    assert SortSpec.Merge([5], [6]) == [5, 6];
    assert SortSpec.Merge([4, 5], [6]) == [4, 5, 6];
    assert SortSpec.Merge([4, 4, 5], [6]) == [4, 4, 5, 6];
    assert SortSpec.Merge([3, 4, 4, 5], [6]) == [3, 4, 4, 5, 6];
  }

  /** Line 186: the last `2 s = 8` elements are sorted. */
  lemma SortTailStage()
    ensures SortTail([2, 3, 4, 3, 3, 3, 4, 4, 5, 0, 1, 1, 6], 0, 5, 13)
      == [2, 3, 4, 3, 3, 0, 1, 1, 3, 4, 4, 5, 6]
  {
    var t := [2, 3, 4, 3, 3, 3, 4, 4, 5, 0, 1, 1, 6];
    assert t[5..9] == [3, 4, 4, 5] && t[9..13] == [0, 1, 1, 6];
    TailRuns();
    assert t[..5] == [2, 3, 4, 3, 3] && t[13..] == [];
    assert t[..5] + [0, 1, 1, 3, 4, 4, 5, 6] + t[13..] == [2, 3, 4, 3, 3, 0, 1, 1, 3, 4, 4, 5, 6];
    SortTailMerges(t, 5, 9, 13, [0, 1, 1, 3, 4, 4, 5, 6]);
  }

  /**
   * A merge at `[lo, hi)` where no element of the second run is above the
   * first element of the first run puts the second run in front, whether or
   * not the first run is sorted.
   */
  lemma MergeAtYThenX(t: seq<int>, lo: int, mid: int, hi: int, g: nat)
    requires 0 <= lo < mid <= hi <= |t|
    requires forall k :: mid <= k < hi ==> !(t[lo] < t[k])
    ensures MergeAt(t, lo, mid, hi, g) == t[..lo] + t[mid..hi] + t[lo..mid] + t[hi..]
  {
    var x, y := t[lo..mid], t[mid..hi];
    assert forall k :: 0 <= k < |y| ==> !(x[0] < y[k]) by {
      forall k | 0 <= k < |y| ensures !(x[0] < y[k]) {
        assert y[k] == t[mid + k];
      }
    }
    YThenX(x, y, g, Start);
  }

  /** A merge at `[lo, hi)` whose runs are `x` and `y` writes their galloping merge `m` there. */
  lemma MergeAtIs(t: seq<int>, lo: int, mid: int, hi: int, g: nat, x: seq<int>, y: seq<int>, m: seq<int>, r: seq<int>)
    requires 0 <= lo <= mid <= hi <= |t|
    requires t[lo..mid] == x && t[mid..hi] == y && GallopMerge(x, y, g) == m
    requires t[..lo] + m + t[hi..] == r
    ensures MergeAt(t, lo, mid, hi, g) == r
  {
  }

  /** Line 195 at `beta = 1`: the single element 2 merged with `0, 1, 1, 3`. */
  lemma SecondBackRuns(g: nat)
    ensures GallopMerge([2], [0, 1, 1, 3], g) == [0, 1, 1, 2, 3]
  {
    GallopMergeSorted([2], [0, 1, 1, 3], g);
    SecondBackMerge();
  }

  /** The reference merge of 2 with `0, 1, 1, 3`. */
  lemma SecondBackMerge()
    ensures SortSpec.Merge([2], [0, 1, 1, 3]) == [0, 1, 1, 2, 3]
  {
    assert SortSpec.Merge([2], [3]) == [2, 3];
    assert SortSpec.Merge([2], [1, 3]) == [1, 2, 3];
    assert SortSpec.Merge([2], [1, 1, 3]) == [1, 1, 2, 3];
  }

  /**
   * Line 195 at `beta = 5`: `[1, 5)` holds `3, 4, 3, 3`, which is not sorted,
   * and no element of `[5, 9)` is above 3, so the merge puts `[5, 9)` first
   * and leaves `4, 3` in place.
   */
  lemma FirstBackStep(g: nat)
    ensures MergeAt([2, 3, 4, 3, 3, 0, 1, 1, 3, 4, 4, 5, 6], 1, 5, 9, g)
      == [2, 0, 1, 1, 3, 3, 4, 3, 3, 4, 4, 5, 6]
  {
    FirstBackLayout();
    MergeAtYThenX([2, 3, 4, 3, 3, 0, 1, 1, 3, 4, 4, 5, 6], 1, 5, 9, g);
  }

  /** The pieces of the array around the merge at `beta = 5`, put back with the runs exchanged. */
  lemma FirstBackLayout()
    ensures var t := [2, 3, 4, 3, 3, 0, 1, 1, 3, 4, 4, 5, 6];
      && (forall k :: 5 <= k < 9 ==> !(t[1] < t[k]))
      && t[..1] + t[5..9] + t[1..5] + t[9..] == [2, 0, 1, 1, 3, 3, 4, 3, 3, 4, 4, 5, 6]
  {
    var t := [2, 3, 4, 3, 3, 0, 1, 1, 3, 4, 4, 5, 6];
    assert t[..1] == [2] && t[5..9] == [0, 1, 1, 3] && t[1..5] == [3, 4, 3, 3] && t[9..] == [4, 4, 5, 6];
  }

  /** Line 195 at `beta = 1`. */
  lemma SecondBackStep(g: nat)
    ensures MergeAt([2, 0, 1, 1, 3, 3, 4, 3, 3, 4, 4, 5, 6], 0, 1, 5, g)
      == [0, 1, 1, 2, 3, 3, 4, 3, 3, 4, 4, 5, 6]
  {
    SecondBackRuns(g);
    SecondBackLayout();
    MergeAtIs([2, 0, 1, 1, 3, 3, 4, 3, 3, 4, 4, 5, 6], 0, 1, 5, g, [2], [0, 1, 1, 3], [0, 1, 1, 2, 3],
      [0, 1, 1, 2, 3, 3, 4, 3, 3, 4, 4, 5, 6]);
  }

  /** Where the runs of the merge at `beta = 1` lie, and what surrounds them. */
  lemma SecondBackLayout()
    ensures var t := [2, 0, 1, 1, 3, 3, 4, 3, 3, 4, 4, 5, 6];
      t[0..1] == [2] && t[1..5] == [0, 1, 1, 3]
      && t[..0] + [0, 1, 1, 2, 3] + t[5..] == [0, 1, 1, 2, 3, 3, 4, 3, 3, 4, 4, 5, 6]
  {
    var t := [2, 0, 1, 1, 3, 3, 4, 3, 3, 4, 4, 5, 6];
    assert t[5..] == [3, 4, 3, 3, 4, 4, 5, 6];
  }

  /** Lines 189-203: two merges, at `[1, 5) + [5, 9)` and then `[0, 1) + [1, 5)`. */
  lemma BackStage(g: nat)
    ensures BackPhase([2, 3, 4, 3, 3, 0, 1, 1, 3, 4, 4, 5, 6], 0, 13, 4, g)
      == [0, 1, 1, 2, 3, 3, 4, 3, 3, 4, 4, 5, 6]
  {
    FirstBackStep(g);
    SecondBackStep(g);
  }

  /** Line 206: the scratch tail `[9, 13)` is already sorted, so the last sort changes nothing. */
  lemma LastSortStage()
    ensures SortTail([0, 1, 1, 2, 3, 3, 4, 3, 3, 4, 4, 5, 6], 0, 9, 13)
      == [0, 1, 1, 2, 3, 3, 4, 3, 3, 4, 4, 5, 6]
  {
    var t := [0, 1, 1, 2, 3, 3, 4, 3, 3, 4, 4, 5, 6];
    assert t[9..13] == [4, 4, 5, 6];
    SortTailSorted(t, 9, 13);
  }

  /** Lines 158-203 on the input: every phase before the last sort. */
  lemma PhasesStage(g: nat)
    ensures Phases(Input, 0, 13, 3, 2, 3, 4, g) == [0, 1, 1, 2, 3, 3, 4, 3, 3, 4, 4, 5, 6]
  {
    ExchangeStage();
    SelectStage();
    NeighbourStage(g);
    SortTailStage();
    BackStage(g);
  }

  /** `inplaceMerge(0, 6, 13)` as written, phase by phase. */
  lemma AsWrittenOnInput(g: nat)
    ensures AsWritten(Input, 0, 6, 13, g) == [0, 1, 1, 2, 3, 3, 4, 3, 3, 4, 4, 5, 6]
  {
    InputGeometry();
    PhasesStage(g);
    LastSortStage();
  }

  /** The result has 4 before 3 at positions 6 and 7. */
  lemma ResultUnsorted(r: seq<int>)
    requires r == [0, 1, 1, 2, 3, 3, 4, 3, 3, 4, 4, 5, 6]
    ensures !Sorted(r)
  {
    assert r[6] > r[7];
  }

  /** The input is two sorted runs meeting at position 6, as `inplaceMerge` expects. */
  lemma InputRuns()
    ensures Sorted(Input[..6]) && Sorted(Input[6..])
  {
  }

  /**
   * `inplaceMerge(0, 6, 13)` as written, on two sorted runs, leaves `[0, 13)`
   * unsorted, for every gallop threshold.
   */
  lemma AsWrittenUnsorted(g: nat)
    ensures Sorted(Input[..6]) && Sorted(Input[6..])
    ensures !Sorted(AsWritten(Input, 0, 6, 13, g))
  {
    InputRuns();
    AsWrittenOnInput(g);
    ResultUnsorted(AsWritten(Input, 0, 6, 13, g));
  }
}
