/**
 * The contest program in e-task-src/e-task.cpp, without its input and
 * output: the players' values are sorted with the (copied) TimSort, prefix
 * sums are taken, and a two-pointer scan picks the contiguous window of the
 * sorted values with the largest total in which no player is worth more
 * than any two others together.
 */
module ETask {
  import opened SortSpec
  import opened Controller

  // ---------------------------------------------------------------------
  // Sums and cohesion
  // ---------------------------------------------------------------------

  /** The total of `s[lo..hi]`. */
  function Sum(s: seq<int>, lo: int, hi: int): int
    requires 0 <= lo <= hi <= |s|
    decreases hi - lo
  {
    if lo == hi then 0 else Sum(s, lo, hi - 1) + s[hi - 1]
  }

  /** A sum splits at any point in between. */
  lemma {:induction false} SumSplit(s: seq<int>, lo: int, mid: int, hi: int)
    requires 0 <= lo <= mid <= hi <= |s|
    ensures Sum(s, lo, hi) == Sum(s, lo, mid) + Sum(s, mid, hi)
    decreases hi - mid
  {
    if mid < hi {
      SumSplit(s, lo, mid, hi - 1);
    }
  }

  /** Over non-negative values a longer window from the same start has at least the same total. */
  lemma {:induction false} SumGrows(s: seq<int>, lo: int, hi: int, hi': int)
    requires AllAtLeast(s, 0) && 0 <= lo <= hi <= hi' <= |s|
    ensures Sum(s, lo, hi) <= Sum(s, lo, hi')
    decreases hi' - hi
  {
    if hi < hi' {
      SumGrows(s, lo, hi, hi' - 1);
    }
  }

  /**
   * The team of players `l..r` (inclusive) is cohesive: no player is worth
   * more than any two other players of the team together.
   */
  ghost predicate Cohesive(s: seq<int>, l: int, r: int)
    requires 0 <= l && r < |s|
  {
    forall i, j, k :: l <= i <= r && l <= j <= r && l <= k <= r && i != j && i != k && j != k ==>
      s[k] <= s[i] + s[j]
  }

  /**
   * The test of the scan's inner loop (line 503): a window of at most two
   * players, or one whose last player is worth no more than its first two.
   */
  predicate Fits(s: seq<int>, l: int, r: int)
    requires 0 <= l <= r < |s|
  {
    r - l <= 1 || s[l] + s[l + 1] >= s[r]
  }

  /** Every window from `l` ending before `r` fits. */
  ghost predicate FitsBelow(s: seq<int>, l: int, r: int)
    requires 0 <= l && r <= |s|
  {
    forall k :: l <= k < r ==> Fits(s, l, k)
  }

  /** On sorted values the loop's test is exactly cohesion of the window. */
  lemma FitsIffCohesive(s: seq<int>, l: int, r: int)
    requires Sorted(s) && 0 <= l <= r < |s|
    ensures Fits(s, l, r) <==> Cohesive(s, l, r)
  {
    if r - l > 1 && Cohesive(s, l, r) {
      assert s[r] <= s[l] + s[l + 1];
    }
    if Fits(s, l, r) && r - l > 1 {
      forall i, j, k | l <= i <= r && l <= j <= r && l <= k <= r && i != j && i != k && j != k
        ensures s[k] <= s[i] + s[j]
      {
        if i < j {
          assert s[l] <= s[i] && s[l + 1] <= s[j];
        } else {
          assert s[l] <= s[j] && s[l + 1] <= s[i];
        }
      }
    }
  }

  /**
   * On sorted values, a window that does not fit stays unfit when it grows
   * to the right, and one that fits for `l` fits for `l + 1`.
   */
  lemma FitsMonotone(s: seq<int>, l: int, r: int, r': int)
    requires Sorted(s) && 0 <= l <= r <= r' < |s|
    ensures !Fits(s, l, r) ==> !Fits(s, l, r')
    ensures Fits(s, l, r) && l + 1 <= r ==> Fits(s, l + 1, r)
  {
    if Fits(s, l, r) && l + 1 <= r && r - (l + 1) > 1 {
      assert s[l] <= s[l + 2];
    }
  }

  // ---------------------------------------------------------------------
  // Prefix sums
  // ---------------------------------------------------------------------

  /** `subsums[i]` is the total of the first `i + 1` values. */
  ghost predicate IsPrefixSums(s: seq<int>, subsums: seq<int>)
  {
    |subsums| == |s| && forall i :: 0 <= i < |s| ==> subsums[i] == Sum(s, 0, i + 1)
  }

  /** Lines 492-496: the running totals of the sorted values. */
  method PrefixSums(a: array<int>) returns (subsums: array<int>)
    ensures fresh(subsums)
    ensures IsPrefixSums(a[..], subsums[..])
  {
    subsums := new int[a.Length];
    for i := 0 to a.Length
      invariant forall k :: 0 <= k < i ==> subsums[k] == Sum(a[..], 0, k + 1)
    {
      subsums[i] := (if i == 0 then 0 else subsums[i - 1]) + a[i];
    }
  }

  /** Lines 462-464: `getSum(l, r)`, the total of players `l..r` from the prefix sums. */
  function GetSum(l: int, r: int, subsums: seq<int>): int
    requires 0 <= l <= r < |subsums|
  {
    subsums[r] - (if l == 0 then 0 else subsums[l - 1])
  }

  /** `getSum` over prefix sums is the total of the window `l..r`. */
  lemma GetSumIsSum(s: seq<int>, subsums: seq<int>, l: int, r: int)
    requires IsPrefixSums(s, subsums) && 0 <= l <= r < |s|
    ensures GetSum(l, r, subsums) == Sum(s, l, r + 1)
  {
    if l > 0 {
      SumSplit(s, 0, l, r + 1);
    }
  }

  // ---------------------------------------------------------------------
  // The two-pointer scan
  // ---------------------------------------------------------------------

  /**
   * Lines 502-506: from a right end `r` up to which every window starting
   * at `l` fits, move right while the window still fits, then step back.
   * The result is the last right end whose window from `l` fits: every
   * window up to it fits and the next one, if any, does not.
   */
  method GrowWindow(a: array<int>, l: int, r: int) returns (r': int)
    requires Sorted(a[..]) && 0 <= l <= r < a.Length
    requires FitsBelow(a[..], l, r)
    ensures l <= r' < a.Length && r <= r' + 1
    ensures FitsBelow(a[..], l, r' + 1)
    ensures r' + 1 == a.Length || !Fits(a[..], l, r' + 1)
    ensures l + 1 < a.Length ==> l + 1 <= r'
  {
    var n := a.Length;
    r' := r;
    while r' < n && (r' - l <= 1 || a[l] + a[l + 1] >= a[r'])
      invariant r <= r' <= n
      invariant FitsBelow(a[..], l, r')
      decreases n - r'
    {
      r' := r' + 1;
    }
    if r' == n || a[l] + a[l + 1] < a[r'] {
      r' := r' - 1;
    }
  }

  /** Every window starting at `l` that fits has a total of at most the one ending at `r`. */
  ghost predicate BestFrom(s: seq<int>, l: int, r: int)
    requires 0 <= l <= r < |s|
  {
    forall k :: l <= k < |s| && Fits(s, l, k) ==> Sum(s, l, k + 1) <= Sum(s, l, r + 1)
  }

  /** The window `GrowWindow` finds has the largest total among the fitting windows from `l`. */
  lemma LastFitIsBest(s: seq<int>, l: int, r: int)
    requires Sorted(s) && AllAtLeast(s, 0) && 0 <= l <= r < |s|
    requires r + 1 == |s| || !Fits(s, l, r + 1)
    ensures BestFrom(s, l, r)
  {
    forall k | l <= k < |s| && Fits(s, l, k)
      ensures Sum(s, l, k + 1) <= Sum(s, l, r + 1)
    {
      if k > r {
        FitsMonotone(s, l, r + 1, k);
      }
      SumGrows(s, l, k + 1, r + 1);
    }
  }

  /** No cohesive window starting before `l` has a total above `best`. */
  ghost predicate NoBetterBefore(s: seq<int>, l: int, best: int)
    requires 0 <= l <= |s|
  {
    forall i, k :: 0 <= i < l && i <= k < |s| && Cohesive(s, i, k) ==> Sum(s, i, k + 1) <= best
  }

  /** One step of the outer loop keeps `NoBetterBefore` once `best` covers the window found at `l`. */
  lemma NoBetterStep(s: seq<int>, l: int, r: int, best: int)
    requires Sorted(s) && AllAtLeast(s, 0) && 0 <= l <= r < |s|
    requires NoBetterBefore(s, l, best) && BestFrom(s, l, r) && Sum(s, l, r + 1) <= best
    ensures NoBetterBefore(s, l + 1, best)
  {
    forall i, k | 0 <= i < l + 1 && i <= k < |s| && Cohesive(s, i, k)
      ensures Sum(s, i, k + 1) <= best
    {
      if i == l {
        FitsIffCohesive(s, l, k);
      }
    }
  }

  /**
   * What one iteration of the outer loop learns from the window `l..r` that
   * `GrowWindow` found: `getSum` is its total, the larger of
   * `best` and its total bounds every cohesive window starting up to `l`,
   * and every window from `l + 1` up to `r` fits.
   */
  lemma ScanStep(s: seq<int>, subsums: seq<int>, l: int, r: int, best: int)
    requires Sorted(s) && AllAtLeast(s, 0) && IsPrefixSums(s, subsums) && 0 <= l <= r < |s|
    requires FitsBelow(s, l, r + 1)
    requires r + 1 == |s| || !Fits(s, l, r + 1)
    requires NoBetterBefore(s, l, best)
    ensures GetSum(l, r, subsums) == Sum(s, l, r + 1)
    ensures NoBetterBefore(s, l + 1, if Sum(s, l, r + 1) > best then Sum(s, l, r + 1) else best)
    ensures FitsBelow(s, l + 1, r)
  {
    GetSumIsSum(s, subsums, l, r);
    FitsIffCohesive(s, l, r);
    LastFitIsBest(s, l, r);
    NoBetterStep(s, l, r, if Sum(s, l, r + 1) > best then Sum(s, l, r + 1) else best);
    var l' := l + 1;
    forall k | l' <= k < r
      ensures Fits(s, l', k)
    {
      FitsMonotone(s, l, k, k);
    }
  }

  /**
   * `best` is zero with the initial window `0..-1`, or positive and the
   * total of the fitting window `bestL..bestR`.
   */
  ghost predicate Chosen(s: seq<int>, best: int, bestL: int, bestR: int)
  {
    && (best > 0 ==> 0 <= bestL <= bestR < |s| && Fits(s, bestL, bestR) && Sum(s, bestL, bestR + 1) == best)
    && (best == 0 ==> bestL == 0 && bestR == -1)
    && best >= 0
  }

  /**
   * No cohesive window starting before `bestL` reaches `best`: since line 507
   * replaces the best window only on a strictly larger total, the kept window
   * is the first one (by left end) with the largest total.
   */
  ghost predicate FirstBest(s: seq<int>, bestL: int, best: int)
  {
    forall i, k :: 0 <= i < bestL && i <= k < |s| && Cohesive(s, i, k) ==> Sum(s, i, k + 1) < best
  }

  /**
   * Lines 502-512, one iteration of the outer loop: grow the window from
   * `l`, and keep it if its total beats `best`. Afterwards no cohesive
   * window starting up to `l` beats `best`, and the next left end may start
   * growing from the new `r`.
   */
  method ConsiderLeft(a: array<int>, subsums: array<int>, l: int, r: int, best: int, bestL: int, bestR: int)
    returns (r': int, best': int, bestL': int, bestR': int)
    requires Sorted(a[..]) && AllAtLeast(a[..], 0) && IsPrefixSums(a[..], subsums[..])
    requires 0 <= l <= r < a.Length && FitsBelow(a[..], l, r)
    requires NoBetterBefore(a[..], l, best) && Chosen(a[..], best, bestL, bestR) && FirstBest(a[..], bestL, best)
    ensures l <= r' < a.Length && (l + 1 < a.Length ==> l + 1 <= r') && FitsBelow(a[..], l + 1, r')
    ensures NoBetterBefore(a[..], l + 1, best') && Chosen(a[..], best', bestL', bestR')
    ensures FirstBest(a[..], bestL', best')
    ensures best <= best'
  {
    r' := GrowWindow(a, l, r);
    var tSum := GetSum(l, r', subsums[..]);
    ScanStep(a[..], subsums[..], l, r', best);
    if tSum > best {
      best', bestL', bestR' := tSum, l, r';
    } else {
      best', bestL', bestR' := best, bestL, bestR;
    }
  }

  /**
   * Lines 498-514: for each left end, grow the window to the last right end
   * that fits and keep the first window with the largest total. `best` is
   * the largest total of any cohesive contiguous window of the sorted
   * values; when it is positive, `bestL..bestR` is such a window, and when
   * it is zero the initial `bestL = 0, bestR = -1` stay.
   */
  method SelectWindow(a: array<int>, subsums: array<int>) returns (best: int, bestL: int, bestR: int)
    requires Sorted(a[..]) && AllAtLeast(a[..], 0) && IsPrefixSums(a[..], subsums[..])
    ensures best >= 0
    ensures forall i, k :: 0 <= i <= k < a.Length && Cohesive(a[..], i, k) ==> Sum(a[..], i, k + 1) <= best
    ensures best > 0 ==>
      0 <= bestL <= bestR < a.Length && Cohesive(a[..], bestL, bestR) && Sum(a[..], bestL, bestR + 1) == best
    ensures best == 0 ==> bestL == 0 && bestR == -1
    ensures forall i, k :: 0 <= i < bestL && i <= k < a.Length && Cohesive(a[..], i, k) ==> Sum(a[..], i, k + 1) < best
  {
    var n := a.Length;
    best, bestL, bestR := 0, 0, -1;
    var l, r := 0, 0;
    while l < n && r < n
      invariant 0 <= l <= n && 0 <= r <= n && (l < n ==> l <= r < n)
      invariant l < n ==> FitsBelow(a[..], l, r)
      invariant NoBetterBefore(a[..], l, best)
      invariant Chosen(a[..], best, bestL, bestR)
      invariant FirstBest(a[..], bestL, best)
      decreases n - l
    {
      r, best, bestL, bestR := ConsiderLeft(a, subsums, l, r, best, bestL, bestR);
      l := l + 1;
    }
    if best > 0 {
      FitsIffCohesive(a[..], bestL, bestR);
    }
  }

  /**
   * Lines 486-514 without input and output: sort the values with the
   * default policy, take the prefix sums and select the window. The array
   * ends up sorted, and the window is the best cohesive contiguous window of
   * the sorted values.
   */
  method CohesiveTeam(a: array<int>) returns (best: int, bestL: int, bestR: int)
    requires AllAtLeast(a[..], 0)
    modifies a
    ensures a[..] == SortSeq(old(a[..]))
    ensures forall i, k :: 0 <= i <= k < a.Length && Cohesive(a[..], i, k) ==> Sum(a[..], i, k + 1) <= best
    ensures best > 0 ==>
      0 <= bestL <= bestR < a.Length && Cohesive(a[..], bestL, bestR) && Sum(a[..], bestL, bestR + 1) == best
    ensures best == 0 ==> bestL == 0 && bestR == -1
    ensures forall i, k :: 0 <= i < bestL && i <= k < a.Length && Cohesive(a[..], i, k) ==> Sum(a[..], i, k + 1) < best
  {
    TimSortDefault(a, 0, a.Length);
    assert a[..] == a[0..a.Length] && old(a[..]) == old(a[..])[0..a.Length];
    SortedPermIsSortSeq(a[..], old(a[..]));
    AtLeastOfPerm(a[..], old(a[..]), 0);
    var subsums := PrefixSums(a);
    best, bestL, bestR := SelectWindow(a, subsums);
  }
}
