/**
 * The run builder (`RunController` in timsort-internal.h): a run is a
 * half-open interval of positions; `MakeRun` finds the natural run at a
 * position, extends it to the requested minimum and leaves it ascending, using
 * an insertion sort (`SortRun`) or a reversal (`ReverseRun`). `SwapRuns`
 * exchanges the contents of two blocks and is used by the block merge.
 */
module Runs {
  import opened SortSpec

  /** A run: the positions `[begin, end)` of the sequence being sorted. */
  datatype Run = Run(begin: int, end: int)
  {
    /** `size()`: the number of positions in the run. */
    function Size(): int
    {
      end - begin
    }

    /** `join(run)`: after a merge the lower run absorbs the upper one. */
    function Join(upper: Run): (r: Run)
      ensures r.begin == begin && r.end == upper.end
      ensures end == upper.begin ==> r.Size() == Size() + upper.Size()
    {
      Run(begin, upper.end)
    }
  }

  /**
   * The natural-run scan: from `end`, keep going while each element compares
   * to its predecessor the same way (`s[k] < s[k - 1]` equals `desc`).
   */
  function ScanEnd(s: seq<int>, end: int, finish: int, desc: bool): (r: int)
    requires 1 <= end <= finish <= |s|
    ensures end <= r <= finish
    ensures forall k :: end <= k < r ==> Continues(s, k, desc)
    ensures r < finish ==> !Continues(s, r, desc)
    decreases finish - end
  {
    if end < finish && Continues(s, end, desc) then ScanEnd(s, end + 1, finish, desc)
    else end
  }

  /** Position `k` compares to its predecessor in the run's direction. */
  predicate Continues(s: seq<int>, k: int, desc: bool)
    requires 1 <= k < |s|
  {
    (s[k] < s[k - 1]) == desc
  }

  /** Whether the natural run at `start` is a descending one. */
  predicate Descending(s: seq<int>, start: int, finish: int)
    requires 0 <= start < finish <= |s|
  {
    start + 1 < finish && s[start + 1] < s[start]
  }

  /** End of the natural run at `start`: non-strictly ascending or strictly descending. */
  function NaturalRunEnd(s: seq<int>, start: int, finish: int): (r: int)
    requires 0 <= start < finish <= |s|
    ensures start < r <= finish
  {
    if start + 1 == finish then finish
    else ScanEnd(s, start + 2, finish, Descending(s, start, finish))
  }

  /**
   * Where `makeRun(start, minPos, finish)` ends the run it builds: the run
   * starts at `start`, is not empty, stays within `finish`, covers the whole
   * natural run, and reaches `minPos` unless `finish` comes first.
   */
  function RunEnd(s: seq<int>, start: int, minPos: int, finish: int): (r: int)
    requires 0 <= start < finish <= |s|
    ensures start < r <= finish
    ensures r >= (if minPos < finish then minPos else finish)
    ensures r >= NaturalRunEnd(s, start, finish)
  {
    var natural := NaturalRunEnd(s, start, finish);
    if natural < minPos && natural < finish then Min(minPos, finish) else natural
  }

  /** Adjacent strict descents make a strictly descending sequence. */
  lemma {:induction false} AdjacentDescending(s: seq<int>)
    requires forall i :: 0 <= i < |s| - 1 ==> s[i + 1] < s[i]
    ensures StrictlyDescending(s)
  {
    if |s| > 1 {
      AdjacentDescending(s[1..]);
      forall i, j | 0 <= i < j < |s| ensures s[j] < s[i] {
        if i > 0 {
          assert s[1..][i - 1] == s[i] && s[1..][j - 1] == s[j];
        } else if j > 1 {
          assert s[1..][0] == s[1] && s[1..][j - 1] == s[j];
        }
      }
    }
  }

  /**
   * A natural run is ascending (ties allowed) or strictly descending: equal
   * neighbours end a descending run.
   */
  lemma NaturalRunShape(s: seq<int>, start: int, finish: int)
    requires 0 <= start < finish <= |s|
    ensures var n := NaturalRunEnd(s, start, finish);
      if Descending(s, start, finish) then StrictlyDescending(s[start..n]) else Sorted(s[start..n])
  {
    var n := NaturalRunEnd(s, start, finish);
    var r := s[start..n];
    var desc := Descending(s, start, finish);
    forall i | 0 <= i < |r| - 1 ensures (r[i + 1] < r[i]) == desc {
      assert r[i + 1] == s[start + i + 1] && r[i] == s[start + i];
      if i > 0 {
        assert Continues(s, start + i + 1, desc);
      }
    }
    if desc {
      AdjacentDescending(r);
    } else {
      NoCrashIndexIffSorted(r);
    }
  }

  /** Reversal permutes. */
  lemma {:induction false} ReversePerm(s: seq<int>)
    ensures multiset(Reverse(s)) == multiset(s)
  {
    if s != [] {
      ReversePerm(s[1..]);
      assert s == [s[0]] + s[1..];
    }
  }

  /**
   * What `sortRun`'s inner loop leaves behind: the value taken from `it` sits
   * at `t`, and the elements that were in `[t, it)` moved one place up.
   */
  function Shifted(pre: seq<int>, t: int, it: int): (r: seq<int>)
    requires 0 <= t <= it < |pre|
    ensures |r| == |pre|
  {
    pre[..t] + [pre[it]] + pre[t..it] + pre[it + 1..]
  }

  /**
   * The state inside the shifting loop: the elements of `[t, it)` have moved
   * one place up and `t` is the gap (still holding its old element).
   */
  ghost predicate Gap(pre: seq<int>, cur: seq<int>, t: int, it: int)
    requires 0 <= t <= it < |pre|
  {
    cur == pre[..t + 1] + pre[t..it] + pre[it + 1..]
  }

  /** Before the first shift the gap is at `it` itself. */
  lemma GapStart(pre: seq<int>, it: int)
    requires 0 <= it < |pre|
    ensures Gap(pre, pre, it, it)
  {
    assert pre[..it + 1] + pre[it..it] + pre[it + 1..] == pre[..it + 1] + pre[it + 1..];
  }

  /** Below the gap nothing has moved. */
  lemma GapBelow(pre: seq<int>, cur: seq<int>, t: int, it: int)
    requires 0 < t <= it < |pre| && Gap(pre, cur, t, it)
    ensures cur[t - 1] == pre[t - 1]
  {
    assert cur[t - 1] == pre[..t + 1][t - 1];
  }

  /**
   * One more step of the shifting loop: the element at `t - 1`, not below the
   * saved value `v`, is copied up and the gap moves down.
   */
  lemma ShiftStep(pre: seq<int>, cur: seq<int>, next: seq<int>, t: int, it: int, v: int)
    requires 0 < t <= it < |pre| && Gap(pre, cur, t, it)
    requires !(cur[t - 1] < v) && AllAtLeast(pre[t..it], v)
    requires next == cur[t := cur[t - 1]]
    ensures Gap(pre, next, t - 1, it) && AllAtLeast(pre[t - 1..it], v)
  {
    var rhs := pre[..t] + pre[t - 1..it] + pre[it + 1..];
    assert |next| == |rhs|;
    forall k | 0 <= k < |next| ensures next[k] == rhs[k] {
      if k < t - 1 {
        assert next[k] == cur[k] == pre[k];
      } else if k == t - 1 {
        assert next[k] == cur[k] == pre[t - 1];
      } else if k == t {
        assert next[k] == cur[t - 1] == pre[t - 1];
      } else if k <= it {
        assert cur[k] == pre[t..it][k - t - 1];
        assert rhs[k] == pre[t - 1..it][k - t];
      } else {
        assert cur[k] == pre[it + 1..][k - it - 1];
        assert rhs[k] == pre[it + 1..][k - it - 1];
      }
    }
    assert pre[..t] + pre[t - 1..it] + pre[it + 1..] == pre[..t - 1 + 1] + pre[t - 1..it] + pre[it + 1..];
    assert cur[t - 1] == pre[t - 1] by { GapBelow(pre, cur, t, it); }
    assert pre[t - 1..it] == [pre[t - 1]] + pre[t..it];
  }

  /** Dropping the saved value into the gap at `t` completes `Shifted`. */
  lemma ShiftDrop(pre: seq<int>, cur: seq<int>, next: seq<int>, t: int, it: int)
    requires 0 <= t <= it < |pre| && Gap(pre, cur, t, it)
    requires next == cur[t := pre[it]]
    ensures next == Shifted(pre, t, it)
  {
    var rhs := Shifted(pre, t, it);
    forall k | 0 <= k < |next| ensures next[k] == rhs[k] {
      if k < t {
        assert next[k] == cur[k] == pre[k];
      } else if k == t {
      } else if k <= it {
        assert cur[k] == pre[t..it][k - t - 1];
        assert rhs[k] == pre[t..it][k - t - 1];
      } else {
        assert cur[k] == pre[it + 1..][k - it - 1];
        assert rhs[k] == pre[it + 1..][k - it - 1];
      }
    }
  }

  /**
   * One insertion step keeps everything outside `[lo, hi)`, extends the sorted
   * prefix `[lo, it)` by one and permutes `[lo, hi)`.
   */
  lemma InsertStep(pre: seq<int>, lo: int, t: int, it: int, hi: int)
    requires 0 <= lo <= t <= it < hi <= |pre|
    requires Sorted(pre[lo..it])
    requires t > lo ==> pre[t - 1] < pre[it]
    requires AllAtLeast(pre[t..it], pre[it])
    ensures var post := Shifted(pre, t, it);
      && post[..lo] == pre[..lo] && post[hi..] == pre[hi..]
      && Sorted(post[lo..it + 1])
      && multiset(post[lo..hi]) == multiset(pre[lo..hi])
  {
    var post := Shifted(pre, t, it);
    var v := pre[it];
    var A, B, C := pre[lo..t], pre[t..it], pre[it + 1..hi];
    ShiftedSlices(pre, lo, t, it, hi);
    SplitAt(pre, lo, t, it, hi);
    PermuteMiddle(A, B, [v], C);
    SortedSplit(pre, lo, t, it);
    InsertSorted(A, v, B);
  }

  /** The pieces of `Shifted` around the range `[lo, hi)`. */
  lemma ShiftedSlices(pre: seq<int>, lo: int, t: int, it: int, hi: int)
    requires 0 <= lo <= t <= it < hi <= |pre|
    ensures var post := Shifted(pre, t, it);
      && post[..lo] == pre[..lo] && post[hi..] == pre[hi..]
      && post[lo..hi] == pre[lo..t] + ([pre[it]] + pre[t..it]) + pre[it + 1..hi]
      && post[lo..it + 1] == pre[lo..t] + ([pre[it]] + pre[t..it])
  {
    var post := Shifted(pre, t, it);
    var P, Q := pre[lo..t] + ([pre[it]] + pre[t..it]), pre[it + 1..hi];
    forall k | 0 <= k < it + 1 - lo ensures post[lo..it + 1][k] == P[k] {
      if k < t - lo {
        assert P[k] == pre[lo + k];
      } else if k > t - lo {
        assert P[k] == pre[t..it][k - (t - lo) - 1];
      }
    }
    assert post[lo..hi] == post[lo..it + 1] + post[it + 1..hi];
    var front := pre[..t] + [pre[it]] + pre[t..it];
    assert |front| == it + 1 && post == front + pre[it + 1..];
    forall k | 0 <= k < hi - (it + 1) ensures post[it + 1..hi][k] == Q[k] {
      assert post[it + 1 + k] == pre[it + 1..][k];
    }
  }

  /** The sorted prefix `[lo, it)` cut at `t`. */
  lemma SortedSplit(pre: seq<int>, lo: int, t: int, it: int)
    requires 0 <= lo <= t <= it <= |pre|
    ensures pre[lo..it] == pre[lo..t] + pre[t..it]
  {
  }

  /** `[lo, hi)` cut at `t` and at the single position `it`. */
  lemma SplitAt(s: seq<int>, lo: int, t: int, it: int, hi: int)
    requires 0 <= lo <= t <= it < hi <= |s|
    ensures s[lo..hi] == s[lo..t] + (s[t..it] + [s[it]]) + s[it + 1..hi]
  {
    assert s[lo..hi] == s[lo..t] + s[t..it + 1] + s[it + 1..hi];
    assert s[t..it + 1] == s[t..it] + [s[it]];
  }

  /** Swapping two middle pieces permutes. */
  lemma PermuteMiddle(A: seq<int>, B: seq<int>, V: seq<int>, C: seq<int>)
    ensures multiset(A + (V + B) + C) == multiset(A + (B + V) + C)
  {
  }

  /** Placing `v` between a sorted prefix it exceeds and a sorted suffix bounded by it. */
  lemma InsertSorted(A: seq<int>, v: int, B: seq<int>)
    requires Sorted(A + B)
    requires A != [] ==> A[|A| - 1] < v
    requires AllAtLeast(B, v)
    ensures Sorted(A + ([v] + B))
  {
    var r := A + ([v] + B);
    forall i, j | 0 <= i < j < |r| ensures r[i] <= r[j] {
      if j < |A| {
        assert r[i] == (A + B)[i] && r[j] == (A + B)[j];
      } else if j == |A| {
        assert r[i] == (A + B)[i] && A[|A| - 1] == (A + B)[|A| - 1];
      } else if i < |A| {
        assert r[i] == (A + B)[i] && r[j] == (A + B)[j - 1];
      } else if i > |A| {
        assert r[i] == (A + B)[i - 1] && r[j] == (A + B)[j - 1];
      } else {
        assert r[j] == B[j - |A| - 1];
      }
    }
  }

  /**
   * `sortRun`: insertion sort of `[lo, hi)` that shifts larger-or-equal
   * elements up by one and drops the saved value into the gap.
   */
  method SortRun(a: array<int>, lo: int, hi: int)
    requires 0 <= lo <= hi <= a.Length
    modifies a
    ensures a[lo..hi] == SortSeq(old(a[lo..hi]))
    ensures a[..lo] == old(a[..lo]) && a[hi..] == old(a[hi..])
  {
    if lo == hi {
      return;
    }
    ghost var o := a[..];
    var it := lo + 1;
    while it < hi
      invariant lo + 1 <= it <= hi
      invariant Sorted(a[lo..it])
      invariant multiset(a[lo..hi]) == multiset(o[lo..hi])
      invariant a[..lo] == o[..lo] && a[hi..] == o[hi..]
    {
      InsertOne(a, lo, it, hi);
      it := it + 1;
    }
    SortedPermIsSortSeq(a[lo..hi], o[lo..hi]);
  }

  /**
   * One pass of `sortRun`'s outer loop: the value at `it` is saved, larger or
   * equal elements of the sorted prefix `[lo, it)` shift up by one, and the
   * value drops into the gap.
   */
  method InsertOne(a: array<int>, lo: int, it: int, hi: int)
    requires 0 <= lo < it < hi <= a.Length && Sorted(a[lo..it])
    modifies a
    ensures Sorted(a[lo..it + 1])
    ensures multiset(a[lo..hi]) == multiset(old(a[lo..hi]))
    ensures a[..lo] == old(a[..lo]) && a[hi..] == old(a[hi..])
  {
    ghost var pre := a[..];
    var t := it;
    var v := a[it];
    GapStart(pre, it);
    while t > lo && !(a[t - 1] < v)
      invariant lo <= t <= it && a.Length == |pre|
      invariant Gap(pre, a[..], t, it)
      invariant AllAtLeast(pre[t..it], v)
    {
      ghost var cur := a[..];
      a[t] := a[t - 1];
      ShiftStep(pre, cur, a[..], t, it, v);
      t := t - 1;
    }
    if t > lo {
      GapBelow(pre, a[..], t, it);
    }
    ghost var cur := a[..];
    a[t] := v;
    ShiftDrop(pre, cur, a[..], t, it);
    InsertStep(pre, lo, t, it, hi);
  }

  /** `reverseRun`: swaps the ends of `[lo, hi)` inwards until they meet. */
  method ReverseRun(a: array<int>, lo: int, hi: int)
    requires 0 <= lo <= hi <= a.Length
    modifies a
    ensures a[lo..hi] == Reverse(old(a[lo..hi]))
    ensures a[..lo] == old(a[..lo]) && a[hi..] == old(a[hi..])
  {
    ghost var o := a[..];
    ghost var n: nat := 0;
    var i, j := lo, hi;
    while i < j
      invariant i == lo + n && j == hi - n && i <= j + 1
      invariant a[..] == SwapEnds(o, lo, hi, n)
    {
      j := j - 1;
      SwapEndsNext(o, lo, hi, n, i, j);
      SwapIterators(a, i, j);
      i, n := i + 1, n + 1;
    }
    SwapEndsReverse(o, lo, hi, n);
  }

  /** `s` after the `n` outermost pairs of `[lo, hi)` were exchanged, outside in. */
  ghost function SwapEnds(s: seq<int>, lo: int, hi: int, n: nat): (r: seq<int>)
    requires 0 <= lo && hi <= |s| && 2 * n <= hi - lo + 1
    ensures |r| == |s|
  {
    if n == 0 then s
    else
      Exchange(SwapEnds(s, lo, hi, n - 1), lo + n - 1, hi - n)
  }

  /** One more pair, at the positions `p` and `q` just inside the exchanged ends. */
  lemma SwapEndsNext(s: seq<int>, lo: int, hi: int, n: nat, p: int, q: int)
    requires 0 <= lo && hi <= |s| && 2 * (n + 1) <= hi - lo + 1 && p == lo + n && q == hi - n - 1
    ensures SwapEnds(s, lo, hi, n + 1) == Exchange(SwapEnds(s, lo, hi, n), p, q)
  {
  }

  /** Each exchanged position holds its mirror image's old element; the rest is unchanged. */
  lemma {:induction false} SwapEndsAt(s: seq<int>, lo: int, hi: int, n: nat, k: int)
    requires 0 <= lo && hi <= |s| && 2 * n <= hi - lo + 1 && 0 <= k < |s|
    ensures SwapEnds(s, lo, hi, n)[k] == if lo <= k < lo + n || hi - n <= k < hi then s[lo + hi - 1 - k] else s[k]
  {
    if n == 0 {
      assert SwapEnds(s, lo, hi, n) == s;
    } else {
      var p, q := lo + n - 1, hi - n;
      SwapEndsAt(s, lo, hi, n - 1, if k == q then p else if k == p then q else k);
    }
  }

  /** Once the exchanged ends meet, `[lo, hi)` is reversed and nothing else has moved. */
  lemma SwapEndsReverse(s: seq<int>, lo: int, hi: int, n: nat)
    requires 0 <= lo <= hi <= |s| && hi - lo <= 2 * n <= hi - lo + 1
    ensures SwapEnds(s, lo, hi, n)[lo..hi] == Reverse(s[lo..hi])
    ensures SwapEnds(s, lo, hi, n)[..lo] == s[..lo] && SwapEnds(s, lo, hi, n)[hi..] == s[hi..]
  {
    SwapEndsOutside(s, lo, hi, n);
    SwapEndsInside(s, lo, hi, n);
  }

  /** The exchanges stay inside `[lo, hi)`. */
  lemma SwapEndsOutside(s: seq<int>, lo: int, hi: int, n: nat)
    requires 0 <= lo <= hi <= |s| && 2 * n <= hi - lo + 1
    ensures SwapEnds(s, lo, hi, n)[..lo] == s[..lo] && SwapEnds(s, lo, hi, n)[hi..] == s[hi..]
  {
    var r := SwapEnds(s, lo, hi, n);
    forall k | 0 <= k < lo ensures r[..lo][k] == s[..lo][k] {
      SwapEndsAt(s, lo, hi, n, k);
    }
    forall k | 0 <= k < |s| - hi ensures r[hi..][k] == s[hi..][k] {
      SwapEndsAt(s, lo, hi, n, hi + k);
    }
  }

  /** Once every position of `[lo, hi)` has been exchanged, the range is reversed. */
  lemma SwapEndsInside(s: seq<int>, lo: int, hi: int, n: nat)
    requires 0 <= lo <= hi <= |s| && hi - lo <= 2 * n <= hi - lo + 1
    ensures SwapEnds(s, lo, hi, n)[lo..hi] == Reverse(s[lo..hi])
  {
    var v := SwapEnds(s, lo, hi, n)[lo..hi];
    var rev := Reverse(s[lo..hi]);
    forall k | 0 <= k < hi - lo ensures v[k] == rev[k] {
      SwapEndsMirror(s, lo, hi, n, k);
    }
    assert v == rev;
  }

  /** Position `lo + k` of a fully exchanged range holds the old element of its mirror image. */
  lemma SwapEndsMirror(s: seq<int>, lo: int, hi: int, n: nat, k: int)
    requires 0 <= lo <= hi <= |s| && hi - lo <= 2 * n <= hi - lo + 1 && 0 <= k < hi - lo
    ensures SwapEnds(s, lo, hi, n)[lo..hi][k] == Reverse(s[lo..hi])[k]
  {
    SwapEndsAt(s, lo, hi, n, lo + k);
    assert s[lo..hi][hi - lo - 1 - k] == s[hi - 1 - k];
  }

  /**
   * `s` after the first `n` positions of the blocks at `xb` and `yb` were
   * exchanged pair by pair (when `xb == yb` nothing moves).
   */
  ghost function SwapPrefix(s: seq<int>, xb: int, yb: int, n: int): (r: seq<int>)
    requires 0 <= n && 0 <= xb && xb + n <= |s| && 0 <= yb && yb + n <= |s|
    ensures |r| == |s|
  {
    if n == 0 then s
    else
      Exchange(SwapPrefix(s, xb, yb, n - 1), xb + n - 1, yb + n - 1)
  }

  /** `s` with the elements at `p` and `q` exchanged. */
  function Exchange(s: seq<int>, p: int, q: int): (r: seq<int>)
    requires 0 <= p < |s| && 0 <= q < |s|
    ensures |r| == |s|
  {
    s[p := s[q]][q := s[p]]
  }

  /** The element `SwapPrefix` leaves at position `k`. */
  ghost function SwapAt(s: seq<int>, xb: int, yb: int, n: int, k: int): int
    requires 0 <= n && 0 <= xb && xb + n <= |s| && 0 <= yb && yb + n <= |s| && 0 <= k < |s|
  {
    if xb <= k < xb + n then s[k - xb + yb]
    else if yb <= k < yb + n then s[k - yb + xb]
    else s[k]
  }

  /** For blocks in order, each position of the swapped blocks holds its partner's old element; the rest is unchanged. */
  lemma {:induction false} SwapPrefixAt(s: seq<int>, xb: int, yb: int, n: int, k: int)
    requires 0 <= n && 0 <= xb && xb + n <= yb && yb + n <= |s| && 0 <= k < |s|
    ensures SwapPrefix(s, xb, yb, n)[k] == SwapAt(s, xb, yb, n, k)
  {
    if n == 0 {
      assert SwapPrefix(s, xb, yb, n) == s;
    } else {
      var t := SwapPrefix(s, xb, yb, n - 1);
      var p, q := xb + n - 1, yb + n - 1;
      SwapPrefixAt(s, xb, yb, n - 1, if k == q then p else if k == p then q else k);
    }
  }

  /**
   * Exchanging the prefixes of two blocks, the first before the second: the
   * blocks trade contents and everything around them stays.
   */
  lemma SwapPrefixSlices(s: seq<int>, xb: int, yb: int, n: int, xe: int, ye: int)
    requires 0 <= n && 0 <= xb && xb + n <= yb && yb + n <= |s| && xe == xb + n && ye == yb + n
    ensures var r := SwapPrefix(s, xb, yb, n);
      && r[xb..xe] == s[yb..ye] && r[yb..ye] == s[xb..xe]
      && r[..xb] == s[..xb] && r[xe..yb] == s[xe..yb] && r[ye..] == s[ye..]
  {
    var r := SwapPrefix(s, xb, yb, n);
    forall k | 0 <= k < |s| ensures r[k] == SwapAt(s, xb, yb, n, k) {
      SwapPrefixAt(s, xb, yb, n, k);
    }
  }

  /** Exchanging two positions permutes. */
  lemma ExchangePerm(s: seq<int>, p: int, q: int)
    requires 0 <= p < |s| && 0 <= q < |s|
    ensures multiset(Exchange(s, p, q)) == multiset(s)
  {
    if p != q {
      var t := s[p := s[q]];
      assert multiset(t) == multiset(s) - multiset{s[p]} + multiset{s[q]};
      assert multiset(Exchange(s, p, q)) == multiset(t) - multiset{t[q]} + multiset{s[p]};
    }
  }

  /** Exchanging block prefixes permutes. */
  lemma {:induction false} SwapPrefixPerm(s: seq<int>, xb: int, yb: int, n: int)
    requires 0 <= n && 0 <= xb && xb + n <= |s| && 0 <= yb && yb + n <= |s|
    ensures multiset(SwapPrefix(s, xb, yb, n)) == multiset(s)
  {
    if n == 0 {
      assert SwapPrefix(s, xb, yb, n) == s;
    } else {
      SwapPrefixPerm(s, xb, yb, n - 1);
      ExchangePerm(SwapPrefix(s, xb, yb, n - 1), xb + n - 1, yb + n - 1);
    }
  }

  /** `swapIterators(p, q)`: exchanges two elements. */
  method SwapIterators(a: array<int>, p: int, q: int)
    requires 0 <= p < a.Length && 0 <= q < a.Length
    modifies a
    ensures a[..] == Exchange(old(a[..]), p, q)
  {
    a[p], a[q] := a[q], a[p];
  }

  /** One more exchanged pair, at the positions `p` and `q` just past the exchanged prefixes. */
  lemma SwapPrefixNext(s: seq<int>, xb: int, yb: int, n: nat, p: int, q: int)
    requires 0 <= xb && 0 <= yb && xb + n < |s| && yb + n < |s| && p == xb + n && q == yb + n
    ensures SwapPrefix(s, xb, yb, n + 1) == Exchange(SwapPrefix(s, xb, yb, n), p, q)
  {
  }

  /**
   * `swapRuns`: exchanges the first `min(sizes)` elements of two blocks that
   * are either the same block or do not overlap.
   */
  method SwapRuns(a: array<int>, x: Run, y: Run)
    requires 0 <= x.begin <= x.end <= a.Length && 0 <= y.begin <= y.end <= a.Length
    requires x.begin == y.begin || x.end <= y.begin || y.end <= x.begin
    modifies a
    ensures a[..] == SwapPrefix(old(a[..]), x.begin, y.begin, Min(x.Size(), y.Size()))
  {
    ghost var o := a[..];
    ghost var n: nat := 0;
    var it1, it2 := x.begin, y.begin;
    while it1 < x.end && it2 < y.end
      invariant it1 == x.begin + n <= x.end && it2 == y.begin + n <= y.end
      invariant a[..] == SwapPrefix(o, x.begin, y.begin, n)
    {
      SwapPrefixNext(o, x.begin, y.begin, n, it1, it2);
      SwapIterators(a, it1, it2);
      it1, it2, n := it1 + 1, it2 + 1, n + 1;
    }
  }

  /** The smaller of two lengths. */
  function Min(p: int, q: int): int
  {
    if p < q then p else q
  }

  /**
   * The scanning half of `makeRun(start, minPos, finish)`: walks over the
   * natural run at `start`, then extends it to `minPos` (within `finish`) by
   * plain inclusion. Reports whether the natural run is descending and whether
   * it was extended.
   */
  method ScanRun(a: array<int>, start: int, minPos: int, finish: int)
    returns (end: int, compareType: bool, resortFlag: bool)
    requires 0 <= start < finish <= a.Length
    ensures end == RunEnd(a[..], start, minPos, finish)
    ensures compareType == Descending(a[..], start, finish)
    ensures resortFlag <==> end > NaturalRunEnd(a[..], start, finish)
  {
    end, compareType := ScanNatural(a, start, finish);
    end, resortFlag := ExtendRun(end, minPos, finish);
  }

  /**
   * The first loop of `makeRun`: the first comparison fixes the direction,
   * and the run goes on while neighbouring elements compare the same way.
   */
  method ScanNatural(a: array<int>, start: int, finish: int) returns (end: int, compareType: bool)
    requires 0 <= start < finish <= a.Length
    ensures end == NaturalRunEnd(a[..], start, finish)
    ensures compareType == Descending(a[..], start, finish)
  {
    ghost var s := a[..];
    end := start + 1;
    compareType := false;
    if end != finish {
      compareType := a[end] < a[start];
      end := end + 1;
      while end < finish && (a[end] < a[end - 1]) == compareType
        invariant start + 2 <= end <= finish
        invariant ScanEnd(s, end, finish, compareType) == NaturalRunEnd(s, start, finish)
        decreases finish - end
      {
        end := end + 1;
      }
    }
  }

  /**
   * The second loop of `makeRun`: a run that ends before `minPos` is
   * stretched to `minPos`, or to `finish` when that comes first, and is then
   * marked for re-sorting.
   */
  method ExtendRun(natural: int, minPos: int, finish: int) returns (end: int, resortFlag: bool)
    requires natural <= finish
    ensures end == if natural < minPos && natural < finish then Min(minPos, finish) else natural
    ensures resortFlag <==> end > natural
  {
    end, resortFlag := natural, false;
    while end < minPos && end < finish
      invariant natural <= end <= finish
      invariant resortFlag <==> end > natural
      invariant resortFlag ==> end <= minPos
      decreases finish - end
    {
      end := end + 1;
      resortFlag := true;
    }
  }

  /**
   * `makeRun(start, minPos, finish)`: builds the run at `start`. The run found
   * by `ScanRun` is insertion-sorted if it was extended, reversed if it was a
   * descending natural run, and left alone otherwise.
   */
  method MakeRun(a: array<int>, start: int, minPos: int, finish: int) returns (end: int)
    requires 0 <= start < finish <= a.Length
    modifies a
    ensures end == RunEnd(old(a[..]), start, minPos, finish)
    ensures start < end <= finish && end >= (if minPos < finish then minPos else finish)
    ensures a[start..end] == SortSeq(old(a[start..end]))
    ensures a[..start] == old(a[..start]) && a[end..] == old(a[end..])
  {
    ghost var s := a[..];
    var compareType, resortFlag;
    end, compareType, resortFlag := ScanRun(a, start, minPos, finish);
    if resortFlag {
      SortRun(a, start, end);
    } else if compareType {
      ReverseRun(a, start, end);
      NaturalRunIsSortSeq(s, start, finish);
    } else {
      NaturalRunIsSortSeq(s, start, finish);
    }
  }

  /**
   * Left as it is when ascending and reversed when descending, a natural run
   * is in sorted order.
   */
  lemma NaturalRunIsSortSeq(s: seq<int>, start: int, finish: int)
    requires 0 <= start < finish <= |s|
    ensures var n := NaturalRunEnd(s, start, finish);
      if Descending(s, start, finish) then Reverse(s[start..n]) == SortSeq(s[start..n])
      else s[start..n] == SortSeq(s[start..n])
  {
    var n := NaturalRunEnd(s, start, finish);
    NaturalRunShape(s, start, finish);
    if Descending(s, start, finish) {
      ReverseDescendingSorted(s[start..n]);
      ReversePerm(s[start..n]);
      SortedPermIsSortSeq(Reverse(s[start..n]), s[start..n]);
    } else {
      SortedPermIsSortSeq(s[start..n], s[start..n]);
    }
  }

  /** With `minPos == finish`, `makeRun` sorts the whole of `[start, finish)`. */
  lemma RunEndToFinish(s: seq<int>, start: int, finish: int)
    requires 0 <= start < finish <= |s|
    ensures RunEnd(s, start, finish, finish) == finish
  {
  }
}
