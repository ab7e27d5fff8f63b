/**
 * Specification vocabulary shared by the whole model: what "sorted" means for
 * a range of integers, the sorted arrangement of a sequence, the reference
 * (non-galloping) merge and reversal.
 *
 * The comparator of the sort is fixed to `<` on `int`.
 */
module SortSpec {

  /** Every element is no greater than every later one. */
  ghost predicate Sorted(s: seq<int>)
  {
    forall i, j :: 0 <= i < j < |s| ==> s[i] <= s[j]
  }

  /**
   * The check the benchmarking harness applies to a sorted range: there is no
   * "crash index" `i` with `s[i + 1] < s[i]`.
   */
  ghost predicate NoCrashIndex(s: seq<int>)
  {
    forall i :: 0 <= i < |s| - 1 ==> !(s[i + 1] < s[i])
  }

  /** Strictly descending: what a descending natural run looks like. */
  ghost predicate StrictlyDescending(s: seq<int>)
  {
    forall i, j :: 0 <= i < j < |s| ==> s[j] < s[i]
  }

  /** The harness's adjacent-pair check and pairwise sortedness agree. */
  lemma {:induction false} NoCrashIndexIffSorted(s: seq<int>)
    ensures NoCrashIndex(s) <==> Sorted(s)
  {
    if NoCrashIndex(s) && |s| > 1 {
      NoCrashIndexIffSorted(s[1..]);
      assert NoCrashIndex(s[1..]) by {
        forall i | 0 <= i < |s[1..]| - 1 ensures !(s[1..][i + 1] < s[1..][i]) {
          assert s[1..][i + 1] == s[i + 2] && s[1..][i] == s[i + 1];
        }
      }
      forall i, j | 0 <= i < j < |s| ensures s[i] <= s[j] {
        if i > 0 {
          assert s[1..][i - 1] == s[i] && s[1..][j - 1] == s[j];
        } else {
          assert s[1..][0] == s[1] && s[1..][j - 1] == s[j];
        }
      }
    }
  }

  /** Every element of `s` is at least `v`. */
  ghost predicate AllAtLeast(s: seq<int>, v: int)
  {
    forall k :: 0 <= k < |s| ==> v <= s[k]
  }

  /** A lower bound of all elements carries over to any permutation. */
  lemma AtLeastOfPerm(s: seq<int>, t: seq<int>, v: int)
    requires multiset(s) == multiset(t) && AllAtLeast(t, v)
    ensures AllAtLeast(s, v)
  {
    forall k | 0 <= k < |s| ensures v <= s[k] {
      assert s[k] in multiset(t);
      var i :| 0 <= i < |t| && t[i] == s[k];
    }
  }

  /** A lower bound of two sequences is a lower bound of their concatenation. */
  lemma AtLeastConcat(s: seq<int>, t: seq<int>, v: int)
    requires AllAtLeast(s, v) && AllAtLeast(t, v)
    ensures AllAtLeast(s + t, v)
  {
  }

  /** Prepending a lower bound to a sorted sequence keeps it sorted. */
  lemma SortedCons(v: int, t: seq<int>)
    requires Sorted(t) && AllAtLeast(t, v)
    ensures Sorted([v] + t)
  {
  }

  /** The tail of a sorted sequence is bounded below by its head. */
  lemma SortedTail(t: seq<int>)
    requires Sorted(t) && t != []
    ensures Sorted(t[1..]) && AllAtLeast(t[1..], t[0])
  {
  }

  /** Inserts `x` before the first element that is not smaller than it. */
  function Insert(x: int, t: seq<int>): (r: seq<int>)
    requires Sorted(t)
    ensures Sorted(r)
    ensures multiset(r) == multiset(t) + multiset{x}
    ensures |r| == |t| + 1
  {
    if t == [] then [x]
    else if x <= t[0] then
      SortedTail(t);
      assert AllAtLeast(t, x);
      SortedCons(x, t);
      [x] + t
    else
      SortedTail(t);
      var rest := Insert(x, t[1..]);
      assert t == [t[0]] + t[1..];
      AtLeastConcat(t[1..], [x], t[0]);
      assert multiset(rest) == multiset(t[1..] + [x]);
      AtLeastOfPerm(rest, t[1..] + [x], t[0]);
      SortedCons(t[0], rest);
      [t[0]] + rest
  }

  /** The sorted arrangement of `s` (insertion sort on values). */
  function SortSeq(s: seq<int>): (r: seq<int>)
    ensures Sorted(r)
    ensures multiset(r) == multiset(s)
    ensures |r| == |s|
  {
    if s == [] then []
    else
      assert s == [s[0]] + s[1..];
      Insert(s[0], SortSeq(s[1..]))
  }

  /** Two sorted arrangements of the same elements are the same sequence. */
  lemma {:induction false} SortedUnique(p: seq<int>, q: seq<int>)
    requires Sorted(p) && Sorted(q)
    requires multiset(p) == multiset(q)
    ensures p == q
  {
    if p == [] {
      assert |multiset(q)| == 0;
    } else {
      SortedHeads(p, q);
      TailMultiset(p);
      TailMultiset(q);
      SortedTail(p);
      SortedTail(q);
      SortedUnique(p[1..], q[1..]);
      assert p == [p[0]] + p[1..] && q == [q[0]] + q[1..];
    }
  }

  /** Sorted arrangements of the same non-empty multiset start with the same element. */
  lemma SortedHeads(p: seq<int>, q: seq<int>)
    requires Sorted(p) && Sorted(q) && multiset(p) == multiset(q) && p != []
    ensures q != [] && p[0] == q[0]
  {
    assert p[0] in multiset(q);
    var i :| 0 <= i < |q| && q[i] == p[0];
    assert q[0] in multiset(p);
    var j :| 0 <= j < |p| && p[j] == q[0];
    assert q[0] <= q[i] && p[0] <= p[j];
  }

  /** Dropping the head removes one copy of it from the multiset. */
  lemma TailMultiset(p: seq<int>)
    requires p != []
    ensures multiset(p[1..]) == multiset(p) - multiset{p[0]}
  {
    assert p == [p[0]] + p[1..];
  }

  /** A sorted permutation of `s` is exactly `SortSeq(s)`. */
  lemma SortedPermIsSortSeq(r: seq<int>, s: seq<int>)
    requires Sorted(r) && multiset(r) == multiset(s)
    ensures r == SortSeq(s)
  {
    SortedUnique(r, SortSeq(s));
  }

  /** Sorting depends only on which elements there are. */
  lemma SortSeqOfPerm(p: seq<int>, q: seq<int>)
    requires multiset(p) == multiset(q)
    ensures SortSeq(p) == SortSeq(q)
  {
    SortedUnique(SortSeq(p), SortSeq(q));
  }

  /** `s` with the range `[lo, hi)` replaced by its sorted arrangement. */
  function SortRange(s: seq<int>, lo: int, hi: int): (r: seq<int>)
    requires 0 <= lo <= hi <= |s|
    ensures |r| == |s|
    ensures r[..lo] == s[..lo] && r[hi..] == s[hi..]
    ensures Sorted(r[lo..hi]) && multiset(r[lo..hi]) == multiset(s[lo..hi])
  {
    var r := s[..lo] + SortSeq(s[lo..hi]) + s[hi..];
    assert r[lo..hi] == SortSeq(s[lo..hi]);
    r
  }

  /** An array that sorts `[lo, hi)` and agrees with `s` elsewhere is `SortRange(s, lo, hi)`. */
  lemma SortRangeOf(s: seq<int>, t: seq<int>, lo: int, hi: int)
    requires 0 <= lo <= hi <= |s| == |t|
    requires t[..lo] == s[..lo] && t[lo..hi] == SortSeq(s[lo..hi]) && t[hi..] == s[hi..]
    ensures t == SortRange(s, lo, hi)
  {
    var u := SortRange(s, lo, hi);
    assert u == s[..lo] + SortSeq(s[lo..hi]) + s[hi..];
    assert t == t[..lo] + t[lo..hi] + t[hi..];
  }

  /**
   * The reference merge of two runs: the head of `x` is taken only when it is
   * strictly smaller than the head of `y`, so on ties the second run's element
   * goes first.
   */
  function Merge(x: seq<int>, y: seq<int>): (r: seq<int>)
    ensures |r| == |x| + |y|
    decreases |x| + |y|
  {
    if x == [] then y
    else if y == [] then x
    else if x[0] < y[0] then [x[0]] + Merge(x[1..], y)
    else [y[0]] + Merge(x, y[1..])
  }

  /** The reference merge rearranges its inputs. */
  lemma {:induction false} MergePerm(x: seq<int>, y: seq<int>)
    ensures multiset(Merge(x, y)) == multiset(x) + multiset(y)
    decreases |x| + |y|
  {
    if x != [] && y != [] {
      if x[0] < y[0] {
        var t := x[1..];
        MergePerm(t, y);
        assert Merge(x, y) == [x[0]] + Merge(t, y);
        assert x == [x[0]] + t;
        assert multiset(x) == multiset{x[0]} + multiset(t);
      } else {
        var t := y[1..];
        MergePerm(x, t);
        assert Merge(x, y) == [y[0]] + Merge(x, t);
        assert y == [y[0]] + t;
        assert multiset(y) == multiset{y[0]} + multiset(t);
      }
    }
  }

  /** Merging two sorted runs gives a sorted run. */
  lemma {:induction false} MergeSorted(x: seq<int>, y: seq<int>)
    requires Sorted(x) && Sorted(y)
    ensures Sorted(Merge(x, y))
    decreases |x| + |y|
  {
    if x != [] && y != [] {
      if x[0] < y[0] {
        SortedTail(x);
        MergeSorted(x[1..], y);
        MergePerm(x[1..], y);
        assert AllAtLeast(y, x[0]);
        AtLeastConcat(x[1..], y, x[0]);
        AtLeastOfPerm(Merge(x[1..], y), x[1..] + y, x[0]);
        SortedCons(x[0], Merge(x[1..], y));
      } else {
        SortedTail(y);
        MergeSorted(x, y[1..]);
        MergePerm(x, y[1..]);
        assert AllAtLeast(x, y[0]);
        AtLeastConcat(x, y[1..], y[0]);
        AtLeastOfPerm(Merge(x, y[1..]), x + y[1..], y[0]);
        SortedCons(y[0], Merge(x, y[1..]));
      }
    }
  }

  /** The merge of two sorted runs is the sorted arrangement of both. */
  lemma MergeIsSortSeq(x: seq<int>, y: seq<int>)
    requires Sorted(x) && Sorted(y)
    ensures Merge(x, y) == SortSeq(x + y)
  {
    MergeSorted(x, y);
    MergePerm(x, y);
    SortedPermIsSortSeq(Merge(x, y), x + y);
  }

  /** `s` read back to front. */
  function Reverse(s: seq<int>): (r: seq<int>)
    ensures |r| == |s|
    ensures forall k :: 0 <= k < |s| ==> r[k] == s[|s| - 1 - k]
  {
    if s == [] then [] else Reverse(s[1..]) + [s[0]]
  }

  /** Reversing a strictly descending run gives an ascending one. */
  lemma ReverseDescendingSorted(s: seq<int>)
    requires StrictlyDescending(s)
    ensures Sorted(Reverse(s))
  {
  }
}
