/**
 * The loops of `inplaceMerge` (src/timsort-internal.h) on the array. Each
 * loop is proved to compute the corresponding phase of the block path of
 * module BlockMerge. The scratch cells that `simpleMerge` uses as a buffer end
 * up in an order the model does not track; the invariants say that the array
 * and the model agree everywhere else and hold the same elements in the
 * buffer, and `SortErases` shows that the sort covering the buffer afterwards
 * makes them equal again.
 */
module InplaceMerge {
  import opened SortSpec
  import opened Runs
  import opened Merge
  import opened BlockMerge

  // ---------------------------------------------------------------------
  // The array against the model
  // ---------------------------------------------------------------------

  /** Sorting a range erases any rearrangement inside it. */
  lemma SortErases(t: seq<int>, u: seq<int>, lo: int, hi: int, lo': int, hi': int)
    requires PermutedWithin(t, u, lo, hi) && 0 <= lo' <= lo && hi <= hi' <= |t|
    ensures SortRange(u, lo', hi') == SortRange(t, lo', hi')
  {
    PermutedWiden(t, u, lo, hi, lo', hi');
    SortSeqOfPerm(t[lo'..hi'], u[lo'..hi']);
  }

  /** Below the buffer, the array after the merge agrees with the model after the splice. */
  lemma SpliceBelow(cur: seq<int>, A: seq<int>, A': seq<int>, lo: int, hi: int, buf: int, r: seq<int>)
    requires 0 <= lo <= hi <= buf <= |A| == |cur| == |A'| && |r| == hi - lo
    requires cur[..buf] == A[..buf]
    requires A'[lo..hi] == r && A'[..lo] == A[..lo] && A'[hi..buf] == A[hi..buf]
    ensures Splice(cur, lo, hi, r)[..buf] == A'[..buf]
  {
    var M := Splice(cur, lo, hi, r);
    assert cur[..lo] == cur[..buf][..lo] && A[..lo] == A[..buf][..lo];
    assert cur[hi..buf] == cur[..buf][hi..] && A[hi..buf] == A[..buf][hi..];
    assert M[hi..buf] == M[hi..][..buf - hi];
    assert M[..buf] == M[..lo] + M[lo..hi] + M[hi..buf];
    assert A'[..buf] == A'[..lo] + A'[lo..hi] + A'[hi..buf];
  }

  /**
   * In and above the buffer `[buf, bufEnd)`, a merge whose buffer area is the
   * first `len` cells of it keeps the array a rearrangement of the model there.
   */
  lemma SpliceAbove(cur: seq<int>, A: seq<int>, A': seq<int>, buf: int, len: int, bufEnd: int)
    requires 0 <= buf && 0 <= len && buf + len <= bufEnd <= |A| == |cur| == |A'|
    requires cur[bufEnd..] == A[bufEnd..] && multiset(cur[buf..bufEnd]) == multiset(A[buf..bufEnd])
    requires multiset(A'[buf..buf + len]) == multiset(A[buf..buf + len])
    requires A'[buf + len..] == A[buf + len..]
    ensures cur[bufEnd..] == A'[bufEnd..] && multiset(cur[buf..bufEnd]) == multiset(A'[buf..bufEnd])
  {
    assert A'[bufEnd..] == A'[buf + len..][bufEnd - (buf + len)..];
    assert A[bufEnd..] == A[buf + len..][bufEnd - (buf + len)..];
    assert A'[buf + len..bufEnd] == A'[buf + len..][..bufEnd - (buf + len)];
    assert A[buf + len..bufEnd] == A[buf + len..][..bufEnd - (buf + len)];
    assert A'[buf..bufEnd] == A'[buf..buf + len] + A'[buf + len..bufEnd];
    assert A[buf..bufEnd] == A[buf..buf + len] + A[buf + len..bufEnd];
  }

  /**
   * Replacing `[lo, hi)` below the buffer keeps the array in step with the
   * model, when the array's `[lo, hi)` is replaced by the same `r` and its
   * buffer area is only rearranged.
   */
  lemma SpliceStep(cur: seq<int>, A: seq<int>, A': seq<int>, lo: int, hi: int, buf: int, len: int, bufEnd: int, r: seq<int>)
    requires 0 <= lo <= hi <= buf && 0 <= len && buf + len <= bufEnd <= |A| == |A'| && |r| == hi - lo
    requires PermutedWithin(cur, A, buf, bufEnd)
    requires A'[lo..hi] == r && A'[..lo] == A[..lo] && A'[hi..buf] == A[hi..buf]
    requires multiset(A'[buf..buf + len]) == multiset(A[buf..buf + len]) && A'[buf + len..] == A[buf + len..]
    ensures PermutedWithin(Splice(cur, lo, hi, r), A', buf, bufEnd)
  {
    var M := Splice(cur, lo, hi, r);
    SpliceBelow(cur, A, A', lo, hi, buf, r);
    SpliceAbove(cur, A, A', buf, len, bufEnd);
    assert M[buf..bufEnd] == cur[buf..bufEnd] by {
      assert M[hi..][buf - hi..bufEnd - hi] == cur[hi..][buf - hi..bufEnd - hi];
    }
    assert M[bufEnd..] == cur[bufEnd..] by {
      assert M[hi..][bufEnd - hi..] == cur[hi..][bufEnd - hi..];
    }
  }

  /** Sequences that agree below `buf` agree on every slice below it. */
  lemma PrefixSlice(u: seq<int>, v: seq<int>, buf: int, lo: int, hi: int)
    requires 0 <= lo <= hi <= buf <= |u| && buf <= |v| && u[..buf] == v[..buf]
    ensures u[lo..hi] == v[lo..hi]
  {
    forall k | lo <= k < hi
      ensures u[k] == v[k]
    {
      assert u[k] == u[..buf][k] && v[k] == v[..buf][k];
    }
  }

  /** Where the array agrees with the model, their merges of `[lo, mid)` and `[mid, hi)` agree. */
  lemma MergeAtAgrees(cur: seq<int>, A: seq<int>, lo: int, mid: int, hi: int, buf: int, g: nat)
    requires 0 <= lo <= mid <= hi <= buf <= |A| == |cur| && cur[..buf] == A[..buf]
    ensures MergeAt(cur, lo, mid, hi, g) == Splice(cur, lo, hi, GallopMerge(A[lo..mid], A[mid..hi], g))
  {
    PrefixSlice(cur, A, buf, lo, mid);
    PrefixSlice(cur, A, buf, mid, hi);
  }

  /**
   * What one `simpleMerge(lo, mid, mid, hi, buf)` promises, taking `A` to `A'`,
   * keeps `A'` in step with `MergeAt` applied to the model `cur`: the two
   * agree outside the buffer `[buf, bufEnd)` and hold the same elements inside it.
   */
  lemma MergeStep(cur: seq<int>, A: seq<int>, A': seq<int>, lo: int, mid: int, hi: int, buf: int, bufEnd: int, g: nat)
    requires 0 <= lo <= mid <= hi <= buf && buf + (mid - lo) <= bufEnd <= |A| == |A'|
    requires PermutedWithin(cur, A, buf, bufEnd)
    requires A'[lo..hi] == GallopMerge(A[lo..mid], A[mid..hi], g)
    requires multiset(A'[buf..buf + (mid - lo)]) == multiset(A[buf..buf + (mid - lo)])
    requires A'[..lo] == A[..lo] && A'[hi..buf] == A[hi..buf]
    requires A'[buf + (mid - lo)..] == A[buf + (mid - lo)..]
    ensures PermutedWithin(MergeAt(cur, lo, mid, hi, g), A', buf, bufEnd)
  {
    MergeAtAgrees(cur, A, lo, mid, hi, buf, g);
    SpliceStep(cur, A, A', lo, hi, buf, mid - lo, bufEnd, GallopMerge(A[lo..mid], A[mid..hi], g));
  }

  /**
   * One `simpleMerge(lo, mid, mid, hi, buf)` on the array against `MergeAt`
   * on the model.
   */
  method MergeInto(a: array<int>, lo: int, mid: int, hi: int, buf: int, bufEnd: int, g: nat, ghost cur: seq<int>)
    returns (ghost cur': seq<int>)
    requires 0 <= lo <= mid <= hi <= buf && mid - lo <= hi - mid && buf + (mid - lo) <= bufEnd <= a.Length
    requires PermutedWithin(cur, a[..], buf, bufEnd)
    modifies a
    ensures cur' == MergeAt(cur, lo, mid, hi, g) && PermutedWithin(cur', a[..], buf, bufEnd)
  {
    ghost var A := a[..];
    SimpleMerge(a, lo, mid, mid, hi, buf, g);
    assert A[lo..mid] == old(a[lo..mid]) && A[mid..hi] == old(a[mid..hi]);
    MergeStep(cur, A, a[..], lo, mid, hi, buf, bufEnd, g);
    cur' := MergeAt(cur, lo, mid, hi, g);
  }

  // ---------------------------------------------------------------------
  // The loops
  // ---------------------------------------------------------------------

  /**
   * `makeRun(lo, hi, hi)`: with the minimal run as long as the range, the run
   * covers it, so this is an insertion sort of `[lo, hi)`.
   */
  method SortByMakeRun(a: array<int>, lo: int, hi: int)
    requires 0 <= lo < hi <= a.Length
    modifies a
    ensures a[..] == SortRange(old(a[..]), lo, hi)
  {
    ghost var s := a[..];
    RunEndToFinish(s, lo, hi);
    var end := MakeRun(a, lo, hi, hi);
    assert end == hi;
    assert a[..] == s[..lo] + SortSeq(s[lo..hi]) + s[hi..] by {
      assert a[..] == a[..lo] + a[lo..hi] + a[hi..];
    }
  }

  /** Lines 148-156: the scan over all blocks for the one holding `m`. */
  method FindYellow(b: int, m: int, e: int, bs: nat, cnt: nat) returns (yellowId: int)
    requires b <= m < e && bs == BlockSize(b, e) && cnt == BlockCount(b, e)
    ensures yellowId == BlockOf(b, m, bs) < cnt
  {
    LayoutMiddle(b, m, e);
    yellowId := -1;
    var i := 0;
    while i < cnt
      invariant 0 <= i <= cnt
      invariant yellowId == (if BlockOf(b, m, bs) < i then BlockOf(b, m, bs) else -1)
    {
      var block := Block(b, e, bs, i);
      InBlock(b, bs, m, i);
      if block.begin <= m && block.end > m {
        yellowId := i;
      }
      i := i + 1;
    }
  }

  /**
   * Lines 162-172: the block with the smallest head among block `i` and the
   * blocks `[i + 1, n)`, keeping the earliest on ties.
   */
  method MinBlock(a: array<int>, b: int, bs: nat, i: int, n: int) returns (minRun: int)
    requires 0 <= b && bs >= 1 && HeadsFit(b, bs, n, a.Length) && 0 <= i < n
    ensures minRun == MinHeadFrom(a[..], b, bs, i + 1, n, i)
  {
    minRun := i;
    var minIt := Head(b, bs, minRun);
    var j := i + 1;
    while j < n
      invariant i < j <= n && (minRun == i || i < minRun < j)
      invariant minIt == Head(b, bs, minRun)
      invariant MinHeadFrom(a[..], b, bs, j, n, minRun) == MinHeadFrom(a[..], b, bs, i + 1, n, i)
    {
      var it := Head(b, bs, j);
      if a[it] < a[minIt] {
        minIt := it;
        minRun := j;
      }
      j := j + 1;
    }
  }

  /**
   * Lines 162-175: one round of the selection sort, which swaps block `i`
   * with the block of smallest head from `i` on.
   */
  method SelectStep(a: array<int>, b: int, e: int, bs: nat, n: nat, ghost s: int, i: nat)
    requires 0 <= b && e <= a.Length && Tail(b, e, bs, n, s) && i < n && HeadsFit(b, bs, n, a.Length)
    modifies a
    ensures a[..] == SelectSwap(old(a[..]), b, bs, i, n)
  {
    var minRun := MinBlock(a, b, bs, i, n);
    if minRun != i {
      FullBlock(b, e, bs, n, s, i);
      FullBlock(b, e, bs, n, s, minRun);
      HeadLe(b, bs, i, minRun);
      SwapRuns(a, Block(b, e, bs, i), Block(b, e, bs, minRun));
    }
  }

  /** Lines 161-176: the selection sort of the `n` blocks before the scratch block by their heads. */
  method SelectBlocks(a: array<int>, b: int, e: int, bs: nat, n: nat, ghost s: int)
    requires 0 <= b && e <= a.Length && Tail(b, e, bs, n, s)
    modifies a
    ensures a[..] == SelectFrom(old(a[..]), b, bs, 0, n)
  {
    HeadsFitWiden(b, bs, n, e - s, a.Length);
    var i := 0;
    while i < n
      invariant 0 <= i <= n
      invariant SelectFrom(a[..], b, bs, i, n) == SelectFrom(old(a[..]), b, bs, 0, n)
    {
      SelectStep(a, b, e, bs, n, s, i);
      i := i + 1;
    }
  }

  /** Blocks `i` and `i + 1` of the selection are full, adjacent and below the scratch block. */
  lemma NeighbourPair(b: int, e: int, bs: nat, n: nat, s: int, i: nat)
    requires Tail(b, e, bs, n, s) && i + 1 < n
    ensures var x, y := Block(b, e, bs, i), Block(b, e, bs, i + 1);
      && x.begin == Head(b, bs, i) && y.begin == Head(b, bs, i + 1) && y.end == Head(b, bs, i + 2)
      && b <= x.begin && x.end == y.begin && x.end - x.begin == bs == y.end - y.begin && y.end <= e - s
  {
    FullBlock(b, e, bs, n, s, i);
    FullBlock(b, e, bs, n, s, i + 1);
    PairFits(b, bs, i, n);
  }

  /** One round of `NeighbourMerges`. */
  lemma NeighbourUnfold(t: seq<int>, b: int, bs: nat, i: nat, n: nat, g: nat)
    requires 0 <= b && Head(b, bs, n) <= |t| && i + 1 < n
    ensures 0 <= Head(b, bs, i) <= Head(b, bs, i + 1) <= Head(b, bs, i + 2) <= |t|
    ensures NeighbourMerges(t, b, bs, i, n, g)
         == NeighbourMerges(MergeAt(t, Head(b, bs, i), Head(b, bs, i + 1), Head(b, bs, i + 2), g), b, bs, i + 1, n, g)
  {
    PairFits(b, bs, i, n);
  }

  /**
   * Line 182: `simpleMerge` of blocks `i` and `i + 1` with the scratch block
   * `n` as buffer is one round of `NeighbourMerges` on the model.
   */
  method MergePair(a: array<int>, b: int, e: int, bs: nat, n: nat, ghost s: int, i: nat, g: nat, ghost cur: seq<int>)
    returns (ghost cur': seq<int>)
    requires 0 <= b && e <= a.Length && Tail(b, e, bs, n, s) && i + 1 < n
    requires PermutedWithin(cur, a[..], e - s, e - s + bs)
    modifies a
    ensures PermutedWithin(cur', a[..], e - s, e - s + bs)
    ensures NeighbourMerges(cur', b, bs, i + 1, n, g) == NeighbourMerges(cur, b, bs, i, n, g)
  {
    NeighbourPair(b, e, bs, n, s, i);
    ScratchBlocks(b, e, bs, n, n, s);
    var x, y := Block(b, e, bs, i), Block(b, e, bs, i + 1);
    NeighbourUnfold(cur, b, bs, i, n, g);
    var buffer := Block(b, e, bs, n).begin;
    assert buffer == e - s;
    cur' := MergeInto(a, x.begin, x.end, y.end, buffer, buffer + bs, g, cur);
    assert PermutedWithin(cur', a[..], buffer, buffer + bs);
  }

  /**
   * Lines 178-183: each block is merged with the next, the scratch block `n`
   * serving as buffer.
   */
  method MergeNeighbours(a: array<int>, b: int, e: int, bs: nat, n: nat, ghost s: int, g: nat, ghost final: seq<int>)
    requires 0 <= b && e <= a.Length && Tail(b, e, bs, n, s)
    requires final == NeighbourPhase(a[..], b, e, bs, n, s, g)
    modifies a
    ensures PermutedWithin(final, a[..], e - s, e - s + bs)
  {
    ghost var cur := a[..];
    PermutedRefl(cur, e - s, e - s + bs);
    var i := 0;
    while i < n - 1
      invariant 0 <= i <= n - 1
      invariant PermutedWithin(cur, a[..], e - s, e - s + bs)
      invariant NeighbourMerges(cur, b, bs, i, n, g) == final
    {
      cur := MergePair(a, b, e, bs, n, s, i, g, cur);
      i := i + 1;
    }
  }

  /**
   * Lines 194-201, one round of the backward pass: `alpha` is clamped to `b`,
   * `[alpha, beta)` and `[beta, gamma)` are merged through the buffer at `buf`,
   * and the window moves down. On the model this is one round of `BackPass`.
   */
  method MergeBack(a: array<int>, b: int, s: int, alpha: int, beta: int, gamma: int, buf: int, bufEnd: int, g: nat,
                   ghost cur: seq<int>, ghost final: seq<int>)
    returns (alpha': int, beta': int, gamma': int, ghost cur': seq<int>)
    requires 0 <= b < beta && alpha == beta - s && gamma - beta == s >= 1
    requires gamma <= buf && buf + s <= bufEnd <= a.Length
    requires PermutedWithin(cur, a[..], buf, bufEnd)
    requires BackPass(cur, b, s, beta, gamma, g) == final
    modifies a
    ensures gamma' == beta && b <= beta' < beta && alpha' == beta' - s && (beta' == b || gamma' - beta' == s)
    ensures PermutedWithin(cur', a[..], buf, bufEnd)
    ensures BackPass(cur', b, s, beta', gamma', g) == final
  {
    alpha' := alpha;
    if alpha' < b {
      alpha' := b;
    }
    assert alpha' == Lower(b, s, beta);
    cur' := MergeInto(a, alpha', beta, gamma, buf, bufEnd, g, cur);
    gamma' := beta;
    beta' := alpha';
    alpha' := alpha' - s;
  }

  /**
   * Lines 189-203: the backward pass over `[b, e - s)` with the scratch tail
   * `[e - s, e)` as buffer; `final` is the model's result of that pass.
   */
  method BackMerge(a: array<int>, b: int, e: int, s: int, g: nat, ghost final: seq<int>) returns (buf: int)
    requires 0 <= b && e <= a.Length && s >= 1 && b < e - 2 * s
    requires final == BackPass(a[..], b, s, e - 2 * s, e - s, g)
    modifies a
    ensures buf == e - s && PermutedWithin(final, a[..], buf, e)
  {
    ghost var cur := a[..];
    PermutedRefl(cur, e - s, e);
    buf := e - s;
    var gamma := buf;
    var beta := gamma - s;
    var alpha := beta - s;
    while beta > b
      invariant b <= beta <= gamma <= buf && alpha == beta - s
      invariant beta == b || gamma - beta == s
      invariant PermutedWithin(cur, a[..], buf, e)
      invariant BackPass(cur, b, s, beta, gamma, g) == final
      decreases beta - b
    {
      alpha, beta, gamma, cur := MergeBack(a, b, s, alpha, beta, gamma, buf, e, g, cur, final);
    }
  }

  /**
   * Lines 158-176: block `k` trades places with the scratch block `n`, then
   * the blocks before it are selection-sorted by their heads.
   */
  method ScratchAndSelect(a: array<int>, b: int, e: int, bs: nat, k: nat, n: nat, ghost s: int)
    requires 0 <= b && e <= a.Length && Tail(b, e, bs, n, s) && k <= n + 1
    modifies a
    ensures a[..] == SelectPhase(ToScratch(old(a[..]), b, e, bs, k, n, s), b, e, bs, n, s)
  {
    ghost var t0 := a[..];
    ScratchBlocks(b, e, bs, k, n, s);
    SwapRuns(a, Block(b, e, bs, k), Block(b, e, bs, n));
    assert a[..] == ToScratch(t0, b, e, bs, k, n, s);
    SelectBlocks(a, b, e, bs, n, s);
  }

  /** The sort of the last `2 s` elements does not see how the scratch block was ordered. */
  lemma SortTailErases(t3: seq<int>, u: seq<int>, b: int, lo: int, e: int, s: int, bs: nat)
    requires 0 <= b < lo && lo == e - 2 * s && bs < s && e <= |t3|
    requires PermutedWithin(t3, u, e - s, e - s + bs)
    ensures SortRange(u, lo, e) == SortTail(t3, b, lo, e)
  {
    SortErases(t3, u, e - s, e - s + bs, lo, e);
  }

  /**
   * Line 186: the sort of the last `2 s` elements, which erases the order the
   * neighbour merges left in the scratch block `[e - s, e - s + bs)`.
   */
  method SortTailOf(a: array<int>, b: int, lo: int, e: int, bs: nat, s: int, ghost t3: seq<int>)
    requires 0 <= b < lo && lo == e - 2 * s && bs < s && e <= a.Length
    requires PermutedWithin(t3, a[..], e - s, e - s + bs)
    modifies a
    ensures a[..] == SortTail(t3, b, lo, e)
  {
    SortTailErases(t3, a[..], b, lo, e, s, bs);
    SortByMakeRun(a, lo, e);
  }

  /** The sorted tail, named by its start `lo`, is the one `Phases` sorts from `e - 2 s`. */
  lemma TailStart(t3: seq<int>, t4: seq<int>, b: int, lo: int, e: int, s: int)
    requires 0 <= b <= lo <= e <= |t3| && lo == e - 2 * s && t4 == SortTail(t3, b, lo, e)
    ensures t4 == SortTail(t3, b, e - 2 * s, e)
  {
  }

  /** The phases before the backward pass, followed by it, make up `Phases`. */
  lemma PhasesSplit(t0: seq<int>, t2: seq<int>, t3: seq<int>, t4: seq<int>, b: int, e: int, bs: nat, k: nat, n: nat, s: int, g: nat)
    requires 0 <= b && e <= |t0| && Tail(b, e, bs, n, s) && k <= n + 1
    requires t2 == SelectPhase(ToScratch(t0, b, e, bs, k, n, s), b, e, bs, n, s)
    requires t3 == NeighbourPhase(t2, b, e, bs, n, s, g) && t4 == SortTail(t3, b, e - 2 * s, e)
    ensures |t4| == |t0| && Phases(t0, b, e, bs, k, n, s, g) == BackPass(t4, b, s, e - 2 * s, e - s, g)
  {
  }

  /**
   * Lines 158-203 for a decomposition whose shape is `Tail(b, e, bs, n, s)`
   * and whose block `k` holds the middle: afterwards the array holds `Phases`
   * of its old contents, except that the scratch tail `[e - s, e)` is in some
   * order of its own.
   */
  method PathOn(a: array<int>, b: int, e: int, bs: nat, k: nat, n: nat, s: int, g: nat, ghost final: seq<int>)
    returns (buf: int)
    requires 0 <= b && e <= a.Length && Tail(b, e, bs, n, s) && k <= n + 1
    requires final == Phases(a[..], b, e, bs, k, n, s, g)
    modifies a
    ensures buf == e - s && PermutedWithin(final, a[..], buf, e)
  {
    ghost var t0 := a[..];
    ScratchAndSelect(a, b, e, bs, k, n, s);
    ghost var t2 := a[..];
    ghost var t3 := NeighbourPhase(t2, b, e, bs, n, s, g);
    MergeNeighbours(a, b, e, bs, n, s, g, t3);
    var lo := e - 2 * s;
    SortTailOf(a, b, lo, e, bs, s, t3);
    ghost var t4 := a[..];
    TailStart(t3, t4, b, lo, e, s);
    PhasesSplit(t0, t2, t3, t4, b, e, bs, k, n, s, g);
    buf := BackMerge(a, b, e, s, g, final);
  }

  /**
   * Lines 147-203, the block path up to its last `makeRun`, for
   * `inplaceMerge(b, m, e)` with at least five blocks. The tail size `s` is
   * the size of the last block plus that of the scratch block (line 185); it
   * depends only on the decomposition, so it is computed here, before the
   * phases.
   */
  method BlockPath(a: array<int>, b: int, m: int, e: int, bs: nat, cnt: nat, g: nat) returns (buf: int)
    requires 0 <= b <= m < e <= a.Length && bs == BlockSize(b, e) && cnt == BlockCount(b, e) >= 5
    modifies a
    ensures buf == e - PathGeometry(b, m, e).s && PermutedWithin(PathPhases(old(a[..]), b, m, e, g), a[..], buf, e)
  {
    var p := PathGeometry(b, m, e);
    var yellowId := FindYellow(b, m, e, bs, cnt);
    ScratchBlocks(b, e, bs, cnt - 1, cnt - 2, p.s);
    var s := Block(b, e, bs, cnt - 1).Size() + Block(b, e, bs, cnt - 2).Size();
    assert p == Geometry(bs, yellowId, cnt - 2, s);
    buf := PathOn(a, b, e, p.bs, p.k, p.n, p.s, g, PathPhases(old(a[..]), b, m, e, g));
  }

  /**
   * `inplaceMerge(b, m, e)` as written: the insertion sort of `[b, e)` when
   * there are fewer than five blocks, otherwise the block path and an
   * insertion sort of the scratch tail `[buf, e)` only (line 206).
   */
  method InplaceMergeAsWritten(a: array<int>, b: int, m: int, e: int, g: nat)
    requires 0 <= b <= m < e <= a.Length
    modifies a
    ensures a[..] == AsWritten(old(a[..]), b, m, e, g)
  {
    var blockSize := BlockSize(b, e);
    var blocksCount := BlocksCount(e - b, blockSize);
    if blocksCount < 5 {
      SortByMakeRun(a, b, e);
      return;
    }
    var buf := BlockPath(a, b, m, e, blockSize, blocksCount, g);
    SortErases(PathPhases(old(a[..]), b, m, e, g), a[..], buf, e, buf, e);
    SortByMakeRun(a, buf, e);
  }

  /**
   * `inplaceMerge(b, m, e)` with the last insertion sort over the whole of
   * `[b, e)` instead of the scratch tail: `[b, e)` ends up sorted and holding
   * its old elements, and nothing else changes.
   */
  method InplaceMerge(a: array<int>, b: int, m: int, e: int, g: nat)
    requires 0 <= b <= m < e <= a.Length
    modifies a
    ensures a[..] == SortRange(old(a[..]), b, e)
  {
    var blockSize := BlockSize(b, e);
    var blocksCount := BlocksCount(e - b, blockSize);
    if blocksCount < 5 {
      SortByMakeRun(a, b, e);
      return;
    }
    ghost var t := a[..];
    var buf := BlockPath(a, b, m, e, blockSize, blocksCount, g);
    ghost var u := PathPhases(t, b, m, e, g);
    PermutedWiden(u, a[..], buf, e, b, e);
    PermutedTrans(t, u, a[..], b, e);
    SortErases(t, a[..], b, e, b, e);
    SortByMakeRun(a, b, e);
  }
}
