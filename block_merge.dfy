/**
 * `inplaceMerge` (timsort-internal.h): the square-root block merge of two
 * adjacent sorted runs `[b, m)` and `[m, e)`.
 *
 * The range is cut into blocks of `isqrt(e - b)` elements. Fewer than five
 * blocks are insertion-sorted outright. Otherwise the block holding `m`
 * becomes the scratch ("yellow") block, the blocks before it are
 * selection-sorted by their first elements, neighbouring blocks are merged
 * pairwise through the yellow block, the tail of `2 s` elements is sorted,
 * a backward pass merges windows of `s` elements through the last `s` cells,
 * and finally those cells are sorted.
 *
 * Each phase is described by a pure function on the whole sequence; the
 * methods follow the source's loops and are proved to compute those functions,
 * up to the order of the scratch cells, which the following phase no longer
 * depends on.
 */
module BlockMerge {
  import opened SortSpec
  import opened Runs
  import opened Merge

  // ---------------------------------------------------------------------
  // Geometry
  // ---------------------------------------------------------------------

  /** `static_cast<unsigned int>(std::sqrt(n))`: the integer square root. */
  function ISqrt(n: nat): (r: nat)
    ensures r * r <= n < (r + 1) * (r + 1)
  {
    SqrtFrom(n, 0)
  }

  /** The integer square root of `n`, searching upwards from `r`. */
  function SqrtFrom(n: nat, r: nat): (q: nat)
    requires r * r <= n
    ensures q * q <= n < (q + 1) * (q + 1)
    decreases n - r * r
  {
    if (r + 1) * (r + 1) <= n then
      assert (r + 1) * (r + 1) == r * r + 2 * r + 1;
      SqrtFrom(n, r + 1)
    else r
  }

  /** `blocksCount`: the number of blocks of `bs` elements needed to cover `n`. */
  function BlocksCount(n: nat, bs: nat): nat
    requires bs >= 1
  {
    (n + bs - 1) / bs
  }

  /** The index of the block of `bs` elements from `b` that holds position `m`. */
  function BlockOf(b: int, m: int, bs: nat): nat
    requires b <= m && bs >= 1
  {
    (m - b) / bs
  }

  /** Where block `k` begins: `b + bs * k`, built up one block at a time. */
  function Head(b: int, bs: nat, k: nat): int
  {
    if k == 0 then b else Head(b, bs, k - 1) + bs
  }

  /** Block `k` of the decomposition of `[b, e)`; the last one may be short. */
  function Block(b: int, e: int, bs: nat, k: nat): Run
  {
    Run(Head(b, bs, k), Min(e, Head(b, bs, k + 1)))
  }

  /** Multiplying by a natural number is monotone. */
  lemma {:induction false} MulLe(c: nat, p: int, q: int)
    requires p <= q
    ensures c * p <= c * q
    decreases q - p
  {
    if p < q {
      MulLe(c, p + 1, q);
      assert c * (p + 1) == c * p + c;
    }
  }

  /** Block `k` begins `bs * k` positions after `b`. */
  lemma {:induction false} HeadProduct(b: int, bs: nat, k: nat)
    ensures Head(b, bs, k) == b + bs * k
  {
    if k > 0 {
      HeadProduct(b, bs, k - 1);
      assert bs * k == bs * (k - 1) + bs;
    }
  }

  /** A block before block `q` ends no later than block `q` begins. */
  lemma {:induction false} HeadLe(b: int, bs: nat, p: nat, q: nat)
    requires p < q
    ensures Head(b, bs, p) + bs <= Head(b, bs, q)
    decreases q
  {
    if p + 1 < q {
      HeadLe(b, bs, p, q - 1);
    }
  }

  /**
   * The shape of the decomposition of `n >= 1` elements into `cnt` blocks of
   * `bs`: all blocks but the last are full, and the last holds between one and
   * `bs` elements.
   */
  lemma BlocksCover(n: nat, bs: nat)
    requires n >= 1 && bs >= 1
    ensures var cnt := BlocksCount(n, bs);
      cnt >= 1 && bs * (cnt - 1) < n <= bs * cnt
  {
    var cnt := BlocksCount(n, bs);
    var q, r := (n + bs - 1) / bs, (n + bs - 1) % bs;
    assert n + bs - 1 == bs * q + r && 0 <= r < bs;
    assert bs * (q - 1) == bs * q - bs;
  }

  /** Every block but the last has exactly `bs` elements; the last has between one and `bs`. */
  lemma BlockSizes(b: int, e: int, bs: nat, k: nat)
    requires b < e && bs >= 1 && k < BlocksCount(e - b, bs)
    ensures var cnt := BlocksCount(e - b, bs);
      && (k < cnt - 1 ==> Block(b, e, bs, k) == Run(Head(b, bs, k), Head(b, bs, k) + bs))
      && (k == cnt - 1 ==> Block(b, e, bs, k) == Run(Head(b, bs, k), e) && 1 <= e - Head(b, bs, k) <= bs)
  {
    var cnt := BlocksCount(e - b, bs);
    BlocksCover(e - b, bs);
    HeadProduct(b, bs, k);
    HeadProduct(b, bs, k + 1);
    if k < cnt - 1 {
      MulLe(bs, k + 1, cnt - 1);
    } else {
      assert bs * (cnt - 1) + bs == bs * cnt;
    }
  }

  /** The block holding position `m` of `[b, e)` is block `BlockOf(b, m, bs)`. */
  lemma InBlock(b: int, bs: nat, m: int, k: nat)
    requires b <= m && bs >= 1
    ensures (Head(b, bs, k) <= m < Head(b, bs, k + 1)) <==> k == BlockOf(b, m, bs)
  {
    var q := m - b;
    var d := q / bs;
    HeadProduct(b, bs, k);
    HeadProduct(b, bs, k + 1);
    assert q == bs * d + q % bs && 0 <= q % bs < bs;
    assert bs * (d + 1) == bs * d + bs;
    if k < d {
      MulLe(bs, k + 1, d);
    } else if k > d {
      MulLe(bs, d + 1, k);
    }
  }

  // ---------------------------------------------------------------------
  // Permutation inside a range
  // ---------------------------------------------------------------------

  /** `u` agrees with `t` outside `[lo, hi)` and is a permutation of it inside. */
  ghost predicate PermutedWithin(t: seq<int>, u: seq<int>, lo: int, hi: int)
  {
    && |t| == |u| && 0 <= lo <= hi <= |t|
    && t[..lo] == u[..lo] && t[hi..] == u[hi..]
    && multiset(t[lo..hi]) == multiset(u[lo..hi])
  }

  /** `t` with `[lo, hi)` replaced by `r`. */
  function Splice(t: seq<int>, lo: int, hi: int, r: seq<int>): (u: seq<int>)
    requires 0 <= lo <= hi <= |t| && |r| == hi - lo
    ensures |u| == |t| && u[..lo] == t[..lo] && u[lo..hi] == r && u[hi..] == t[hi..]
  {
    var u := t[..lo] + r + t[hi..];
    assert u[lo..hi] == r;
    u
  }

  /** Every range is a permutation of itself. */
  lemma PermutedRefl(t: seq<int>, lo: int, hi: int)
    requires 0 <= lo <= hi <= |t|
    ensures PermutedWithin(t, t, lo, hi)
  {
  }

  /** Permuting within a range twice permutes within it. */
  lemma PermutedTrans(t: seq<int>, u: seq<int>, v: seq<int>, lo: int, hi: int)
    requires PermutedWithin(t, u, lo, hi) && PermutedWithin(u, v, lo, hi)
    ensures PermutedWithin(t, v, lo, hi)
  {
  }

  /** A permutation within a range is one within any range around it. */
  lemma PermutedWiden(t: seq<int>, u: seq<int>, lo: int, hi: int, lo': int, hi': int)
    requires PermutedWithin(t, u, lo, hi) && 0 <= lo' <= lo && hi <= hi' <= |t|
    ensures PermutedWithin(t, u, lo', hi')
  {
    assert t[..lo'] == t[..lo][..lo'] && u[..lo'] == u[..lo][..lo'];
    assert t[hi'..] == t[hi..][hi' - hi..] && u[hi'..] == u[hi..][hi' - hi..];
    assert t[lo'..hi'] == t[lo'..lo] + t[lo..hi] + t[hi..hi'];
    assert u[lo'..hi'] == u[lo'..lo] + u[lo..hi] + u[hi..hi'];
    assert t[lo'..lo] == t[..lo][lo'..] && u[lo'..lo] == u[..lo][lo'..];
    assert t[hi..hi'] == t[hi..][..hi' - hi] && u[hi..hi'] == u[hi..][..hi' - hi];
  }

  /** Two sequences that agree outside `[lo, hi)` and have the same elements agree inside up to order. */
  lemma PermutedOfWhole(t: seq<int>, u: seq<int>, lo: int, hi: int)
    requires |t| == |u| && 0 <= lo <= hi <= |t| && t[..lo] == u[..lo] && t[hi..] == u[hi..]
    requires multiset(t) == multiset(u)
    ensures PermutedWithin(t, u, lo, hi)
  {
    var A, C := multiset(t[..lo]), multiset(t[hi..]);
    var X, Y := multiset(t[lo..hi]), multiset(u[lo..hi]);
    assert t == t[..lo] + t[lo..hi] + t[hi..];
    assert u == u[..lo] + u[lo..hi] + u[hi..];
    assert A + X + C == multiset(t) == multiset(u) == A + Y + C;
    forall v ensures X[v] == Y[v] {
      assert (A + X + C)[v] == (A + Y + C)[v];
    }
    assert X == Y;
  }

  /** Splicing in a rearrangement of a range permutes within it. */
  lemma SplicePermuted(t: seq<int>, lo: int, hi: int, r: seq<int>)
    requires 0 <= lo <= hi <= |t| && |r| == hi - lo && multiset(r) == multiset(t[lo..hi])
    ensures PermutedWithin(t, Splice(t, lo, hi, r), lo, hi)
  {
  }

  /** Sorting a range permutes within it. */
  lemma SortRangePermuted(t: seq<int>, lo: int, hi: int)
    requires 0 <= lo <= hi <= |t|
    ensures PermutedWithin(t, SortRange(t, lo, hi), lo, hi)
  {
  }

  /** Exchanging two block prefixes does not depend on which block is named first. */
  lemma {:induction false} SwapPrefixSym(s: seq<int>, xb: int, yb: int, n: int)
    requires 0 <= n && 0 <= xb && xb + n <= |s| && 0 <= yb && yb + n <= |s|
    requires xb == yb || xb + n <= yb || yb + n <= xb
    ensures SwapPrefix(s, xb, yb, n) == SwapPrefix(s, yb, xb, n)
  {
    if n == 0 {
      assert SwapPrefix(s, xb, yb, n) == s == SwapPrefix(s, yb, xb, n);
    } else {
      SwapPrefixSym(s, xb, yb, n - 1);
      var t := SwapPrefix(s, xb, yb, n - 1);
      var p, q := xb + n - 1, yb + n - 1;
      assert Exchange(t, p, q) == Exchange(t, q, p);
    }
  }

  /** Exchanging the prefixes of two blocks inside `[lo, hi)` permutes within it. */
  lemma SwapPrefixWithin(s: seq<int>, xb: int, yb: int, n: int, lo: int, hi: int)
    requires 0 <= n && 0 <= lo <= xb && xb + n <= yb && yb + n <= hi <= |s|
    ensures PermutedWithin(s, SwapPrefix(s, xb, yb, n), lo, hi)
  {
    var r := SwapPrefix(s, xb, yb, n);
    SwapPrefixSlices(s, xb, yb, n, xb + n, yb + n);
    SwapPrefixPerm(s, xb, yb, n);
    assert r[..lo] == r[..xb][..lo] && s[..lo] == s[..xb][..lo];
    assert r[hi..] == r[yb + n..][hi - (yb + n)..] && s[hi..] == s[yb + n..][hi - (yb + n)..];
    PermutedOfWhole(s, r, lo, hi);
  }

  // ---------------------------------------------------------------------
  // Block selection sort (lines 161-176)
  // ---------------------------------------------------------------------

  /** The first `n` blocks of `bs` elements from `b` lie inside `[b, lim)`. */
  ghost predicate HeadsFit(b: int, bs: nat, n: int, lim: int)
  {
    forall k :: 0 <= k < n ==> b <= Head(b, bs, k) && Head(b, bs, k) + bs <= lim
  }

  /** Blocks that fit below `lim` fit below any larger bound. */
  lemma HeadsFitWiden(b: int, bs: nat, n: int, lim: int, lim': int)
    requires HeadsFit(b, bs, n, lim) && lim <= lim'
    ensures HeadsFit(b, bs, n, lim')
  {
  }

  /** Blocks laid out from `b` fit below the head of block `n`. */
  lemma HeadsFitBelow(b: int, bs: nat, n: int)
    requires 0 <= n
    ensures HeadsFit(b, bs, n, Head(b, bs, n))
  {
    forall k | 0 <= k < n
      ensures b <= Head(b, bs, k) && Head(b, bs, k) + bs <= Head(b, bs, n)
    {
      if k > 0 {
        HeadLe(b, bs, 0, k);
      }
      HeadLe(b, bs, k, n);
    }
  }

  /**
   * The inner loop of the selection: the index of the block with the smallest
   * head among `best` and the blocks `[j, n)`, keeping the earlier one on ties.
   */
  function MinHeadFrom(t: seq<int>, b: int, bs: nat, j: int, n: int, best: int): (r: int)
    requires 0 <= b && bs >= 1 && HeadsFit(b, bs, n, |t|) && 0 <= best < j <= n
    ensures r == best || j <= r < n
    decreases n - j
  {
    if j == n then best
    else if t[Head(b, bs, j)] < t[Head(b, bs, best)] then MinHeadFrom(t, b, bs, j + 1, n, j)
    else MinHeadFrom(t, b, bs, j + 1, n, best)
  }

  /**
   * The block `MinHeadFrom` picks has a head no larger than any candidate's,
   * and strictly smaller than those of the candidates before it.
   */
  lemma {:induction false} MinHeadIsMin(t: seq<int>, b: int, bs: nat, j: int, n: int, best: int)
    requires 0 <= b && bs >= 1 && HeadsFit(b, bs, n, |t|) && 0 <= best < j <= n
    ensures var r := MinHeadFrom(t, b, bs, j, n, best);
      && t[Head(b, bs, r)] <= t[Head(b, bs, best)]
      && (forall k {:trigger t[Head(b, bs, k)]} :: j <= k < n ==> t[Head(b, bs, r)] <= t[Head(b, bs, k)])
      && (r != best ==> t[Head(b, bs, r)] < t[Head(b, bs, best)])
      && (forall k {:trigger t[Head(b, bs, k)]} :: j <= k < r ==> t[Head(b, bs, r)] < t[Head(b, bs, k)])
    decreases n - j
  {
    if j < n {
      if t[Head(b, bs, j)] < t[Head(b, bs, best)] {
        MinHeadIsMin(t, b, bs, j + 1, n, j);
      } else {
        MinHeadIsMin(t, b, bs, j + 1, n, best);
      }
    }
  }

  /**
   * Exchanging the full blocks `i < k`: their heads trade places, and every
   * other head stays.
   */
  lemma SwapBlocks(t: seq<int>, b: int, bs: nat, n: int, i: int, k: int)
    requires 0 <= b && bs >= 1 && HeadsFit(b, bs, n, |t|) && 0 <= i < k < n
    ensures var u := SwapPrefix(t, Head(b, bs, i), Head(b, bs, k), bs);
      && u[Head(b, bs, i)] == t[Head(b, bs, k)] && u[Head(b, bs, k)] == t[Head(b, bs, i)]
      && (forall j :: 0 <= j < n && j != i && j != k ==> u[Head(b, bs, j)] == t[Head(b, bs, j)])
  {
    var hi, hk := Head(b, bs, i), Head(b, bs, k);
    HeadLe(b, bs, i, k);
    SwapPrefixAt(t, hi, hk, bs, hi);
    SwapPrefixAt(t, hi, hk, bs, hk);
    forall j | 0 <= j < n && j != i && j != k
      ensures SwapPrefix(t, hi, hk, bs)[Head(b, bs, j)] == t[Head(b, bs, j)]
    {
      SwapOtherHead(t, b, bs, i, k, j);
    }
  }

  /** Exchanging the full blocks `i < k` leaves the head of any other block `j`. */
  lemma SwapOtherHead(t: seq<int>, b: int, bs: nat, i: nat, k: nat, j: nat)
    requires bs >= 1 && i < k && j != i && j != k
    requires 0 <= Head(b, bs, i) && Head(b, bs, i) + bs <= Head(b, bs, k) && Head(b, bs, k) + bs <= |t|
    requires 0 <= Head(b, bs, j) < |t|
    ensures SwapPrefix(t, Head(b, bs, i), Head(b, bs, k), bs)[Head(b, bs, j)] == t[Head(b, bs, j)]
  {
    var hi, hk := Head(b, bs, i), Head(b, bs, k);
    HeadLe(b, bs, i, k);
    if j < i {
      HeadLe(b, bs, j, i);
    } else if j < k {
      HeadLe(b, bs, i, j);
      HeadLe(b, bs, j, k);
    } else {
      HeadLe(b, bs, k, j);
    }
    SwapPrefixAt(t, hi, hk, bs, Head(b, bs, j));
  }

  /**
   * One pass of the outer selection loop at block `i`: the block with the
   * smallest head among `[i, n)` is exchanged into place `i`.
   */
  ghost function SelectSwap(t: seq<int>, b: int, bs: nat, i: int, n: int): (u: seq<int>)
    requires 0 <= b && bs >= 1 && HeadsFit(b, bs, n, |t|) && 0 <= i < n
    ensures |u| == |t|
  {
    var k := MinHeadFrom(t, b, bs, i + 1, n, i);
    if k != i then SwapPrefix(t, Head(b, bs, i), Head(b, bs, k), bs) else t
  }

  /** The selection loop from block `i` on. */
  ghost function SelectFrom(t: seq<int>, b: int, bs: nat, i: int, n: int): (r: seq<int>)
    requires 0 <= b && bs >= 1 && HeadsFit(b, bs, n, |t|) && 0 <= i <= n
    ensures |r| == |t|
    decreases n - i
  {
    if i == n then t else SelectFrom(SelectSwap(t, b, bs, i, n), b, bs, i + 1, n)
  }

  /** The first elements of the blocks `[0, n)`. */
  ghost function Heads(t: seq<int>, b: int, bs: nat, n: int): (h: seq<int>)
    requires 0 <= b && bs >= 1 && 0 <= n && HeadsFit(b, bs, n, |t|)
    ensures |h| == n
  {
    seq(n, k requires 0 <= k < n => t[Head(b, bs, k)])
  }

  /**
   * One pass at block `i` exchanges the heads at `i` and at the chosen block;
   * afterwards block `i` has the smallest head of `[i, n)`.
   */
  lemma SelectSwapHeads(t: seq<int>, b: int, bs: nat, i: int, n: int)
    requires 0 <= b && bs >= 1 && HeadsFit(b, bs, n, |t|) && 0 <= i < n
    ensures var h, hu := Heads(t, b, bs, n), Heads(SelectSwap(t, b, bs, i, n), b, bs, n);
      && hu == Exchange(h, i, MinHeadFrom(t, b, bs, i + 1, n, i))
      && PermutedWithin(h, hu, i, n) && AllAtLeast(hu[i..], hu[i])
  {
    var k := MinHeadFrom(t, b, bs, i + 1, n, i);
    var h := Heads(t, b, bs, n);
    SelectSwapExchanges(t, b, bs, i, n);
    MinHeadIsMin(t, b, bs, i + 1, n, i);
    assert forall j :: i <= j < n ==> h[k] <= h[j];
    ExchangeMin(h, i, k);
  }

  /** One pass at block `i` exchanges the heads at `i` and at the chosen block. */
  lemma SelectSwapExchanges(t: seq<int>, b: int, bs: nat, i: int, n: int)
    requires 0 <= b && bs >= 1 && HeadsFit(b, bs, n, |t|) && 0 <= i < n
    ensures Heads(SelectSwap(t, b, bs, i, n), b, bs, n)
      == Exchange(Heads(t, b, bs, n), i, MinHeadFrom(t, b, bs, i + 1, n, i))
  {
    var k := MinHeadFrom(t, b, bs, i + 1, n, i);
    if k != i {
      SwapBlocks(t, b, bs, n, i, k);
    }
  }

  /** Exchanging the smallest key of `h[i..]` into place `i` permutes `h[i..]` and puts a lower bound first. */
  lemma ExchangeMin(h: seq<int>, i: int, k: int)
    requires 0 <= i <= k < |h| && forall j :: i <= j < |h| ==> h[k] <= h[j]
    ensures var hu := Exchange(h, i, k);
      PermutedWithin(h, hu, i, |h|) && AllAtLeast(hu[i..], hu[i])
  {
    var hu := Exchange(h, i, k);
    ExchangePerm(h, i, k);
    assert h[..i] == hu[..i];
    PermutedOfWhole(h, hu, i, |h|);
  }

  /**
   * The selection-sort step on a sequence of keys: `hu` has the smallest key of
   * `h[i..]` at `i`, and `H` agrees with `hu` up to `i` and sorts the rest; then
   * `H` sorts `h[i..]`.
   */
  lemma SelectionStep(h: seq<int>, hu: seq<int>, H: seq<int>, i: int)
    requires 0 <= i < |h| && PermutedWithin(h, hu, i, |h|) && AllAtLeast(hu[i..], hu[i])
    requires |H| == |h| && H[..i + 1] == hu[..i + 1]
    requires multiset(H[i + 1..]) == multiset(hu[i + 1..]) && Sorted(H[i + 1..])
    ensures H[..i] == h[..i] && multiset(H[i..]) == multiset(h[i..]) && Sorted(H[i..])
  {
    assert H[..i] == H[..i + 1][..i];
    assert hu[..i] == hu[..i + 1][..i];
    assert H[i] == hu[..i + 1][i];
    assert H[i..] == [H[i]] + H[i + 1..];
    assert hu[i..] == [hu[i]] + hu[i + 1..];
    AtLeastOfPerm(H[i + 1..], hu[i + 1..], hu[i]);
    SortedCons(hu[i], H[i + 1..]);
    assert h[i..] == h[i..|h|] && hu[i..] == hu[i..|h|];
  }

  /**
   * The selection from block `i` on sorts the heads of the blocks `[i, n)` and
   * leaves the heads before `i` alone.
   */
  lemma {:induction false} SelectSortsHeads(t: seq<int>, b: int, bs: nat, i: int, n: int)
    requires 0 <= b && bs >= 1 && HeadsFit(b, bs, n, |t|) && 0 <= i <= n
    ensures var h, H := Heads(t, b, bs, n), Heads(SelectFrom(t, b, bs, i, n), b, bs, n);
      H[..i] == h[..i] && multiset(H[i..]) == multiset(h[i..]) && Sorted(H[i..])
    decreases n - i
  {
    var h, H := Heads(t, b, bs, n), Heads(SelectFrom(t, b, bs, i, n), b, bs, n);
    if i == n {
      assert H == h;
    } else {
      var u := SelectSwap(t, b, bs, i, n);
      SelectSwapHeads(t, b, bs, i, n);
      SelectSortsHeads(u, b, bs, i + 1, n);
      assert H == Heads(SelectFrom(u, b, bs, i + 1, n), b, bs, n);
      SelectionStep(h, Heads(u, b, bs, n), H, i);
    }
  }

  /** One pass of the selection permutes within the blocks' range. */
  lemma SelectSwapPermutes(t: seq<int>, b: int, bs: nat, i: int, n: int, lim: int)
    requires 0 <= b <= lim <= |t| && bs >= 1 && HeadsFit(b, bs, n, lim) && 0 <= i < n
    ensures PermutedWithin(t, SelectSwap(t, b, bs, i, n), b, lim)
  {
    var k := MinHeadFrom(t, b, bs, i + 1, n, i);
    if k != i {
      HeadLe(b, bs, i, k);
      SwapPrefixWithin(t, Head(b, bs, i), Head(b, bs, k), bs, b, lim);
    } else {
      PermutedRefl(t, b, lim);
    }
  }

  /** The selection only exchanges blocks, so it permutes within the blocks' range. */
  lemma {:induction false} SelectPermutes(t: seq<int>, b: int, bs: nat, i: int, n: int, lim: int)
    requires 0 <= b <= lim <= |t| && bs >= 1 && HeadsFit(b, bs, n, lim) && 0 <= i <= n
    ensures PermutedWithin(t, SelectFrom(t, b, bs, i, n), b, lim)
    decreases n - i
  {
    if i == n {
      PermutedRefl(t, b, lim);
    } else {
      var u := SelectSwap(t, b, bs, i, n);
      SelectSwapPermutes(t, b, bs, i, n, lim);
      SelectPermutes(u, b, bs, i + 1, n, lim);
      PermutedTrans(t, u, SelectFrom(u, b, bs, i + 1, n), b, lim);
    }
  }

  // ---------------------------------------------------------------------
  // Merging neighbouring blocks (lines 178-183) and the backward pass (189-203)
  // ---------------------------------------------------------------------

  /** Blocks `i` and `i + 1` of `n` full blocks from `b` lie below block `n`. */
  lemma PairFits(b: int, bs: nat, i: nat, n: nat)
    requires i + 1 < n
    ensures b <= Head(b, bs, i) && Head(b, bs, i + 2) <= Head(b, bs, n)
  {
    if i > 0 {
      HeadLe(b, bs, 0, i);
    }
    if i + 2 < n {
      HeadLe(b, bs, i + 2, n);
    }
  }

  /**
   * One `simpleMerge` call, buffer aside: `[lo, hi)` of `w` replaced by the
   * galloping merge of its parts `[lo, mid)` and `[mid, hi)`.
   */
  function MergeAt(w: seq<int>, lo: int, mid: int, hi: int, g: nat): (r: seq<int>)
    requires 0 <= lo <= mid <= hi <= |w|
    ensures |r| == |w|
  {
    Splice(w, lo, hi, GallopMerge(w[lo..mid], w[mid..hi], g))
  }

  /** A merge only rearranges the range it merges. */
  lemma MergeAtPermutes(w: seq<int>, lo: int, mid: int, hi: int, g: nat)
    requires 0 <= lo <= mid <= hi <= |w|
    ensures PermutedWithin(w, MergeAt(w, lo, mid, hi, g), lo, hi)
  {
    var x, y := w[lo..mid], w[mid..hi];
    assert w[lo..hi] == x + y;
    SplicePermuted(w, lo, hi, GallopMerge(x, y, g));
  }

  /**
   * The neighbour merges from pair `i` on, over the `n` full blocks from `b`
   * before the scratch block: block `i` is merged with block `i + 1` (which
   * already holds the upper half of the previous merge), then the next pair.
   */
  function NeighbourMerges(t: seq<int>, b: int, bs: nat, i: nat, n: nat, g: nat): (r: seq<int>)
    requires 0 <= b && Head(b, bs, n) <= |t|
    ensures |r| == |t|
    decreases n - i
  {
    if i + 1 >= n then t
    else
      PairFits(b, bs, i, n);
      NeighbourMerges(MergeAt(t, Head(b, bs, i), Head(b, bs, i + 1), Head(b, bs, i + 2), g), b, bs, i + 1, n, g)
  }

  /** The neighbour merges only rearrange the blocks they merge. */
  lemma {:induction false} NeighbourMergesPermute(t: seq<int>, b: int, bs: nat, i: nat, n: nat, g: nat)
    requires 0 <= b && Head(b, bs, n) <= |t|
    ensures PermutedWithin(t, NeighbourMerges(t, b, bs, i, n, g), b, Head(b, bs, n))
    decreases n - i
  {
    if i + 1 >= n {
      if n > 0 {
        HeadLe(b, bs, 0, n);
      }
      PermutedRefl(t, b, Head(b, bs, n));
    } else {
      PairFits(b, bs, i, n);
      var lo, hi := Head(b, bs, i), Head(b, bs, i + 2);
      var u := MergeAt(t, lo, Head(b, bs, i + 1), hi, g);
      MergeAtPermutes(t, lo, Head(b, bs, i + 1), hi, g);
      NeighbourMergesPermute(u, b, bs, i + 1, n, g);
      PermutedWiden(t, u, lo, hi, b, Head(b, bs, n));
      PermutedTrans(t, u, NeighbourMerges(u, b, bs, i + 1, n, g), b, Head(b, bs, n));
    }
  }

  /** Where the next backward merge starts: `s` below `beta`, but not below `b`. */
  function Lower(b: int, s: int, beta: int): (al: int)
    requires s >= 1 && b < beta
    ensures b <= al < beta
  {
    if beta - s < b then b else beta - s
  }

  /**
   * The backward pass in front of the scratch tail: merge `[max(beta - s, b),
   * beta)` with `[beta, gamma)`, then move the bounds down (`gamma` to `beta`,
   * `beta` to the start of that merge) until `beta` reaches `b`.
   */
  function BackPass(t: seq<int>, b: int, s: int, beta: int, gamma: int, g: nat): (r: seq<int>)
    requires s >= 1 && 0 <= b <= beta <= gamma <= |t|
    ensures |r| == |t|
    decreases beta - b
  {
    if beta == b then t
    else
      var al := Lower(b, s, beta);
      BackPass(MergeAt(t, al, beta, gamma, g), b, s, al, beta, g)
  }

  /** The backward pass only rearranges `[b, gamma)`. */
  lemma {:induction false} BackPassPermutes(t: seq<int>, b: int, s: int, beta: int, gamma: int, g: nat)
    requires s >= 1 && 0 <= b <= beta <= gamma <= |t|
    ensures PermutedWithin(t, BackPass(t, b, s, beta, gamma, g), b, gamma)
    decreases beta - b
  {
    if beta == b {
      PermutedRefl(t, b, gamma);
    } else {
      var al := Lower(b, s, beta);
      var u := MergeAt(t, al, beta, gamma, g);
      MergeAtPermutes(t, al, beta, gamma, g);
      var v := BackPass(u, b, s, al, beta, g);
      BackPassPermutes(u, b, s, al, beta, g);
      PermutedWiden(t, u, al, gamma, b, gamma);
      PermutedWiden(u, v, b, beta, b, gamma);
      PermutedTrans(t, u, v, b, gamma);
    }
  }

  // ---------------------------------------------------------------------
  // The whole block merge
  // ---------------------------------------------------------------------

  /** `blockSize`: the integer square root of the length, at least one. */
  function BlockSize(b: int, e: int): (bs: nat)
    requires b < e
    ensures bs >= 1
  {
    ISqrt(e - b)
  }

  /** `blocksCount`. */
  function BlockCount(b: int, e: int): nat
    requires b < e
  {
    BlocksCount(e - b, BlockSize(b, e))
  }

  /** `s`: the sizes of the last block and of the scratch block (the last but one) together. */
  function TailSize(b: int, e: int): int
    requires b < e && BlockCount(b, e) >= 2
  {
    var bs, cnt := BlockSize(b, e), BlockCount(b, e);
    Block(b, e, bs, cnt - 1).Size() + Block(b, e, bs, cnt - 2).Size()
  }

  /**
   * The last two blocks of the block path: the scratch block (`yellowId`, the
   * last but one) is full and starts the scratch tail `[e - s, e)`, and the
   * last block fills the rest of it, so that the tail holds more than one and
   * at most two blocks.
   */
  lemma TailShape(b: int, e: int)
    requires b < e && BlockCount(b, e) >= 5
    ensures var bs, cnt, s := BlockSize(b, e), BlockCount(b, e), TailSize(b, e);
      && Head(b, bs, cnt - 2) == e - s && b < e - s < e
      && Block(b, e, bs, cnt - 2) == Run(e - s, e - s + bs)
      && Block(b, e, bs, cnt - 1) == Run(e - s + bs, e)
      && bs < s <= 2 * bs
  {
    var bs, cnt := BlockSize(b, e), BlockCount(b, e);
    BlockSizes(b, e, bs, cnt - 1);
    BlockSizes(b, e, bs, cnt - 2);
    HeadLe(b, bs, 0, cnt - 2);
  }

  /**
   * The shape of the block path for `[b, e)` cut into blocks of `bs`: `n`
   * full blocks (at least three) fill the window `[b, e - s)`; the scratch
   * block `n` starts the scratch tail `[e - s, e)`, which holds more than one
   * and at most two blocks; and the stretch `[e - 2 s, e)` sorted before the
   * backward pass starts after `b`.
   */
  ghost predicate Tail(b: int, e: int, bs: nat, n: nat, s: int)
  {
    && bs >= 1 && n >= 3
    && Head(b, bs, n) == e - s
    && bs < s <= 2 * bs && b < e - 2 * s
    && HeadsFit(b, bs, n, e - s)
  }

  /** The sorted stretch `[e - 2 s, e)` starts after `b`, since at least three blocks precede the scratch block. */
  lemma TailRoom(b: int, e: int)
    requires b < e && BlockCount(b, e) >= 5
    ensures e - 2 * TailSize(b, e) > b
  {
    var bs, cnt := BlockSize(b, e), BlockCount(b, e);
    TailShape(b, e);
    assert Head(b, bs, 1) == b + bs;
    assert Head(b, bs, 2) == b + 2 * bs;
    if cnt - 2 > 2 {
      HeadLe(b, bs, 2, cnt - 2);
    }
  }

  /** The full blocks before the scratch block fill the window `[b, e - s)`. */
  lemma TailFit(b: int, e: int)
    requires b < e && BlockCount(b, e) >= 5
    ensures var bs, n, s := BlockSize(b, e), BlockCount(b, e) - 2, TailSize(b, e);
      HeadsFit(b, bs, n, e - s)
  {
    var bs, n := BlockSize(b, e), BlockCount(b, e) - 2;
    TailShape(b, e);
    HeadsFitBelow(b, bs, n);
  }

  /** The block path of `[b, e)` has the shape `Tail` describes, with `n` the scratch block's index. */
  lemma TailHolds(b: int, e: int)
    requires b < e && BlockCount(b, e) >= 5
    ensures Tail(b, e, BlockSize(b, e), BlockCount(b, e) - 2, TailSize(b, e))
  {
    TailShape(b, e);
    TailRoom(b, e);
    TailFit(b, e);
  }

  /** The block `BlockOf(b, m, bs)` exists and holds position `m`. */
  lemma LayoutMiddle(b: int, m: int, e: int)
    requires b <= m < e
    ensures var bs, cnt := BlockSize(b, e), BlockCount(b, e);
      var y := BlockOf(b, m, bs);
      && y < cnt && b <= Block(b, e, bs, y).begin <= m < Block(b, e, bs, y).end <= e
  {
    var bs, cnt := BlockSize(b, e), BlockCount(b, e);
    var y := BlockOf(b, m, bs);
    BlocksCover(e - b, bs);
    InBlock(b, bs, m, y);
    HeadProduct(b, bs, cnt);
    if y >= cnt {
      if y > cnt {
        HeadLe(b, bs, cnt, y);
      }
      assert false;
    }
    if y > 0 {
      HeadLe(b, bs, 0, y);
    }
  }

  /** Exchanging a prefix with itself changes nothing. */
  lemma {:induction false} SwapPrefixSelf(s: seq<int>, xb: int, n: int)
    requires 0 <= n && 0 <= xb && xb + n <= |s|
    ensures SwapPrefix(s, xb, xb, n) == s
  {
    if n > 0 {
      SwapPrefixSelf(s, xb, n - 1);
    }
  }

  /** Every block before the scratch block `n` is full. */
  lemma FullBlock(b: int, e: int, bs: nat, n: nat, s: int, i: nat)
    requires Tail(b, e, bs, n, s) && i < n
    ensures Block(b, e, bs, i) == Run(Head(b, bs, i), Head(b, bs, i) + bs)
  {
    if i + 1 < n {
      HeadLe(b, bs, i + 1, n);
    }
  }

  /**
   * Block `k` (any block, the short last one included) and the scratch block
   * `n` lie inside `[b, e)` and are the same block or do not overlap.
   */
  lemma ScratchBlocks(b: int, e: int, bs: nat, k: nat, n: nat, s: int)
    requires Tail(b, e, bs, n, s) && k <= n + 1
    ensures var y, z := Block(b, e, bs, k), Block(b, e, bs, n);
      && b <= y.begin <= y.end <= e && z == Run(e - s, e - s + bs) && e - s + bs < e
      && (k == n || y.end <= z.begin || z.end == y.begin)
      && (k < n ==> y == Run(Head(b, bs, k), Head(b, bs, k) + bs))
      && (k == n + 1 ==> y == Run(e - s + bs, e))
  {
    if k > 0 {
      HeadLe(b, bs, 0, k);
    }
    if k < n {
      FullBlock(b, e, bs, n, s, k);
      if k + 1 < n {
        HeadLe(b, bs, k + 1, n);
      }
    }
  }

  /** `swapRuns` of block `k` with the scratch block `n` stays inside `[b, e)`. */
  lemma ScratchSwapWithin(t: seq<int>, b: int, e: int, bs: nat, k: nat, n: nat, s: int)
    requires 0 <= b && e <= |t| && Tail(b, e, bs, n, s) && k <= n + 1
    ensures var y, z := Block(b, e, bs, k), Block(b, e, bs, n);
      var c := Min(y.Size(), z.Size());
      && 0 <= c && 0 <= y.begin && y.begin + c <= |t| && z.begin + c <= |t|
      && PermutedWithin(t, SwapPrefix(t, y.begin, z.begin, c), b, e)
  {
    var y, z := Block(b, e, bs, k), Block(b, e, bs, n);
    var c := Min(y.Size(), z.Size());
    ScratchBlocks(b, e, bs, k, n, s);
    if k < n {
      SwapPrefixWithin(t, y.begin, z.begin, c, b, e);
    } else if k == n {
      SwapPrefixSelf(t, y.begin, c);
      PermutedRefl(t, b, e);
    } else {
      SwapPrefixSym(t, y.begin, z.begin, c);
      SwapPrefixWithin(t, z.begin, y.begin, c, b, e);
    }
  }

  /**
   * Lines 152-159: the exchange of block `k`, the one holding `m`, with the
   * scratch block `n` by `swapRuns`, which exchanges as many leading elements
   * as the shorter of the two holds.
   */
  ghost function ToScratch(t: seq<int>, b: int, e: int, bs: nat, k: nat, n: nat, s: int): (r: seq<int>)
    requires 0 <= b && e <= |t| && Tail(b, e, bs, n, s) && k <= n + 1
    ensures |r| == |t| && PermutedWithin(t, r, b, e)
  {
    ScratchSwapWithin(t, b, e, bs, k, n, s);
    var y, z := Block(b, e, bs, k), Block(b, e, bs, n);
    SwapPrefix(t, y.begin, z.begin, Min(y.Size(), z.Size()))
  }

  /** Lines 161-176: the selection sort of the blocks before the scratch block by their heads. */
  ghost function SelectPhase(t: seq<int>, b: int, e: int, bs: nat, n: nat, s: int): (r: seq<int>)
    requires 0 <= b && e <= |t| && Tail(b, e, bs, n, s)
    ensures |r| == |t| && PermutedWithin(t, r, b, e)
  {
    SelectPermutes(t, b, bs, 0, n, e - s);
    PermutedWiden(t, SelectFrom(t, b, bs, 0, n), b, e - s, b, e);
    SelectFrom(t, b, bs, 0, n)
  }

  /**
   * Lines 178-183: the neighbour merges over the window `[b, e - s)`. The
   * scratch block they use as buffer keeps its contents here; the program
   * leaves them in another order, which the sort that follows erases.
   */
  ghost function NeighbourPhase(t: seq<int>, b: int, e: int, bs: nat, n: nat, s: int, g: nat): (r: seq<int>)
    requires 0 <= b && e <= |t| && Tail(b, e, bs, n, s)
    ensures |r| == |t| && PermutedWithin(t, r, b, e)
  {
    NeighbourMergesPermute(t, b, bs, 0, n, g);
    PermutedWiden(t, NeighbourMerges(t, b, bs, 0, n, g), b, e - s, b, e);
    NeighbourMerges(t, b, bs, 0, n, g)
  }

  /**
   * Lines 189-203: the backward pass over `[b, e - s)` with the scratch tail
   * as buffer, which again keeps its contents here and is sorted afterwards.
   */
  ghost function BackPhase(t: seq<int>, b: int, e: int, s: int, g: nat): (r: seq<int>)
    requires 0 <= b && e <= |t| && s >= 1 && b < e - 2 * s
    ensures |r| == |t| && PermutedWithin(t, r, b, e)
  {
    var beta, gamma := e - 2 * s, e - s;
    BackPassPermutes(t, b, s, beta, gamma, g);
    PermutedWiden(t, BackPass(t, b, s, beta, gamma, g), b, gamma, b, e);
    BackPass(t, b, s, beta, gamma, g)
  }

  /** A sort of `[lo, e)` (line 186 with `lo = e - 2 s`, line 206 with `lo = e - s`) rearranges `[b, e)`. */
  ghost function SortTail(t: seq<int>, b: int, lo: int, e: int): (r: seq<int>)
    requires 0 <= b <= lo <= e <= |t|
    ensures |r| == |t| && PermutedWithin(t, r, b, e)
  {
    SortRangePermuted(t, lo, e);
    PermutedWiden(t, SortRange(t, lo, e), lo, e, b, e);
    SortRange(t, lo, e)
  }

  /**
   * Everything the block path does before its last `makeRun`: the exchange
   * into the scratch block, the block selection, the neighbour merges, the
   * sort of the last `2 s` elements and the backward pass. It only
   * rearranges `[b, e)`.
   */
  ghost function Phases(t: seq<int>, b: int, e: int, bs: nat, k: nat, n: nat, s: int, g: nat): (r: seq<int>)
    requires 0 <= b && e <= |t| && Tail(b, e, bs, n, s) && k <= n + 1
    ensures |r| == |t| && PermutedWithin(t, r, b, e)
  {
    var t1 := ToScratch(t, b, e, bs, k, n, s);
    var t2 := SelectPhase(t1, b, e, bs, n, s);
    var t3 := NeighbourPhase(t2, b, e, bs, n, s, g);
    var t4 := SortTail(t3, b, e - 2 * s, e);
    var t5 := BackPhase(t4, b, e, s, g);
    PermutedTrans(t, t1, t2, b, e);
    PermutedTrans(t, t2, t3, b, e);
    PermutedTrans(t, t3, t4, b, e);
    PermutedTrans(t, t4, t5, b, e);
    t5
  }

  /**
   * The numbers the block path works with: the block size `bs`, the block `k`
   * holding `m`, the scratch block `n` and the scratch tail size `s`.
   */
  datatype Geometry = Geometry(bs: nat, k: nat, n: nat, s: int)

  /** The block path's numbers for `inplaceMerge(b, m, e)`, and the shape they give. */
  function PathGeometry(b: int, m: int, e: int): (p: Geometry)
    requires b <= m < e && BlockCount(b, e) >= 5
    ensures Tail(b, e, p.bs, p.n, p.s) && p.k <= p.n + 1
  {
    TailHolds(b, e);
    LayoutMiddle(b, m, e);
    Geometry(BlockSize(b, e), BlockOf(b, m, BlockSize(b, e)), BlockCount(b, e) - 2, TailSize(b, e))
  }

  /** The phases with the numbers `inplaceMerge(b, m, e)` gives them. */
  ghost function PathPhases(t: seq<int>, b: int, m: int, e: int, g: nat): (r: seq<int>)
    requires 0 <= b <= m < e <= |t| && BlockCount(b, e) >= 5
    ensures |r| == |t| && PermutedWithin(t, r, b, e)
  {
    var p := PathGeometry(b, m, e);
    Phases(t, b, e, p.bs, p.k, p.n, p.s, g)
  }

  /**
   * `inplaceMerge(b, m, e)` as written: with fewer than five blocks an
   * insertion sort of `[b, e)`; otherwise the phases followed by a sort of the
   * scratch tail `[e - s, e)` only. Either way it only rearranges `[b, e)`.
   */
  ghost function AsWritten(t: seq<int>, b: int, m: int, e: int, g: nat): (r: seq<int>)
    requires 0 <= b <= m < e <= |t|
    ensures |r| == |t| && PermutedWithin(t, r, b, e)
  {
    if BlockCount(b, e) < 5 then
      SortRangePermuted(t, b, e);
      SortRange(t, b, e)
    else
      var u := PathPhases(t, b, m, e, g);
      var r := SortTail(u, b, e - PathGeometry(b, m, e).s, e);
      PermutedTrans(t, u, r, b, e);
      r
  }
}
