/**
 * The run-stack controller (`TimSortController` in src/timsort-internal.h):
 * `sort` scans the range into runs with `makeRun`, pushes each run on a
 * stack and lets `checkStack` merge the topmost runs as the policy decides;
 * at the end the stack is drained by merging its two topmost runs until one
 * run is left.
 *
 * The stack invariant (`Stack`) is that the runs are non-empty, adjacent and
 * start at `begin`, that each run holds the sorted arrangement of the input's
 * elements at its positions, and that elsewhere the array is the input; by
 * `StackArranged` this fixes the array completely. Merges use the corrected
 * `InplaceMerge`, which sorts the merged range on every path.
 */
module Controller {
  import opened SortSpec
  import opened Runs
  import opened Policy
  import opened BlockMerge
  import opened InplaceMerge

  // ---------------------------------------------------------------------
  // The stack of runs
  // ---------------------------------------------------------------------

  /** Where the runs on the stack end: `lo` for an empty stack, else the end of the top run. */
  function StackEnd(st: seq<Run>, lo: int): int
  {
    if st == [] then lo else st[|st| - 1].end
  }

  /** The runs, bottom first, are non-empty and adjacent, the first starting at `lo`. */
  ghost predicate Adjacent(st: seq<Run>, lo: int)
    decreases |st|
  {
    st == [] ||
      var top, rest := st[|st| - 1], st[..|st| - 1];
      Adjacent(rest, lo) && top.begin == StackEnd(rest, lo) && top.begin < top.end
  }

  /**
   * The run `r` lies in `s` and is sorted there, holding the elements `orig`
   * has at its positions: by `SortedPermIsSortSeq`, it holds their sorted
   * arrangement.
   */
  ghost predicate Holds(orig: seq<int>, s: seq<int>, r: Run)
  {
    && 0 <= r.begin <= r.end <= |s| == |orig|
    && Sorted(s[r.begin..r.end]) && multiset(s[r.begin..r.end]) == multiset(orig[r.begin..r.end])
  }

  /**
   * Every run on the stack holds the sorted arrangement of the input's
   * elements at its positions. The bounds are stated on their own so that
   * they hold for any run named; the contents are only unfolded where
   * `Holds` is asked for.
   */
  ghost predicate RunsFrom(orig: seq<int>, s: seq<int>, st: seq<Run>)
  {
    && (forall k :: 0 <= k < |st| ==> 0 <= st[k].begin <= st[k].end <= |s| == |orig|)
    && (forall k {:trigger Holds(orig, s, st[k])} :: 0 <= k < |st| ==> Holds(orig, s, st[k]))
  }

  /** `RunsFrom` run by run: each run of the stack holds the sorted arrangement of the input's elements there. */
  lemma RunsHold(orig: seq<int>, s: seq<int>, st: seq<Run>)
    requires RunsFrom(orig, s, st)
    ensures forall k :: 0 <= k < |st| ==> var r := st[k];
      0 <= r.begin <= r.end <= |s| && s[r.begin..r.end] == SortSeq(orig[r.begin..r.end])
  {
    forall k | 0 <= k < |st|
      ensures var r := st[k]; s[r.begin..r.end] == SortSeq(orig[r.begin..r.end])
    {
      var r := st[k];
      assert Holds(orig, s, r);
      SortedPermIsSortSeq(s[r.begin..r.end], orig[r.begin..r.end]);
    }
  }

  /**
   * The controller's invariant for the array `s` and the stack `st` over the
   * input `orig`, from position `lo`: the runs are adjacent, each holds the
   * sorted arrangement of the input's elements at its positions, and `s` is
   * `orig` everywhere else. By `StackDetermines` this fixes `s`.
   */
  ghost predicate Stack(orig: seq<int>, s: seq<int>, st: seq<Run>, lo: int)
  {
    && Adjacent(st, lo) && 0 <= lo <= StackEnd(st, lo) <= |s| == |orig|
    && s[..lo] == orig[..lo] && s[StackEnd(st, lo)..] == orig[StackEnd(st, lo)..]
    && RunsFrom(orig, s, st)
  }

  /**
   * `size()` as the policy receives it, an unsigned count. Runs on a stack
   * that keeps the invariant are never reversed, and there it is `Size()`.
   */
  function Len(r: Run): (n: nat)
    ensures r.begin <= r.end ==> n == r.Size()
  {
    if r.begin <= r.end then r.end - r.begin else 0
  }

  /**
   * The policy asks for no merge of the topmost runs: with two runs
   * `needMerge(X, Y)` is false, with three or more `whatMerge(X, Y, Z)` is
   * `NoMerge` (X is the top run).
   */
  predicate Settled(p: Policy, st: seq<Run>)
  {
    && (|st| == 2 ==> !p.NeedMerge(Len(st[1]), Len(st[0])))
    && (|st| >= 3 ==> p.WhatMergeOf(Len(st[|st| - 1]), Len(st[|st| - 2]), Len(st[|st| - 3])) == NoMerge)
  }

  /** Lines 128-131 on the stack: X and Y, the two topmost runs, become one. */
  function JoinTop(st: seq<Run>): (r: seq<Run>)
    requires |st| >= 2
    ensures |r| == |st| - 1 && r[..|st| - 2] == st[..|st| - 2]
  {
    st[..|st| - 2] + [st[|st| - 2].Join(st[|st| - 1])]
  }

  /** Lines 128-131 on the stack: Y and Z, the second and third runs from the top, become one. */
  function JoinBelow(st: seq<Run>): (r: seq<Run>)
    requires |st| >= 3
    ensures |r| == |st| - 1 && r[..|st| - 3] == st[..|st| - 3] && r[|st| - 2] == st[|st| - 1]
  {
    st[..|st| - 3] + [st[|st| - 3].Join(st[|st| - 2]), st[|st| - 1]]
  }

  /**
   * Lines 77-113 on the stack alone: the stack `checkStack` leaves. With two
   * runs they are joined if `needMerge` asks for it; with three or more,
   * `whatMerge` may join X with Y or Y with Z, and then the stack is looked
   * at again. The runs' contents play no part: only their sizes are asked.
   */
  function Collapse(p: Policy, st: seq<Run>): (r: seq<Run>)
    ensures |r| <= |st|
    decreases |st|
  {
    var n := |st|;
    if n == 2 then
      if p.NeedMerge(Len(st[1]), Len(st[0])) then JoinTop(st) else st
    else if n > 2 then
      var x, y, z := st[n - 1], st[n - 2], st[n - 3];
      match p.WhatMergeOf(Len(x), Len(y), Len(z))
      case NoMerge => st
      case MergeXY => Collapse(p, JoinTop(st))
      case MergeYZ => Collapse(p, JoinBelow(st))
    else st
  }

  /** The stack `checkStack` leaves is one where the policy asks for no further merge. */
  lemma {:induction false} CollapseSettled(p: Policy, st: seq<Run>)
    ensures Settled(p, Collapse(p, st))
    decreases |st|
  {
    var n := |st|;
    if n > 2 {
      var x, y, z := st[n - 1], st[n - 2], st[n - 3];
      match p.WhatMergeOf(Len(x), Len(y), Len(z))
      case NoMerge =>
      case MergeXY => CollapseSettled(p, JoinTop(st));
      case MergeYZ => CollapseSettled(p, JoinBelow(st));
    }
  }

  /** `checkStack` leaves the stack as it is exactly when the policy asks for no merge. */
  lemma CollapseFixed(p: Policy, st: seq<Run>)
    ensures Collapse(p, st) == st <==> Settled(p, st)
  {
    var n := |st|;
    if n > 2 {
      var x, y, z := st[n - 1], st[n - 2], st[n - 3];
      match p.WhatMergeOf(Len(x), Len(y), Len(z))
      case NoMerge =>
      case MergeXY => assert |Collapse(p, st)| <= n - 1;
      case MergeYZ => assert |Collapse(p, st)| <= n - 1;
    }
  }

  /** Lines 82-85: two runs the policy wants merged collapse into their join. */
  lemma CollapsePair(p: Policy, st: seq<Run>)
    requires |st| == 2 && p.NeedMerge(Len(st[1]), Len(st[0]))
    ensures Collapse(p, st) == JoinTop(st)
  {
  }

  /** Lines 100-105: a stack whose policy merges X with Y collapses as that merged stack does. */
  lemma CollapseTop(p: Policy, st: seq<Run>)
    requires |st| > 2 && p.WhatMergeOf(Len(st[|st| - 1]), Len(st[|st| - 2]), Len(st[|st| - 3])) == MergeXY
    ensures Collapse(p, st) == Collapse(p, JoinTop(st))
  {
  }

  /** Lines 106-111: a stack whose policy merges Y with Z collapses as that merged stack does. */
  lemma CollapseBelow(p: Policy, st: seq<Run>)
    requires |st| > 2 && p.WhatMergeOf(Len(st[|st| - 1]), Len(st[|st| - 2]), Len(st[|st| - 3])) == MergeYZ
    ensures Collapse(p, st) == Collapse(p, JoinBelow(st))
  {
  }

  /** Adjacent runs lie between `lo` and the end of the stack, and a non-empty stack covers something. */
  lemma {:induction false} AdjacentBounds(st: seq<Run>, lo: int)
    requires Adjacent(st, lo)
    ensures lo <= StackEnd(st, lo)
    ensures st != [] ==> lo < StackEnd(st, lo)
    ensures forall k :: 0 <= k < |st| ==> lo <= st[k].begin < st[k].end <= StackEnd(st, lo)
    decreases |st|
  {
    if st != [] {
      var rest := st[..|st| - 1];
      AdjacentBounds(rest, lo);
      forall k | 0 <= k < |st|
        ensures lo <= st[k].begin < st[k].end <= StackEnd(st, lo)
      {
        if k < |rest| {
          assert st[k] == rest[k];
        }
      }
    }
  }

  /** Two adjacent runs joined into one leave the stack adjacent, ending where it did. */
  lemma AdjacentJoin(rest: seq<Run>, lo: int, y: Run, x: Run)
    requires Adjacent(rest + [y, x], lo)
    ensures Adjacent(rest + [y.Join(x)], lo)
    ensures StackEnd(rest + [y.Join(x)], lo) == x.end
  {
    var st := rest + [y, x];
    assert st[..|st| - 1] == rest + [y];
    assert (rest + [y])[..|rest|] == rest;
    assert (rest + [y.Join(x)])[..|rest|] == rest;
  }

  /** A run pushed at the end of the stack keeps it adjacent. */
  lemma AdjacentPush(st: seq<Run>, lo: int, r: Run)
    requires Adjacent(st, lo) && r.begin == StackEnd(st, lo) && r.begin < r.end
    ensures Adjacent(st + [r], lo) && StackEnd(st + [r], lo) == r.end
  {
    assert (st + [r])[..|st|] == st;
  }

  /** A rearrangement of `[lo, hi)` leaves every range outside it as it was. */
  lemma OutsideSame(s: seq<int>, s': seq<int>, lo: int, hi: int, b: int, e: int)
    requires PermutedWithin(s, s', lo, hi) && 0 <= b <= e <= |s|
    requires e <= lo || hi <= b
    ensures s[b..e] == s'[b..e]
  {
    forall k | b <= k < e
      ensures s[k] == s'[k]
    {
      if e <= lo {
        assert s[k] == s[..lo][k] && s'[k] == s'[..lo][k];
      } else {
        assert s[k] == s[hi..][k - hi] && s'[k] == s'[hi..][k - hi];
      }
    }
  }

  /** Adjacent runs cover every position between `lo` and the end of the stack. */
  lemma {:induction false} Covers(st: seq<Run>, lo: int, i: int)
    requires Adjacent(st, lo) && lo <= i < StackEnd(st, lo)
    ensures exists k :: 0 <= k < |st| && st[k].begin <= i < st[k].end
    decreases |st|
  {
    var n := |st|;
    var rest := st[..n - 1];
    if i < st[n - 1].begin {
      Covers(rest, lo, i);
      var k :| 0 <= k < |rest| && rest[k].begin <= i < rest[k].end;
      assert st[k] == rest[k];
    } else {
      assert st[n - 1].begin <= i < st[n - 1].end;
    }
  }

  /**
   * The invariant fixes the array: for a given input and stack, only one
   * array keeps it.
   */
  lemma StackDetermines(orig: seq<int>, s: seq<int>, s': seq<int>, st: seq<Run>, lo: int)
    requires Stack(orig, s, st, lo) && Stack(orig, s', st, lo)
    ensures s == s'
  {
    var e := StackEnd(st, lo);
    forall i | 0 <= i < |s|
      ensures s[i] == s'[i]
    {
      if i < lo {
        assert s[i] == s[..lo][i] && s'[i] == s'[..lo][i];
      } else if e <= i {
        assert s[i] == s[e..][i - e] && s'[i] == s'[e..][i - e];
      } else {
        Covers(st, lo, i);
        var k :| 0 <= k < |st| && st[k].begin <= i < st[k].end;
        var r := st[k];
        assert Holds(orig, s, st[k]) && Holds(orig, s', st[k]);
        SortedUnique(s[r.begin..r.end], s'[r.begin..r.end]);
        assert s[i] == s[r.begin..r.end][i - r.begin] && s'[i] == s'[r.begin..r.end][i - r.begin];
      }
    }
  }

  /** A non-empty stack is the stack below its top with the top pushed back. */
  lemma SplitLast(st: seq<Run>)
    requires st != []
    ensures st[..|st| - 1] + [st[|st| - 1]] == st
  {
  }

  /**
   * The input with the range of every run on the stack sorted, bottom run
   * first; the runs do not overlap, so the order does not matter.
   */
  ghost function Arranged(orig: seq<int>, st: seq<Run>, lo: int): (s: seq<int>)
    requires Adjacent(st, lo) && 0 <= lo && StackEnd(st, lo) <= |orig|
    ensures |s| == |orig|
    decreases |st|
  {
    if st == [] then orig
    else
      var rest, top := st[..|st| - 1], st[|st| - 1];
      AdjacentBounds(rest, lo);
      SortRange(Arranged(orig, rest, lo), top.begin, top.end)
  }

  /** The arranged input keeps the invariant. */
  lemma {:induction false} ArrangedKeeps(orig: seq<int>, st: seq<Run>, lo: int)
    requires Adjacent(st, lo) && 0 <= lo && StackEnd(st, lo) <= |orig|
    ensures Stack(orig, Arranged(orig, st, lo), st, lo)
    decreases |st|
  {
    AdjacentBounds(st, lo);
    if st != [] {
      var rest, top := st[..|st| - 1], st[|st| - 1];
      AdjacentBounds(rest, lo);
      ArrangedKeeps(orig, rest, lo);
      var s := Arranged(orig, rest, lo);
      SplitLast(st);
      PushKeeps(orig, s, SortRange(s, top.begin, top.end), rest, lo, top);
    }
  }

  /**
   * The invariant holds exactly for the arranged input: an array that keeps
   * it is the input with the range of each run on the stack sorted.
   */
  lemma StackArranged(orig: seq<int>, s: seq<int>, st: seq<Run>, lo: int)
    requires Adjacent(st, lo) && 0 <= lo <= StackEnd(st, lo) <= |s| == |orig|
    ensures Stack(orig, s, st, lo) <==> s == Arranged(orig, st, lo)
  {
    ArrangedKeeps(orig, st, lo);
    if Stack(orig, s, st, lo) {
      StackDetermines(orig, s, Arranged(orig, st, lo), st, lo);
    }
  }

  /**
   * Lines 60-65: a run made at the end of the stack, holding the sorted
   * arrangement of what was there, and pushed, keeps the invariant, with the
   * stack now ending where the run ends.
   */
  lemma PushKeeps(orig: seq<int>, s: seq<int>, s': seq<int>, st: seq<Run>, lo: int, r: Run)
    requires Stack(orig, s, st, lo)
    requires r.begin == StackEnd(st, lo) < r.end <= |s|
    requires s' == SortRange(s, r.begin, r.end)
    ensures Stack(orig, s', st + [r], lo) && StackEnd(st + [r], lo) == r.end
  {
    var e := r.begin;
    AdjacentBounds(st, lo);
    AdjacentPush(st, lo, r);
    PushedRunsHold(orig, s, st, lo, r);
    SortedInside(s, e, r.end, lo, r.end);
    assert s[r.end..] == s[e..][r.end - e..] && orig[r.end..] == orig[e..][r.end - e..];
  }

  /** The runs of a stack with `r` pushed hold their input elements once `r`'s range is sorted. */
  lemma PushedRunsHold(orig: seq<int>, s: seq<int>, st: seq<Run>, lo: int, r: Run)
    requires Stack(orig, s, st, lo)
    requires r.begin == StackEnd(st, lo) < r.end <= |s|
    ensures RunsFrom(orig, SortRange(s, r.begin, r.end), st + [r])
  {
    var e := r.begin;
    var s' := SortRange(s, e, r.end);
    AdjacentBounds(st, lo);
    var st' := st + [r];
    forall k | 0 <= k < |st'|
      ensures Holds(orig, s', st'[k])
    {
      if k < |st| {
        assert st'[k] == st[k];
        OtherHolds(orig, s, e, r.end, st[k]);
      } else {
        assert s[e..r.end] == s[e..][..r.end - e] && orig[e..r.end] == orig[e..][..r.end - e];
      }
    }
  }

  /** Sorting the range of two adjacent runs that hold their input elements gives a run that holds them. */
  lemma JoinHolds(orig: seq<int>, s: seq<int>, y: Run, x: Run)
    requires Holds(orig, s, y) && Holds(orig, s, x) && y.end == x.begin
    ensures Holds(orig, SortRange(s, y.begin, x.end), y.Join(x))
  {
    var b, m, e := y.begin, y.end, x.end;
    assert s[b..e] == s[b..m] + s[m..e] && orig[b..e] == orig[b..m] + orig[m..e];
  }

  /** Sorting a range leaves a run outside it holding what it held. */
  lemma OtherHolds(orig: seq<int>, s: seq<int>, b: int, e: int, r: Run)
    requires Holds(orig, s, r) && 0 <= b <= e <= |s|
    requires r.end <= b || e <= r.begin
    ensures Holds(orig, SortRange(s, b, e), r)
  {
    SortRangePermuted(s, b, e);
    OutsideSame(s, SortRange(s, b, e), b, e, r.begin, r.end);
  }

  /**
   * A merge of two adjacent runs `y` and `x` of the stack: the array sorted
   * over `[y.begin, x.end)`, the other runs of `st'` being runs of `st` that
   * lie outside that range, keeps the invariant for `st'`.
   */
  lemma MergeKeeps(orig: seq<int>, s: seq<int>, st: seq<Run>, st': seq<Run>, lo: int, y: Run, x: Run)
    requires Stack(orig, s, st, lo) && Adjacent(st', lo) && StackEnd(st', lo) == StackEnd(st, lo)
    requires y in st && x in st && y.end == x.begin
    requires y.Join(x) in st'
    requires forall r :: r in st' && r != y.Join(x) ==> r in st && (r.end <= y.begin || x.end <= r.begin)
    ensures Stack(orig, SortRange(s, y.begin, x.end), st', lo)
  {
    AdjacentBounds(st, lo);
    var jy :| 0 <= jy < |st| && st[jy] == y;
    var jx :| 0 <= jx < |st| && st[jx] == x;
    MergedRunsHold(orig, s, st, st', y, x);
    SortedInside(s, y.begin, x.end, lo, StackEnd(st, lo));
  }

  /** The runs of `st'` hold their input elements once `[y.begin, x.end)` is sorted. */
  lemma MergedRunsHold(orig: seq<int>, s: seq<int>, st: seq<Run>, st': seq<Run>, y: Run, x: Run)
    requires RunsFrom(orig, s, st) && y in st && x in st && y.end == x.begin
    requires forall r :: r in st' && r != y.Join(x) ==> r in st && (r.end <= y.begin || x.end <= r.begin)
    ensures RunsFrom(orig, SortRange(s, y.begin, x.end), st')
  {
    var b, e := y.begin, x.end;
    var s' := SortRange(s, b, e);
    JoinHolds(orig, s, y, x);
    forall k | 0 <= k < |st'|
      ensures Holds(orig, s', st'[k])
    {
      var r := st'[k];
      if r != y.Join(x) {
        var j :| 0 <= j < |st| && st[j] == r;
        OtherHolds(orig, s, b, e, r);
      }
    }
  }

  /** Sorting `[b, e)` inside `[lo, hi)` leaves `s` alone before `lo` and from `hi` on. */
  lemma SortedInside(s: seq<int>, b: int, e: int, lo: int, hi: int)
    requires 0 <= lo <= b <= e <= hi <= |s|
    ensures SortRange(s, b, e)[..lo] == s[..lo] && SortRange(s, b, e)[hi..] == s[hi..]
  {
    var s' := SortRange(s, b, e);
    SamePrefix(s', s, b, lo);
    SameSuffix(s', s, e, hi);
  }

  /** Sequences that agree before `b` agree before any `lo <= b`. */
  lemma SamePrefix(s: seq<int>, t: seq<int>, b: int, lo: int)
    requires 0 <= lo <= b <= |s| == |t| && s[..b] == t[..b]
    ensures s[..lo] == t[..lo]
  {
    assert s[..lo] == s[..b][..lo] && t[..lo] == t[..b][..lo];
  }

  /** Sequences that agree from `e` on agree from any `hi >= e` on. */
  lemma SameSuffix(s: seq<int>, t: seq<int>, e: int, hi: int)
    requires 0 <= e <= hi <= |s| == |t| && s[e..] == t[e..]
    ensures s[hi..] == t[hi..]
  {
    assert s[hi..] == s[e..][hi - e..] && t[hi..] == t[e..][hi - e..];
  }

  /** Lines 84, 101 and 71: merging the two topmost runs keeps the invariant. */
  lemma MergeTopKeeps(orig: seq<int>, s: seq<int>, rest: seq<Run>, lo: int, y: Run, x: Run)
    requires Stack(orig, s, rest + [y, x], lo)
    ensures Stack(orig, SortRange(s, y.begin, x.end), rest + [y.Join(x)], lo)
    ensures StackEnd(rest + [y.Join(x)], lo) == x.end
  {
    var st := rest + [y, x];
    AdjacentJoin(rest, lo, y, x);
    AdjacentBounds(st, lo);
    assert st[|rest|] == y && st[|rest| + 1] == x;
    assert st[..|st| - 1] == rest + [y];
    forall r | r in rest + [y.Join(x)] && r != y.Join(x)
      ensures r in st && (r.end <= y.begin || x.end <= r.begin)
    {
      var j :| 0 <= j < |rest| && rest[j] == r;
      AdjacentBounds(rest, lo);
      assert st[..|st| - 1][..|rest|] == rest;
      assert st[j] == r;
    }
    MergeKeeps(orig, s, st, rest + [y.Join(x)], lo, y, x);
  }

  /** Line 107: merging the second and third runs from the top keeps the invariant. */
  lemma MergeBelowKeeps(orig: seq<int>, s: seq<int>, rest: seq<Run>, lo: int, z: Run, y: Run, x: Run)
    requires Stack(orig, s, rest + [z, y, x], lo) && 0 <= z.begin <= y.end <= |s|
    ensures Stack(orig, SortRange(s, z.begin, y.end), rest + [z.Join(y), x], lo)
    ensures StackEnd(rest + [z.Join(y), x], lo) == x.end
  {
    var st := rest + [z, y, x];
    assert st[..|st| - 1] == rest + [z, y];
    AdjacentJoin(rest, lo, z, y);
    AdjacentPush(rest + [z.Join(y)], lo, x);
    assert rest + [z.Join(y)] + [x] == rest + [z.Join(y), x];
    AdjacentBounds(st, lo);
    assert st[|rest|] == z && st[|rest| + 1] == y && st[|rest| + 2] == x;
    assert (rest + [z, y])[..|rest| + 1] == rest + [z];
    forall r | r in rest + [z.Join(y), x] && r != z.Join(y)
      ensures r in st && (r.end <= z.begin || y.end <= r.begin)
    {
      if r != x {
        var j :| 0 <= j < |rest| && rest[j] == r;
        assert st[j] == r;
        var st1 := rest + [z];
        assert (rest + [z, y])[..|rest| + 1] == st1 && st1[..|rest|] == rest;
        AdjacentBounds(rest, lo);
      }
    }
    MergeKeeps(orig, s, st, rest + [z.Join(y), x], lo, z, y);
  }

  /**
   * The two topmost runs `y` and `x` of a stack that keeps the invariant:
   * they are adjacent, and merging them keeps the invariant.
   */
  lemma TopPair(orig: seq<int>, s: seq<int>, st: seq<Run>, lo: int)
    requires Stack(orig, s, st, lo) && |st| >= 2
    ensures var y, x := st[|st| - 2], st[|st| - 1];
      && lo <= y.begin < y.end == x.begin < x.end <= |s|
      && Stack(orig, SortRange(s, y.begin, x.end), JoinTop(st), lo)
      && StackEnd(JoinTop(st), lo) == StackEnd(st, lo)
  {
    var n := |st|;
    assert st == st[..n - 2] + [st[n - 2], st[n - 1]];
    assert st[..n - 1][..n - 2] == st[..n - 2];
    AdjacentBounds(st, lo);
    MergeTopKeeps(orig, s, st[..n - 2], lo, st[n - 2], st[n - 1]);
  }

  /**
   * The three topmost runs `z`, `y` and `x` of a stack that keeps the
   * invariant: they are adjacent, and merging `z` with `y` keeps the invariant.
   */
  lemma ThirdPair(orig: seq<int>, s: seq<int>, st: seq<Run>, lo: int)
    requires Stack(orig, s, st, lo) && |st| >= 3
    ensures var z, y, x := st[|st| - 3], st[|st| - 2], st[|st| - 1];
      && lo <= z.begin < z.end == y.begin < y.end == x.begin < x.end <= |s|
      && Stack(orig, SortRange(s, z.begin, y.end), JoinBelow(st), lo)
      && StackEnd(JoinBelow(st), lo) == StackEnd(st, lo)
  {
    var n := |st|;
    assert st == st[..n - 3] + [st[n - 3], st[n - 2], st[n - 1]];
    var st1 := st[..n - 1];
    var st2 := st1[..n - 2];
    assert Adjacent(st1, lo) && st[n - 1].begin == st1[n - 2].end;
    assert Adjacent(st2, lo) && st1[n - 2].begin == st2[n - 3].end;
    assert st2 == st[..n - 2] && st2[..n - 3] == st[..n - 3];
    AdjacentBounds(st, lo);
    MergeBelowKeeps(orig, s, st[..n - 3], lo, st[n - 3], st[n - 2], st[n - 1]);
  }

  /** Lines 68-74 end with one run: then the array is the input with `[lo, hi)` sorted. */
  lemma OneRunSorted(orig: seq<int>, s: seq<int>, lo: int, hi: int)
    requires Stack(orig, s, [Run(lo, hi)], lo)
    ensures s == SortRange(orig, lo, hi)
  {
    var r := Run(lo, hi);
    assert Holds(orig, s, [r][0]);
    SortedPermIsSortSeq(s[lo..hi], orig[lo..hi]);
    SortRangeOf(orig, s, lo, hi);
  }

  /** An empty stack means the array is still the input. */
  lemma EmptyStackUnchanged(orig: seq<int>, s: seq<int>, lo: int)
    requires Stack(orig, s, [], lo)
    ensures s == orig == SortRange(orig, lo, lo)
  {
    assert s == s[..lo] + s[lo..] && orig == orig[..lo] + orig[lo..];
    var u := SortRange(orig, lo, lo);
    assert u == u[..lo] + u[lo..];
  }

  /**
   * Lines 68-74 end with at most one run left: a stack that keeps the
   * invariant and covers `[lo, hi)` with at most one run is `[Run(lo, hi)]`
   * (or empty when the range is), and the array is the input with
   * `[lo, hi)` sorted.
   */
  lemma Drained(orig: seq<int>, s: seq<int>, st: seq<Run>, lo: int, hi: int)
    requires Stack(orig, s, st, lo) && StackEnd(st, lo) == hi && |st| <= 1 && (lo < hi ==> |st| == 1)
    ensures s == SortRange(orig, lo, hi)
    ensures st == if lo == hi then [] else [Run(lo, hi)]
  {
    AdjacentBounds(st, lo);
    if st == [] {
      EmptyStackUnchanged(orig, s, lo);
    } else {
      assert st[..0] == [];
      assert st == [Run(lo, hi)];
      OneRunSorted(orig, s, lo, hi);
    }
  }

  // ---------------------------------------------------------------------
  // The controller
  // ---------------------------------------------------------------------

  /**
   * `TimSortController` for the range `[begin, end)` of `a`, with policy
   * `params`. `orig` is the range's contents when the controller is made.
   */
  class TimSortController {
    const a: array<int>
    const begin: int
    const end: int
    const params: Policy
    var runStack: seq<Run>
    ghost const orig: seq<int>

    /** The stack invariant over `[begin, end)`. */
    ghost predicate Valid()
      reads this, a
    {
      && 0 <= begin <= end <= a.Length
      && Stack(orig, a[..], runStack, begin)
      && StackEnd(runStack, begin) <= end
    }

    /** Lines 48-50: a controller with an empty stack. */
    constructor (a: array<int>, begin: int, end: int, params: Policy)
      requires 0 <= begin <= end <= a.Length
      ensures this.a == a && this.begin == begin && this.end == end && this.params == params
      ensures runStack == [] && orig == a[..] && Valid()
    {
      this.a := a;
      this.begin := begin;
      this.end := end;
      this.params := params;
      this.runStack := [];
      this.orig := a[..];
    }

    /** Lines 287-291: removes and returns the top run. */
    method PopRun() returns (rc: Run)
      requires runStack != []
      modifies this
      ensures rc == old(runStack)[|old(runStack)| - 1]
      ensures runStack == old(runStack)[..|old(runStack)| - 1]
      ensures a[..] == old(a[..])
    {
      rc := runStack[|runStack| - 1];
      runStack := runStack[..|runStack| - 1];
    }

    /** Lines 292-294: puts a run on top. */
    method PushRun(rc: Run)
      modifies this
      ensures runStack == old(runStack) + [rc]
    {
      runStack := runStack + [rc];
    }

    /**
     * Lines 128-131: `inplaceMerge(x.begin, y.begin, y.end)` followed by
     * `x.join(y)`; the joined run is returned. `[x.begin, y.end)` ends up
     * sorted and holding its old elements, and nothing else changes.
     */
    method MergeRuns(x: Run, y: Run) returns (joined: Run)
      requires 0 <= x.begin <= x.end == y.begin < y.end <= a.Length
      modifies a
      ensures joined == x.Join(y)
      ensures a[..] == SortRange(old(a[..]), x.begin, y.end)
    {
      InplaceMerge.InplaceMerge(a, x.begin, y.begin, y.end, params.Gallop());
      joined := x.Join(y);
    }

    /**
     * Lines 69-72, 79-85 and 101-103: pop X and Y, merge Y with X and push the
     * joined run. The stack ends where it did, one run shorter, and the array
     * has the two runs' range sorted.
     */
    method MergeTop()
      requires Valid() && |runStack| >= 2
      modifies this, a
      ensures Valid()
      ensures runStack == JoinTop(old(runStack))
      ensures a[..] == old(SortRange(a[..], runStack[|runStack| - 2].begin, runStack[|runStack| - 1].end))
      ensures StackEnd(runStack, begin) == old(StackEnd(runStack, begin))
    {
      ghost var st, s := runStack, a[..];
      ghost var n := |st|;
      TopPair(orig, s, st, begin);
      var x := PopRun();
      var y := PopRun();
      assert y == st[n - 2] && x == st[n - 1] && runStack == st[..n - 2];
      y := MergeRuns(y, x);
      PushRun(y);
      assert runStack == JoinTop(st);
    }

    /**
     * Lines 91-93 and 107-109: pop X, Y and Z, merge Z with Y and push the
     * joined run and then X. The stack ends where it did, one run shorter,
     * and the array has the range of Z and Y sorted.
     */
    method MergeBelow()
      requires Valid() && |runStack| >= 3
      modifies this, a
      ensures Valid()
      ensures runStack == JoinBelow(old(runStack))
      ensures a[..] == old(SortRange(a[..], runStack[|runStack| - 3].begin, runStack[|runStack| - 2].end))
      ensures StackEnd(runStack, begin) == old(StackEnd(runStack, begin))
    {
      ghost var st, s := runStack, a[..];
      ghost var n := |st|;
      ThirdPair(orig, s, st, begin);
      var x := PopRun();
      var y := PopRun();
      var z := PopRun();
      assert z == st[n - 3] && y == st[n - 2] && x == st[n - 1] && runStack == st[..n - 3];
      z := MergeRuns(z, y);
      runStack := runStack + [z, x];  // pushRun(z); pushRun(x)
      assert runStack == JoinBelow(st);
    }

    /**
     * Lines 78-89: the two-run case of `checkStack`. The runs are merged when
     * the policy's `needMerge` asks for it; the contract is `CheckStack`'s.
     */
    method CheckPair()
      requires |runStack| == 2
      requires Valid()
      modifies this, a
      ensures Valid()
      ensures runStack == Collapse(params, old(runStack))
      ensures forall k :: 0 <= k < |runStack| ==> Holds(orig, a[..], runStack[k])
      ensures a[..begin] == orig[..begin] && a[StackEnd(runStack, begin)..] == orig[StackEnd(runStack, begin)..]
      ensures StackEnd(runStack, begin) == old(StackEnd(runStack, begin))
      ensures |runStack| <= old(|runStack|)
      ensures old(|runStack|) >= 1 ==> |runStack| >= 1
      ensures Settled(params, runStack)
      ensures old(Settled(params, runStack)) ==> runStack == old(runStack) && a[..] == old(a[..])
    {
      ghost var st, s := runStack, a[..];
      var x, y := runStack[1], runStack[0];
      assert Len(x) == x.Size() && Len(y) == y.Size() by { RunsHold(orig, s, st); }
      if params.NeedMerge(x.Size(), y.Size()) {
        assert !Settled(params, st);
        MergeTop();
        CollapsePair(params, st);
        CollapseSettled(params, st);
        assert runStack == Collapse(params, st);
      } else {
        assert Settled(params, st);
        CollapseFixed(params, st);
      }
    }

    /**
     * Lines 77-113: with two runs, merge them if `needMerge` says so
     * (`CheckPair`); with three or more, ask `whatMerge` about the three
     * topmost and merge X with Y or Y with Z, then look again (`CheckTriple`).
     * Each look after a merge sees a shorter stack, so the recursion ends for
     * every policy. The new stack is the one `Collapse` describes, so it is
     * left alone exactly when the policy asks for no merge (`CollapseFixed`),
     * and then the array is left alone too; every run on it holds the sorted
     * arrangement of the input's elements at its positions, and the array is
     * the input outside the runs.
     */
    method CheckStack()
      requires Valid()
      modifies this, a
      ensures Valid()
      ensures runStack == Collapse(params, old(runStack))
      ensures forall k :: 0 <= k < |runStack| ==> Holds(orig, a[..], runStack[k])
      ensures a[..begin] == orig[..begin] && a[StackEnd(runStack, begin)..] == orig[StackEnd(runStack, begin)..]
      ensures StackEnd(runStack, begin) == old(StackEnd(runStack, begin))
      ensures |runStack| <= old(|runStack|)
      ensures old(|runStack|) >= 1 ==> |runStack| >= 1
      ensures Settled(params, runStack)
      ensures old(Settled(params, runStack)) ==> runStack == old(runStack) && a[..] == old(a[..])
      decreases |runStack|, 1
    {
      if |runStack| == 2 {
        CheckPair();
      } else if |runStack| > 2 {
        CheckTriple();
      } else {
        CollapseFixed(params, runStack);
      }
    }

    /**
     * Lines 90-112: the case of three or more runs. `whatMerge` of the three
     * topmost lengths picks a merge of X with Y or of Y with Z, after which
     * `checkStack` looks again; the contract is `CheckStack`'s.
     */
    method CheckTriple()
      requires |runStack| > 2
      requires Valid()
      modifies this, a
      ensures Valid()
      ensures runStack == Collapse(params, old(runStack))
      ensures forall k :: 0 <= k < |runStack| ==> Holds(orig, a[..], runStack[k])
      ensures a[..begin] == orig[..begin] && a[StackEnd(runStack, begin)..] == orig[StackEnd(runStack, begin)..]
      ensures StackEnd(runStack, begin) == old(StackEnd(runStack, begin))
      ensures |runStack| <= old(|runStack|)
      ensures old(|runStack|) >= 1 ==> |runStack| >= 1
      ensures Settled(params, runStack)
      ensures old(Settled(params, runStack)) ==> runStack == old(runStack) && a[..] == old(a[..])
      decreases |runStack|, 0
    {
      ghost var st, s := runStack, a[..];
      var n := |runStack|;
      var x, y, z := runStack[n - 1], runStack[n - 2], runStack[n - 3];
      assert Len(x) == x.Size() && Len(y) == y.Size() && Len(z) == z.Size() by { RunsHold(orig, s, st); }
      var what := params.WhatMergeOf(x.Size(), y.Size(), z.Size());
      if what == MergeXY {
        assert !Settled(params, st);
        MergeTop();
        CheckStack();
        CollapseTop(params, st);
        assert runStack == Collapse(params, st);
      } else if what == MergeYZ {
        assert !Settled(params, st);
        MergeBelow();
        CheckStack();
        CollapseBelow(params, st);
        assert runStack == Collapse(params, st);
      } else {
        assert Settled(params, st);
        CollapseFixed(params, st);
      }
    }

    /**
     * Lines 59-64: `makeRun(cursor, minPos, end)` and `pushRun` of the run it
     * returns. The run is `[cursor, RunEnd(...))` of the array as it was, its
     * range is sorted in place and nothing else changes; it reaches at least
     * `minPos` (or `end`), and the invariant is kept with the stack now ending
     * where the run ends.
     */
    method AddRun(cursor: int, minPos: int) returns (runEnd: int)
      requires Valid() && StackEnd(runStack, begin) == cursor < end
      modifies this, a
      ensures Valid() && StackEnd(runStack, begin) == runEnd
      ensures runStack == old(runStack) + [Run(cursor, runEnd)]
      ensures runEnd == RunEnd(old(a[..]), cursor, minPos, end)
      ensures a[..] == SortRange(old(a[..]), cursor, runEnd)
      ensures cursor < runEnd <= end && runEnd >= (if minPos < end then minPos else end)
    {
      ghost var s := a[..];
      runEnd := MakeRun(a, cursor, minPos, end);
      SortRangeOf(s, a[..], cursor, runEnd);
      PushKeeps(orig, s, a[..], runStack, begin, Run(cursor, runEnd));
      PushRun(Run(cursor, runEnd));
    }

    /**
     * Lines 53-75: scan `[begin, end)` into runs of at least `minRun` elements
     * (fewer only at the end), pushing each and checking the stack; then
     * merge the two topmost runs until one is left. Whatever the policy, the
     * range ends up sorted and holding its old elements.
     */
    method Sort()
      requires Valid() && runStack == []
      modifies this, a
      ensures a[..] == SortRange(orig, begin, end)
      ensures runStack == if begin == end then [] else [Run(begin, end)]
    {
      var minRunSize := params.MinRun(end - begin);
      var cursor := begin;
      while cursor < end
        invariant begin <= cursor <= end
        invariant Valid() && StackEnd(runStack, begin) == cursor
        invariant cursor > begin ==> |runStack| >= 1
        decreases end - cursor
      {
        var curMinSize := Min(minRunSize, end - cursor);
        cursor := AddRun(cursor, cursor + curMinSize);
        CheckStack();
      }
      while |runStack| > 1
        invariant Valid() && StackEnd(runStack, begin) == end
        invariant begin < end ==> |runStack| >= 1
        decreases |runStack|
      {
        MergeTop();
        CheckStack();
      }
      Drained(orig, a[..], runStack, begin, end);
    }
  }

  /**
   * Lines 414-422 and src/timsort.h:21-24, 29-32: an empty range is left
   * alone; otherwise a controller for `[first, last)` sorts it. Whatever the
   * policy, the range ends up sorted and holding its old elements, and
   * nothing outside it changes.
   */
  method TimSort(a: array<int>, first: int, last: int, params: Policy)
    requires 0 <= first <= last <= a.Length
    modifies a
    ensures a[..] == SortRange(old(a[..]), first, last)
  {
    if first == last {
      ghost var u := SortRange(a[..], first, last);
      assert a[..] == a[..first] + a[first..] && u == u[..first] + u[first..];
      return;
    }
    var controller := new TimSortController(a, first, last, params);
    controller.Sort();
  }

  /** src/timsort.h:25-28, 33-36: the overloads without a policy use `DefaultTimSortParams`. */
  method TimSortDefault(a: array<int>, first: int, last: int)
    requires 0 <= first <= last <= a.Length
    modifies a
    ensures a[..] == SortRange(old(a[..]), first, last)
  {
    TimSort(a, first, last, DefaultParams);
  }
}
