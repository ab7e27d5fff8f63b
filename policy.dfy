/**
 * Merge policies: the `ITimSortParams` interface, its default implementation,
 * the three policies the benchmarking program plugs in, and any other
 * implementation a caller passes in.
 *
 * The interface's four queries are `const` and take nothing but lengths; the
 * model makes a policy an immutable value whose queries are functions of
 * lengths alone (only `MinRun` of the test policies is a method, because the
 * source computes it with a loop). Virtual dispatch becomes a `match`.
 */
module Policy {

  /** The answer of `whatMerge`: leave the stack alone, merge X with Y, or Y with Z. */
  datatype WhatMerge = NoMerge | MergeXY | MergeYZ

  /** Number of one bits in the binary representation of `n`. */
  function PopCount(n: nat): nat
  {
    if n == 0 then 0 else n % 2 + PopCount(n / 2)
  }

  /** `n & (n - 1)`: `n` with its lowest set bit cleared. */
  function ClearLowestBit(n: nat): (r: nat)
    ensures r <= n
    ensures n > 0 ==> r < n
  {
    if n == 0 then 0
    else if n % 2 == 1 then n - 1
    else 2 * ClearLowestBit(n / 2)
  }

  /** Clearing the lowest set bit removes exactly one bit. */
  lemma {:induction false} ClearLowestBitPopCount(n: nat)
    requires n > 0
    ensures PopCount(ClearLowestBit(n)) == PopCount(n) - 1
  {
    if n % 2 == 1 {
      assert (n - 1) / 2 == n / 2 && (n - 1) % 2 == 0;
    } else {
      ClearLowestBitPopCount(n / 2);
      var c := ClearLowestBit(n / 2);
      assert (2 * c) / 2 == c && (2 * c) % 2 == 0;
    }
  }

  /**
   * The four policies of the repository, and `Custom`: any other
   * implementation of the interface, given by its four answers.
   */
  datatype Policy =
    | DefaultParams | Params1 | Params2 | ParamsBad
    | Custom(minRun: nat -> nat, needMerge: (nat, nat) -> bool,
             whatMerge: (nat, nat, nat) -> WhatMerge, gallop: nat)
  {
    /** What `minRun(n)` returns, in closed form. */
    function MinRunSpec(n: nat): nat
    {
      match this
      case DefaultParams => 48
      case Params1 => n % 32 + PopCount(n)
      case Params2 => n % 16 + 2 * PopCount(n)
      case ParamsBad => n % 32 + PopCount(n)
      case Custom(minRun, _, _, _) => minRun(n)
    }

    /**
     * `minRun(n)`: the default answers 48; the test policies start from the
     * low bits of `n` and add one (or two) per set bit, clearing the lowest
     * set bit with `n & (n - 1)` on each iteration. A custom policy may
     * answer anything, zero included.
     */
    method MinRun(n: nat) returns (res: nat)
      ensures res == MinRunSpec(n)
      ensures n >= 1 && !Custom? ==> res >= 1
    {
      if n >= 1 && !Custom? { MinRunPositive(this, n); }
      match this
      case DefaultParams =>
        res := 48;
      case Params1 =>
        res := CountBits(n, n % 32, 1);
      case Params2 =>
        res := CountBits(n, n % 16, 2);
      case ParamsBad =>
        res := CountBits(n, n % 32, 1);
      case Custom(minRun, _, _, _) =>
        res := minRun(n);
    }

    /** `needMerge(lenX, lenY)`: whether the only two pending runs are merged. */
    function NeedMerge(lenX: nat, lenY: nat): bool
    {
      match this
      case DefaultParams => lenX >= lenY
      case Params1 => lenX > lenY
      case Params2 => lenX + 2 > lenY
      case ParamsBad => lenX < lenY
      case Custom(_, needMerge, _, _) => needMerge(lenX, lenY)
    }

    /** `whatMerge(lenX, lenY, lenZ)` for the three topmost runs X (top), Y, Z. */
    function WhatMergeOf(lenX: nat, lenY: nat, lenZ: nat): WhatMerge
    {
      match this
      case DefaultParams =>
        if lenX < lenY && lenX + lenY < lenZ then NoMerge
        else if lenX < lenZ then MergeXY
        else MergeYZ
      case Params1 =>
        if lenX <= lenY && lenX + lenY <= lenZ then NoMerge
        else if lenX < lenZ then MergeXY
        else MergeYZ
      case Params2 =>
        if lenX <= lenY + 4 && lenX + lenY <= lenZ + 8 then NoMerge
        else if lenX < lenZ then MergeXY
        else MergeYZ
      case ParamsBad =>
        if lenX > lenY && lenX + lenY > lenZ then NoMerge
        else if lenX > lenZ then MergeXY
        else MergeYZ
      case Custom(_, _, whatMerge, _) => whatMerge(lenX, lenY, lenZ)
    }

    /** `GetGallop()`: consecutive same-side wins before the merge gallops. */
    function Gallop(): nat
    {
      match this
      case DefaultParams => 7
      case Params1 => 32
      case Params2 => 1
      case ParamsBad => 1
      case Custom(_, _, _, gallop) => gallop
    }
  }

  /**
   * The loop of the test policies' `minRun`: starting from `start`, add `step`
   * for every set bit of `n`, clearing one bit per iteration.
   */
  method CountBits(n: nat, start: nat, step: nat) returns (res: nat)
    ensures res == start + step * PopCount(n)
  {
    var m := n;
    res := start;
    ghost var k := 0;
    while m != 0
      invariant k + PopCount(m) == PopCount(n)
      invariant res == start + step * k
      decreases m
    {
      ClearLowestBitPopCount(m);
      m := ClearLowestBit(m);
      assert step * (k + 1) == step * k + step;
      res, k := res + step, k + 1;
    }
  }

  /** For `n >= 1` the minimum run length of each of the repository's policies is at least one. */
  lemma MinRunPositive(p: Policy, n: nat)
    requires n >= 1 && !p.Custom?
    ensures p.MinRunSpec(n) >= 1
  {
    PopCountPositive(n);
  }

  /** A positive number has a set bit. */
  lemma {:induction false} PopCountPositive(n: nat)
    requires n >= 1
    ensures PopCount(n) >= 1
  {
    if n % 2 == 0 {
      PopCountPositive(n / 2);
    }
  }
}
