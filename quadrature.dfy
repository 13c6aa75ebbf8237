/** The trapezoid rule of the formal integral (`trapezoid_integration`). */
module Quadrature {

  /** `f[lo] + ... + f[hi - 1]`, 0 for an empty range. */
  function SumRange(f: seq<real>, lo: int, hi: int): real
    requires 0 <= lo && hi <= |f|
    decreases hi - lo
  {
    if hi <= lo then 0.0 else SumRange(f, lo, hi - 1) + f[hi - 1]
  }

  /** The kernel's trapezoid rule over `f` with step `h`: the end points count half,
      the interior points in full. A single point counts as itself. */
  function Trapezoid(f: seq<real>, h: real): real
    requires |f| >= 1
  {
    ((f[0] + f[|f| - 1]) / 2.0 + SumRange(f, 1, |f| - 1)) * h
  }

  /** The textbook composite rule: one trapezoid `(f[k] + f[k + 1]) / 2 * h` per
      panel between neighbouring points. */
  function Panels(f: seq<real>, h: real): real
  {
    if |f| < 2 then 0.0 else Panels(f[..|f| - 1], h) + (f[|f| - 2] + f[|f| - 1]) / 2.0 * h
  }

  lemma {:induction false} SumRangePrefix(f: seq<real>, m: int, lo: int, hi: int)
    requires 0 <= lo && 0 <= m && hi <= m <= |f|
    ensures SumRange(f[..m], lo, hi) == SumRange(f, lo, hi)
    decreases hi - lo
  {
    if lo < hi {
      SumRangePrefix(f, m, lo, hi - 1);
    }
  }

  /** For two or more points the kernel's formula is the sum of the panel
      trapezoids. */
  lemma {:induction false} TrapezoidIsPanels(f: seq<real>, h: real)
    requires |f| >= 2
    ensures Trapezoid(f, h) == Panels(f, h)
    decreases |f|
  {
    var n := |f|;
    var g := f[..n - 1];
    if n > 2 {
      TrapezoidIsPanels(g, h);
      SumRangePrefix(f, n - 1, 1, n - 2);
      assert SumRange(f, 1, n - 1) == SumRange(f, 1, n - 2) + f[n - 2];
      assert Trapezoid(f, h) - Trapezoid(g, h) == (f[n - 2] + f[n - 1]) / 2.0 * h;
    }
  }

  lemma {:induction false} SumRangeConstant(f: seq<real>, v: real, lo: int, hi: int)
    requires 0 <= lo <= hi <= |f|
    requires forall k :: 0 <= k < |f| ==> f[k] == v
    ensures SumRange(f, lo, hi) == v * (hi - lo) as real
    decreases hi - lo
  {
    if lo < hi {
      SumRangeConstant(f, v, lo, hi - 1);
    }
  }

  /** The rule integrates a constant exactly over the `n - 1` panels. */
  lemma TrapezoidConstant(f: seq<real>, v: real, h: real)
    requires |f| >= 2
    requires forall k :: 0 <= k < |f| ==> f[k] == v
    ensures Trapezoid(f, h) == v * h * (|f| - 1) as real
  {
    SumRangeConstant(f, v, 1, |f| - 1);
  }

  /** Changing only the first point moves the result by half its change times `h`. */
  lemma {:induction false} TrapezoidFirstEntry(f: seq<real>, g: seq<real>, h: real)
    requires |f| == |g| >= 2 && f[1..] == g[1..]
    ensures Trapezoid(g, h) - Trapezoid(f, h) == (g[0] - f[0]) / 2.0 * h
  {
    SumRangeTail(f, g, 1, |f| - 1);
    assert f[|f| - 1] == f[1..][|f| - 2] == g[|g| - 1];
  }

  /** The weight the rule gives an end point of value `v`: half a panel of width `h`. */
  function EndWeight(v: real, h: real): real
  {
    v / 2.0 * h
  }

  /** A rule over `g` whose first entry is `v` exceeds the rule over `f`, which agrees
      with `g` elsewhere and starts at 0, by the end-point weight of `v`. */
  lemma TrapezoidFromZeroFirst(f: seq<real>, g: seq<real>, v: real, h: real)
    requires |f| == |g| >= 2 && f[1..] == g[1..] && f[0] == 0.0 && g[0] == v
    ensures Trapezoid(g, h) == Trapezoid(f, h) + EndWeight(v, h)
  {
    TrapezoidFirstEntry(f, g, h);
  }

  /** The rule is linear in its step: integrating with step `r / n` gives `(n - 1) / n`
      times the result with step `r / (n - 1)`. */
  lemma TrapezoidStepRescale(f: seq<real>, r: real, n: int)
    requires |f| >= 1 && n >= 2
    ensures Trapezoid(f, r / n as real) * n as real == Trapezoid(f, r / (n - 1) as real) * (n - 1) as real
  {
    var x := (f[0] + f[|f| - 1]) / 2.0 + SumRange(f, 1, |f| - 1);
    StepRescale(x, r, n as real, (n - 1) as real);
  }

  lemma StepRescale(x: real, r: real, a: real, b: real)
    requires a > 0.0 && b > 0.0
    ensures x * (r / a) * a == x * (r / b) * b
  {
    assert x * (r / a) * a == x * ((r / a) * a) == x * r;
    assert x * (r / b) * b == x * ((r / b) * b) == x * r;
  }

  lemma {:induction false} SumRangeTail(f: seq<real>, g: seq<real>, lo: int, hi: int)
    requires |f| == |g| >= 1 && 1 <= lo && hi <= |f| && f[1..] == g[1..]
    ensures SumRange(f, lo, hi) == SumRange(g, lo, hi)
    decreases hi - lo
  {
    if lo < hi {
      SumRangeTail(f, g, lo, hi - 1);
      assert f[hi - 1] == f[1..][hi - 2] == g[hi - 1];
    }
  }

  /** The kernel's accumulator loop over the first `n` entries of `a`. */
  method TrapezoidIntegration(a: array<real>, h: real, n: int) returns (result: real)
    requires 1 <= n <= a.Length
    ensures result == Trapezoid(a[..n], h)
  {
    result := (a[0] + a[n - 1]) / 2.0;
    ghost var f := a[..n];
    var idx := 1;
    while idx < n - 1
      invariant 1 <= idx <= if n < 2 then 1 else n - 1
      invariant result == (f[0] + f[n - 1]) / 2.0 + SumRange(f, 1, idx)
    {
      result := result + a[idx];
      idx := idx + 1;
    }
    return result * h;
  }
}
