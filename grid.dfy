/** The impact-parameter grid of the formal integral (`calculate_p_values`). */
module Grid {
  import opened Primitives
  import opened Storage

  /** The `i`-th of `n` evenly spaced impact parameters from 0 to `rMax`, computed
      as the kernel does: `rMax / (n - 1) * i`. */
  function PValue(rMax: real, n: int, i: int): real
    requires n >= 2
  {
    rMax / (n - 1) as real * i as real
  }

  /** The grid starts at the centre and ends at the outer boundary. */
  lemma PValueEnds(rMax: real, n: int)
    requires n >= 2
    ensures PValue(rMax, n, 0) == 0.0
    ensures PValue(rMax, n, n - 1) == rMax
  {
  }

  /** Neighbouring grid points are `rMax / (n - 1)` apart. */
  lemma PValueSpacing(rMax: real, n: int, i: int)
    requires n >= 2
    ensures PValue(rMax, n, i + 1) - PValue(rMax, n, i) == rMax / (n - 1) as real
  {
  }

  /** For a non-negative radius every grid point lies in `[0, rMax]`, and the grid
      increases with the index. */
  lemma PValueBounds(rMax: real, n: int, i: int, j: int)
    requires n >= 2 && rMax >= 0.0 && 0 <= i <= j < n
    ensures 0.0 <= PValue(rMax, n, i) <= PValue(rMax, n, j) <= rMax
  {
    var h := rMax / (n - 1) as real;
    assert h >= 0.0;
    assert h * (n - 1) as real == rMax;
    assert PValue(rMax, n, i) == h * i as real;
    assert PValue(rMax, n, j) == h * j as real;
    MulLeftMonotone(0.0, i as real, h);
    MulLeftMonotone(i as real, j as real, h);
    MulLeftMonotone(j as real, (n - 1) as real, h);
  }

  /** Fills `opp[0 .. n)` with the grid over the envelope's outer radius, leaving
      the rest of the buffer alone. `n == 1` divides by zero in the kernel. */
  method CalculatePValues(s: StorageModel, n: int, opp: array<real>)
    requires s.Valid() && n != 1 && n <= opp.Length
    modifies opp
    ensures forall i :: 0 <= i < n ==> opp[i] == PValue(s.RMax(), n, i)
    ensures forall i :: n <= i < opp.Length && 0 <= i ==> opp[i] == old(opp[i])
  {
    var rMax := s.RMax();
    var i := 0;
    while i < n
      invariant 0 <= i <= if n < 0 then 0 else n
      invariant forall k :: 0 <= k < i ==> opp[k] == PValue(rMax, n, k)
      invariant forall k :: i <= k < opp.Length ==> opp[k] == old(opp[k])
    {
      opp[i] := rMax / (n - 1) as real * i as real;
      i := i + 1;
    }
  }
}
