/** Radiative transfer along one ray: the walk over the descending line list inside
    one segment between two shell crossings, and the chain of segments of a ray. */
module Transfer {
  import opened Primitives

  /** The `size` entries of a table row starting at `base` lie inside `table`. */
  predicate RowFits(table: seq<real>, base: int, size: int)
  {
    0 <= base && base + size <= |table|
  }

  /** The index of the first entry of row `shell` of a shell-major table whose rows
      hold `size` entries: the rows of the shells before it come first. */
  function RowBase(shell: int, size: int): int
    requires 0 <= shell
  {
    if shell == 0 then 0 else RowBase(shell - 1, size) + size
  }

  /** The row offset is the kernel's product `shell * size_line`. */
  lemma {:induction false} RowBaseIsProduct(shell: int, size: int)
    requires 0 <= shell
    ensures RowBase(shell, size) == shell * size
  {
    if shell > 0 {
      RowBaseIsProduct(shell - 1, size);
      assert (shell - 1) * size + size == shell * size;
    }
  }

  /** The frequency, in the frame of the gas, of a photon of frequency `nu` at the
      crossing with path coordinate `z`. */
  function ComovingNu(nu: real, z: real): real
  {
    nu * z
  }

  /** What is left of `intensity` after factors whose product is `gain`. */
  function Attenuated(intensity: real, gain: real): real
  {
    intensity * gain
  }

  /** A co-moving frequency grows with the crossing coordinate. */
  lemma ComovingNuMonotone(nu: real, a: real, b: real)
    requires nu >= 0.0 && a <= b
    ensures ComovingNu(nu, a) <= ComovingNu(nu, b)
  {
    assert nu * (b - a) >= 0.0;
  }

  /** The row of shell `shell` in a shell-major table of `nShells` rows of `size`
      entries lies inside the table. */
  lemma RowInTable(shell: int, nShells: int, size: int)
    requires 0 <= shell < nShells && 0 <= size
    ensures 0 <= RowBase(shell, size) && RowBase(shell, size) + size <= nShells * size
  {
    RowBaseIsProduct(shell, size);
    assert nShells * size - (shell * size + size) == (nShells - shell - 1) * size;
    NonNegativeProduct(nShells - shell - 1, size);
    NonNegativeProduct(shell, size);
  }

  lemma NonNegativeProduct(a: int, b: int)
    requires 0 <= a && 0 <= b
    ensures 0 <= a * b
  {
  }

  /** The intensity after walking the line list from line `k`: while a line is left
      and its frequency is at least `nuEnd`, the intensity is attenuated by the line's
      `exp(-tau)` and the line's source term is added. Line `m` of the segment's
      shell is entry `base + m` of the shell-major tables. */
  function Walk(lineNu: seq<real>, expTau: seq<real>, attSUl: seq<real>, base: int,
                k: int, nuEnd: real, intensity: real): real
    requires 0 <= k <= |lineNu|
    requires RowFits(expTau, base, |lineNu|) && RowFits(attSUl, base, |lineNu|)
    decreases |lineNu| - k
  {
    if k == |lineNu| || lineNu[k] < nuEnd then intensity
    else Walk(lineNu, expTau, attSUl, base, k + 1, nuEnd,
              intensity * expTau[base + k] + attSUl[base + k])
  }

  /** Where the walk from line `k` stops: the first line from `k` on whose frequency
      is below `nuEnd`, or the end of the list. */
  function WalkEnd(lineNu: seq<real>, k: int, nuEnd: real): (e: int)
    requires 0 <= k <= |lineNu|
    ensures k <= e <= |lineNu|
    decreases |lineNu| - k
  {
    if k == |lineNu| || lineNu[k] < nuEnd then k else WalkEnd(lineNu, k + 1, nuEnd)
  }

  /** The walk from line `k` visits only lines at or above `nuEnd` and stops at the
      first line below it, or at the end of the list. */
  lemma {:induction false} WalkEndStops(lineNu: seq<real>, k: int, nuEnd: real)
    requires 0 <= k <= |lineNu|
    ensures forall m :: k <= m < WalkEnd(lineNu, k, nuEnd) ==> lineNu[m] >= nuEnd
    ensures WalkEnd(lineNu, k, nuEnd) == |lineNu| || lineNu[WalkEnd(lineNu, k, nuEnd)] < nuEnd
    decreases |lineNu| - k
  {
    if k < |lineNu| && lineNu[k] >= nuEnd {
      WalkEndStops(lineNu, k + 1, nuEnd);
    }
  }

  /** The product of the attenuation factors of lines `[k, e)` of the row at `base`. */
  function Gain(expTau: seq<real>, base: int, k: int, e: int): real
    requires 0 <= base && 0 <= k <= e && base + e <= |expTau|
    decreases e - k
  {
    if k == e then 1.0 else expTau[base + k] * Gain(expTau, base, k + 1, e)
  }

  /** The walk is affine in the incoming intensity: the incoming intensity is
      attenuated by the visited lines, and the lines' own emission is added. */
  lemma {:induction false} WalkAffine(lineNu: seq<real>, expTau: seq<real>, attSUl: seq<real>,
                                      base: int, k: int, nuEnd: real, intensity: real)
    requires 0 <= k <= |lineNu|
    requires RowFits(expTau, base, |lineNu|) && RowFits(attSUl, base, |lineNu|)
    ensures Walk(lineNu, expTau, attSUl, base, k, nuEnd, intensity) ==
            intensity * Gain(expTau, base, k, WalkEnd(lineNu, k, nuEnd)) +
            Walk(lineNu, expTau, attSUl, base, k, nuEnd, 0.0)
    decreases |lineNu| - k
  {
    if k < |lineNu| && lineNu[k] >= nuEnd {
      WalkAffine(lineNu, expTau, attSUl, base, k + 1, nuEnd, intensity * expTau[base + k] + attSUl[base + k]);
      WalkAffine(lineNu, expTau, attSUl, base, k + 1, nuEnd, attSUl[base + k]);
      WalkAffineStep(lineNu, expTau, attSUl, base, k, nuEnd, intensity);
    }
  }

  /** If the walk from line `k + 1` is affine, one more line keeps it affine. */
  lemma WalkAffineStep(lineNu: seq<real>, expTau: seq<real>, attSUl: seq<real>,
                       base: int, k: int, nuEnd: real, intensity: real)
    requires 0 <= k < |lineNu| && lineNu[k] >= nuEnd
    requires RowFits(expTau, base, |lineNu|) && RowFits(attSUl, base, |lineNu|)
    requires Walk(lineNu, expTau, attSUl, base, k + 1, nuEnd, intensity * expTau[base + k] + attSUl[base + k]) ==
             (intensity * expTau[base + k] + attSUl[base + k]) * Gain(expTau, base, k + 1, WalkEnd(lineNu, k + 1, nuEnd)) +
             Walk(lineNu, expTau, attSUl, base, k + 1, nuEnd, 0.0)
    requires Walk(lineNu, expTau, attSUl, base, k + 1, nuEnd, attSUl[base + k]) ==
             attSUl[base + k] * Gain(expTau, base, k + 1, WalkEnd(lineNu, k + 1, nuEnd)) +
             Walk(lineNu, expTau, attSUl, base, k + 1, nuEnd, 0.0)
    ensures Walk(lineNu, expTau, attSUl, base, k, nuEnd, intensity) ==
            intensity * Gain(expTau, base, k, WalkEnd(lineNu, k, nuEnd)) +
            Walk(lineNu, expTau, attSUl, base, k, nuEnd, 0.0)
  {
    WalkStep(lineNu, expTau, attSUl, base, k, nuEnd, intensity);
    WalkStep(lineNu, expTau, attSUl, base, k, nuEnd, 0.0);
    assert 0.0 * expTau[base + k] + attSUl[base + k] == attSUl[base + k];
    AffineCombine(Walk(lineNu, expTau, attSUl, base, k, nuEnd, intensity),
                  Walk(lineNu, expTau, attSUl, base, k, nuEnd, 0.0), intensity,
                  Gain(expTau, base, k, WalkEnd(lineNu, k, nuEnd)), expTau[base + k],
                  Gain(expTau, base, k + 1, WalkEnd(lineNu, k + 1, nuEnd)), attSUl[base + k],
                  Walk(lineNu, expTau, attSUl, base, k + 1, nuEnd, 0.0));
  }

  /** One step of the walk: a line at or above `nuEnd` is applied and the walk
      continues at the next line, whose stopping point is the same. */
  lemma WalkStep(lineNu: seq<real>, expTau: seq<real>, attSUl: seq<real>,
                 base: int, k: int, nuEnd: real, intensity: real)
    requires 0 <= k < |lineNu| && lineNu[k] >= nuEnd
    requires RowFits(expTau, base, |lineNu|) && RowFits(attSUl, base, |lineNu|)
    ensures Walk(lineNu, expTau, attSUl, base, k, nuEnd, intensity) ==
            Walk(lineNu, expTau, attSUl, base, k + 1, nuEnd,
                 intensity * expTau[base + k] + attSUl[base + k])
    ensures WalkEnd(lineNu, k, nuEnd) == WalkEnd(lineNu, k + 1, nuEnd)
    ensures Gain(expTau, base, k, WalkEnd(lineNu, k, nuEnd)) ==
            expTau[base + k] * Gain(expTau, base, k + 1, WalkEnd(lineNu, k + 1, nuEnd))
  {
  }

  lemma AffineCombine(w: real, w0: real, i: real, gain: real, t: real, g: real, a: real, rest: real)
    requires w == (i * t + a) * g + rest && w0 == a * g + rest && gain == t * g
    ensures w == i * gain + w0
  {
  }

  /** Without source terms a walk that starts dark stays dark. */
  lemma {:induction false} WalkSilent(lineNu: seq<real>, expTau: seq<real>, attSUl: seq<real>,
                                      base: int, k: int, nuEnd: real)
    requires 0 <= k <= |lineNu|
    requires RowFits(expTau, base, |lineNu|) && RowFits(attSUl, base, |lineNu|)
    requires forall m :: 0 <= m < |attSUl| ==> attSUl[m] == 0.0
    ensures Walk(lineNu, expTau, attSUl, base, k, nuEnd, 0.0) == 0.0
    decreases |lineNu| - k
  {
    if k < |lineNu| && lineNu[k] >= nuEnd {
      WalkStep(lineNu, expTau, attSUl, base, k, nuEnd, 0.0);
      assert 0.0 * expTau[base + k] + attSUl[base + k] == 0.0;
      WalkSilent(lineNu, expTau, attSUl, base, k + 1, nuEnd);
    }
  }

  /** Without source terms the walk only attenuates: the outgoing intensity is the
      incoming one times the product of the visited lines' attenuation factors. */
  lemma WalkWithoutEmission(lineNu: seq<real>, expTau: seq<real>, attSUl: seq<real>,
                            base: int, k: int, nuEnd: real, intensity: real)
    requires 0 <= k <= |lineNu|
    requires RowFits(expTau, base, |lineNu|) && RowFits(attSUl, base, |lineNu|)
    requires forall m :: 0 <= m < |attSUl| ==> attSUl[m] == 0.0
    ensures Walk(lineNu, expTau, attSUl, base, k, nuEnd, intensity) ==
            intensity * Gain(expTau, base, k, WalkEnd(lineNu, k, nuEnd))
  {
    WalkAffine(lineNu, expTau, attSUl, base, k, nuEnd, intensity);
    WalkSilent(lineNu, expTau, attSUl, base, k, nuEnd);
  }

  /** Lines of zero optical depth (`exp(-tau) == 1`) attenuate nothing. */
  lemma {:induction false} GainOfTransparent(expTau: seq<real>, base: int, k: int, e: int)
    requires 0 <= base && 0 <= k <= e && base + e <= |expTau|
    requires forall m :: 0 <= m < |expTau| ==> expTau[m] == 1.0
    ensures Gain(expTau, base, k, e) == 1.0
    decreases e - k
  {
    if k < e {
      GainOfTransparent(expTau, base, k + 1, e);
    }
  }

  /** The kernel's inner line loop: from line `start` (the line search's answer) it
      applies `I := I * exp_tau + att_S_ul` to each line of the shell's row until the
      first line below `nuEnd` or the end of the list. */
  method WalkLines(lineNu: seq<real>, expTau: seq<real>, attSUl: seq<real>, base: int,
                   start: int, nuEnd: real, incoming: real) returns (intensity: real)
    requires 0 <= start <= |lineNu|
    requires RowFits(expTau, base, |lineNu|) && RowFits(attSUl, base, |lineNu|)
    ensures intensity == Walk(lineNu, expTau, attSUl, base, start, nuEnd, incoming)
  {
    intensity := incoming;
    var k := start;
    while k < |lineNu|
      invariant start <= k <= |lineNu|
      invariant Walk(lineNu, expTau, attSUl, base, start, nuEnd, incoming) ==
                Walk(lineNu, expTau, attSUl, base, k, nuEnd, intensity)
    {
      if lineNu[k] < nuEnd {
        break;
      }
      intensity := intensity * expTau[base + k] + attSUl[base + k];
      k := k + 1;
    }
  }

  /** Segment `i` of the crossing record `cz`/`ids` runs from frequency
      `ComovingNu(nu, cz[i])` down to `ComovingNu(nu, cz[i + 1])` through shell `ids[i]`; it fits when that
      shell's rows lie inside both tables and the line search answers an index of the
      line list. */
  predicate SegmentFits(prims: Prims, lineNu: seq<real>, expTau: seq<real>, attSUl: seq<real>,
                        nu: real, cz: seq<real>, ids: seq<int>, i: int)
  {
    0 <= i < |cz| - 1 && i < |ids| && 0 <= ids[i] &&
    RowFits(expTau, RowBase(ids[i], |lineNu|), |lineNu|) && RowFits(attSUl, RowBase(ids[i], |lineNu|), |lineNu|) &&
    0 <= prims.lineSearch(lineNu, ComovingNu(nu, cz[i])) <= |lineNu|
  }

  /** The line walk of segment `i`: it starts where the line search puts
      `ComovingNu(nu, cz[i])` and stops below `ComovingNu(nu, cz[i + 1])`, in the rows of shell `ids[i]`.
      A segment that does not fit leaves the intensity alone. */
  function SegmentWalk(prims: Prims, lineNu: seq<real>, expTau: seq<real>, attSUl: seq<real>,
                       nu: real, cz: seq<real>, ids: seq<int>, i: int, intensity: real): real
  {
    if SegmentFits(prims, lineNu, expTau, attSUl, nu, cz, ids, i) then
      Walk(lineNu, expTau, attSUl, RowBase(ids[i], |lineNu|), prims.lineSearch(lineNu, ComovingNu(nu, cz[i])),
           ComovingNu(nu, cz[i + 1]), intensity)
    else intensity
  }

  /** The product of the attenuation factors the walk of segment `i` visits. */
  function SegmentGain(prims: Prims, lineNu: seq<real>, expTau: seq<real>, attSUl: seq<real>,
                       nu: real, cz: seq<real>, ids: seq<int>, i: int): real
  {
    if SegmentFits(prims, lineNu, expTau, attSUl, nu, cz, ids, i) then
      var start := prims.lineSearch(lineNu, ComovingNu(nu, cz[i]));
      Gain(expTau, RowBase(ids[i], |lineNu|), start, WalkEnd(lineNu, start, ComovingNu(nu, cz[i + 1])))
    else 1.0
  }

  /** When every shell named by the record has its rows in both tables and the line
      search stays in range, every segment of the record fits: the walks read only
      their own shell's rows. */
  lemma SegmentsFit(prims: Prims, lineNu: seq<real>, expTau: seq<real>, attSUl: seq<real>,
                    nShells: int, nu: real, cz: seq<real>, ids: seq<int>)
    requires prims.SearchInRange() && |ids| == |cz|
    requires nShells * |lineNu| <= |expTau| && nShells * |lineNu| <= |attSUl|
    requires forall k :: 0 <= k < |ids| ==> 0 <= ids[k] < nShells
    ensures forall i :: 0 <= i < |cz| - 1 ==> SegmentFits(prims, lineNu, expTau, attSUl, nu, cz, ids, i)
  {
    forall i | 0 <= i < |cz| - 1
      ensures SegmentFits(prims, lineNu, expTau, attSUl, nu, cz, ids, i)
    {
      RowInTable(ids[i], nShells, |lineNu|);
    }
  }

  lemma SegmentWalkAffine(prims: Prims, lineNu: seq<real>, expTau: seq<real>, attSUl: seq<real>,
                          nu: real, cz: seq<real>, ids: seq<int>, i: int, intensity: real)
    ensures SegmentWalk(prims, lineNu, expTau, attSUl, nu, cz, ids, i, intensity) ==
            intensity * SegmentGain(prims, lineNu, expTau, attSUl, nu, cz, ids, i) +
            SegmentWalk(prims, lineNu, expTau, attSUl, nu, cz, ids, i, 0.0)
  {
    if SegmentFits(prims, lineNu, expTau, attSUl, nu, cz, ids, i) {
      WalkAffine(lineNu, expTau, attSUl, RowBase(ids[i], |lineNu|), prims.lineSearch(lineNu, ComovingNu(nu, cz[i])),
                 ComovingNu(nu, cz[i + 1]), intensity);
    }
  }

  lemma SegmentWalkSilent(prims: Prims, lineNu: seq<real>, expTau: seq<real>, attSUl: seq<real>,
                          nu: real, cz: seq<real>, ids: seq<int>, i: int)
    requires forall m :: 0 <= m < |attSUl| ==> attSUl[m] == 0.0
    ensures SegmentWalk(prims, lineNu, expTau, attSUl, nu, cz, ids, i, 0.0) == 0.0
  {
    if SegmentFits(prims, lineNu, expTau, attSUl, nu, cz, ids, i) {
      WalkSilent(lineNu, expTau, attSUl, RowBase(ids[i], |lineNu|), prims.lineSearch(lineNu, ComovingNu(nu, cz[i])),
                 ComovingNu(nu, cz[i + 1]));
    }
  }

  /** Without source terms a segment only attenuates: the walk multiplies the
      intensity by the factors of the lines it visits. */
  lemma SegmentWithoutEmission(prims: Prims, lineNu: seq<real>, expTau: seq<real>, attSUl: seq<real>,
                               nu: real, cz: seq<real>, ids: seq<int>, i: int, intensity: real)
    requires forall m :: 0 <= m < |attSUl| ==> attSUl[m] == 0.0
    ensures SegmentWalk(prims, lineNu, expTau, attSUl, nu, cz, ids, i, intensity) ==
            intensity * SegmentGain(prims, lineNu, expTau, attSUl, nu, cz, ids, i)
  {
    if SegmentFits(prims, lineNu, expTau, attSUl, nu, cz, ids, i) {
      WalkWithoutEmission(lineNu, expTau, attSUl, RowBase(ids[i], |lineNu|), prims.lineSearch(lineNu, ComovingNu(nu, cz[i])),
                          ComovingNu(nu, cz[i + 1]), intensity);
    }
  }

  /** The number of segments between `|cz|` crossings: the kernel's loop runs
      `i < size_z - 1`. */
  function NumSegments(cz: seq<real>): nat
  {
    if |cz| == 0 then 0 else |cz| - 1
  }

  /** The intensity after the line walks of the first `j` segments of the crossing
      record, applied in order to `intensity`. */
  function Traced(prims: Prims, lineNu: seq<real>, expTau: seq<real>, attSUl: seq<real>,
                  nu: real, cz: seq<real>, ids: seq<int>, j: nat, intensity: real): real
  {
    if j == 0 then intensity
    else SegmentWalk(prims, lineNu, expTau, attSUl, nu, cz, ids, j - 1,
                     Traced(prims, lineNu, expTau, attSUl, nu, cz, ids, j - 1, intensity))
  }

  /** The product of the gains of the first `j` segments. */
  function TracedGain(prims: Prims, lineNu: seq<real>, expTau: seq<real>, attSUl: seq<real>,
                      nu: real, cz: seq<real>, ids: seq<int>, j: nat): real
  {
    if j == 0 then 1.0
    else TracedGain(prims, lineNu, expTau, attSUl, nu, cz, ids, j - 1) *
         SegmentGain(prims, lineNu, expTau, attSUl, nu, cz, ids, j - 1)
  }

  /** Without source terms the first `j` segments keep darkness dark. */
  lemma {:induction false} TracedSilentUpTo(prims: Prims, lineNu: seq<real>, expTau: seq<real>, attSUl: seq<real>,
                                            nu: real, cz: seq<real>, ids: seq<int>, j: nat)
    requires forall m :: 0 <= m < |attSUl| ==> attSUl[m] == 0.0
    ensures Traced(prims, lineNu, expTau, attSUl, nu, cz, ids, j, 0.0) == 0.0
  {
    if j > 0 {
      TracedSilentUpTo(prims, lineNu, expTau, attSUl, nu, cz, ids, j - 1);
      SegmentWalkSilent(prims, lineNu, expTau, attSUl, nu, cz, ids, j - 1);
    }
  }

  /** With zero optical depth everywhere the first `j` segments attenuate nothing. */
  lemma {:induction false} TracedGainTransparentUpTo(prims: Prims, lineNu: seq<real>, expTau: seq<real>,
                                                     attSUl: seq<real>, nu: real, cz: seq<real>, ids: seq<int>, j: nat)
    requires forall m :: 0 <= m < |expTau| ==> expTau[m] == 1.0
    ensures TracedGain(prims, lineNu, expTau, attSUl, nu, cz, ids, j) == 1.0
  {
    if j > 0 {
      TracedGainTransparentUpTo(prims, lineNu, expTau, attSUl, nu, cz, ids, j - 1);
      var i := j - 1;
      if SegmentFits(prims, lineNu, expTau, attSUl, nu, cz, ids, i) {
        var start := prims.lineSearch(lineNu, ComovingNu(nu, cz[i]));
        GainOfTransparent(expTau, RowBase(ids[i], |lineNu|), start, WalkEnd(lineNu, start, ComovingNu(nu, cz[i + 1])));
      }
    }
  }

  lemma MulAssoc(x: real, p: real, g: real, y: real, w: real, pg: real)
    requires y == x * p && w == y * g && pg == p * g
    ensures w == x * pg
  {
  }

  /** Without source terms one more segment multiplies what the earlier segments
      left by its own gain. */
  lemma TracedStepWithoutEmission(prims: Prims, lineNu: seq<real>, expTau: seq<real>, attSUl: seq<real>,
                                  nu: real, cz: seq<real>, ids: seq<int>, j: nat, intensity: real)
    requires forall m :: 0 <= m < |attSUl| ==> attSUl[m] == 0.0
    requires j > 0
    ensures Traced(prims, lineNu, expTau, attSUl, nu, cz, ids, j, intensity) ==
            Traced(prims, lineNu, expTau, attSUl, nu, cz, ids, j - 1, intensity) *
            SegmentGain(prims, lineNu, expTau, attSUl, nu, cz, ids, j - 1)
  {
    SegmentWithoutEmission(prims, lineNu, expTau, attSUl, nu, cz, ids, j - 1,
                           Traced(prims, lineNu, expTau, attSUl, nu, cz, ids, j - 1, intensity));
  }

  /** Without source terms the first `j` segments only attenuate the intensity they
      start with, by the product of the factors of every line they visit. */
  lemma {:induction false} TracedWithoutEmissionUpTo(prims: Prims, lineNu: seq<real>, expTau: seq<real>,
                                                     attSUl: seq<real>, nu: real, cz: seq<real>, ids: seq<int>,
                                                     j: nat, intensity: real)
    requires forall m :: 0 <= m < |attSUl| ==> attSUl[m] == 0.0
    ensures Traced(prims, lineNu, expTau, attSUl, nu, cz, ids, j, intensity) ==
            intensity * TracedGain(prims, lineNu, expTau, attSUl, nu, cz, ids, j)
  {
    if j > 0 {
      TracedWithoutEmissionUpTo(prims, lineNu, expTau, attSUl, nu, cz, ids, j - 1, intensity);
      TracedStepWithoutEmission(prims, lineNu, expTau, attSUl, nu, cz, ids, j, intensity);
      MulAssoc(intensity, TracedGain(prims, lineNu, expTau, attSUl, nu, cz, ids, j - 1),
               SegmentGain(prims, lineNu, expTau, attSUl, nu, cz, ids, j - 1),
               Traced(prims, lineNu, expTau, attSUl, nu, cz, ids, j - 1, intensity),
               Traced(prims, lineNu, expTau, attSUl, nu, cz, ids, j, intensity),
               TracedGain(prims, lineNu, expTau, attSUl, nu, cz, ids, j));
    }
  }

  /** Without source terms the ray only attenuates the intensity it starts with. */
  lemma TracedWithoutEmission(prims: Prims, lineNu: seq<real>, expTau: seq<real>, attSUl: seq<real>,
                              nu: real, cz: seq<real>, ids: seq<int>, intensity: real)
    requires forall m :: 0 <= m < |attSUl| ==> attSUl[m] == 0.0
    ensures Traced(prims, lineNu, expTau, attSUl, nu, cz, ids, NumSegments(cz), intensity) ==
            Attenuated(intensity, TracedGain(prims, lineNu, expTau, attSUl, nu, cz, ids, NumSegments(cz)))
  {
    TracedWithoutEmissionUpTo(prims, lineNu, expTau, attSUl, nu, cz, ids, NumSegments(cz), intensity);
  }

  /** Through an envelope of zero optical depth and without source terms the ray
      keeps the intensity it starts with, whatever lines its segments visit. */
  lemma TracedTransparent(prims: Prims, lineNu: seq<real>, expTau: seq<real>, attSUl: seq<real>,
                          nu: real, cz: seq<real>, ids: seq<int>, intensity: real)
    requires forall m :: 0 <= m < |expTau| ==> expTau[m] == 1.0
    requires forall m :: 0 <= m < |attSUl| ==> attSUl[m] == 0.0
    ensures Traced(prims, lineNu, expTau, attSUl, nu, cz, ids, NumSegments(cz), intensity) == intensity
  {
    TracedWithoutEmission(prims, lineNu, expTau, attSUl, nu, cz, ids, intensity);
    TracedGainTransparentUpTo(prims, lineNu, expTau, attSUl, nu, cz, ids, NumSegments(cz));
  }
}
