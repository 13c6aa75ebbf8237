/** The formal integral (`_formal_integral`): for every frequency, trace a ray at
    every impact parameter of the grid through the shells and integrate the emergent
    intensities over the grid. */
module Integrator {
  import opened Primitives
  import opened Storage
  import opened Geometry
  import opened Grid
  import opened Quadrature
  import opened Transfer

  /** `exp(-tau)` of every entry of the optical-depth table. */
  function ExpTau(prims: Prims, tau: seq<real>): seq<real>
  {
    seq(|tau|, i requires 0 <= i < |tau| => prims.exp(-tau[i]))
  }

  /** The kernel's preparation loop: `exp_tau[i] = exp(-tau[i])` for the whole table. */
  method PrepareExpTau(prims: Prims, s: StorageModel) returns (expTau: array<real>)
    ensures fresh(expTau)
    ensures expTau.Length == |s.lineListsTauSobolevs|
    ensures forall i :: 0 <= i < expTau.Length ==> expTau[i] == prims.exp(-s.lineListsTauSobolevs[i])
    ensures expTau[..] == ExpTau(prims, s.lineListsTauSobolevs)
  {
    var tau := s.lineListsTauSobolevs;
    expTau := new real[|tau|];
    for i := 0 to |tau|
      invariant forall k :: 0 <= k < i ==> expTau[k] == prims.exp(-tau[k])
    {
      expTau[i] := prims.exp(-tau[i]);
    }
  }

  /** The intensity a ray at `p` starts with: the photosphere's black body at
      temperature `iT` when the ray ends on the photosphere, nothing otherwise. */
  function StartIntensity(prims: Prims, s: StorageModel, nu: real, iT: real, p: real): real
    requires s.Valid()
  {
    if p <= s.rInner[0] then prims.intensityBlackBody(nu, iT) else 0.0
  }

  /** The crossing record of the ray at `p` (with the corrected count). */
  function RayZs(prims: Prims, s: StorageModel, p: real): seq<real>
    requires s.Valid()
  {
    CrossingZs(ShellZ(prims, s, p), p <= s.rInner[0])
  }

  function RayShells(prims: Prims, s: StorageModel, p: real): seq<int>
    requires s.Valid()
  {
    CrossingShells(ShellZ(prims, s, p), p <= s.rInner[0])
  }

  /** The number of segments the kernel walks for the ray at `p`: one fewer than the
      shells on the photosphere, one fewer than the two crossings per intersected
      shell off it, and none for a ray that misses every shell. */
  lemma RaySegments(prims: Prims, s: StorageModel, p: real)
    requires prims.SqrtPositive() && s.Physical() && p >= 0.0
    ensures p <= s.rInner[0] ==> NumSegments(RayZs(prims, s, p)) == s.NoOfShells() - 1
    ensures p > s.rInner[0] && NumHits(ShellZ(prims, s, p)) > 0 ==>
              NumSegments(RayZs(prims, s, p)) == 2 * NumHits(ShellZ(prims, s, p)) - 1
    ensures p > s.rInner[0] && NumHits(ShellZ(prims, s, p)) == 0 ==> NumSegments(RayZs(prims, s, p)) == 0
    ensures p > s.rInner[0] ==> (NumHits(ShellZ(prims, s, p)) == 0 <==> p >= s.RMax())
  {
    CrossingCountIsTwiceHits(prims, s, p);
    HitsContiguous(prims, s, p);
  }

  /** The product of the attenuation factors along the ray at `p`. */
  function RayGain(prims: Prims, s: StorageModel, expTau: seq<real>, attSUl: seq<real>,
                   nu: real, p: real): real
    requires s.Valid()
  {
    TracedGain(prims, s.lineListNu, expTau, attSUl, nu, RayZs(prims, s, p), RayShells(prims, s, p),
               NumSegments(RayZs(prims, s, p)))
  }

  /** The intensity the ray at `p` emerges with: the starting intensity carried
      through every segment of the ray. */
  function RayTraced(prims: Prims, s: StorageModel, expTau: seq<real>, attSUl: seq<real>,
                     nu: real, iT: real, p: real): real
    requires s.Valid()
  {
    Traced(prims, s.lineListNu, expTau, attSUl, nu, RayZs(prims, s, p), RayShells(prims, s, p),
           NumSegments(RayZs(prims, s, p)), StartIntensity(prims, s, nu, iT, p))
  }

  /** `I_nu[p_idx]` after the ray at `p`: the emergent intensity weighted by `p`. */
  function RayIntensity(prims: Prims, s: StorageModel, expTau: seq<real>, attSUl: seq<real>,
                        nu: real, iT: real, p: real): real
    requires s.Valid()
  {
    Weighted(RayTraced(prims, s, expTau, attSUl, nu, iT, p), p)
  }

  /** The integrand of the impact-parameter integral: an emergent intensity times the
      impact parameter of its ray. */
  function Weighted(intensity: real, p: real): real
  {
    intensity * p
  }

  /** The kernel's per-ray body: lay out the crossings, start at the black body or at
      0, walk the lines of every segment, weight by `p`. Only `I_nu[p_idx]` and the
      crossing buffers change. */
  method TraceRay(prims: Prims, s: StorageModel, expTau: seq<real>, attSUl: seq<real>,
                  nu: real, iT: real, p: real, iNu: array<real>, pIdx: int,
                  z: array<real>, shellId: array<int>)
    requires prims.SqrtPositive() && prims.SearchInRange() && s.Physical() && p >= 0.0
    requires s.NoOfShells() * s.NoOfLines() <= |expTau| && s.NoOfShells() * s.NoOfLines() <= |attSUl|
    requires z.Length == 2 * s.NoOfShells() && shellId.Length == 2 * s.NoOfShells()
    requires 0 <= pIdx < iNu.Length && iNu != z
    modifies iNu, z, shellId
    ensures iNu[pIdx] == RayIntensity(prims, s, expTau, attSUl, nu, iT, p)
    ensures forall k :: 0 <= k < iNu.Length && k != pIdx ==> iNu[k] == old(iNu[k])
  {
    var count := PopulateZCorrected(prims, s, p, z, shellId);
    ghost var cz, ids := RayZs(prims, s, p), RayShells(prims, s, p);
    assert z[..count] == cz && shellId[..count] == ids &&
           forall k :: 0 <= k < |cz| - 1 ==> SegmentFits(prims, s.lineListNu, expTau, attSUl, nu, cz, ids, k)
    by {
      PopulatedRecord(prims, s, p, old(z[..]), old(shellId[..]), z[..], shellId[..]);
      SegmentsFit(prims, s.lineListNu, expTau, attSUl, s.NoOfShells(), nu, cz, ids);
    }

    if p <= s.rInner[0] {
      iNu[pIdx] := prims.intensityBlackBody(nu, iT);
    } else {
      iNu[pIdx] := 0.0;
    }
    WalkSegments(prims, s.lineListNu, expTau, attSUl, nu, cz, ids, z, shellId, count, iNu, pIdx);
    assert iNu[pIdx] == RayTraced(prims, s, expTau, attSUl, nu, iT, p);
    iNu[pIdx] := Weighted(iNu[pIdx], p);
  }

  /** The kernel's segment loop: for each of the `count - 1` segments of the crossing
      buffers, walk the lines of the segment's shell from the line search of the
      segment's upper co-moving frequency, carrying `I_nu[p_idx]` along. */
  method WalkSegments(prims: Prims, lineNu: seq<real>, expTau: seq<real>, attSUl: seq<real>,
                      nu: real, ghost cz: seq<real>, ghost ids: seq<int>,
                      z: array<real>, shellId: array<int>, count: int, iNu: array<real>, pIdx: int)
    requires 0 <= count <= z.Length && count <= shellId.Length && iNu != z
    requires |cz| == count && |ids| == count
    requires forall k :: 0 <= k < count ==> z[k] == cz[k] && shellId[k] == ids[k]
    requires forall k :: 0 <= k < |cz| - 1 ==> SegmentFits(prims, lineNu, expTau, attSUl, nu, cz, ids, k)
    requires 0 <= pIdx < iNu.Length
    modifies iNu
    ensures iNu[pIdx] == Traced(prims, lineNu, expTau, attSUl, nu, cz, ids, NumSegments(cz), old(iNu[pIdx]))
    ensures forall k :: 0 <= k < iNu.Length && k != pIdx ==> iNu[k] == old(iNu[k])
  {
    ghost var start := iNu[pIdx];
    var i := 0;
    while i < count - 1
      invariant 0 <= i <= NumSegments(cz)
      invariant iNu[pIdx] == Traced(prims, lineNu, expTau, attSUl, nu, cz, ids, i, start)
      invariant forall k :: 0 <= k < iNu.Length && k != pIdx ==> iNu[k] == old(iNu[k])
    {
      var nuStart := ComovingNu(nu, z[i]);
      var nuEnd := ComovingNu(nu, z[i + 1]);
      SegmentWalkAt(prims, lineNu, expTau, attSUl, nu, cz, ids, i, start, z[i], z[i + 1], shellId[i]);
      var offset := RowBase(shellId[i], |lineNu|);
      var idxNuStart := prims.lineSearch(lineNu, nuStart);
      iNu[pIdx] := WalkLines(lineNu, expTau, attSUl, offset, idxNuStart, nuEnd, iNu[pIdx]);
      i := i + 1;
      assert iNu[pIdx] == Traced(prims, lineNu, expTau, attSUl, nu, cz, ids, i, start);
    }
    assert i == NumSegments(cz);
  }

  /** Segment `i` of a ray, for the entries `zi`, `zi1` and `id` read back from the
      crossing buffers, walks the lines of shell `id` between the co-moving
      frequencies at `zi` and `zi1`, carrying on from the first `i` segments. */
  lemma SegmentWalkAt(prims: Prims, lineNu: seq<real>, expTau: seq<real>, attSUl: seq<real>,
                      nu: real, cz: seq<real>, ids: seq<int>, i: nat, start: real,
                      zi: real, zi1: real, id: int)
    requires SegmentFits(prims, lineNu, expTau, attSUl, nu, cz, ids, i)
    requires zi == cz[i] && zi1 == cz[i + 1] && id == ids[i]
    ensures 0 <= id && RowFits(expTau, RowBase(id, |lineNu|), |lineNu|) && RowFits(attSUl, RowBase(id, |lineNu|), |lineNu|)
    ensures 0 <= prims.lineSearch(lineNu, ComovingNu(nu, zi)) <= |lineNu|
    ensures Traced(prims, lineNu, expTau, attSUl, nu, cz, ids, i + 1, start) ==
            Walk(lineNu, expTau, attSUl, RowBase(id, |lineNu|), prims.lineSearch(lineNu, ComovingNu(nu, zi)),
                 ComovingNu(nu, zi1), Traced(prims, lineNu, expTau, attSUl, nu, cz, ids, i, start))
  {
  }

  /** The integrand the kernel hands to the trapezoid rule for frequency `nu`: entry 0
      is whatever `I_nu[0]` holds (`i0`, never written by the kernel), entry `k >= 1`
      the weighted intensity of the ray at grid point `k`. */
  function Profile(prims: Prims, s: StorageModel, expTau: seq<real>, attSUl: seq<real>,
                   nu: real, iT: real, n: int, i0: real): seq<real>
    requires s.Valid() && n >= 2
  {
    seq(n, k requires 0 <= k < n =>
      if k == 0 then i0 else RayIntensity(prims, s, expTau, attSUl, nu, iT, PValue(s.RMax(), n, k)))
  }

  /** The integrand over the whole grid, the central ray included. */
  function GridProfile(prims: Prims, s: StorageModel, expTau: seq<real>, attSUl: seq<real>,
                       nu: real, iT: real, n: int): seq<real>
    requires s.Valid() && n >= 2
  {
    seq(n, k requires 0 <= k < n => RayIntensity(prims, s, expTau, attSUl, nu, iT, PValue(s.RMax(), n, k)))
  }

  /** `L[nu_idx]` without the `8 pi^2` factor: the trapezoid rule over the kernel's
      integrand with the step `R_max / N`. */
  function Luminosity(prims: Prims, s: StorageModel, expTau: seq<real>, attSUl: seq<real>,
                      nu: real, iT: real, n: int, i0: real): real
    requires s.Valid() && n >= 2
  {
    Trapezoid(Profile(prims, s, expTau, attSUl, nu, iT, n, i0), s.RMax() / n as real)
  }

  /** The kernel's work for one frequency: trace the rays at grid points `1 .. N-1`
      into `I_nu`, then integrate `I_nu` with the step `R_max / N`. `I_nu[0]` keeps
      whatever it held. */
  method IntegrateFrequency(prims: Prims, s: StorageModel, expTau: seq<real>, attSUl: seq<real>,
                            nu: real, iT: real, pp: array<real>, n: int,
                            iNu: array<real>, z: array<real>, shellId: array<int>)
    returns (lum: real)
    requires prims.SqrtPositive() && prims.SearchInRange() && s.Physical() && n >= 2
    requires s.NoOfShells() * s.NoOfLines() <= |expTau| && s.NoOfShells() * s.NoOfLines() <= |attSUl|
    requires z.Length == 2 * s.NoOfShells() && shellId.Length == 2 * s.NoOfShells()
    requires pp.Length == n && iNu.Length == n
    requires iNu != z && pp != iNu && pp != z
    requires forall k :: 0 <= k < n ==> pp[k] == PValue(s.RMax(), n, k)
    modifies iNu, z, shellId
    ensures iNu[0] == old(iNu[0])
    ensures forall k :: 1 <= k < n ==> iNu[k] == RayIntensity(prims, s, expTau, attSUl, nu, iT, PValue(s.RMax(), n, k))
    ensures lum == Luminosity(prims, s, expTau, attSUl, nu, iT, n, old(iNu[0]))
  {
    for pIdx := 1 to n
      invariant iNu[0] == old(iNu[0])
      invariant forall k :: 1 <= k < pIdx ==>
                  iNu[k] == RayIntensity(prims, s, expTau, attSUl, nu, iT, PValue(s.RMax(), n, k))
    {
      var p := pp[pIdx];
      PValueBounds(s.RMax(), n, 0, pIdx);
      TraceRay(prims, s, expTau, attSUl, nu, iT, p, iNu, pIdx, z, shellId);
    }
    assert iNu[..] == Profile(prims, s, expTau, attSUl, nu, iT, n, old(iNu[0]));
    lum := TrapezoidIntegration(iNu, s.RMax() / n as real, n);
    assert iNu[..n] == iNu[..];
  }

  /** `_formal_integral` for one thread: the `exp(-tau)` table and the grid are
      prepared once, the scratch buffers are shared by all frequencies, and
      `L[nu_idx]` is the luminosity of frequency `inu[nu_idx]`. The ghost `i0` is the
      content of the never-written `I_nu[0]`, the same for every frequency. */
  method FormalIntegral(prims: Prims, s: StorageModel, iT: real, inu: seq<real>, attSUl: seq<real>, n: int)
    returns (l: array<real>, ghost i0: real)
    requires prims.SqrtPositive() && prims.SearchInRange() && s.Physical() && n >= 2
    requires s.NoOfShells() * s.NoOfLines() <= |attSUl|
    ensures fresh(l) && l.Length == |inu|
    ensures forall j :: 0 <= j < |inu| ==>
              l[j] == Luminosity(prims, s, ExpTau(prims, s.lineListsTauSobolevs), attSUl, inu[j], iT, n, i0)
  {
    l := new real[|inu|](_ => 0.0);
    var iNu := new real[n];
    var z := new real[2 * s.NoOfShells()];
    var shellId := new int[2 * s.NoOfShells()];
    var expTauTable := PrepareExpTau(prims, s);
    var expTau := expTauTable[..];
    var pp := new real[n];
    CalculatePValues(s, n, pp);
    i0 := iNu[0];
    ghost var lums := seq(|inu|, j requires 0 <= j < |inu| => Luminosity(prims, s, expTau, attSUl, inu[j], iT, n, i0));
    Spectrum(prims, s, expTau, attSUl, iT, inu, pp, n, iNu, z, shellId, l, i0, lums);
  }

  /** `lums` holds the luminosity of every frequency of `inu`, computed with the
      never-written `I_nu[0] == i0`. */
  ghost predicate LuminositiesOf(prims: Prims, s: StorageModel, expTau: seq<real>, attSUl: seq<real>,
                                 inu: seq<real>, iT: real, n: int, i0: real, lums: seq<real>)
    requires s.Valid() && n >= 2
  {
    |lums| == |inu| &&
    forall j {:trigger Luminosity(prims, s, expTau, attSUl, inu[j], iT, n, i0)} :: 0 <= j < |inu| ==>
      lums[j] == Luminosity(prims, s, expTau, attSUl, inu[j], iT, n, i0)
  }

  /** One pass of the kernel's frequency loop: `L[nu_idx]` receives the luminosity of
      `inu[nu_idx]`; no other entry of `L` changes and `I_nu[0]` keeps its content. */
  method IntegrateInto(prims: Prims, s: StorageModel, expTau: seq<real>, attSUl: seq<real>, iT: real,
                       inu: seq<real>, pp: array<real>, n: int,
                       iNu: array<real>, z: array<real>, shellId: array<int>, l: array<real>, nuIdx: int,
                       ghost i0: real, ghost lums: seq<real>)
    requires prims.SqrtPositive() && prims.SearchInRange() && s.Physical() && n >= 2
    requires s.NoOfShells() * s.NoOfLines() <= |expTau| && s.NoOfShells() * s.NoOfLines() <= |attSUl|
    requires z.Length == 2 * s.NoOfShells() && shellId.Length == 2 * s.NoOfShells()
    requires pp.Length == n && iNu.Length == n && l.Length == |inu| && 0 <= nuIdx < |inu|
    requires iNu != z && pp != iNu && pp != z && l != iNu && l != z && l != pp
    requires forall k :: 0 <= k < n ==> pp[k] == PValue(s.RMax(), n, k)
    requires iNu[0] == i0 && LuminositiesOf(prims, s, expTau, attSUl, inu, iT, n, i0, lums)
    modifies iNu, z, shellId, l
    ensures iNu[0] == i0
    ensures l[..] == old(l[..])[nuIdx := lums[nuIdx]]
  {
    var nu := inu[nuIdx];
    var lum := IntegrateFrequency(prims, s, expTau, attSUl, nu, iT, pp, n, iNu, z, shellId);
    l[nuIdx] := lum;
  }

  /** The kernel's frequency loop: `L[nu_idx]` receives the luminosity of frequency
      `inu[nu_idx]`, and every frequency reuses the same scratch buffers. */
  method Spectrum(prims: Prims, s: StorageModel, expTau: seq<real>, attSUl: seq<real>, iT: real,
                  inu: seq<real>, pp: array<real>, n: int,
                  iNu: array<real>, z: array<real>, shellId: array<int>, l: array<real>,
                  ghost i0: real, ghost lums: seq<real>)
    requires prims.SqrtPositive() && prims.SearchInRange() && s.Physical() && n >= 2
    requires s.NoOfShells() * s.NoOfLines() <= |expTau| && s.NoOfShells() * s.NoOfLines() <= |attSUl|
    requires z.Length == 2 * s.NoOfShells() && shellId.Length == 2 * s.NoOfShells()
    requires pp.Length == n && iNu.Length == n && l.Length == |inu|
    requires iNu != z && pp != iNu && pp != z && l != iNu && l != z && l != pp
    requires forall k :: 0 <= k < n ==> pp[k] == PValue(s.RMax(), n, k)
    requires iNu[0] == i0 && LuminositiesOf(prims, s, expTau, attSUl, inu, iT, n, i0, lums)
    modifies iNu, z, shellId, l
    ensures iNu[0] == i0
    ensures l[..] == lums
  {
    for nuIdx := 0 to |inu|
      invariant iNu[0] == i0
      invariant forall j :: 0 <= j < nuIdx ==> l[j] == lums[j]
    {
      IntegrateInto(prims, s, expTau, attSUl, iT, inu, pp, n, iNu, z, shellId, l, nuIdx, i0, lums);
    }
  }

  /** The ray through the centre has `p = 0`, so its weighted intensity vanishes. */
  lemma CentreRayVanishes(prims: Prims, s: StorageModel, expTau: seq<real>, attSUl: seq<real>,
                          nu: real, iT: real, n: int)
    requires s.Valid() && n >= 2
    ensures GridProfile(prims, s, expTau, attSUl, nu, iT, n)[0] == 0.0
  {
    PValueEnds(s.RMax(), n);
  }

  /** `I_nu[0]` is never written, yet the trapezoid rule reads it: the luminosity is
      the rule over the whole grid plus the end-point weight `i0 / 2 * h` of whatever
      the scratch buffer held. */
  lemma UnwrittenEntryBias(prims: Prims, s: StorageModel, expTau: seq<real>, attSUl: seq<real>,
                           nu: real, iT: real, n: int, i0: real)
    requires s.Valid() && n >= 2
    ensures Luminosity(prims, s, expTau, attSUl, nu, iT, n, i0) ==
            Trapezoid(GridProfile(prims, s, expTau, attSUl, nu, iT, n), s.RMax() / n as real) +
            EndWeight(i0, s.RMax() / n as real)
  {
    var f := GridProfile(prims, s, expTau, attSUl, nu, iT, n);
    var g := Profile(prims, s, expTau, attSUl, nu, iT, n, i0);
    CentreRayVanishes(prims, s, expTau, attSUl, nu, iT, n);
    assert f[1..] == g[1..];
    TrapezoidFromZeroFirst(f, g, i0, s.RMax() / n as real);
  }

  /** The last grid point is `R_max`, so when the photosphere lies inside `R_max` the
      last ray misses every shell and `populate_z` as written reports `2 (N + 1)`
      crossings, more than the `2 N` entries of the crossing buffers. */
  lemma LastRayOverrunsBuffer(prims: Prims, s: StorageModel, n: int)
    requires prims.SqrtPositive() && s.Physical() && n >= 2 && s.rInner[0] < s.RMax()
    ensures var p := PValue(s.RMax(), n, n - 1);
            p > s.rInner[0] &&
            CrossingCount(ShellZ(prims, s, p), p <= s.rInner[0]) == 2 * (s.NoOfShells() + 1) > 2 * s.NoOfShells()
  {
    var p := PValue(s.RMax(), n, n - 1);
    PValueEnds(s.RMax(), n);
    HitsContiguous(prims, s, p);
    var zs := ShellZ(prims, s, p);
    forall j | 0 <= j < |zs|
      ensures zs[j] == 0.0
    {
      if j < |zs| - 1 {
        assert s.rOuter[j] < s.rOuter[|zs| - 1];
      }
    }
    MissedRayCountExceedsBuffer(zs);
  }

  /** Without line source terms a ray only attenuates: its emergent intensity is the
      starting intensity times the product of the attenuation factors it crosses. */
  lemma RayWithoutEmission(prims: Prims, s: StorageModel, expTau: seq<real>, attSUl: seq<real>,
                           nu: real, iT: real, p: real)
    requires s.Valid()
    requires forall m :: 0 <= m < |attSUl| ==> attSUl[m] == 0.0
    ensures RayTraced(prims, s, expTau, attSUl, nu, iT, p) ==
            Attenuated(StartIntensity(prims, s, nu, iT, p), RayGain(prims, s, expTau, attSUl, nu, p))
  {
    TracedWithoutEmission(prims, s.lineListNu, expTau, attSUl, nu, RayZs(prims, s, p), RayShells(prims, s, p),
                          StartIntensity(prims, s, nu, iT, p));
  }

  /** A ray that misses the photosphere starts dark, and without line source terms it
      stays dark. */
  lemma DarkRay(prims: Prims, s: StorageModel, expTau: seq<real>, attSUl: seq<real>,
                nu: real, iT: real, p: real)
    requires s.Valid() && p > s.rInner[0]
    requires forall m :: 0 <= m < |attSUl| ==> attSUl[m] == 0.0
    ensures RayIntensity(prims, s, expTau, attSUl, nu, iT, p) == 0.0
  {
    RayWithoutEmission(prims, s, expTau, attSUl, nu, iT, p);
  }

  /** With strictly increasing radii and a monotone square root, every segment's
      co-moving frequency window runs downwards: `nu_start >= nu_end`. */
  lemma SegmentWindowsDescend(prims: Prims, s: StorageModel, nu: real, p: real)
    requires prims.SqrtPositive() && prims.SqrtMonotone() && s.Physical() && p >= 0.0 && nu >= 0.0
    ensures var cz := RayZs(prims, s, p);
            forall k :: 0 <= k < |cz| - 1 ==> ComovingNu(nu, cz[k]) >= ComovingNu(nu, cz[k + 1])
  {
    var cz := RayZs(prims, s, p);
    CrossingsNonIncreasing(prims, s, p);
    forall k | 0 <= k < |cz| - 1
      ensures ComovingNu(nu, cz[k]) >= ComovingNu(nu, cz[k + 1])
    {
      ComovingNuMonotone(nu, cz[k + 1], cz[k]);
    }
  }

  /** An envelope of zero optical depth without source terms lets every ray through
      unchanged: a ray that ends on the photosphere carries the black body out, any
      other ray stays dark, and both are weighted by `p`. */
  lemma RayTransparent(prims: Prims, s: StorageModel, expTau: seq<real>, attSUl: seq<real>,
                       nu: real, iT: real, p: real)
    requires s.Valid()
    requires forall m :: 0 <= m < |expTau| ==> expTau[m] == 1.0
    requires forall m :: 0 <= m < |attSUl| ==> attSUl[m] == 0.0
    ensures RayIntensity(prims, s, expTau, attSUl, nu, iT, p) ==
            Weighted(StartIntensity(prims, s, nu, iT, p), p)
  {
    TracedTransparent(prims, s.lineListNu, expTau, attSUl, nu, RayZs(prims, s, p), RayShells(prims, s, p),
                      StartIntensity(prims, s, nu, iT, p));
  }
}
