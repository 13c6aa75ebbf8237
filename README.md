# Formal-integral kernel of TARDIS, in Dafny

This project models the formal-integral kernel of the TARDIS supernova
radiative-transfer code (`tardis/montecarlo/src/integrator.c`). For every
output frequency the kernel traces straight rays at impact parameters `p`
through the concentric shells of the envelope. Along each ray it applies
`I := I * exp(-tau) + S` for every spectral line whose Doppler-shifted
frequency falls inside a shell segment. It then integrates `I * p` over the
impact-parameter grid with the trapezoid rule.

Doubles are modelled as `real`. `sqrt`, `exp`, the black-body intensity and
the line search are fields of the `Primitives.Prims` datatype of function
values. The model assumes only these facts about them, and only where a
`requires` asks for them:

- `sqrt` is positive on positive arguments and monotone;
- the line search returns an index in `[0, no_of_lines]`.

`C_INV` is the kernel's constant, and the inverse expansion time is positive
for a physical envelope (`Storage.StorageModel.Physical`).

Modules follow the kernel's parts:

- `Storage`: the read-only storage model (radii, lines, shell-major tau table).
- `Grid`: `calculate_p_values`.
- `Quadrature`: `trapezoid_integration`.
- `Geometry`: `calculate_z` and `populate_z`.
- `Transfer`: the line walk of one segment and the chain of segments of a ray.
- `Integrator`: the `exp_tau` preparation, the per-ray, per-frequency and
  whole-spectrum loops of `_formal_integral`.

Quirks of the code are kept as written and exposed by lemmas:

- `I_nu[0]` is never written, yet the trapezoid rule reads it.
  `Integrator.FormalIntegral` returns the buffer's initial content as the ghost
  `i0`. `Integrator.UnwrittenEntryBias` shows the luminosity is the rule over the
  whole grid plus `i0 / 2 * h`.
- The integration step is `R_max / N`, while the grid spacing is
  `R_max / (N - 1)`. `Quadrature.TrapezoidStepRescale` relates the two results.
- For strictly increasing radii and a monotone `sqrt`, the crossing record is
  non-increasing in `z`: the far crossing `1 + z` at
  position `N-i-1` comes before the near crossing `1 - z` at `N+i-2*offset`.
  So every segment's window has `nu_start >= nu_end`
  (`Integrator.SegmentWindowsDescend`).
- A ray that misses every shell makes `populate_z` return `2 * (N + 1)`. See
  "## Findings".

## Model

| member | source | states |
|---|---|---|
| Geometry.CalculateZSign | tardis/montecarlo/src/integrator.c:64-68 | the half-chord is 0 exactly when `r <= p` and is never negative, so it is positive when `r > p` |
| Geometry.CalculateZMonotone | tardis/montecarlo/src/integrator.c:64-68 | for a fixed ray, a wider shell has a half-chord at least as long |
| Geometry.ShellZ | tardis/montecarlo/src/integrator.c:100-111 | one half-chord per shell, each `calculate_z(r[i], p, inv_t)` |
| Geometry.FirstHitFrom | tardis/montecarlo/src/integrator.c:112-117 | `offset` is the first shell with a non-zero half-chord, or -1 when every shell from there on is missed |
| Geometry.CrossingAt | tardis/montecarlo/src/integrator.c:95-127 | every position that receives a crossing names a real shell, and in the envelope branch only an intersected one |
| Geometry.ShellPositions | tardis/montecarlo/src/integrator.c:119-126 | an intersected shell `i` lands at exactly two positions: the far crossing `1 + z` at `N-i-1` and the near crossing `1 - z` at `N+i-2*offset`, both with shell id `i` |
| Geometry.PopulateZ | tardis/montecarlo/src/integrator.c:83-130 | as written: returns `N` or `2*(N-offset)`; in the photosphere branch sets `oz[i] = 1 - calculate_z(r[i])` and `oshell_id[i] = i` for all `i < N`; every other position is left as it was |
| Geometry.PopulatePhotosphere | tardis/montecarlo/src/integrator.c:95-104 | a ray ending on the photosphere gets one crossing per shell, inside out, and the count `N` |
| Geometry.PopulateEnvelope | tardis/montecarlo/src/integrator.c:105-129 | the second loop writes exactly the mirrored crossings of the intersected shells and returns `2*(N-offset)` |
| Geometry.WriteCrossings | tardis/montecarlo/src/integrator.c:123-126 | the four stores of one intersected shell, and nothing else |
| Geometry.CrossingCountFixed | tardis/montecarlo/src/integrator.c:128 | the corrected count lies in `[0, 2N]` and differs from the as-written one only on a ray that misses every shell |
| Geometry.PopulateZCorrected | tardis/montecarlo/src/integrator.c:83-130 | the same stores as `populate_z`, with a count that never exceeds the `2N` buffers |
| Geometry.HitsContiguous | tardis/montecarlo/src/integrator.c:109-117 | with strictly increasing radii a shell is intersected exactly when `r > p`; the intersected shells form one block from `offset` outwards; `offset` stays -1 exactly when `p >= R_max` |
| Geometry.CrossingLayout | tardis/montecarlo/src/integrator.c:119-128 | a block of intersected shells from `offset` fills `[0, 2(N-offset))` exactly: far crossings in `[0, N-offset)`, near ones in `[N-offset, 2(N-offset))`, nothing beyond, and the count is `2(N-offset)` |
| Geometry.CrossingCountIsTwiceHits | tardis/montecarlo/src/integrator.c:128 | with strictly increasing radii, off the photosphere the corrected count is twice the number of intersected shells, and so is the as-written count when at least one shell is hit; a missed ray's as-written count is `2(N+1)` instead (see "## Findings") |
| Geometry.CrossingsPresent | tardis/montecarlo/src/integrator.c:95-128 | with the corrected count and increasing radii, no position below the count is skipped, so stale buffer contents never reach the caller; as written, a missed ray's loop runs `2N+1` times over stale entries (see "## Findings") |
| Geometry.PopulatedRecord | tardis/montecarlo/src/integrator.c:204-223 | with strictly increasing radii, the buffers `populate_z` leaves hold the crossing record in their first `CrossingCountFixed` positions, whatever they held before; as written, a missed ray's count `2(N+1)` runs past the `2N` buffers (see "## Findings") |
| Geometry.CrossingsNonIncreasing | tardis/montecarlo/src/integrator.c:100-125 | with increasing radii and a monotone `sqrt` the filled `oz` prefix is non-increasing in both branches |
| Geometry.MissedRayCountExceedsBuffer | tardis/montecarlo/src/integrator.c:93-128 | a ray that misses every shell receives no crossing, yet the as-written count is `2(N+1) > 2N` |
| Grid.PValueEnds | tardis/montecarlo/src/integrator.c:143 | the grid starts at 0 and ends at `R_max` |
| Grid.PValueSpacing | tardis/montecarlo/src/integrator.c:143 | neighbouring grid points are `R_max/(N-1)` apart |
| Grid.PValueBounds | tardis/montecarlo/src/integrator.c:143 | every grid point lies in `[0, R_max]` and the grid increases with the index |
| Grid.CalculatePValues | tardis/montecarlo/src/integrator.c:137-145 | `opp[i] = R_max/(N-1)*i` for every `i < N`, the rest of the buffer untouched |
| Quadrature.TrapezoidIntegration | tardis/montecarlo/src/integrator.c:42-51 | the accumulator loop returns `h*((a[0]+a[N-1])/2 + a[1] + ... + a[N-2])` |
| Quadrature.TrapezoidIsPanels | tardis/montecarlo/src/integrator.c:45-50 | for `N >= 2` the kernel's formula equals the sum of the panel trapezoids `(f[k]+f[k+1])/2*h` |
| Quadrature.TrapezoidConstant | tardis/montecarlo/src/integrator.c:42-51 | on a constant array `v` the rule returns `v*h*(N-1)` |
| Quadrature.TrapezoidFirstEntry | tardis/montecarlo/src/integrator.c:45 | changing only `array[0]` moves the result by half its change times `h` |
| Quadrature.TrapezoidFromZeroFirst | tardis/montecarlo/src/integrator.c:45 | an array that starts at `v` instead of 0 integrates to the end-point weight `v/2*h` more |
| Quadrature.TrapezoidStepRescale | tardis/montecarlo/src/integrator.c:252-253 | integrating with step `R_max/N` gives `(N-1)/N` times the result with the grid spacing `R_max/(N-1)` |
| Transfer.RowBaseIsProduct | tardis/montecarlo/src/integrator.c:223 | the row offset, built shell by shell, is the kernel's product `shell_id * size_line` |
| Transfer.RowInTable | tardis/montecarlo/src/integrator.c:223 | row `shell*size_line` of a shell-major table lies inside the table for every shell index |
| Transfer.WalkEndStops | tardis/montecarlo/src/integrator.c:238-245 | the walk stops at the first line below `nu_end` or at the end of the list, and every line before it is at or above `nu_end` |
| Transfer.WalkAffine | tardis/montecarlo/src/integrator.c:238-248 | the walk is affine in the incoming intensity: it is scaled by the product of the visited attenuation factors and the lines' emission is added |
| Transfer.WalkSilent | tardis/montecarlo/src/integrator.c:246 | without source terms a dark walk stays dark |
| Transfer.WalkWithoutEmission | tardis/montecarlo/src/integrator.c:238-248 | with all source terms 0 the walk returns `I0` times the product of the visited attenuation factors |
| Transfer.GainOfTransparent | tardis/montecarlo/src/integrator.c:246 | lines with `exp_tau == 1` attenuate nothing |
| Transfer.WalkLines | tardis/montecarlo/src/integrator.c:233-248 | the pointer walk from `idx_nu_start` computes the walk over the shell's row: each line at or above `nu_end` is applied as `I*exp_tau + S` and the walk goes on at the next line |
| Transfer.SegmentsFit | tardis/montecarlo/src/integrator.c:223-236 | when every shell id is a shell and the line search is in range, every segment's accesses stay inside its shell's rows |
| Transfer.SegmentWalkAffine | tardis/montecarlo/src/integrator.c:216-248 | each segment's walk is affine with the segment's gain as slope |
| Transfer.SegmentWithoutEmission | tardis/montecarlo/src/integrator.c:218-248 | with all source terms 0 a segment multiplies the intensity by its own gain |
| Transfer.TracedSilentUpTo | tardis/montecarlo/src/integrator.c:216-249 | without source terms the first `j` segments keep a dark ray dark |
| Transfer.TracedGainTransparentUpTo | tardis/montecarlo/src/integrator.c:216-249 | with `exp_tau == 1` everywhere the first `j` segments together attenuate nothing |
| Transfer.TracedWithoutEmissionUpTo | tardis/montecarlo/src/integrator.c:216-249 | without source terms the first `j` segments multiply the starting intensity by the product of their gains |
| Transfer.TracedWithoutEmission | tardis/montecarlo/src/integrator.c:216-249 | with no source terms the ray only attenuates its starting intensity |
| Transfer.TracedTransparent | tardis/montecarlo/src/integrator.c:216-249 | with zero optical depth and no source terms the ray keeps its starting intensity |
| Integrator.PrepareExpTau | tardis/montecarlo/src/integrator.c:187-189 | `exp_tau[i] = exp(-tau[i])` over the whole table |
| Integrator.RaySegments | tardis/montecarlo/src/integrator.c:204-216 | with the corrected count, the segment loop runs `N - 1` times on the photosphere, `2*hits - 1` times for a ray that meets `hits > 0` shells, and not at all for a ray that misses every shell, which happens exactly when `p >= R_max`; as written, a missed ray's loop runs `2N+1` times over stale entries (see "## Findings") |
| Integrator.TraceRay | tardis/montecarlo/src/integrator.c:202-250 | `I_nu[p_idx]` becomes the ray's emergent intensity times `p`; no other entry of `I_nu` changes |
| Integrator.WalkSegments | tardis/montecarlo/src/integrator.c:216-249 | the segment loop applies every segment's walk in order to `I_nu[p_idx]`, reading its shell row and line-search start from the crossing buffers, and leaves the other entries alone |
| Integrator.IntegrateFrequency | tardis/montecarlo/src/integrator.c:197-253 | rays `1..N-1` are traced into `I_nu`, `I_nu[0]` keeps its old content, and the result is the trapezoid rule with step `R_max/N` |
| Integrator.IntegrateInto | tardis/montecarlo/src/integrator.c:195-253 | one pass of the frequency loop writes the luminosity of `inu[nu_idx]` into `L[nu_idx]` and changes no other entry of `L` |
| Integrator.Spectrum | tardis/montecarlo/src/integrator.c:195-254 | `L[nu_idx]` is the luminosity of `inu[nu_idx]` for every frequency |
| Integrator.FormalIntegral | tardis/montecarlo/src/integrator.c:151-260 | returns a fresh array with one luminosity per input frequency, all computed with the same unwritten `I_nu[0]` |
| Integrator.CentreRayVanishes | tardis/montecarlo/src/integrator.c:143-250 | the ray at grid point 0 has `p = 0`, so its weighted intensity is 0 |
| Integrator.UnwrittenEntryBias | tardis/montecarlo/src/integrator.c:200-253 | the luminosity is the rule over the whole grid plus `i0/2*h` for the never-written `I_nu[0]` |
| Integrator.LastRayOverrunsBuffer | tardis/montecarlo/src/integrator.c:93-178 | the last grid point is `R_max`; when the photosphere lies inside `R_max` its ray misses every shell and the as-written count `2(N+1)` exceeds the `2N` buffers |
| Integrator.RayWithoutEmission | tardis/montecarlo/src/integrator.c:207-250 | with no source terms a ray's emergent intensity is its starting intensity times the product of its attenuation factors |
| Integrator.DarkRay | tardis/montecarlo/src/integrator.c:207-210 | a ray that misses the photosphere starts at 0 and, with no source terms, contributes 0 |
| Integrator.SegmentWindowsDescend | tardis/montecarlo/src/integrator.c:218-219 | with increasing radii and a monotone `sqrt` every segment has `nu_start >= nu_end` |
| Integrator.RayTransparent | tardis/montecarlo/src/integrator.c:207-250 | with zero optical depth and no source terms a ray leaves with the intensity it started with (`B(nu, T)` on the photosphere, 0 otherwise), weighted by `p` |

## Findings

| source | as written | input that shows it | evidently intended | confidence | as-written member | corrected member |
|---|---|---|---|---|---|---|
| tardis/montecarlo/src/integrator.c:93-128 | `offset` starts at -1 and stays there when no shell has `r > p`, so `populate_z` returns `2*(N+1)`; the caller then reads `z[i]` and `shell_id[i]` for `i` up to `2N`, past the `2N`-entry buffers declared at lines 177-178 | the last grid point `p = R_max` with `r_inner[0] < R_max` (any envelope with more than a zero-width photosphere) | a ray that misses every shell has no crossings and no segments | not executed; the overrun follows from the stated count and buffer sizes | Geometry.PopulateZ (exhibited by Integrator.LastRayOverrunsBuffer) | Geometry.PopulateZCorrected |

The rest of the model (`Integrator.TraceRay`) uses the corrected count.
The as-written count makes the caller read out of bounds, which has no meaning
in the model.

## Left out

- The OpenMP parallel region, `omp_get_num_threads`, the `printf` calls and the per-thread copies of the scratch arrays: concurrency and I/O. The model runs one frequency after another in one thread, with one set of scratch buffers.
- `calloc` and its failure path: allocation plumbing. The output is a fresh Dafny array.
- IEEE double semantics: rounding, infinities and NaN are not modelled; values are reals.
- The bodies of `exp`, `sqrt` and `intensity_black_body`, and the constants `KB_CGS` and `H_CGS`: floating-point numerics. They are function values with only the facts listed above.
- The `8 * M_PI * M_PI` factor of `L[nu_idx]`: a plain numeric scale. `Integrator.Luminosity` is the trapezoid result without it.
- The body of `line_search` and the `storage_model_t` layout: both live in files that are not part of this model. The search is a function value assumed to return an index in `[0, no_of_lines]`; the storage model is a datatype of sequences.
- Grid.CalculatePValues: requires `N != 1`. With `N == 1` the source divides by zero in floating point and stores NaN, which reals cannot express.
- Integrator.TraceRay: requires strictly increasing outer radii and positive radii, the envelope's own invariant. With other radii the source can read stale buffer entries below the count, which the model does not capture.
- Integrator.TraceRay: uses the corrected crossing count (see "## Findings"). The out-of-bounds reads that follow the as-written count are not modelled.
- Geometry.CrossingsPresent: is stated for the corrected count. With the as-written count a missed ray reports `2*(N+1)` crossings, so positions past the filled prefix, and past the buffer, are read (see "## Findings").
- Geometry.PopulatedRecord: is stated for the corrected count and strictly increasing radii. As written, a missed ray's count `2(N+1)` runs past the `2N` buffers, and radii that are not increasing can leave stale positions below the count.
- Geometry.CrossingCountIsTwiceHits: the as-written count equals twice the hits only when at least one shell is hit; a missed ray's as-written count is `2(N+1)` (see "## Findings").
- Integrator.RaySegments: is stated for the corrected count. As written, a missed ray's segment loop runs `2N+1` times over stale and out-of-bounds entries instead of not at all (see "## Findings").
- Integrator.FormalIntegral: the never-written `I_nu[0]` is modelled as one unknown value shared by every frequency. In the source it is uninitialised stack memory, which the model does not distinguish further.
