/** Shell-crossing geometry of one ray: `calculate_z` and `populate_z`. */
module Geometry {
  import opened Primitives
  import opened Storage

  /** Half the length of the chord that a ray at impact parameter `p` cuts through a
      sphere of radius `r`, in units of c * t_exp; 0 when the ray misses the sphere. */
  function CalculateZ(prims: Prims, r: real, p: real, invT: real): real
  {
    if r > p then prims.sqrt(r * r - p * p) * C_INV * invT else 0.0
  }

  /** The half-chord of every shell, innermost first. */
  function ShellZ(prims: Prims, s: StorageModel, p: real): (zs: seq<real>)
    ensures |zs| == |s.rOuter|
    ensures forall i :: 0 <= i < |zs| ==> zs[i] == CalculateZ(prims, s.rOuter[i], p, s.inverseTimeExplosion)
  {
    HalfChords(prims, s.rOuter, p, s.inverseTimeExplosion)
  }

  function HalfChords(prims: Prims, r: seq<real>, p: real, invT: real): (zs: seq<real>)
    ensures |zs| == |r|
    ensures forall i :: 0 <= i < |zs| ==> zs[i] == CalculateZ(prims, r[i], p, invT)
  {
    if r == [] then [] else HalfChords(prims, r[..|r| - 1], p, invT) + [CalculateZ(prims, r[|r| - 1], p, invT)]
  }

  lemma SquaresOrdered(a: real, b: real)
    requires 0.0 <= a < b
    ensures a * a < b * b
  {
    assert (b - a) * (b + a) > 0.0 by { MulPositive(b - a, b + a); }
    assert b * b - a * a == (b - a) * (b + a);
  }

  lemma MulPositive(a: real, b: real)
    requires a > 0.0 && b > 0.0
    ensures a * b > 0.0
  {}

  /** The half-chord is 0 exactly when the ray passes outside the shell, and positive
      otherwise. */
  lemma CalculateZSign(prims: Prims, r: real, p: real, invT: real)
    requires prims.SqrtPositive() && invT > 0.0 && p >= 0.0
    ensures CalculateZ(prims, r, p, invT) == 0.0 <==> r <= p
    ensures CalculateZ(prims, r, p, invT) >= 0.0
  {
    if r > p {
      var d := r * r - p * p;
      SquaresOrdered(p, r);
      var q := prims.sqrt(d);
      assert q * C_INV > 0.0;
      assert q * C_INV * invT > 0.0;
    }
  }

  /** A wider shell has a half-chord at least as long. */
  lemma CalculateZMonotone(prims: Prims, r1: real, r2: real, p: real, invT: real)
    requires prims.SqrtPositive() && prims.SqrtMonotone() && invT > 0.0 && p >= 0.0
    requires r1 <= r2
    ensures CalculateZ(prims, r1, p, invT) <= CalculateZ(prims, r2, p, invT)
  {
    CalculateZSign(prims, r2, p, invT);
    if r1 > p {
      SquaresOrdered(p, r1);
      assert r1 * r1 <= r2 * r2 by {
        if r1 < r2 { SquaresOrdered(r1, r2); }
      }
      var a := prims.sqrt(r1 * r1 - p * p);
      var b := prims.sqrt(r2 * r2 - p * p);
      assert a <= b;
      MulLeftMonotone(a, b, C_INV);
      MulLeftMonotone(a * C_INV, b * C_INV, invT);
    }
  }

  /** The first shell at or after `i` that the ray intersects (non-zero half-chord),
      or -1 when there is none: the `offset` of `populate_z`. */
  function FirstHitFrom(zs: seq<real>, i: int): (off: int)
    requires 0 <= i <= |zs|
    ensures off == -1 || i <= off < |zs|
    ensures off == -1 ==> forall j :: i <= j < |zs| ==> zs[j] == 0.0
    ensures off != -1 ==> zs[off] != 0.0 && forall j :: i <= j < off ==> zs[j] == 0.0
    decreases |zs| - i
  {
    if i == |zs| then -1 else if zs[i] != 0.0 then i else FirstHitFrom(zs, i + 1)
  }

  function FirstHit(zs: seq<real>): int
  {
    FirstHitFrom(zs, 0)
  }

  /** The number of shells the ray intersects. */
  function NumHits(zs: seq<real>): nat
  {
    if zs == [] then 0 else (if zs[0] != 0.0 then 1 else 0) + NumHits(zs[1..])
  }

  /** One entry of the crossing record: normalised path coordinate and shell index. */
  datatype Crossing = Crossing(z: real, shell: int)

  /** The crossing that `populate_z` leaves at position `k` of its output, or None when
      it leaves that position as it was. On a ray that meets the photosphere,
      position `k < N` holds shell `k` at `1 - z`. Otherwise position `k < N` holds the
      far crossing `1 + z` of shell `N - 1 - k`, and position `k` holds the near crossing
      `1 - z` of shell `k - N + 2 * offset`, each only if that shell is intersected. */
  function CrossingAt(zs: seq<real>, photosphere: bool, k: int): (c: Option<Crossing>)
    ensures c.Some? ==> 0 <= c.value.shell < |zs|
    ensures c.Some? && !photosphere ==> zs[c.value.shell] != 0.0
  {
    var n := |zs|;
    if photosphere then
      if 0 <= k < n then Some(Crossing(1.0 - zs[k], k)) else None
    else if 0 <= k < n && zs[n - 1 - k] != 0.0 then
      Some(Crossing(1.0 + zs[n - 1 - k], n - 1 - k))
    else
      var off := FirstHit(zs);
      var j := k - n + 2 * off;
      if off != -1 && 0 <= j < n && zs[j] != 0.0 then Some(Crossing(1.0 - zs[j], j)) else None
  }

  /** The count `populate_z` returns, as written: a ray that misses every shell leaves
      `offset` at -1 and returns 2 * (N + 1). */
  function CrossingCount(zs: seq<real>, photosphere: bool): int
  {
    if photosphere then |zs| else 2 * (|zs| - FirstHit(zs))
  }

  /** The count with the sentinel corrected: a ray that misses every shell has no
      crossings. It differs from the as-written count only on such a ray. */
  function CrossingCountFixed(zs: seq<real>, photosphere: bool): (count: int)
    ensures 0 <= count <= 2 * |zs|
    ensures count != CrossingCount(zs, photosphere) ==>
              !photosphere && forall j :: 0 <= j < |zs| ==> zs[j] == 0.0
  {
    if photosphere then |zs|
    else if FirstHit(zs) == -1 then 0
    else 2 * (|zs| - FirstHit(zs))
  }

  /** `oz` and `ids` are what `populate_z` leaves in buffers that held `oldZ` and
      `oldIds`: every position that receives a crossing holds it, the rest are as
      they were. */
  ghost predicate Populated(zs: seq<real>, photosphere: bool, oldZ: seq<real>, oldIds: seq<int>,
                            oz: seq<real>, ids: seq<int>)
  {
    |oz| == |oldZ| && |ids| == |oldIds| == |oz| &&
    forall k :: 0 <= k < |oz| ==>
      match CrossingAt(zs, photosphere, k)
      case Some(c) => oz[k] == c.z && ids[k] == c.shell
      case None => oz[k] == oldZ[k] && ids[k] == oldIds[k]
  }

  lemma FirstHitAtMost(zs: seq<real>, i: int)
    requires 0 <= i < |zs| && zs[i] != 0.0
    ensures 0 <= FirstHit(zs) <= i
  {}

  /** On a ray that misses the photosphere, an intersected shell `i` receives exactly
      two positions: `N - i - 1` (far) and `N + i - 2 * offset` (near). */
  lemma ShellPositions(zs: seq<real>, i: int)
    requires 0 <= i < |zs| && zs[i] != 0.0
    ensures FirstHit(zs) != -1 && FirstHit(zs) <= i
    ensures CrossingAt(zs, false, |zs| - 1 - i) == Some(Crossing(1.0 + zs[i], i))
    ensures CrossingAt(zs, false, |zs| + i - 2 * FirstHit(zs)) == Some(Crossing(1.0 - zs[i], i))
    ensures forall k :: CrossingAt(zs, false, k).Some? && CrossingAt(zs, false, k).value.shell == i ==>
              k == |zs| - 1 - i || k == |zs| + i - 2 * FirstHit(zs)
  {
    var n, off := |zs|, FirstHit(zs);
    var k := n + i - 2 * off;
    if 0 <= k < n {
      // a far crossing at k would belong to shell 2 * off - 1 - i < off
      assert zs[n - 1 - k] == 0.0;
    }
  }

  /** The state of `populate_z`'s second loop after shells `0 .. i-1`: the crossings of
      those shells are in place, every other position is as it was. */
  ghost predicate FilledBelow(zs: seq<real>, oldZ: seq<real>, oldIds: seq<int>,
                              oz: seq<real>, ids: seq<int>, i: int)
  {
    |oz| == |oldZ| == 2 * |zs| && |ids| == |oldIds| == 2 * |zs| &&
    forall k {:trigger CrossingAt(zs, false, k)} :: 0 <= k < |oz| ==>
      var c := CrossingAt(zs, false, k);
      if c.Some? && c.value.shell < i then oz[k] == c.value.z && ids[k] == c.value.shell
      else oz[k] == oldZ[k] && ids[k] == oldIds[k]
  }

  lemma FillSkip(zs: seq<real>, oldZ: seq<real>, oldIds: seq<int>, oz: seq<real>, ids: seq<int>, i: int)
    requires 0 <= i < |zs| && zs[i] == 0.0
    requires FilledBelow(zs, oldZ, oldIds, oz, ids, i)
    ensures FilledBelow(zs, oldZ, oldIds, oz, ids, i + 1)
  {}

  lemma FillStep(zs: seq<real>, oldZ: seq<real>, oldIds: seq<int>, oz: seq<real>, ids: seq<int>, i: int,
                 lo: int, up: int, after: seq<real>, idsAfter: seq<int>)
    requires 0 <= i < |zs| && zs[i] != 0.0
    requires FilledBelow(zs, oldZ, oldIds, oz, ids, i)
    requires lo == |zs| - 1 - i && up == |zs| + i - 2 * FirstHit(zs) && 0 <= lo < |oz| && 0 <= up < |oz|
    requires after == oz[lo := 1.0 + zs[i]][up := 1.0 - zs[i]] && idsAfter == ids[lo := i][up := i]
    ensures FilledBelow(zs, oldZ, oldIds, after, idsAfter, i + 1)
  {
    ShellPositions(zs, i);
  }

  /** The buffers after `populate_z`'s second loop has handled shells `0 .. i-1`,
      written the way the loop writes them, one shell at a time. */
  function FillZ(zs: seq<real>, oz0: seq<real>, i: int): (oz: seq<real>)
    requires 0 <= i <= |zs| && |oz0| == 2 * |zs|
    ensures |oz| == |oz0|
  {
    if i == 0 then oz0
    else
      var prev := FillZ(zs, oz0, i - 1);
      var j := i - 1;
      if zs[j] == 0.0 then prev
      else
        FirstHitAtMost(zs, j);
        prev[|zs| - 1 - j := 1.0 + zs[j]][|zs| + j - 2 * FirstHit(zs) := 1.0 - zs[j]]
  }

  function FillIds(zs: seq<real>, ids0: seq<int>, i: int): (ids: seq<int>)
    requires 0 <= i <= |zs| && |ids0| == 2 * |zs|
    ensures |ids| == |ids0|
  {
    if i == 0 then ids0
    else
      var prev := FillIds(zs, ids0, i - 1);
      var j := i - 1;
      if zs[j] == 0.0 then prev
      else
        FirstHitAtMost(zs, j);
        prev[|zs| - 1 - j := j][|zs| + j - 2 * FirstHit(zs) := j]
  }

  /** A shell the ray misses leaves the buffers of the second loop alone. */
  lemma FillMissed(zs: seq<real>, oz0: seq<real>, ids0: seq<int>, i: int)
    requires 0 <= i < |zs| && |oz0| == 2 * |zs| && |ids0| == 2 * |zs| && zs[i] == 0.0
    ensures FillZ(zs, oz0, i + 1) == FillZ(zs, oz0, i) && FillIds(zs, ids0, i + 1) == FillIds(zs, ids0, i)
  {
  }

  /** An intersected shell `i` writes its far crossing at `lo` and its near one at
      `up`, both with shell id `i`. */
  lemma FillWrite(zs: seq<real>, oz0: seq<real>, ids0: seq<int>, i: int,
                  before: seq<real>, idsBefore: seq<int>, lo: int, up: int, z: real)
    requires 0 <= i < |zs| && |oz0| == 2 * |zs| && |ids0| == 2 * |zs| && zs[i] == z && z != 0.0
    requires before == FillZ(zs, oz0, i) && idsBefore == FillIds(zs, ids0, i)
    requires lo == |zs| - 1 - i && up == |zs| + i - 2 * FirstHit(zs)
    ensures 0 <= lo < |before| && 0 <= up < |before|
    ensures FillZ(zs, oz0, i + 1) == before[lo := 1.0 + z][up := 1.0 - z]
    ensures FillIds(zs, ids0, i + 1) == idsBefore[lo := i][up := i]
  {
    FirstHitAtMost(zs, i);
  }

  lemma {:induction false} FillComplete(zs: seq<real>, oz0: seq<real>, ids0: seq<int>, i: int)
    requires 0 <= i <= |zs| && |oz0| == 2 * |zs| && |ids0| == 2 * |zs|
    ensures FilledBelow(zs, oz0, ids0, FillZ(zs, oz0, i), FillIds(zs, ids0, i), i)
  {
    if i > 0 {
      FillComplete(zs, oz0, ids0, i - 1);
      var before, idsBefore := FillZ(zs, oz0, i - 1), FillIds(zs, ids0, i - 1);
      if zs[i - 1] == 0.0 {
        FillMissed(zs, oz0, ids0, i - 1);
        FillSkip(zs, oz0, ids0, before, idsBefore, i - 1);
      } else {
        var lo, up := |zs| - 1 - (i - 1), |zs| + (i - 1) - 2 * FirstHit(zs);
        FillWrite(zs, oz0, ids0, i - 1, before, idsBefore, lo, up, zs[i - 1]);
        FillStep(zs, oz0, ids0, before, idsBefore, i - 1, lo, up, FillZ(zs, oz0, i), FillIds(zs, ids0, i));
      }
    }
  }

  lemma FillDone(zs: seq<real>, oldZ: seq<real>, oldIds: seq<int>, oz: seq<real>, ids: seq<int>)
    requires FilledBelow(zs, oldZ, oldIds, oz, ids, |zs|)
    ensures Populated(zs, false, oldZ, oldIds, oz, ids)
  {}

  lemma PhotosphereDone(zs: seq<real>, oldZ: seq<real>, oldIds: seq<int>, oz: seq<real>, ids: seq<int>)
    requires |oz| == |oldZ| == 2 * |zs| && |ids| == |oldIds| == 2 * |zs|
    requires forall k :: 0 <= k < |zs| ==> oz[k] == 1.0 - zs[k] && ids[k] == k
    requires forall k :: |zs| <= k < 2 * |zs| ==> oz[k] == oldZ[k] && ids[k] == oldIds[k]
    ensures Populated(zs, true, oldZ, oldIds, oz, ids)
  {}

  /** `populate_z`, as written: fills `oz`/`oshellId` with the crossings of the ray at
      impact parameter `p` and returns their count. */
  method PopulateZ(prims: Prims, s: StorageModel, p: real, oz: array<real>, oshellId: array<int>)
    returns (count: int)
    requires s.Valid()
    requires oz.Length == 2 * s.NoOfShells() && oshellId.Length == 2 * s.NoOfShells()
    modifies oz, oshellId
    ensures count == CrossingCount(ShellZ(prims, s, p), p <= s.rInner[0])
    ensures p <= s.rInner[0] ==>
              count == s.NoOfShells() &&
              forall i :: 0 <= i < s.NoOfShells() ==>
                oz[i] == 1.0 - CalculateZ(prims, s.rOuter[i], p, s.inverseTimeExplosion) &&
                oshellId[i] == i
    ensures Populated(ShellZ(prims, s, p), p <= s.rInner[0], old(oz[..]), old(oshellId[..]),
                      oz[..], oshellId[..])
  {
    if p <= s.rInner[0] {
      count := PopulatePhotosphere(prims, s, p, oz, oshellId);
    } else {
      count := PopulateEnvelope(prims, s, p, oz, oshellId);
    }
  }

  /** The branch of `populate_z` for a ray that ends on the photosphere: one crossing
      per shell, inside out. */
  method PopulatePhotosphere(prims: Prims, s: StorageModel, p: real, oz: array<real>, oshellId: array<int>)
    returns (count: int)
    requires s.Valid() && p <= s.rInner[0]
    requires oz.Length == 2 * s.NoOfShells() && oshellId.Length == 2 * s.NoOfShells()
    modifies oz, oshellId
    ensures count == s.NoOfShells()
    ensures forall i :: 0 <= i < s.NoOfShells() ==>
              oz[i] == 1.0 - CalculateZ(prims, s.rOuter[i], p, s.inverseTimeExplosion) &&
              oshellId[i] == i
    ensures Populated(ShellZ(prims, s, p), true, old(oz[..]), old(oshellId[..]), oz[..], oshellId[..])
  {
    var r := s.rOuter;
    var n := s.NoOfShells();
    var invT := s.inverseTimeExplosion;
    ghost var zs := ShellZ(prims, s, p);
    for i := 0 to n
      invariant forall k :: 0 <= k < i ==> oz[k] == 1.0 - zs[k] && oshellId[k] == k
      invariant forall k :: i <= k < 2 * n ==> oz[k] == old(oz[k]) && oshellId[k] == old(oshellId[k])
    {
      oz[i] := 1.0 - CalculateZ(prims, r[i], p, invT);
      oshellId[i] := i;
    }
    PhotosphereDone(zs, old(oz[..]), old(oshellId[..]), oz[..], oshellId[..]);
    return n;
  }

  /** The branch of `populate_z` for a ray that passes the photosphere: each intersected
      shell `i` puts its far crossing at `N - i - 1` and its near crossing at
      `N + i - 2 * offset`, `offset` being the first intersected shell. */
  method PopulateEnvelope(prims: Prims, s: StorageModel, p: real, oz: array<real>, oshellId: array<int>)
    returns (count: int)
    requires s.Valid()
    requires oz.Length == 2 * s.NoOfShells() && oshellId.Length == 2 * s.NoOfShells()
    modifies oz, oshellId
    ensures count == CrossingCount(ShellZ(prims, s, p), false)
    ensures Populated(ShellZ(prims, s, p), false, old(oz[..]), old(oshellId[..]), oz[..], oshellId[..])
  {
    var r := s.rOuter;
    var n := s.NoOfShells();
    var invT := s.inverseTimeExplosion;
    ghost var zs := ShellZ(prims, s, p);
    ghost var oz0, ids0 := oz[..], oshellId[..];
    var offset := -1;
    var i := 0;
    while i < n
      invariant 0 <= i <= n
      invariant offset == if 0 <= FirstHit(zs) < i then FirstHit(zs) else -1
      invariant oz[..] == FillZ(zs, oz0, i) && oshellId[..] == FillIds(zs, ids0, i)
    {
      var z := CalculateZ(prims, r[i], p, invT);
      assert z == zs[i];
      if z == 0.0 {
        FillMissed(zs, oz0, ids0, i);
      } else {
        FirstHitAtMost(zs, i);
        if offset == -1 {
          offset := i;
        }
        var iLow := n - i - 1;
        var iUp := n + i - 2 * offset;
        FillWrite(zs, oz0, ids0, i, oz[..], oshellId[..], iLow, iUp, z);
        WriteCrossings(oz, oshellId, iLow, iUp, z, i);
      }
      i := i + 1;
      assert oz[..] == FillZ(zs, oz0, i) && oshellId[..] == FillIds(zs, ids0, i);
    }
    FillComplete(zs, oz0, ids0, n);
    FillDone(zs, oz0, ids0, oz[..], oshellId[..]);
    return 2 * (n - offset);
  }

  /** The four writes of an intersected shell `i`: the far crossing `1 + z` at `lo`,
      the near crossing `1 - z` at `up`, both with shell id `i`. */
  method WriteCrossings(oz: array<real>, oshellId: array<int>, lo: int, up: int, z: real, i: int)
    requires 0 <= lo < oz.Length && 0 <= up < oz.Length && oz.Length == oshellId.Length
    modifies oz, oshellId
    ensures oz[..] == old(oz[..])[lo := 1.0 + z][up := 1.0 - z]
    ensures oshellId[..] == old(oshellId[..])[lo := i][up := i]
  {
    oz[lo] := 1.0 + z;
    oshellId[lo] := i;
    oz[up] := 1.0 - z;
    oshellId[up] := i;
  }

  /** `populate_z` with the sentinel corrected: a ray that misses every shell yields no
      crossings, so the count never exceeds the `2 * N` buffers. */
  method PopulateZCorrected(prims: Prims, s: StorageModel, p: real, oz: array<real>, oshellId: array<int>)
    returns (count: int)
    requires s.Valid()
    requires oz.Length == 2 * s.NoOfShells() && oshellId.Length == 2 * s.NoOfShells()
    modifies oz, oshellId
    ensures count == CrossingCountFixed(ShellZ(prims, s, p), p <= s.rInner[0])
    ensures 0 <= count <= oz.Length
    ensures Populated(ShellZ(prims, s, p), p <= s.rInner[0], old(oz[..]), old(oshellId[..]),
                      oz[..], oshellId[..])
  {
    if p <= s.rInner[0] {
      count := PopulatePhotosphere(prims, s, p, oz, oshellId);
    } else {
      count := PopulateEnvelope(prims, s, p, oz, oshellId);
      if count > oz.Length {
        // `offset` stayed at -1: the ray misses every shell
        count := 0;
      }
    }
  }

  /** The z column of the first `CrossingCountFixed` positions of the crossing record
      (0 where a position receives no crossing). */
  function CrossingZs(zs: seq<real>, photosphere: bool): (cz: seq<real>)
    ensures |cz| == CrossingCountFixed(zs, photosphere)
  {
    seq(CrossingCountFixed(zs, photosphere), k =>
      match CrossingAt(zs, photosphere, k)
      case Some(c) => c.z
      case None => 0.0)
  }

  /** The shell column of the first `CrossingCountFixed` positions (0 where a position
      receives no crossing); every entry names a shell. */
  function CrossingShells(zs: seq<real>, photosphere: bool): (ids: seq<int>)
    ensures |ids| == CrossingCountFixed(zs, photosphere)
    ensures forall k :: 0 <= k < |ids| ==> 0 <= ids[k] < |zs|
  {
    seq(CrossingCountFixed(zs, photosphere), k =>
      match CrossingAt(zs, photosphere, k)
      case Some(c) => c.shell
      case None => 0)
  }

  /** With strictly increasing radii a shell is intersected exactly when it lies
      outside the ray, so the intersected shells form one block from `offset` to the
      outermost shell, and the ray misses every shell exactly when `p >= R_max`. */
  lemma HitsContiguous(prims: Prims, s: StorageModel, p: real)
    requires prims.SqrtPositive() && s.Physical() && p >= 0.0
    ensures forall j :: 0 <= j < s.NoOfShells() ==> (ShellZ(prims, s, p)[j] != 0.0 <==> s.rOuter[j] > p)
    ensures FirstHit(ShellZ(prims, s, p)) == -1 <==> p >= s.RMax()
    ensures FirstHit(ShellZ(prims, s, p)) != -1 ==>
              forall j :: FirstHit(ShellZ(prims, s, p)) <= j < s.NoOfShells() ==> ShellZ(prims, s, p)[j] != 0.0
  {
    var zs := ShellZ(prims, s, p);
    var n := |zs|;
    forall j | 0 <= j < n
      ensures zs[j] != 0.0 <==> s.rOuter[j] > p
    {
      CalculateZSign(prims, s.rOuter[j], p, s.inverseTimeExplosion);
    }
    if p >= s.RMax() {
      forall j | 0 <= j < n ensures zs[j] == 0.0 {
        assert j < n - 1 ==> s.rOuter[j] < s.rOuter[n - 1];
      }
    }
  }

  /** A block of intersected shells from `offset` outwards fills positions
      `[0, 2 * (N - offset))` exactly: the far crossings, outermost shell first, fill
      `[0, N - offset)`, the near crossings fill `[N - offset, 2 * (N - offset))`, every
      such shell lands at its two mirrored positions `1 + z` and `1 - z`, and nothing
      lies beyond. */
  lemma CrossingLayout(zs: seq<real>)
    requires FirstHit(zs) != -1
    requires forall j :: FirstHit(zs) <= j < |zs| ==> zs[j] != 0.0
    ensures CrossingCount(zs, false) == CrossingCountFixed(zs, false) == 2 * (|zs| - FirstHit(zs))
    ensures forall k :: 0 <= k < |zs| - FirstHit(zs) ==>
              CrossingAt(zs, false, k) == Some(Crossing(1.0 + zs[|zs| - 1 - k], |zs| - 1 - k))
    ensures forall k :: |zs| - FirstHit(zs) <= k < 2 * (|zs| - FirstHit(zs)) ==>
              CrossingAt(zs, false, k) ==
              Some(Crossing(1.0 - zs[k - |zs| + 2 * FirstHit(zs)], k - |zs| + 2 * FirstHit(zs)))
    ensures forall k :: 2 * (|zs| - FirstHit(zs)) <= k < 2 * |zs| ==> CrossingAt(zs, false, k) == None
    ensures forall j :: FirstHit(zs) <= j < |zs| ==>
              CrossingAt(zs, false, |zs| - 1 - j) == Some(Crossing(1.0 + zs[j], j)) &&
              CrossingAt(zs, false, |zs| + j - 2 * FirstHit(zs)) == Some(Crossing(1.0 - zs[j], j))
  {
    var n, off := |zs|, FirstHit(zs);
    forall k | n - off <= k < 2 * (n - off)
      ensures CrossingAt(zs, false, k) == Some(Crossing(1.0 - zs[k - n + 2 * off], k - n + 2 * off))
    {
      if k < n {
        assert zs[n - 1 - k] == 0.0;
      }
    }
    forall k | 2 * (n - off) <= k < 2 * n
      ensures CrossingAt(zs, false, k) == None
    {
      if k < n {
        assert zs[n - 1 - k] == 0.0;
      }
    }
    forall j | off <= j < n
      ensures CrossingAt(zs, false, n + j - 2 * off) == Some(Crossing(1.0 - zs[j], j))
    {
      ShellPositions(zs, j);
    }
  }

  lemma {:induction false} NumHitsOfBlock(zs: seq<real>, off: int)
    requires 0 <= off <= |zs|
    requires forall j :: 0 <= j < off ==> zs[j] == 0.0
    requires forall j :: off <= j < |zs| ==> zs[j] != 0.0
    ensures NumHits(zs) == |zs| - off
    decreases |zs|
  {
    if zs != [] {
      NumHitsOfBlock(zs[1..], if off == 0 then 0 else off - 1);
    }
  }

  /** With strictly increasing radii, a ray that passes the photosphere has two
      crossings per intersected shell. */
  lemma CrossingCountIsTwiceHits(prims: Prims, s: StorageModel, p: real)
    requires prims.SqrtPositive() && s.Physical() && p >= 0.0
    ensures CrossingCountFixed(ShellZ(prims, s, p), false) == 2 * NumHits(ShellZ(prims, s, p))
    ensures NumHits(ShellZ(prims, s, p)) > 0 ==>
              CrossingCount(ShellZ(prims, s, p), false) == 2 * NumHits(ShellZ(prims, s, p))
  {
    var zs := ShellZ(prims, s, p);
    HitsContiguous(prims, s, p);
    var off := FirstHit(zs);
    NumHitsOfBlock(zs, if off == -1 then |zs| else off);
  }

  /** The intersected shells form one block from the first hit outwards. */
  ghost predicate HitsInOneBlock(zs: seq<real>)
  {
    FirstHit(zs) != -1 ==> forall j :: FirstHit(zs) <= j < |zs| ==> zs[j] != 0.0
  }

  /** Half-chords never shrink outwards and are never negative. */
  ghost predicate ChordsAscending(zs: seq<real>)
  {
    (forall j :: 0 <= j < |zs| ==> zs[j] >= 0.0) &&
    (forall j :: 0 <= j < |zs| - 1 ==> zs[j] <= zs[j + 1])
  }

  lemma CrossingsPresentIn(zs: seq<real>, photosphere: bool)
    requires HitsInOneBlock(zs)
    ensures forall k :: 0 <= k < CrossingCountFixed(zs, photosphere) ==> CrossingAt(zs, photosphere, k).Some?
  {
    if !photosphere && FirstHit(zs) != -1 {
      CrossingLayout(zs);
    }
  }

  /** With strictly increasing radii every position below the corrected count holds a
      crossing: the buffers' stale contents never reach the caller. */
  lemma CrossingsPresent(prims: Prims, s: StorageModel, p: real)
    requires prims.SqrtPositive() && s.Physical() && p >= 0.0
    ensures var zs, photo := ShellZ(prims, s, p), p <= s.rInner[0];
            forall k :: 0 <= k < CrossingCountFixed(zs, photo) ==> CrossingAt(zs, photo, k).Some?
  {
    HitsContiguous(prims, s, p);
    CrossingsPresentIn(ShellZ(prims, s, p), p <= s.rInner[0]);
  }

  lemma PhotosphereNonIncreasing(zs: seq<real>)
    requires ChordsAscending(zs)
    ensures var cz := CrossingZs(zs, true);
            forall k :: 0 <= k < |cz| - 1 ==> cz[k] >= cz[k + 1]
  {
    var cz := CrossingZs(zs, true);
    forall k | 0 <= k < |cz| - 1
      ensures cz[k] >= cz[k + 1]
    {
      assert CrossingAt(zs, true, k) == Some(Crossing(1.0 - zs[k], k));
      assert CrossingAt(zs, true, k + 1) == Some(Crossing(1.0 - zs[k + 1], k + 1));
    }
  }

  /** Position `k` of the z column of a block of intersected shells: a far crossing
      below `N - offset`, a near crossing from there on. */
  lemma EnvelopeZAt(zs: seq<real>, k: int)
    requires FirstHit(zs) != -1
    requires forall j :: FirstHit(zs) <= j < |zs| ==> zs[j] != 0.0
    requires 0 <= k < 2 * (|zs| - FirstHit(zs))
    ensures k < |zs| - FirstHit(zs) ==> CrossingZs(zs, false)[k] == 1.0 + zs[|zs| - 1 - k]
    ensures k >= |zs| - FirstHit(zs) ==> CrossingZs(zs, false)[k] == 1.0 - zs[k - |zs| + 2 * FirstHit(zs)]
  {
    CrossingLayout(zs);
  }

  lemma EnvelopeNonIncreasing(zs: seq<real>)
    requires FirstHit(zs) != -1
    requires forall j :: FirstHit(zs) <= j < |zs| ==> zs[j] != 0.0
    requires ChordsAscending(zs)
    ensures var cz := CrossingZs(zs, false);
            forall k :: 0 <= k < |cz| - 1 ==> cz[k] >= cz[k + 1]
  {
    var cz := CrossingZs(zs, false);
    var n, off := |zs|, FirstHit(zs);
    assert |cz| == 2 * (n - off);
    forall k | 0 <= k < |cz| - 1
      ensures cz[k] >= cz[k + 1]
    {
      EnvelopeZAt(zs, k);
      EnvelopeZAt(zs, k + 1);
      if k < n - off - 1 {
        assert zs[n - 2 - k] <= zs[n - 1 - k];
      } else if k == n - off - 1 {
        assert zs[off] >= 0.0;
      } else {
        var j := k - n + 2 * off;
        assert zs[j] <= zs[j + 1];
      }
    }
  }

  lemma CrossingsNonIncreasingIn(zs: seq<real>, photosphere: bool)
    requires HitsInOneBlock(zs) && ChordsAscending(zs)
    ensures var cz := CrossingZs(zs, photosphere);
            forall k :: 0 <= k < |cz| - 1 ==> cz[k] >= cz[k + 1]
  {
    if photosphere {
      PhotosphereNonIncreasing(zs);
    } else if FirstHit(zs) != -1 {
      EnvelopeNonIncreasing(zs);
    }
  }

  /** With strictly increasing radii the filled part of `oz` is non-increasing, in both
      branches: the ray runs from the far side (`1 + z`) to the near side (`1 - z`). */
  lemma CrossingsNonIncreasing(prims: Prims, s: StorageModel, p: real)
    requires prims.SqrtPositive() && prims.SqrtMonotone() && s.Physical() && p >= 0.0
    ensures var cz := CrossingZs(ShellZ(prims, s, p), p <= s.rInner[0]);
            forall k :: 0 <= k < |cz| - 1 ==> cz[k] >= cz[k + 1]
  {
    var zs := ShellZ(prims, s, p);
    var r, invT := s.rOuter, s.inverseTimeExplosion;
    HitsContiguous(prims, s, p);
    forall j | 0 <= j < |zs|
      ensures zs[j] >= 0.0
    {
      CalculateZSign(prims, r[j], p, invT);
    }
    forall j | 0 <= j < |zs| - 1
      ensures zs[j] <= zs[j + 1]
    {
      CalculateZMonotone(prims, r[j], r[j + 1], p, invT);
    }
    CrossingsNonIncreasingIn(zs, p <= s.rInner[0]);
  }

  /** As written, a ray that passes the photosphere and misses every shell reports
      `2 * (N + 1)` crossings, more than the `2 * N` buffers hold, although no position
      receives a crossing; the corrected count is 0. */
  lemma MissedRayCountExceedsBuffer(zs: seq<real>)
    requires forall j :: 0 <= j < |zs| ==> zs[j] == 0.0
    ensures CrossingCount(zs, false) == 2 * (|zs| + 1) > 2 * |zs|
    ensures forall k :: CrossingAt(zs, false, k) == None
    ensures CrossingCountFixed(zs, false) == 0
  {}

  /** With strictly increasing radii, the buffers `populate_z` leaves hold the crossing
      record in their first `CrossingCountFixed` positions, whatever they held before. */
  lemma PopulatedRecord(prims: Prims, s: StorageModel, p: real, oldZ: seq<real>, oldIds: seq<int>,
                        oz: seq<real>, ids: seq<int>)
    requires prims.SqrtPositive() && s.Physical() && p >= 0.0
    requires |oz| == 2 * s.NoOfShells()
    requires Populated(ShellZ(prims, s, p), p <= s.rInner[0], oldZ, oldIds, oz, ids)
    ensures var zs, photo := ShellZ(prims, s, p), p <= s.rInner[0];
            CrossingCountFixed(zs, photo) <= |oz| &&
            oz[..CrossingCountFixed(zs, photo)] == CrossingZs(zs, photo) &&
            ids[..CrossingCountFixed(zs, photo)] == CrossingShells(zs, photo)
  {
    var zs, photo := ShellZ(prims, s, p), p <= s.rInner[0];
    var count := CrossingCountFixed(zs, photo);
    CrossingsPresent(prims, s, p);
    forall k | 0 <= k < count
      ensures oz[k] == CrossingZs(zs, photo)[k] && ids[k] == CrossingShells(zs, photo)[k]
    {
      assert CrossingAt(zs, photo, k).Some?;
    }
  }
}
