/** The read-only part of the Monte Carlo storage model that the kernel uses. */
module Storage {

  /** Shell radii (innermost first), the inverse expansion time, the line list
      (descending frequency) and the Sobolev optical depths as one shell-major
      flat table: the entry of shell `s` and line `l` is at `s * |lineListNu| + l`. */
  datatype StorageModel = StorageModel(
    rInner: seq<real>,
    rOuter: seq<real>,
    inverseTimeExplosion: real,
    lineListNu: seq<real>,
    lineListsTauSobolevs: seq<real>)
  {
    function NoOfShells(): int { |rOuter| }

    function NoOfLines(): int { |lineListNu| }

    /** Shapes the kernel indexes without checking: at least one shell, the
        photosphere radius `rInner[0]` and a full shell-by-line table. */
    predicate Valid() {
      |rOuter| >= 1 && |rInner| >= 1 &&
      |lineListsTauSobolevs| == |rOuter| * |lineListNu|
    }

    /** A physical envelope: positive radii, strictly increasing outer radii and a
        positive inverse expansion time. */
    ghost predicate Physical() {
      Valid() && 0.0 < rInner[0] && 0.0 < rOuter[0] &&
      (forall i, j :: 0 <= i < j < |rOuter| ==> rOuter[i] < rOuter[j]) &&
      inverseTimeExplosion > 0.0
    }

    /** The outermost radius, `R_max` in the kernel. */
    function RMax(): real
      requires Valid()
    {
      rOuter[|rOuter| - 1]
    }
  }
}
