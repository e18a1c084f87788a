/** The elevated-island bathymetry: a 1000 m basin of 200 by 100 cells
    (5 km) with a 50 km island whose top sits at 50 m and whose flank
    ramps linearly back to 1000 m over 30 km. */
module MakeBathy {
  import opened Grid
  import opened Island

  const Nx: nat := 200
  const Ny: nat := 100
  const Spacing: real := 5.0e3
  const CentreX: real := 500.0e3
  const CentreY: real := 250.0e3
  const Radius: real := 50.0e3
  const Elevation: real := 50.0
  const SlopeWidth: real := 30.0e3

  /** Builds the field from each cell's distance `r` to the island centre.
      The core holds exactly `elevation`, cells beyond the flank keep
      1000 m, the flank lies in `[elevation, 1000)`, no cell is 0 or
      negative, and the depth never decreases with distance. */
  method Generate(r: Field) returns (depth: array2<real>)
    requires IsDistanceField(r, Axis(Nx, Spacing), Axis(Ny, Spacing), CentreX, CentreY)
    ensures fresh(depth)
    ensures depth.Length0 == Ny && depth.Length1 == Nx
    ensures forall j, i | 0 <= j < Ny && 0 <= i < Nx ::
      depth[j, i] == ElevatedDepth(r[j][i], Radius, SlopeWidth, Elevation)
    ensures forall j, i | 0 <= j < Ny && 0 <= i < Nx ::
      (r[j][i] < Radius ==> depth[j, i] == Elevation) &&
      (Radius <= r[j][i] < Radius + SlopeWidth ==> Elevation <= depth[j, i] < DeepOcean) &&
      (Radius + SlopeWidth <= r[j][i] ==> depth[j, i] == DeepOcean) &&
      depth[j, i] >= Elevation > 0.0
    ensures forall j1, i1, j2, i2 | 0 <= j1 < Ny && 0 <= i1 < Nx && 0 <= j2 < Ny && 0 <= i2 < Nx ::
      r[j1][i1] <= r[j2][i2] ==> depth[j1, i1] <= depth[j2, i2]
  {
    depth := RasteriseElevated(r, Ny, Nx, Radius, SlopeWidth, Elevation);
    forall j, i | 0 <= j < Ny && 0 <= i < Nx
      ensures (r[j][i] < Radius ==> depth[j, i] == Elevation) &&
        (Radius <= r[j][i] < Radius + SlopeWidth ==> Elevation <= depth[j, i] < DeepOcean) &&
        (Radius + SlopeWidth <= r[j][i] ==> depth[j, i] == DeepOcean) &&
        depth[j, i] >= Elevation > 0.0
    {
      ElevatedBands(r[j][i], Radius, SlopeWidth, Elevation);
      ElevatedNeverDry(r[j][i], Radius, SlopeWidth, Elevation);
    }
    forall j1, i1, j2, i2 | 0 <= j1 < Ny && 0 <= i1 < Nx && 0 <= j2 < Ny && 0 <= i2 < Nx &&
      r[j1][i1] <= r[j2][i2]
      ensures depth[j1, i1] <= depth[j2, i2]
    {
      ElevatedMonotone(r[j1][i1], r[j2][i2], Radius, SlopeWidth, Elevation);
    }
  }
}
