/** The hard-wall cylinder bathymetry on the doubly periodic 1024 km square
    of 256 by 256 cells: 4000 m of ocean with land (depth 0) on the closed
    disc of radius 60 km around (600 km, 512 km), tested on squared
    distance. */
module GenBathy {
  import opened Grid
  import opened Island

  const Lx: real := 1024.0e3
  const Ly: real := 1024.0e3
  const Nx: nat := 256
  const Ny: nat := 256
  const H: real := 4000.0
  const IslandX: real := 600.0e3
  const IslandY: real := 512.0e3
  const Radius: real := 60.0e3

  /** Cell-centre coordinates `(k + 0.5) * (L / N)`. */
  function Xs(): (xs: seq<real>)
    ensures |xs| == Nx
    ensures forall k | 0 <= k < Nx :: xs[k] == (k as real + 0.5) * (Lx / Nx as real)
  {
    CentreAxis(Nx, Lx)
  }

  function Ys(): (ys: seq<real>)
    ensures |ys| == Ny
    ensures forall k | 0 <= k < Ny :: ys[k] == (k as real + 0.5) * (Ly / Ny as real)
  {
    CentreAxis(Ny, Ly)
  }

  /** Builds the field: a cell is land (0) exactly when its squared distance
      from the centre is at most `R^2` (the circle itself included) and
      ocean (`H`) otherwise, so only these two values occur, and the
      counts of ocean cells (`bathy > 0`) and land cells (`bathy == 0`)
      add up to all `Nx * Ny` cells. */
  method Generate() returns (bathy: array2<real>)
    ensures fresh(bathy)
    ensures bathy.Length0 == Ny && bathy.Length1 == Nx
    ensures forall j, i | 0 <= j < Ny && 0 <= i < Nx ::
      (bathy[j, i] == 0.0 <==> SquaredDistance(Xs()[i], Ys()[j], IslandX, IslandY) <= Radius * Radius) &&
      (bathy[j, i] == 0.0 || bathy[j, i] == H)
    ensures CountPositive(Contents(bathy)) + CountZero(Contents(bathy)) == Nx * Ny
  {
    bathy := RasteriseDisk(Xs(), Ys(), IslandX, IslandY, Radius, H);
    CountPartition(Contents(bathy), Ny, Nx);
  }
}
