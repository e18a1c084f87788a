/** The combined generator: the sloped-rim island of the ideal case
    (50 km core at (300 km, 250 km), 30 km flank, 1000 m basin of 200 by
    100 cells of 5 km) and a Gaussian eddy of 0.5 m and 100 km radius
    centred at (800 km, 250 km). */
module GenBathyEtaCombined {
  import opened Grid
  import opened Island
  import opened Eddy

  const Nx: nat := 200
  const Ny: nat := 100
  const Spacing: real := 5.0e3
  const IslandX: real := 300.0e3
  const IslandY: real := 250.0e3
  const Radius: real := 50.0e3
  const SlopeWidth: real := 30.0e3
  const EddyX: real := 800.0e3
  const EddyY: real := 250.0e3
  const EddyRadius: real := 100.0e3
  const EddyAmplitude: real := 0.5

  /** The mesh the eddy is sampled on: `np.arange(n) * 5 km` on both axes. */
  function Xs(): (xs: seq<real>)
    ensures |xs| == Nx && xs[0] == 0.0
    ensures forall k | 0 <= k < Nx - 1 :: xs[k + 1] - xs[k] == Spacing
  {
    Axis(Nx, Spacing)
  }

  function Ys(): (ys: seq<real>)
    ensures |ys| == Ny && ys[0] == 0.0
    ensures forall k | 0 <= k < Ny - 1 :: ys[k + 1] - ys[k] == Spacing
  {
    Axis(Ny, Spacing)
  }

  /** The initial sea-surface height, `0.5 * exp(-r2 / (2 * R^2))`. */
  function InitialEta(exp: real -> real): (eta: Field)
    ensures Shaped(eta, Ny, Nx)
  {
    SshField(Xs(), Ys(), EddyX, EddyY, EddyRadius, EddyAmplitude, exp)
  }

  /** Builds depth and initial height. The depth is 0 exactly on the
      closed core `r <= radius`, 1000 m beyond the flank, the linear
      ramp `1000 * (r - radius) / slope` on the flank, within
      `[0, 1000]` everywhere and non-decreasing with distance. */
  method Generate(r: Field, exp: real -> real) returns (depth: array2<real>, eta: Field)
    requires IsDistanceField(r, Xs(), Ys(), IslandX, IslandY)
    ensures fresh(depth)
    ensures depth.Length0 == Ny && depth.Length1 == Nx
    ensures forall j, i | 0 <= j < Ny && 0 <= i < Nx ::
      depth[j, i] == SlopedRimDepth(r[j][i], Radius, SlopeWidth)
    ensures forall j, i | 0 <= j < Ny && 0 <= i < Nx ::
      0.0 <= depth[j, i] <= DeepOcean &&
      (depth[j, i] == 0.0 <==> r[j][i] <= Radius) &&
      (Radius <= r[j][i] < Radius + SlopeWidth ==>
        depth[j, i] == DeepOcean * (r[j][i] - Radius) / SlopeWidth) &&
      (Radius + SlopeWidth <= r[j][i] ==> depth[j, i] == DeepOcean)
    ensures forall j1, i1, j2, i2 | 0 <= j1 < Ny && 0 <= i1 < Nx && 0 <= j2 < Ny && 0 <= i2 < Nx ::
      r[j1][i1] <= r[j2][i2] ==> depth[j1, i1] <= depth[j2, i2]
    ensures eta == InitialEta(exp)
  {
    depth := RasteriseSlopedRim(r, Ny, Nx, Radius, SlopeWidth);
    eta := InitialEta(exp);
    forall j, i | 0 <= j < Ny && 0 <= i < Nx
      ensures 0.0 <= depth[j, i] <= DeepOcean &&
        (depth[j, i] == 0.0 <==> r[j][i] <= Radius) &&
        (Radius <= r[j][i] < Radius + SlopeWidth ==>
          depth[j, i] == DeepOcean * (r[j][i] - Radius) / SlopeWidth) &&
        (Radius + SlopeWidth <= r[j][i] ==> depth[j, i] == DeepOcean)
    {
      SlopedRimBands(r[j][i], Radius, SlopeWidth);
      SlopedRimRange(r[j][i], Radius, SlopeWidth);
    }
    forall j1, i1, j2, i2 | 0 <= j1 < Ny && 0 <= i1 < Nx && 0 <= j2 < Ny && 0 <= i2 < Nx &&
      r[j1][i1] <= r[j2][i2]
      ensures depth[j1, i1] <= depth[j2, i2]
    {
      SlopedRimMonotone(r[j1][i1], r[j2][i2], Radius, SlopeWidth);
    }
  }

  /** The height depends on a cell only through its squared distance from
      the eddy centre, and cells mirrored about the centre row or column
      agree. */
  lemma EtaRadial(exp: real -> real, j1: nat, i1: nat, j2: nat, i2: nat)
    requires j1 < Ny && i1 < Nx && j2 < Ny && i2 < Nx
    requires SquaredDistance(Xs()[i1], Ys()[j1], EddyX, EddyY) ==
             SquaredDistance(Xs()[i2], Ys()[j2], EddyX, EddyY)
    ensures InitialEta(exp)[j1][i1] == InitialEta(exp)[j2][i2]
  {
    SshRadial(Xs(), Ys(), EddyX, EddyY, EddyRadius, EddyAmplitude, exp, j1, i1, j2, i2);
  }

  /** Rows 50 - k and 50 + k lie at the same distance north and south of
      the eddy centre (y = 250 km), so they carry the same height. */
  lemma EtaSymmetricInY(exp: real -> real, k: nat, i: nat)
    requires k <= 49 && i < Nx
    ensures InitialEta(exp)[50 - k][i] == InitialEta(exp)[50 + k][i]
  {
    assert Ys()[50 - k] - EddyY == EddyY - Ys()[50 + k];
    SshMirror(Xs(), Ys(), EddyX, EddyY, EddyRadius, EddyAmplitude, exp, 50 - k, i, 50 + k, i);
  }

  /** The cell (row 50, column 180) at (900 km, 250 km) lies one eddy
      radius east of the centre, where the height is `0.5 * exp(-1/2)`. */
  lemma EtaOneRadiusOut(exp: real -> real)
    ensures InitialEta(exp)[50][180] == EddyAmplitude * exp(-0.5)
  {
    assert Xs()[180] == 900.0e3 && Ys()[50] == EddyY;
    assert SquaredDistance(Xs()[180], Ys()[50], EddyX, EddyY) == EddyRadius * EddyRadius;
    assert -(EddyRadius * EddyRadius) / Spread(EddyRadius) == -0.5;
  }
}
