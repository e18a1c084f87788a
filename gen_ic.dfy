/** The two initial-condition cases of the eddy-island generator: an
    "ideal" 1000 km by 500 km basin with a sloped-rim island and a
    "test" 600 km by 400 km basin with a hard-wall island, each with a
    Gaussian eddy east of the island and the geostrophically balanced
    velocity of that eddy, zeroed over land. */
module GenIc {
  import opened Grid
  import opened Island
  import opened Eddy
  import opened Geostrophy

  /** Defaults of the balance: gravity and an f-plane Coriolis parameter. */
  const G: real := 9.81
  const F0: real := 1.0e-4

  /** Grid spacing of both cases (5 km). */
  const Spacing: real := 5.0e3

  /** `geostrophic_from_eta` on an f-plane: the gradients of eta along y
      and x are taken as given. The result is balanced: it runs along the
      height contours, the gradient is recovered from it, and with
      `g, f0 > 0` it turns clockwise round a high. */
  function GeostrophicFromEta(dEtaDy: Field, dEtaDx: Field, ny: nat, nx: nat, g: real, f0: real)
    : (uv: (Field, Field))
    requires Shaped(dEtaDy, ny, nx) && Shaped(dEtaDx, ny, nx) && f0 != 0.0
    ensures Shaped(uv.0, ny, nx) && Shaped(uv.1, ny, nx)
    ensures forall j, i | 0 <= j < ny && 0 <= i < nx ::
      uv.0[j][i] * dEtaDx[j][i] + uv.1[j][i] * dEtaDy[j][i] == 0.0
    ensures g != 0.0 ==> forall j, i | 0 <= j < ny && 0 <= i < nx ::
      dEtaDy[j][i] == -(f0 / g) * uv.0[j][i] && dEtaDx[j][i] == (f0 / g) * uv.1[j][i]
    ensures g > 0.0 && f0 > 0.0 ==> forall j, i | 0 <= j < ny && 0 <= i < nx ::
      (uv.0[j][i] > 0.0 <==> dEtaDy[j][i] < 0.0) && (uv.1[j][i] > 0.0 <==> dEtaDx[j][i] > 0.0)
  {
    var f := seq(ny, _ => f0);
    BalancedFields(g, f, dEtaDy, dEtaDx, ny, nx);
    if g > 0.0 && f0 > 0.0 then
      BalancedFieldSigns(g, f, dEtaDy, dEtaDx, ny, nx);
      (BalancedUField(g, f, dEtaDy, ny, nx), BalancedVField(g, f, dEtaDx, ny, nx))
    else
      (BalancedUField(g, f, dEtaDy, ny, nx), BalancedVField(g, f, dEtaDx, ny, nx))
  }

  /** `a[depth == 0.0] = 0.0`: velocities vanish over land and keep their
      value over water. */
  method ZeroOnLand(a: array2<real>, depth: array2<real>)
    requires a != depth
    requires a.Length0 == depth.Length0 && a.Length1 == depth.Length1
    modifies a
    ensures forall j, i | 0 <= j < a.Length0 && 0 <= i < a.Length1 ::
      a[j, i] == if depth[j, i] == 0.0 then 0.0 else old(a[j, i])
  {
    forall j, i | 0 <= j < a.Length0 && 0 <= i < a.Length1 && depth[j, i] == 0.0 {
      a[j, i] := 0.0;
    }
  }

  // ---------------------------------------------------------------------
  // Ideal case: 200 x 100 cells, sloped-rim island at (300 km, 250 km)

  const IdealNx: nat := 200
  const IdealNy: nat := 100
  const IdealRadius: real := 50.0e3
  const IdealSlope: real := 30.0e3
  const IdealEddyX: real := 800.0e3
  const IdealEddyY: real := 250.0e3
  const IdealEddyRadius: real := 100.0e3
  const EddyAmplitude: real := 0.5

  /** The ideal case. `r` is each cell's distance from the island centre;
      `dEtaDy`, `dEtaDx` are the height gradients, supplied by the caller
      (nothing here ties them to the returned `eta`). Depth is the sloped
      rim; over the island (`r <= radius`, where the rim depth is 0) the
      velocity is zero, elsewhere it is the balanced one. */
  method GenerateIdeal(r: Field, dEtaDy: Field, dEtaDx: Field, exp: real -> real)
    returns (depth: array2<real>, eta: Field, u: array2<real>, v: array2<real>)
    requires IsDistanceField(r, Axis(IdealNx, Spacing), Axis(IdealNy, Spacing), 300.0e3, 250.0e3)
    requires Shaped(dEtaDy, IdealNy, IdealNx) && Shaped(dEtaDx, IdealNy, IdealNx)
    ensures fresh(depth) && fresh(u) && fresh(v)
    ensures depth.Length0 == IdealNy && depth.Length1 == IdealNx
    ensures u.Length0 == IdealNy && u.Length1 == IdealNx
    ensures v.Length0 == IdealNy && v.Length1 == IdealNx
    ensures forall j, i | 0 <= j < IdealNy && 0 <= i < IdealNx ::
      depth[j, i] == SlopedRimDepth(r[j][i], IdealRadius, IdealSlope)
    ensures Spread(IdealEddyRadius) != 0.0
    ensures eta == SshField(Axis(IdealNx, Spacing), Axis(IdealNy, Spacing),
                            IdealEddyX, IdealEddyY, IdealEddyRadius, EddyAmplitude, exp)
    ensures forall j, i | 0 <= j < IdealNy && 0 <= i < IdealNx ::
      u[j, i] == (if r[j][i] <= IdealRadius then 0.0 else BalancedU(G, F0, dEtaDy[j][i])) &&
      v[j, i] == (if r[j][i] <= IdealRadius then 0.0 else BalancedV(G, F0, dEtaDx[j][i]))
  {
    depth := RasteriseSlopedRim(r, IdealNy, IdealNx, IdealRadius, IdealSlope);
    eta := SshField(Axis(IdealNx, Spacing), Axis(IdealNy, Spacing),
                    IdealEddyX, IdealEddyY, IdealEddyRadius, EddyAmplitude, exp);
    var uv := GeostrophicFromEta(dEtaDy, dEtaDx, IdealNy, IdealNx, G, F0);
    u := FromField(uv.0, IdealNy, IdealNx);
    v := FromField(uv.1, IdealNy, IdealNx);
    ZeroOnLand(u, depth);
    ZeroOnLand(v, depth);
    forall j, i | 0 <= j < IdealNy && 0 <= i < IdealNx
      ensures depth[j, i] == 0.0 <==> r[j][i] <= IdealRadius
    {
      SlopedRimRange(r[j][i], IdealRadius, IdealSlope);
    }
  }

  /** The eddy of the ideal case peaks at its amplitude on the cell
      (row 50, column 160) that sits on its centre (800 km, 250 km). */
  lemma IdealEddyPeak(exp: real -> real)
    requires exp(0.0) == 1.0
    ensures Spread(IdealEddyRadius) != 0.0
    ensures SshField(Axis(IdealNx, Spacing), Axis(IdealNy, Spacing),
                     IdealEddyX, IdealEddyY, IdealEddyRadius, EddyAmplitude, exp)[50][160] == EddyAmplitude
  {
    SshPeak(Axis(IdealNx, Spacing), Axis(IdealNy, Spacing),
            IdealEddyX, IdealEddyY, IdealEddyRadius, EddyAmplitude, exp, 50, 160);
  }

  // ---------------------------------------------------------------------
  // Test case: 120 x 80 cells, hard-wall island at (200 km, 200 km)

  const TestNx: nat := 120
  const TestNy: nat := 80
  const TestRadius: real := 70.0e3
  const TestEddyX: real := 450.0e3
  const TestEddyY: real := 200.0e3
  const TestEddyRadius: real := 90.0e3

  /** The test case: depth is 0 exactly where `r < 70 km` and 1000 m
      elsewhere; the velocity is zero there and, from the caller-supplied
      gradients `dEtaDy`, `dEtaDx`, balanced elsewhere. */
  method GenerateTest(r: Field, dEtaDy: Field, dEtaDx: Field, exp: real -> real)
    returns (depth: array2<real>, eta: Field, u: array2<real>, v: array2<real>)
    requires IsDistanceField(r, Axis(TestNx, Spacing), Axis(TestNy, Spacing), 200.0e3, 200.0e3)
    requires Shaped(dEtaDy, TestNy, TestNx) && Shaped(dEtaDx, TestNy, TestNx)
    ensures fresh(depth) && fresh(u) && fresh(v)
    ensures depth.Length0 == TestNy && depth.Length1 == TestNx
    ensures u.Length0 == TestNy && u.Length1 == TestNx
    ensures v.Length0 == TestNy && v.Length1 == TestNx
    ensures forall j, i | 0 <= j < TestNy && 0 <= i < TestNx ::
      (depth[j, i] == 0.0 <==> r[j][i] < TestRadius) &&
      (depth[j, i] == 0.0 || depth[j, i] == DeepOcean)
    ensures Spread(TestEddyRadius) != 0.0
    ensures eta == SshField(Axis(TestNx, Spacing), Axis(TestNy, Spacing),
                            TestEddyX, TestEddyY, TestEddyRadius, EddyAmplitude, exp)
    ensures forall j, i | 0 <= j < TestNy && 0 <= i < TestNx ::
      u[j, i] == (if r[j][i] < TestRadius then 0.0 else BalancedU(G, F0, dEtaDy[j][i])) &&
      v[j, i] == (if r[j][i] < TestRadius then 0.0 else BalancedV(G, F0, dEtaDx[j][i]))
  {
    depth := RasteriseHardWall(r, TestNy, TestNx, TestRadius);
    eta := SshField(Axis(TestNx, Spacing), Axis(TestNy, Spacing),
                    TestEddyX, TestEddyY, TestEddyRadius, EddyAmplitude, exp);
    var uv := GeostrophicFromEta(dEtaDy, dEtaDx, TestNy, TestNx, G, F0);
    u := FromField(uv.0, TestNy, TestNx);
    v := FromField(uv.1, TestNy, TestNx);
    ZeroOnLand(u, depth);
    ZeroOnLand(v, depth);
  }

  /** The eddy of the test case peaks at its amplitude on the cell
      (row 40, column 90) on its centre (450 km, 200 km). */
  lemma TestEddyPeak(exp: real -> real)
    requires exp(0.0) == 1.0
    ensures Spread(TestEddyRadius) != 0.0
    ensures SshField(Axis(TestNx, Spacing), Axis(TestNy, Spacing),
                     TestEddyX, TestEddyY, TestEddyRadius, EddyAmplitude, exp)[40][90] == EddyAmplitude
  {
    SshPeak(Axis(TestNx, Spacing), Axis(TestNy, Spacing),
            TestEddyX, TestEddyY, TestEddyRadius, EddyAmplitude, exp, 40, 90);
  }
}
