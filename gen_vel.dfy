/** Velocity initialisation on the Arakawa C-grid: the height field is made
    mean-free, and its backward differences are mapped to the faces: the
    y-difference to the u-faces (south faces, row j at `y = j * dy`) and
    the x-difference to the v-faces (north faces, row j at
    `y = (j + 1) * dy`). They are balanced geostrophically with the Coriolis
    parameter at each face, and the velocities that would use a wrapped
    neighbour are zeroed. Face values are averaged back to cell centres for
    display. */
module GenVel {
  import opened Grid
  import opened Stencil
  import opened Geostrophy

  const Nx: nat := 200
  const Ny: nat := 100
  const Dx: real := 5.0e3
  const Dy: real := 5.0e3
  const G: real := 9.81
  /** An f-plane for now: `beta = 0`. */
  const F0: real := 5.0e-5
  const Beta: real := 0.0

  /** `eta -= eta.mean()` in place: every entry is lowered by the mean of
      the old field, so the entries of the new field sum to zero. */
  method RemoveMean(eta: array2<real>)
    requires eta.Length0 > 0 && eta.Length1 > 0
    modifies eta
    ensures Contents(eta) == Shift(old(Contents(eta)), Mean(old(Contents(eta)), eta.Length0, eta.Length1))
    ensures Total(Contents(eta)) == 0.0
  {
    ghost var before := Contents(eta);
    var m := Mean(Contents(eta), eta.Length0, eta.Length1);
    forall j, i | 0 <= j < eta.Length0 && 0 <= i < eta.Length1 {
      eta[j, i] := eta[j, i] - m;
    }
    ShiftedContents(eta, before, m);
    MeanRemovedTotalIsZero(before, eta.Length0, eta.Length1);
  }

  lemma ShiftedContents(a: array2<real>, before: Field, m: real)
    requires Shaped(before, a.Length0, a.Length1)
    requires forall j, i | 0 <= j < a.Length0 && 0 <= i < a.Length1 :: a[j, i] == before[j][i] - m
    ensures Contents(a) == Shift(before, m)
  {
    var after, shifted := Contents(a), Shift(before, m);
    forall j | 0 <= j < a.Length0 ensures after[j] == shifted[j] {
      assert |after[j]| == |shifted[j]|;
    }
  }

  /** Coriolis parameter on the u-faces, row j at `y = j * dy`, and on the
      v-faces, row j at `y = (j + 1) * dy`. On an f-plane both are `f0`;
      with `beta, dy >= 0` neither falls below `f0`. */
  function FaceCoriolisU(ny: nat, dy: real, f0: real, beta: real): (f: seq<real>)
    ensures |f| == ny
    ensures beta == 0.0 ==> forall j | 0 <= j < ny :: f[j] == f0
    ensures beta >= 0.0 && dy >= 0.0 ==> forall j | 0 <= j < ny :: f[j] >= f0
  {
    seq(ny, j requires 0 <= j < ny => Coriolis(f0, beta, GridPoint(j, dy)))
  }

  function FaceCoriolisV(ny: nat, dy: real, f0: real, beta: real): (f: seq<real>)
    ensures |f| == ny
    ensures beta == 0.0 ==> forall j | 0 <= j < ny :: f[j] == f0
    ensures beta >= 0.0 && dy >= 0.0 ==> forall j | 0 <= j < ny :: f[j] >= f0
  {
    seq(ny, j requires 0 <= j < ny => Coriolis(f0, beta, GridPoint(j + 1, dy)))
  }

  /** Under the configured constants every face carries `f0 = 5e-5`, so the
      division by `f` is safe. */
  lemma ConfiguredFacesCoriolis()
    ensures forall j | 0 <= j < Ny :: FaceCoriolisU(Ny, Dy, F0, Beta)[j] == F0 > 0.0
    ensures forall j | 0 <= j < Ny :: FaceCoriolisV(Ny, Dy, F0, Beta)[j] == F0 > 0.0
  {
  }

  /** `uU = -(g / fU) * (eta - roll(eta, 1, axis=0)) / dy` on the u-faces. */
  function FaceU(eta: Field): (u: Field)
    requires Shaped(eta, Ny, Nx)
    ensures Shaped(u, Ny, Nx)
  {
    BalancedUField(G, FaceCoriolisU(Ny, Dy, F0, Beta), BackwardDiffY(eta, Ny, Nx, Dy), Ny, Nx)
  }

  /** `vV = (g / fV) * (eta - roll(eta, 1, axis=1)) / dx` on the v-faces. */
  function FaceV(eta: Field): (v: Field)
    requires Shaped(eta, Ny, Nx)
    ensures Shaped(v, Ny, Nx)
  {
    BalancedVField(G, FaceCoriolisV(Ny, Dy, F0, Beta), BackwardDiffX(eta, Dx), Ny, Nx)
  }

  /** Each face velocity is the balance of the one-sided difference with the
      southern (u) or western (v) neighbour; row 0 of u and column 0 of v
      reach across the periodic seam to the last row or column. */
  lemma FaceVelocitiesAt(eta: Field, j: nat, i: nat)
    requires Shaped(eta, Ny, Nx) && j < Ny && i < Nx
    ensures FaceU(eta)[j][i] == BalancedU(G, F0, (eta[j][i] - eta[Prev(j, Ny)][i]) / Dy)
    ensures FaceV(eta)[j][i] == BalancedV(G, F0, (eta[j][i] - eta[j][Prev(i, Nx)]) / Dx)
  {
    BackwardDiffYAt(eta, Ny, Nx, Dy, j, i);
    BackwardDiffXAt(eta, Ny, Nx, Dx, j, i);
  }

  /** The periodic differences the face velocities are built from
      telescope: every column of the y-difference (behind u) and every row
      of the x-difference (behind v) sums to zero before the boundaries are
      tamed. */
  lemma FaceVelocitiesTelescope(eta: Field, j: nat, i: nat)
    requires Shaped(eta, Ny, Nx) && j < Ny && i < Nx
    ensures Sum(Column(BackwardDiffY(eta, Ny, Nx, Dy), i)) == 0.0
    ensures Sum(BackwardDiffX(eta, Dx)[j]) == 0.0
  {
    BackwardDiffYColumnSum(eta, Ny, Nx, Dy, i);
    BackwardDiffXRowSum(eta, Ny, Nx, Dx, j);
  }

  /** `uU[0,:] = uU[-1,:] = 0` and `vV[:,0] = vV[:,-1] = 0` in place. */
  method TameBoundaries(uU: array2<real>, vV: array2<real>)
    requires uU != vV
    requires uU.Length0 > 0 && vV.Length1 > 0
    modifies uU, vV
    ensures forall j, i | 0 <= j < uU.Length0 && 0 <= i < uU.Length1 ::
      uU[j, i] == if j == 0 || j == uU.Length0 - 1 then 0.0 else old(uU[j, i])
    ensures forall j, i | 0 <= j < vV.Length0 && 0 <= i < vV.Length1 ::
      vV[j, i] == if i == 0 || i == vV.Length1 - 1 then 0.0 else old(vV[j, i])
  {
    var lastRow, lastColumn := uU.Length0 - 1, vV.Length1 - 1;
    forall i | 0 <= i < uU.Length1 {
      uU[0, i] := 0.0;
    }
    forall i | 0 <= i < uU.Length1 {
      uU[lastRow, i] := 0.0;
    }
    forall j | 0 <= j < vV.Length0 {
      vV[j, 0] := 0.0;
    }
    forall j | 0 <= j < vV.Length0 {
      vV[j, lastColumn] := 0.0;
    }
  }

  /** The whole pipeline on the loaded height field: mean removal in place,
      balanced face velocities, taming. Every surviving velocity uses only
      an unwrapped neighbour of the mean-free field; the tamed rows and
      columns are zero. */
  method Generate(eta: array2<real>) returns (uU: array2<real>, vV: array2<real>)
    requires eta.Length0 == Ny && eta.Length1 == Nx
    modifies eta
    ensures Contents(eta) == Shift(old(Contents(eta)), Mean(old(Contents(eta)), Ny, Nx))
    ensures Total(Contents(eta)) == 0.0
    ensures fresh(uU) && fresh(vV)
    ensures uU.Length0 == Ny && uU.Length1 == Nx && vV.Length0 == Ny && vV.Length1 == Nx
    ensures forall j, i | 0 <= j < Ny && 0 <= i < Nx ::
      uU[j, i] == if j == 0 || j == Ny - 1 then 0.0
                  else BalancedU(G, F0, (eta[j, i] - eta[j - 1, i]) / Dy)
    ensures forall j, i | 0 <= j < Ny && 0 <= i < Nx ::
      vV[j, i] == if i == 0 || i == Nx - 1 then 0.0
                  else BalancedV(G, F0, (eta[j, i] - eta[j, i - 1]) / Dx)
  {
    RemoveMean(eta);
    var e := Contents(eta);
    uU := FromField(FaceU(e), Ny, Nx);
    vV := FromField(FaceV(e), Ny, Nx);
    forall j, i | 0 <= j < Ny && 0 <= i < Nx
      ensures uU[j, i] == BalancedU(G, F0, (e[j][i] - e[Prev(j, Ny)][i]) / Dy)
      ensures vV[j, i] == BalancedV(G, F0, (e[j][i] - e[j][Prev(i, Nx)]) / Dx)
    {
      FaceVelocitiesAt(e, j, i);
    }
    TameBoundaries(uU, vV);
  }

  /** `uc = 0.5 * (uU + roll(uU, -1, axis=0))`, the u-face values averaged
      to cell centres. */
  function CentreU(uU: Field): (uc: Field)
    requires Shaped(uU, Ny, Nx)
    ensures Shaped(uc, Ny, Nx)
  {
    ForwardAverageY(uU, Ny, Nx)
  }

  /** `vc = 0.5 * (vV + roll(vV, -1, axis=1))`. */
  function CentreV(vV: Field): (vc: Field)
    requires Shaped(vV, Ny, Nx)
    ensures Shaped(vc, Ny, Nx)
  {
    ForwardAverageX(vV, Ny, Nx)
  }

  /** On tamed faces the centre averages never mix the two sides of the
      periodic seam: a centre averages the face below it with the one
      above, the last row (column) averages two zeroed faces and is 0. */
  lemma CentresOfTamedFaces(uU: Field, vV: Field, j: nat, i: nat)
    requires Shaped(uU, Ny, Nx) && Shaped(vV, Ny, Nx) && j < Ny && i < Nx
    requires forall k | 0 <= k < Nx :: uU[0][k] == 0.0 && uU[Ny - 1][k] == 0.0
    requires forall k | 0 <= k < Ny :: vV[k][0] == 0.0 && vV[k][Nx - 1] == 0.0
    ensures CentreU(uU)[j][i] == if j == Ny - 1 then 0.0 else 0.5 * (uU[j][i] + uU[j + 1][i])
    ensures CentreV(vV)[j][i] == if i == Nx - 1 then 0.0 else 0.5 * (vV[j][i] + vV[j][i + 1])
  {
    ForwardAverageYAt(uU, Ny, Nx, j, i);
    ForwardAverageXAt(vV, Ny, Nx, j, i);
  }
}
