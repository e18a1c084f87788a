/** Balanced initial state on a doubly periodic 1024 km square of 256 by
    256 cells: a Gaussian height anomaly, its centred periodic gradients
    at cell centres, a beta-plane Coriolis parameter and the geostrophic
    velocity. */
module GenInit {
  import opened Grid
  import opened Stencil
  import opened Geostrophy

  const Lx: real := 1024.0e3
  const Ly: real := 1024.0e3
  const Nx: nat := 256
  const Ny: nat := 256
  const Dx: real := Lx / Nx as real
  const Dy: real := Ly / Ny as real

  const G: real := 9.81
  const F0: real := 5.0e-5
  const Beta: real := 2.0e-11

  const EddyX: real := 250.0e3
  const EddyY: real := 512.0e3
  const EddyRadius: real := 60.0e3
  const EddyAmplitude: real := 0.25

  /** Cell-centre coordinates `(k + 0.5) * (L / N)` along x and y. */
  function Xs(): (xs: seq<real>)
    ensures |xs| == Nx
  {
    CentreAxis(Nx, Lx)
  }

  function Ys(): (ys: seq<real>)
    ensures |ys| == Ny
  {
    CentreAxis(Ny, Ly)
  }

  /** Every centre lies strictly inside the domain and consecutive centres
      are one cell width apart. */
  lemma CentresInside(k: nat)
    requires k < Nx
    ensures 0.0 < Xs()[k] < Lx && 0.0 < Ys()[k] < Ly
    ensures k + 1 < Nx ==> Xs()[k + 1] - Xs()[k] == Dx && Ys()[k + 1] - Ys()[k] == Dy
  {
    CellCentreInside(k, Lx, Nx);
    CellCentreInside(k, Ly, Ny);
  }

  /** `etan = eta0 * exp(-0.5 * r2 / R^2)` on the cell centres. */
  function Etan(exp: real -> real): (eta: Field)
    ensures Shaped(eta, Ny, Nx)
  {
    seq(Ny, j requires 0 <= j < Ny =>
      seq(Nx, i requires 0 <= i < Nx =>
        EddyAmplitude * exp(-0.5 * SquaredDistance(Xs()[i], Ys()[j], EddyX, EddyY) /
                            (EddyRadius * EddyRadius))))
  }

  /** The anomaly depends on a cell only through its squared distance from
      the eddy centre. */
  lemma EtanRadial(exp: real -> real, j1: nat, i1: nat, j2: nat, i2: nat)
    requires j1 < Ny && i1 < Nx && j2 < Ny && i2 < Nx
    requires SquaredDistance(Xs()[i1], Ys()[j1], EddyX, EddyY) ==
             SquaredDistance(Xs()[i2], Ys()[j2], EddyX, EddyY)
    ensures Etan(exp)[j1][i1] == Etan(exp)[j2][i2]
  {
  }

  /** Centred periodic gradients of a height field at the cell centres. */
  function DEtaDx(eta: Field): (d: Field)
    requires Shaped(eta, Ny, Nx)
    ensures Shaped(d, Ny, Nx)
  {
    CentredDiffX(eta, Dx)
  }

  function DEtaDy(eta: Field): (d: Field)
    requires Shaped(eta, Ny, Nx)
    ensures Shaped(d, Ny, Nx)
  {
    CentredDiffY(eta, Ny, Nx, Dy)
  }

  /** Each gradient uses the two neighbours of the cell; the edge cells use
      the opposite edge. */
  lemma GradientsAt(eta: Field, j: nat, i: nat)
    requires Shaped(eta, Ny, Nx) && j < Ny && i < Nx
    ensures DEtaDx(eta)[j][i] == (eta[j][Next(i, Nx)] - eta[j][Prev(i, Nx)]) / (2.0 * Dx)
    ensures DEtaDy(eta)[j][i] == (eta[Next(j, Ny)][i] - eta[Prev(j, Ny)][i]) / (2.0 * Dy)
    ensures i == 0 ==> Prev(i, Nx) == Nx - 1
    ensures j == Ny - 1 ==> Next(j, Ny) == 0
  {
    CentredDiffXAt(eta, Ny, Nx, Dx, j, i);
    CentredDiffYAt(eta, Ny, Nx, Dy, j, i);
  }

  /** The periodic gradients telescope: every row of `deta_dx` and every
      column of `deta_dy` sums to zero. */
  lemma GradientsTelescope(eta: Field, j: nat, i: nat)
    requires Shaped(eta, Ny, Nx) && j < Ny && i < Nx
    ensures Sum(DEtaDx(eta)[j]) == 0.0
    ensures Sum(Column(DEtaDy(eta), i)) == 0.0
  {
    CentredDiffXRowSum(eta, Ny, Nx, Dx, j);
    CentredDiffYColumnSum(eta, Ny, Nx, Dy, i);
  }

  /** `f = f0 + beta * (Y - 0)`, one value per row of cell centres. Every
      centre lies north of y = 0, so `f >= f0 > 0` and `g / f` is defined. */
  function CoriolisRows(): (f: seq<real>)
    ensures |f| == Ny
    ensures forall j | 0 <= j < Ny :: f[j] >= F0 > 0.0
  {
    var f := seq(Ny, j requires 0 <= j < Ny => Coriolis(F0, Beta, Ys()[j]));
    assert forall j | 0 <= j < Ny :: f[j] >= F0 by {
      forall j | 0 <= j < Ny ensures f[j] >= F0 {
        CellCentreInside(j, Ly, Ny);
      }
    }
    f
  }

  /** `u = -(g / f) * deta_dy` and `v = (g / f) * deta_dx`. */
  function U(eta: Field): (u: Field)
    requires Shaped(eta, Ny, Nx)
    ensures Shaped(u, Ny, Nx)
  {
    BalancedUField(G, CoriolisRows(), DEtaDy(eta), Ny, Nx)
  }

  function V(eta: Field): (v: Field)
    requires Shaped(eta, Ny, Nx)
    ensures Shaped(v, Ny, Nx)
  {
    BalancedVField(G, CoriolisRows(), DEtaDx(eta), Ny, Nx)
  }

  /** The initial velocity is balanced: it runs along the height contours,
      recovers the gradient, and flows east exactly where the height falls
      to the north and north exactly where it rises to the east. */
  lemma VelocityBalanced(eta: Field, j: nat, i: nat)
    requires Shaped(eta, Ny, Nx) && j < Ny && i < Nx
    ensures U(eta)[j][i] * DEtaDx(eta)[j][i] + V(eta)[j][i] * DEtaDy(eta)[j][i] == 0.0
    ensures DEtaDy(eta)[j][i] == -(CoriolisRows()[j] / G) * U(eta)[j][i]
    ensures DEtaDx(eta)[j][i] == (CoriolisRows()[j] / G) * V(eta)[j][i]
    ensures U(eta)[j][i] > 0.0 <==> DEtaDy(eta)[j][i] < 0.0
    ensures V(eta)[j][i] > 0.0 <==> DEtaDx(eta)[j][i] > 0.0
  {
    var f := CoriolisRows()[j];
    BalanceFollowsContours(G, f, DEtaDx(eta)[j][i], DEtaDy(eta)[j][i]);
    BalanceInverts(G, f, DEtaDx(eta)[j][i], DEtaDy(eta)[j][i]);
    BalanceSigns(G, f, DEtaDx(eta)[j][i], DEtaDy(eta)[j][i]);
  }

  /** A height field constant along x has no x-gradient and hence no v; one
      constant along y has no y-gradient and hence no u. */
  lemma UniformHeightGivesNoFlow(eta: Field)
    requires Shaped(eta, Ny, Nx)
    ensures (forall j, i | 0 <= j < Ny && 0 <= i < Nx :: eta[j][i] == eta[j][0]) ==>
      forall j, i | 0 <= j < Ny && 0 <= i < Nx :: V(eta)[j][i] == 0.0
    ensures (forall j, i | 0 <= j < Ny && 0 <= i < Nx :: eta[j][i] == eta[0][i]) ==>
      forall j, i | 0 <= j < Ny && 0 <= i < Nx :: U(eta)[j][i] == 0.0
  {
    if forall j, i | 0 <= j < Ny && 0 <= i < Nx :: eta[j][i] == eta[j][0] {
      CentredDiffXOfZonallyUniform(eta, Ny, Nx, Dx);
    }
    if forall j, i | 0 <= j < Ny && 0 <= i < Nx :: eta[j][i] == eta[0][i] {
      CentredDiffYOfMeridionallyUniform(eta, Ny, Nx, Dy);
    }
  }
}
