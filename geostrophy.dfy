/** Geostrophic balance: the velocity that balances a sea-surface slope,
    `u = -(g / f) * d(eta)/dy` and `v = (g / f) * d(eta)/dx`, with the
    Coriolis parameter `f` constant along each grid row (f-plane or
    beta-plane in y). */
module Geostrophy {
  import opened Grid

  /** Coriolis parameter on a beta plane, `f0 + beta * (y - 0)`: every
      generator takes its reference latitude at y = 0. It is `f0` on an
      f-plane (`beta == 0`) and never below `f0` north of the reference. */
  function Coriolis(f0: real, beta: real, y: real): (f: real)
    ensures beta == 0.0 ==> f == f0
    ensures beta >= 0.0 && y >= 0.0 ==> f >= f0
  {
    f0 + beta * (y - 0.0)
  }

  /** Zonal velocity balancing a meridional slope. */
  function BalancedU(g: real, f: real, dEtaDy: real): (u: real)
    requires f != 0.0
    ensures dEtaDy == 0.0 ==> u == 0.0
  {
    -(g / f) * dEtaDy
  }

  /** Meridional velocity balancing a zonal slope. */
  function BalancedV(g: real, f: real, dEtaDx: real): (v: real)
    requires f != 0.0
    ensures dEtaDx == 0.0 ==> v == 0.0
  {
    (g / f) * dEtaDx
  }

  /** The balance is invertible: the slope is recovered from the velocity. */
  lemma BalanceInverts(g: real, f: real, dEtaDx: real, dEtaDy: real)
    requires f != 0.0 && g != 0.0
    ensures dEtaDy == -(f / g) * BalancedU(g, f, dEtaDy)
    ensures dEtaDx == (f / g) * BalancedV(g, f, dEtaDx)
  {
    assert (f / g) * (g / f) == 1.0;
  }

  /** Balanced flow runs along the height contours: the velocity is
      orthogonal to the height gradient. */
  lemma BalanceFollowsContours(g: real, f: real, dEtaDx: real, dEtaDy: real)
    requires f != 0.0
    ensures BalancedU(g, f, dEtaDy) * dEtaDx + BalancedV(g, f, dEtaDx) * dEtaDy == 0.0
  {
    var k := g / f;
    assert BalancedU(g, f, dEtaDy) * dEtaDx == -(k * dEtaDy * dEtaDx);
    assert BalancedV(g, f, dEtaDx) * dEtaDy == k * dEtaDx * dEtaDy;
  }

  /** With `g > 0` and `f > 0`, u flows east exactly where the surface
      falls to the north, and v flows north exactly where it rises to the
      east (clockwise round a high in the northern hemisphere). */
  lemma BalanceSigns(g: real, f: real, dEtaDx: real, dEtaDy: real)
    requires g > 0.0 && f > 0.0
    ensures BalancedU(g, f, dEtaDy) > 0.0 <==> dEtaDy < 0.0
    ensures BalancedV(g, f, dEtaDx) > 0.0 <==> dEtaDx > 0.0
  {
    var k := g / f;
    assert k > 0.0;
    SignOfProduct(k, dEtaDy);
    SignOfProduct(k, dEtaDx);
  }

  /** `u = -(g / f) * dEtaDy` on a field, `f[j]` being the Coriolis
      parameter of row j (numpy broadcasting of a column vector). */
  function BalancedUField(g: real, f: seq<real>, dEtaDy: Field, ny: nat, nx: nat): (u: Field)
    requires Shaped(dEtaDy, ny, nx) && |f| == ny
    requires forall j | 0 <= j < ny :: f[j] != 0.0
    ensures Shaped(u, ny, nx)
  {
    seq(ny, j requires 0 <= j < ny =>
      seq(nx, i requires 0 <= i < nx => BalancedU(g, f[j], dEtaDy[j][i])))
  }

  /** `v = (g / f) * dEtaDx` on a field. */
  function BalancedVField(g: real, f: seq<real>, dEtaDx: Field, ny: nat, nx: nat): (v: Field)
    requires Shaped(dEtaDx, ny, nx) && |f| == ny
    requires forall j | 0 <= j < ny :: f[j] != 0.0
    ensures Shaped(v, ny, nx)
  {
    seq(ny, j requires 0 <= j < ny =>
      seq(nx, i requires 0 <= i < nx => BalancedV(g, f[j], dEtaDx[j][i])))
  }

  /** Field form of the inversion and of the contour property. */
  lemma BalancedFields(g: real, f: seq<real>, dEtaDy: Field, dEtaDx: Field, ny: nat, nx: nat)
    requires Shaped(dEtaDy, ny, nx) && Shaped(dEtaDx, ny, nx) && |f| == ny
    requires forall j | 0 <= j < ny :: f[j] != 0.0
    ensures var u, v := BalancedUField(g, f, dEtaDy, ny, nx), BalancedVField(g, f, dEtaDx, ny, nx);
      forall j, i | 0 <= j < ny && 0 <= i < nx ::
        u[j][i] * dEtaDx[j][i] + v[j][i] * dEtaDy[j][i] == 0.0 &&
        (g != 0.0 ==> dEtaDy[j][i] == -(f[j] / g) * u[j][i] && dEtaDx[j][i] == (f[j] / g) * v[j][i])
  {
    forall j, i | 0 <= j < ny && 0 <= i < nx
      ensures BalancedU(g, f[j], dEtaDy[j][i]) * dEtaDx[j][i] + BalancedV(g, f[j], dEtaDx[j][i]) * dEtaDy[j][i] == 0.0
      ensures g != 0.0 ==>
        dEtaDy[j][i] == -(f[j] / g) * BalancedU(g, f[j], dEtaDy[j][i]) &&
        dEtaDx[j][i] == (f[j] / g) * BalancedV(g, f[j], dEtaDx[j][i])
    {
      BalanceFollowsContours(g, f[j], dEtaDx[j][i], dEtaDy[j][i]);
      if g != 0.0 {
        BalanceInverts(g, f[j], dEtaDx[j][i], dEtaDy[j][i]);
      }
    }
  }

  /** With `g > 0` and a positive Coriolis parameter on every row, the
      sign rules of `BalanceSigns` hold at every cell of the fields. */
  lemma BalancedFieldSigns(g: real, f: seq<real>, dEtaDy: Field, dEtaDx: Field, ny: nat, nx: nat)
    requires Shaped(dEtaDy, ny, nx) && Shaped(dEtaDx, ny, nx) && |f| == ny
    requires g > 0.0 && forall j | 0 <= j < ny :: f[j] > 0.0
    ensures var u, v := BalancedUField(g, f, dEtaDy, ny, nx), BalancedVField(g, f, dEtaDx, ny, nx);
      forall j, i | 0 <= j < ny && 0 <= i < nx ::
        (u[j][i] > 0.0 <==> dEtaDy[j][i] < 0.0) && (v[j][i] > 0.0 <==> dEtaDx[j][i] > 0.0)
  {
    forall j, i | 0 <= j < ny && 0 <= i < nx
      ensures BalancedU(g, f[j], dEtaDy[j][i]) > 0.0 <==> dEtaDy[j][i] < 0.0
      ensures BalancedV(g, f[j], dEtaDx[j][i]) > 0.0 <==> dEtaDx[j][i] > 0.0
    {
      BalanceSigns(g, f[j], dEtaDx[j][i], dEtaDy[j][i]);
    }
  }
}
