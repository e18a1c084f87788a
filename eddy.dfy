/** The Gaussian sea-surface-height anomaly of an isolated eddy,
    `amp * exp(-r2 / (2 * radius^2))`, sampled on a mesh. The exponential
    itself is supplied by the caller (`exp`), so what is established here
    is the structure of the field, not its transcendental values. */
module Eddy {
  import opened Grid

  /** The denominator `2 * radius^2` of the exponent. */
  function Spread(radius: real): real {
    2.0 * radius * radius
  }

  /** Height anomaly at squared distance `r2` from the eddy centre. */
  function Gaussian(amp: real, radius: real, r2: real, exp: real -> real): real
    requires Spread(radius) != 0.0
  {
    amp * exp(-r2 / Spread(radius))
  }

  /** The anomaly on the mesh `xs` (columns) by `ys` (rows), centred at
      `(ex, ey)`. */
  function SshField(xs: seq<real>, ys: seq<real>, ex: real, ey: real, radius: real, amp: real,
                    exp: real -> real): (eta: Field)
    requires Spread(radius) != 0.0
    ensures Shaped(eta, |ys|, |xs|)
  {
    seq(|ys|, j requires 0 <= j < |ys| =>
      seq(|xs|, i requires 0 <= i < |xs| =>
        Gaussian(amp, radius, SquaredDistance(xs[i], ys[j], ex, ey), exp)))
  }

  /** The field is radial: two cells at the same squared distance from the
      centre carry the same height. */
  lemma SshRadial(xs: seq<real>, ys: seq<real>, ex: real, ey: real, radius: real, amp: real,
                  exp: real -> real, j1: nat, i1: nat, j2: nat, i2: nat)
    requires Spread(radius) != 0.0
    requires j1 < |ys| && i1 < |xs| && j2 < |ys| && i2 < |xs|
    requires SquaredDistance(xs[i1], ys[j1], ex, ey) == SquaredDistance(xs[i2], ys[j2], ex, ey)
    ensures SshField(xs, ys, ex, ey, radius, amp, exp)[j1][i1] ==
            SshField(xs, ys, ex, ey, radius, amp, exp)[j2][i2]
  {
  }

  /** Cells placed symmetrically about the centre, in x or in y, carry the
      same height. */
  lemma SshMirror(xs: seq<real>, ys: seq<real>, ex: real, ey: real, radius: real, amp: real,
                  exp: real -> real, j1: nat, i1: nat, j2: nat, i2: nat)
    requires Spread(radius) != 0.0
    requires j1 < |ys| && i1 < |xs| && j2 < |ys| && i2 < |xs|
    requires xs[i1] - ex == ex - xs[i2] || xs[i1] == xs[i2]
    requires ys[j1] - ey == ey - ys[j2] || ys[j1] == ys[j2]
    ensures SshField(xs, ys, ex, ey, radius, amp, exp)[j1][i1] ==
            SshField(xs, ys, ex, ey, radius, amp, exp)[j2][i2]
  {
    var a, b := xs[i1] - ex, xs[i2] - ex;
    var c, d := ys[j1] - ey, ys[j2] - ey;
    assert a * a == b * b by {
      if a == -b { assert a * a == (-b) * (-b); }
    }
    assert c * c == d * d by {
      if c == -d { assert c * c == (-d) * (-d); }
    }
    SshRadial(xs, ys, ex, ey, radius, amp, exp, j1, i1, j2, i2);
  }

  /** At a cell that sits on the centre the height is the amplitude
      (given `exp(0) == 1`). */
  lemma SshPeak(xs: seq<real>, ys: seq<real>, ex: real, ey: real, radius: real, amp: real,
                exp: real -> real, j: nat, i: nat)
    requires Spread(radius) != 0.0 && exp(0.0) == 1.0
    requires j < |ys| && i < |xs| && xs[i] == ex && ys[j] == ey
    ensures SshField(xs, ys, ex, ey, radius, amp, exp)[j][i] == amp
  {
    assert SquaredDistance(xs[i], ys[j], ex, ey) == 0.0;
    GaussianAtCentre(amp, radius, exp);
  }

  lemma GaussianAtCentre(amp: real, radius: real, exp: real -> real)
    requires Spread(radius) != 0.0
    ensures Gaussian(amp, radius, 0.0, exp) == amp * exp(0.0)
  {
    ZeroDividend(Spread(radius));
  }

  /** Where the exponential is positive, the anomaly has the sign of the
      amplitude: a positive amplitude makes a high, a negative one a low. */
  lemma GaussianSign(amp: real, radius: real, r2: real, exp: real -> real)
    requires Spread(radius) != 0.0 && exp(-r2 / Spread(radius)) > 0.0
    ensures Gaussian(amp, radius, r2, exp) > 0.0 <==> amp > 0.0
    ensures Gaussian(amp, radius, r2, exp) < 0.0 <==> amp < 0.0
  {
    var e := exp(-r2 / Spread(radius));
    assert Gaussian(amp, radius, r2, exp) == e * amp;
    SignOfProduct(e, amp);
  }

  lemma ZeroDividend(d: real)
    requires d != 0.0
    ensures -0.0 / d == 0.0
  {
    var q := -0.0 / d;
    assert q * d == -0.0;
  }

  /** A positive amplitude and a positive exponential give a positive
      anomaly everywhere (a high, anticyclonic in the northern hemisphere). */
  lemma SshPositive(xs: seq<real>, ys: seq<real>, ex: real, ey: real, radius: real, amp: real,
                    exp: real -> real)
    requires Spread(radius) != 0.0 && amp > 0.0
    requires forall z :: exp(z) > 0.0
    ensures forall j, i | 0 <= j < |ys| && 0 <= i < |xs| ::
      SshField(xs, ys, ex, ey, radius, amp, exp)[j][i] > 0.0
  {
    forall j, i | 0 <= j < |ys| && 0 <= i < |xs|
      ensures SshField(xs, ys, ex, ey, radius, amp, exp)[j][i] > 0.0
    {
      var z := -SquaredDistance(xs[i], ys[j], ex, ey) / Spread(radius);
      assert exp(z) > 0.0;
      assert amp * exp(z) > 0.0;
    }
  }
}
