/** Island rasterisation: the depth a cell receives as a function of its
    radial distance `r` from the island centre (or of its squared distance,
    where the generator compares squares), and the in-place builders that
    fill a constant field and then overwrite masked cells.

    Three policies occur: a hard wall (land 0, ocean at a constant depth),
    a sloped rim (a linear ramp from 0 up to 1000 m across a band of width
    `slope`, clamped by `min(1, ...)`), and an elevated island (the same
    ramp, but between 1000 m and a configured `elevation` instead of 0). */
module Island {
  import opened Grid

  /** Depth every generator starts from (`np.full(..., 1000.0)`). */
  const DeepOcean: real := 1000.0

  /** `np.minimum` on two scalars. */
  function Min(a: real, b: real): (m: real)
    ensures m <= a && m <= b && (m == a || m == b)
  {
    if a <= b then a else b
  }

  /** The taper weight of a cell: 0 outside the ring `r < radius + slope`,
      and `min(1, (radius + slope - r) / slope)` inside it. It is 1 exactly
      on the island core (`r <= radius`) and 0 exactly in the open ocean. */
  function Taper(r: real, radius: real, slope: real): (t: real)
    requires slope > 0.0
    ensures 0.0 <= t <= 1.0
    ensures t == 0.0 <==> radius + slope <= r
    ensures t == 1.0 <==> r <= radius
  {
    if r < radius + slope then
      var q := (radius + slope - r) / slope;
      QuotientAgainstOne(radius + slope - r, slope);
      Min(1.0, q)
    else
      0.0
  }

  /** For `0 < a` and `d > 0`: `a / d` is positive, and it is at least 1
      exactly when `a >= d`. */
  lemma QuotientAgainstOne(a: real, d: real)
    requires a > 0.0 && d > 0.0
    ensures a / d > 0.0
    ensures a / d >= 1.0 <==> a >= d
  {
    DivideStrict(0.0, a, d);
    assert 0.0 / d == 0.0;
    assert d / d == 1.0;
    if a >= d {
      DivideMonotone(d, a, d);
    } else {
      DivideStrict(a, d, d);
    }
  }

  lemma DivideStrict(a: real, b: real, d: real)
    requires d > 0.0 && a < b
    ensures a / d < b / d
  {
    var q := (b - a) / d;
    assert b / d - a / d == q;
    assert q * d == b - a;
  }

  /** Moving away from the centre never increases the taper. */
  lemma TaperNonIncreasing(r1: real, r2: real, radius: real, slope: real)
    requires slope > 0.0 && r1 <= r2
    ensures Taper(r2, radius, slope) <= Taper(r1, radius, slope)
  {
    if r2 < radius + slope {
      assert (radius + slope - r2) / slope <= (radius + slope - r1) / slope by {
        DivideMonotone(radius + slope - r2, radius + slope - r1, slope);
      }
    }
  }

  lemma DivideMonotone(a: real, b: real, d: real)
    requires d > 0.0 && a <= b
    ensures a / d <= b / d
  {
    assert b / d - a / d == (b - a) / d;
  }

  // ---------------------------------------------------------------------
  // Sloped rim (depth 0 on the island, ramp up to 1000 m)

  /** Depth after the fill and the ring assignment, before the land
      overwrite: `1000 * (1 - taper)` inside the ring, 1000 elsewhere. */
  function SlopedRamp(r: real, radius: real, slope: real): (d: real)
    requires slope > 0.0
    ensures 0.0 <= d <= DeepOcean
    ensures r <= radius ==> d == 0.0
  {
    if r < radius + slope then DeepOcean * (1.0 - Taper(r, radius, slope)) else DeepOcean
  }

  /** Final depth of a cell: the ramp, then 0 wherever `r < radius`. */
  function SlopedRimDepth(r: real, radius: real, slope: real): (d: real)
    requires slope > 0.0
    ensures 0.0 <= d <= DeepOcean
    ensures d == 0.0 <==> r <= radius
  {
    if r < radius then 0.0 else SlopedRamp(r, radius, slope)
  }

  /** The value in each of the three bands. */
  lemma SlopedRimBands(r: real, radius: real, slope: real)
    requires slope > 0.0
    ensures r < radius ==> SlopedRimDepth(r, radius, slope) == 0.0
    ensures radius <= r < radius + slope ==>
      SlopedRimDepth(r, radius, slope) == DeepOcean * (r - radius) / slope &&
      0.0 <= SlopedRimDepth(r, radius, slope) < DeepOcean
    ensures radius + slope <= r ==> SlopedRimDepth(r, radius, slope) == DeepOcean
  {
    if radius <= r < radius + slope {
      var x := (radius + slope - r) / slope;
      var y := (r - radius) / slope;
      assert x == (slope - (r - radius)) / slope == slope / slope - y;
      assert Taper(r, radius, slope) == x;
      assert DeepOcean * (r - radius) / slope == DeepOcean * y;
    }
  }

  /** The land overwrite changes nothing: the clamped ramp is already 0
      for every `r < radius`. */
  lemma SlopedRimLandOverwriteRedundant(r: real, radius: real, slope: real)
    requires slope > 0.0
    ensures SlopedRimDepth(r, radius, slope) == SlopedRamp(r, radius, slope)
  {
    if r < radius {
      assert Taper(r, radius, slope) == 1.0;
    }
  }

  /** Depth stays within `[0, 1000]`; it is 0 exactly on the closed disc
      `r <= radius` (the ramp reaches 0 on the circle itself) and 1000
      exactly from `radius + slope` outwards. */
  lemma SlopedRimRange(r: real, radius: real, slope: real)
    requires slope > 0.0
    ensures 0.0 <= SlopedRimDepth(r, radius, slope) <= DeepOcean
    ensures SlopedRimDepth(r, radius, slope) == 0.0 <==> r <= radius
    ensures SlopedRimDepth(r, radius, slope) == DeepOcean <==> radius + slope <= r
  {
    SlopedRimBands(r, radius, slope);
    if radius <= r < radius + slope {
      assert Taper(r, radius, slope) > 0.0;
    }
  }

  /** Depth never decreases with distance from the centre. */
  lemma SlopedRimMonotone(r1: real, r2: real, radius: real, slope: real)
    requires slope > 0.0 && r1 <= r2
    ensures SlopedRimDepth(r1, radius, slope) <= SlopedRimDepth(r2, radius, slope)
  {
    SlopedRimLandOverwriteRedundant(r1, radius, slope);
    SlopedRimLandOverwriteRedundant(r2, radius, slope);
    TaperNonIncreasing(r1, r2, radius, slope);
    SlopedRimRange(r1, radius, slope);
    SlopedRimRange(r2, radius, slope);
  }

  /** Builds the sloped-rim depth field in place: fill with 1000, compute
      the taper on the ring, assign the ramp on the ring, then set the
      island core to 0. `r` holds each cell's distance from the centre. */
  method RasteriseSlopedRim(r: Field, ny: nat, nx: nat, radius: real, slope: real)
    returns (depth: array2<real>)
    requires Shaped(r, ny, nx) && slope > 0.0
    ensures fresh(depth) && depth.Length0 == ny && depth.Length1 == nx
    ensures forall j, i | 0 <= j < ny && 0 <= i < nx ::
      depth[j, i] == SlopedRimDepth(r[j][i], radius, slope)
  {
    depth := new real[ny, nx]((j, i) => DeepOcean);
    var taper := new real[ny, nx]((j, i) => 0.0);
    forall j, i | 0 <= j < ny && 0 <= i < nx && r[j][i] < radius + slope {
      taper[j, i] := Min(1.0, (radius + slope - r[j][i]) / slope);
    }
    forall j, i | 0 <= j < ny && 0 <= i < nx && r[j][i] < radius + slope {
      depth[j, i] := DeepOcean * (1.0 - taper[j, i]);
    }
    forall j, i | 0 <= j < ny && 0 <= i < nx && r[j][i] < radius {
      depth[j, i] := 0.0;
    }
  }

  // ---------------------------------------------------------------------
  // Elevated island (the ramp runs from 1000 m to `elevation`)

  /** The blend `1000 * (1 - t) + elevation * t` of deep ocean and island
      top with weight `t`. */
  function Blend(t: real, elevation: real): (b: real)
    ensures t == 0.0 ==> b == DeepOcean
    ensures t == 1.0 ==> b == elevation
  {
    DeepOcean * (1.0 - t) + elevation * t
  }

  /** A blend with weight in `(0, 1]` lies in `[elevation, 1000)`, and a
      larger weight never gives a larger value. */
  lemma BlendRange(t: real, elevation: real)
    requires 0.0 < t <= 1.0 && elevation < DeepOcean
    ensures elevation <= Blend(t, elevation) < DeepOcean
  {
    var gap := DeepOcean - elevation;
    assert Blend(t, elevation) == DeepOcean - t * gap;
    assert gap - t * gap == (1.0 - t) * gap;
    MulNonNegative(1.0 - t, gap);
    MulPositive(t, gap);
  }

  lemma BlendAntitone(t1: real, t2: real, elevation: real)
    requires t2 <= t1 && elevation <= DeepOcean
    ensures Blend(t1, elevation) <= Blend(t2, elevation)
  {
    var gap := DeepOcean - elevation;
    assert Blend(t1, elevation) == DeepOcean - t1 * gap;
    assert Blend(t2, elevation) == DeepOcean - t2 * gap;
    assert t1 * gap - t2 * gap == (t1 - t2) * gap;
    MulNonNegative(t1 - t2, gap);
  }

  /** Depth after the fill and the ring assignment: the blend with the
      cell's taper inside the ring, 1000 elsewhere. */
  function ElevatedRamp(r: real, radius: real, slope: real, elevation: real): (d: real)
    requires slope > 0.0
    ensures r <= radius ==> d == elevation
    ensures radius + slope <= r ==> d == DeepOcean
  {
    if r < radius + slope then Blend(Taper(r, radius, slope), elevation) else DeepOcean
  }

  /** Final value of a cell: the ramp, then `elevation` wherever `r < radius`. */
  function ElevatedDepth(r: real, radius: real, slope: real, elevation: real): (d: real)
    requires slope > 0.0
    ensures r <= radius ==> d == elevation
    ensures radius + slope <= r ==> d == DeepOcean
  {
    if r < radius then elevation else ElevatedRamp(r, radius, slope, elevation)
  }

  /** The value in each band; in the ring the taper lies in `(0, 1]`, so the
      value lies between `elevation` and 1000. */
  lemma ElevatedBands(r: real, radius: real, slope: real, elevation: real)
    requires slope > 0.0 && elevation < DeepOcean
    ensures r < radius ==> ElevatedDepth(r, radius, slope, elevation) == elevation
    ensures radius <= r < radius + slope ==>
      0.0 < Taper(r, radius, slope) <= 1.0 &&
      Taper(r, radius, slope) == (radius + slope - r) / slope &&
      elevation <= ElevatedDepth(r, radius, slope, elevation) < DeepOcean
    ensures radius + slope <= r ==> ElevatedDepth(r, radius, slope, elevation) == DeepOcean
  {
    if radius <= r < radius + slope {
      var t := Taper(r, radius, slope);
      assert t == (radius + slope - r) / slope;
      BlendRange(t, elevation);
    }
  }

  /** The overwrite of the core with `elevation` agrees with the ramp, whose
      clamped taper is 1 there; and everywhere the ramp is the blend with
      the cell's taper (outside the ring the taper is 0). */
  lemma ElevatedOverwriteRedundant(r: real, radius: real, slope: real, elevation: real)
    requires slope > 0.0
    ensures ElevatedDepth(r, radius, slope, elevation) == ElevatedRamp(r, radius, slope, elevation)
    ensures ElevatedRamp(r, radius, slope, elevation) == Blend(Taper(r, radius, slope), elevation)
  {
    if r < radius {
      assert Taper(r, radius, slope) == 1.0;
    }
  }

  /** With `elevation <= 1000` the value never decreases with distance. */
  lemma ElevatedMonotone(r1: real, r2: real, radius: real, slope: real, elevation: real)
    requires slope > 0.0 && elevation <= DeepOcean && r1 <= r2
    ensures ElevatedDepth(r1, radius, slope, elevation) <= ElevatedDepth(r2, radius, slope, elevation)
  {
    ElevatedOverwriteRedundant(r1, radius, slope, elevation);
    ElevatedOverwriteRedundant(r2, radius, slope, elevation);
    TaperNonIncreasing(r1, r2, radius, slope);
    BlendAntitone(Taper(r1, radius, slope), Taper(r2, radius, slope), elevation);
  }

  /** Every value is at least `elevation`, so with a positive elevation no
      cell is 0 or negative. */
  lemma ElevatedNeverDry(r: real, radius: real, slope: real, elevation: real)
    requires slope > 0.0 && 0.0 < elevation < DeepOcean
    ensures ElevatedDepth(r, radius, slope, elevation) >= elevation > 0.0
  {
    ElevatedBands(r, radius, slope, elevation);
  }

  /** Builds the elevated-island field in place: fill with 1000, compute the
      taper on the ring, blend on the ring, then set the core to
      `elevation`. */
  method RasteriseElevated(r: Field, ny: nat, nx: nat, radius: real, slope: real, elevation: real)
    returns (depth: array2<real>)
    requires Shaped(r, ny, nx) && slope > 0.0
    ensures fresh(depth) && depth.Length0 == ny && depth.Length1 == nx
    ensures forall j, i | 0 <= j < ny && 0 <= i < nx ::
      depth[j, i] == ElevatedDepth(r[j][i], radius, slope, elevation)
  {
    depth := new real[ny, nx]((j, i) => DeepOcean);
    var taper := new real[ny, nx]((j, i) => 0.0);
    forall j, i | 0 <= j < ny && 0 <= i < nx && r[j][i] < radius + slope {
      taper[j, i] := Min(1.0, (radius + slope - r[j][i]) / slope);
    }
    forall j, i | 0 <= j < ny && 0 <= i < nx && r[j][i] < radius + slope {
      depth[j, i] := Blend(taper[j, i], elevation);
    }
    forall j, i | 0 <= j < ny && 0 <= i < nx && r[j][i] < radius {
      depth[j, i] := elevation;
    }
  }

  // ---------------------------------------------------------------------
  // Hard walls

  /** Hard-wall cylinder compared on the distance itself, strictly:
      land where `r < radius`, 1000 m elsewhere. */
  function HardWallDepth(r: real, radius: real): (d: real)
    ensures d == 0.0 || d == DeepOcean
    ensures d == 0.0 <==> r < radius
  {
    if r < radius then 0.0 else DeepOcean
  }

  /** Moving away from the centre never makes a hard-wall cell shallower. */
  lemma HardWallMonotone(r1: real, r2: real, radius: real)
    requires r1 <= r2
    ensures HardWallDepth(r1, radius) <= HardWallDepth(r2, radius)
  {
  }

  /** Builds the hard-wall field in place: fill with 1000, then 0 wherever
      `r < radius`. */
  method RasteriseHardWall(r: Field, ny: nat, nx: nat, radius: real) returns (depth: array2<real>)
    requires Shaped(r, ny, nx)
    ensures fresh(depth) && depth.Length0 == ny && depth.Length1 == nx
    ensures forall j, i | 0 <= j < ny && 0 <= i < nx ::
      depth[j, i] == HardWallDepth(r[j][i], radius)
  {
    depth := new real[ny, nx]((j, i) => DeepOcean);
    forall j, i | 0 <= j < ny && 0 <= i < nx && r[j][i] < radius {
      depth[j, i] := 0.0;
    }
  }

  /** Hard-wall cylinder compared on the squared distance, inclusively:
      land where `d2 <= radius^2`, `h` elsewhere. */
  function DiskDepth(d2: real, radius: real, h: real): (d: real)
    ensures d == 0.0 || d == h
    ensures h != 0.0 ==> (d == 0.0 <==> d2 <= radius * radius)
  {
    if d2 <= radius * radius then 0.0 else h
  }

  /** With a non-negative ocean depth, a larger squared distance never gives
      a shallower disc cell. */
  lemma DiskMonotone(d1: real, d2: real, radius: real, h: real)
    requires d1 <= d2 && h >= 0.0
    ensures DiskDepth(d1, radius, h) <= DiskDepth(d2, radius, h)
  {
  }

  /** The two hard walls agree everywhere except on the circle itself: with
      `r` the true distance (`r >= 0`, `r * r == d2`), the strict test on
      `r` makes land of the open disc, the inclusive test on `d2` of the
      closed disc. */
  lemma HardWallVersusDisk(r: real, d2: real, radius: real)
    requires r >= 0.0 && radius >= 0.0 && r * r == d2
    ensures HardWallDepth(r, radius) == 0.0 <==> d2 < radius * radius
    ensures DiskDepth(d2, radius, DeepOcean) == 0.0 <==> d2 <= radius * radius
    ensures HardWallDepth(r, radius) != DiskDepth(d2, radius, DeepOcean) <==> r == radius
  {
    if r < radius {
      SquareStrictlyMonotone(r, radius);
    } else if r > radius {
      SquareStrictlyMonotone(radius, r);
    }
  }

  lemma MulNonNegative(p: real, q: real)
    requires p >= 0.0 && q >= 0.0
    ensures p * q >= 0.0
  {
  }

  /** Builds the disc island on the grid of coordinates `xs` (columns) and
      `ys` (rows) in place: fill with `h`, then 0 wherever
      `(x - xc)^2 + (y - yc)^2 <= radius^2`. */
  method RasteriseDisk(xs: seq<real>, ys: seq<real>, xc: real, yc: real, radius: real, h: real)
    returns (depth: array2<real>)
    ensures fresh(depth) && depth.Length0 == |ys| && depth.Length1 == |xs|
    ensures forall j, i | 0 <= j < |ys| && 0 <= i < |xs| ::
      depth[j, i] == DiskDepth(SquaredDistance(xs[i], ys[j], xc, yc), radius, h)
  {
    depth := new real[|ys|, |xs|]((j, i) => h);
    forall j, i | 0 <= j < |ys| && 0 <= i < |xs| &&
      (xs[i] - xc) * (xs[i] - xc) + (ys[j] - yc) * (ys[j] - yc) <= radius * radius
    {
      depth[j, i] := 0.0;
    }
  }
}
