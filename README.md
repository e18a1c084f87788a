# Barotropic eddy–island input generators, modelled in Dafny

The scripts under `experiments/barotropic_eddy_island/v0/scripts/` build the
input fields of a barotropic ocean experiment: an island bathymetry, a
Gaussian sea-surface-height (SSH) anomaly, and the velocity that balances
that anomaly geostrophically. Each script works on `(Ny, Nx)` numpy arrays
indexed `[row j = y, column i = x]`.

This project models that array logic over exact reals:

- `grid.dfy` (module `Grid`) holds the shared vocabulary. Fields are
  `seq<seq<real>>` values. `np.roll` is indexing modulo the axis length:
  `Roll` works on any sequence, so on a field it moves whole rows
  (`axis=0`), and `RollCols` rolls every row (`axis=1`). The module also defines cell-centre and
  grid-point axes, the squared distance, totals and means, the counts of
  positive and zero cells, and the view `Contents` of an `array2` as a field.
- `island.dfy` (module `Island`) holds the three island policies. A sloped
  rim clamps a linear ramp with `min(1, ·)`. An elevated island blends the
  same ramp between 1000 m and a positive elevation. A hard wall uses either
  a strict test on the distance or an inclusive test on the squared
  distance. Each policy has a per-cell depth function. For the sloped rim
  and the elevated island, lemmas give its bands, range, monotonicity and
  the redundancy of the final land overwrite. For the two hard walls,
  lemmas give the two values, monotonicity, and where the strict and the
  inclusive test disagree. Each policy also has an in-place rasteriser on `array2<real>` that fills the array, then
  overwrites masked cells in the script's order. The rasteriser is proved
  equal to the depth function.
- `eddy.dfy` (module `Eddy`) holds the Gaussian anomaly
  `amp * exp(-r2 / (2 R^2))` on a mesh. It proves the radial structure, the
  mirror symmetry, the peak value and positivity.
- `stencil.dfy` (module `Stencil`) holds the periodic finite differences
  built from `np.roll`: centred differences, backward differences to C-grid
  faces, and forward averages back to centres. It states what each one reads
  at a cell, including the wrap at the edges, and that the differences
  telescope to zero along their axis.
- `geostrophy.dfy` (module `Geostrophy`) holds the beta-plane Coriolis
  parameter and the balance `u = -(g/f) dη/dy`, `v = (g/f) dη/dx`. Its
  partner properties are inversion, flow along height contours, and the
  sign rules.
- There is one module per script: `GenIc` (`gen_ic.py`, ideal and test
  cases), `MakeBathy` (`make_bathy.py`), `GenVel` (`gen_vel.py`),
  `GenBathyEtaCombined` (`gen_bathy_eta_combined.py`), `GenInit`
  (`gen_init.py`) and `GenBathy` (`gen_bathy.py`). Each uses the script's
  own constants. Its in-place steps (`u[depth == 0] = 0`, `eta -= mean`,
  boundary taming) are methods on `array2<real>`.

Inputs the model takes instead of computing them:

- The distance field `r` of `np.hypot`/`np.sqrt` is a parameter. Where a
  script builds it, the parameter is constrained by `Grid.IsDistanceField`:
  `r >= 0` and `r * r` is the squared distance of the mesh point (`np.arange(n) * d`
  on both axes).
- `np.exp` is a function parameter `exp`.
- The `np.gradient` pair inside `geostrophic_from_eta` is a parameter.

Where the code and the prose describing the scripts differ, the model
follows the code. With the sloped rim, the ramp gives depth 0 already at
`r == radius`, so the land set is the closed disc `r <= radius`. The
later overwrite `depth[r < radius] = 0` changes nothing. `make_bathy.py`
line 38 says the island is set "negative", but line 39 stores
`elevation = +50`. The model proves that no cell is 0 or negative.

## Model

| member | source | states |
|---|---|---|
| Grid.Wrap | experiments/barotropic_eddy_island/v0/scripts/gen_vel.py:31 | the periodic index `k mod n` of `np.roll` lies in `[0, n)` |
| Grid.WrapStep | experiments/barotropic_eddy_island/v0/scripts/gen_init.py:27-28 | a step of ±1 wraps only at the two ends: `(j-1) mod n` is `n-1` at `j = 0` and `j-1` otherwise; `(j+1) mod n` is 0 at `j = n-1` and `j+1` otherwise |
| Grid.Roll | experiments/barotropic_eddy_island/v0/scripts/gen_init.py:27-28 | `np.roll` keeps the length of the array; on a field it moves whole rows (`axis=0`) |
| Grid.RollCols | experiments/barotropic_eddy_island/v0/scripts/gen_init.py:27 | `np.roll(..., axis=1)` keeps the number of rows and the length of every row |
| Grid.RollForwardRotates | experiments/barotropic_eddy_island/v0/scripts/gen_vel.py:31 | `np.roll(s, 1)` is `s` with its last entry moved to the front |
| Grid.RollBackwardRotates | experiments/barotropic_eddy_island/v0/scripts/gen_init.py:27 | `np.roll(s, -1)` is `s` with its first entry moved to the back |
| Grid.SumRoll | experiments/barotropic_eddy_island/v0/scripts/gen_init.py:27-28 | rolling by ±1 is a rotation, so the sum is unchanged |
| Grid.SumDiffQuotient | experiments/barotropic_eddy_island/v0/scripts/gen_vel.py:31-32 | the sum of `(a - b) / d` is `(sum a - sum b) / d` |
| Grid.TotalIsSumOfEntries | experiments/barotropic_eddy_island/v0/scripts/gen_vel.py:22 | the row-by-row total equals the sum of all entries in row-major order, the reduction `eta.mean()` divides |
| Grid.Mean | experiments/barotropic_eddy_island/v0/scripts/gen_vel.py:22 | the mean of an `ny` by `nx` field times `ny * nx` is the total of the field |
| Grid.Shift | experiments/barotropic_eddy_island/v0/scripts/gen_vel.py:22 | `f - c` keeps the shape and every entry drops by exactly `c` |
| Grid.ShiftInverts | experiments/barotropic_eddy_island/v0/scripts/gen_vel.py:22 | shifting by `-c` after shifting by `c` gives back the field |
| Grid.TotalShift | experiments/barotropic_eddy_island/v0/scripts/gen_vel.py:22 | lowering every entry by `c` lowers the total by `c` once per entry |
| Grid.MeanRemovedTotalIsZero | experiments/barotropic_eddy_island/v0/scripts/gen_vel.py:22 | after subtracting the mean of a non-empty field its entries sum to zero |
| Grid.CountPartition | experiments/barotropic_eddy_island/v0/scripts/gen_bathy.py:27-28 | on a field without negative entries, the count of `> 0` cells plus the count of `== 0` cells is `ny * nx` |
| Grid.CountPositive | experiments/barotropic_eddy_island/v0/scripts/gen_bathy.py:28 | `(bathy > 0).sum()` is at most the number of cells |
| Grid.CountZero | experiments/barotropic_eddy_island/v0/scripts/gen_bathy.py:28 | `(bathy == 0).sum()` is at most the number of cells |
| Grid.CellCentreInside | experiments/barotropic_eddy_island/v0/scripts/gen_init.py:7-9 | the cell centre `(k + 0.5) * L / N` lies strictly inside `(0, L)`, and neighbouring centres are `L / N` apart |
| Grid.Axis | experiments/barotropic_eddy_island/v0/scripts/gen_ic.py:31-32 | `np.arange(n) * d` has `n` points, starts at 0, and neighbouring points are `d` apart |
| Grid.CentreAxis | experiments/barotropic_eddy_island/v0/scripts/gen_bathy.py:14-15 | `(np.arange(n) + 0.5) * (L / n)` has `n` points |
| Grid.SquaredDistanceNonNegative | experiments/barotropic_eddy_island/v0/scripts/gen_bathy.py:22 | `(x - xc)^2 + (y - yc)^2` is never negative and is 0 at the centre |
| Grid.DistanceComparesAsSquares | experiments/barotropic_eddy_island/v0/scripts/gen_ic.py:73-75 | for the distance `r` of `np.hypot` and a radius `>= 0`, `r < radius` iff the squared distance is below `radius^2`, and `r <= radius` iff it is at most `radius^2` |
| Grid.Contents | experiments/barotropic_eddy_island/v0/scripts/gen_vel.py:21 | an `(ny, nx)` array seen as its rows has the array's entries |
| Grid.FromField | experiments/barotropic_eddy_island/v0/scripts/gen_ic.py:51 | a fresh array holding exactly the entries of a field |
| Island.Min | experiments/barotropic_eddy_island/v0/scripts/gen_ic.py:42 | `np.minimum` is at most both arguments and equal to one of them |
| Island.Taper | experiments/barotropic_eddy_island/v0/scripts/gen_ic.py:40-42 | the clamped taper lies in `[0, 1]`; it is 0 exactly when `r >= radius + slope` and 1 exactly when `r <= radius` |
| Island.TaperNonIncreasing | experiments/barotropic_eddy_island/v0/scripts/gen_ic.py:42 | the taper never increases with distance |
| Island.SlopedRamp | experiments/barotropic_eddy_island/v0/scripts/gen_ic.py:39-43 | after the fill and the ring assignment a cell lies in `[0, 1000]`, and it is already 0 wherever `r <= radius` |
| Island.SlopedRimDepth | experiments/barotropic_eddy_island/v0/scripts/gen_ic.py:39-44 | the final sloped-rim depth lies in `[0, 1000]` and is 0 exactly where `r <= radius` |
| Island.SlopedRimBands | experiments/barotropic_eddy_island/v0/scripts/gen_ic.py:39-44 | depth is 0 inside the core, `1000 (r - radius) / slope` on the flank `[radius, radius + slope)`, and 1000 beyond |
| Island.SlopedRimLandOverwriteRedundant | experiments/barotropic_eddy_island/v0/scripts/gen_ic.py:42-44 | the final `depth[r < radius] = 0` agrees with the clamped ramp already there |
| Island.SlopedRimRange | experiments/barotropic_eddy_island/v0/scripts/gen_ic.py:39-44 | depth lies in `[0, 1000]`; it is 0 exactly when `r <= radius` and 1000 exactly when `r >= radius + slope` |
| Island.SlopedRimMonotone | experiments/barotropic_eddy_island/v0/scripts/gen_ic.py:39-44 | depth never decreases with distance |
| Island.RasteriseSlopedRim | experiments/barotropic_eddy_island/v0/scripts/gen_bathy_eta_combined.py:24-34 | the fill, taper, ring and core assignments in place leave every cell at the sloped-rim depth of its distance |
| Island.Blend | experiments/barotropic_eddy_island/v0/scripts/make_bathy.py:36 | weight 0 gives the deep ocean 1000, weight 1 gives `elevation` |
| Island.BlendRange | experiments/barotropic_eddy_island/v0/scripts/make_bathy.py:36 | `1000 (1 - t) + elevation t` with `t` in `(0, 1]` lies in `[elevation, 1000)` |
| Island.BlendAntitone | experiments/barotropic_eddy_island/v0/scripts/make_bathy.py:36 | a larger taper never gives a deeper cell when `elevation <= 1000` |
| Island.ElevatedRamp | experiments/barotropic_eddy_island/v0/scripts/make_bathy.py:30-36 | after the fill and the ring assignment a cell holds `elevation` wherever `r <= radius` and 1000 wherever `r >= radius + slope` |
| Island.ElevatedDepth | experiments/barotropic_eddy_island/v0/scripts/make_bathy.py:30-39 | the final elevated-island value is `elevation` wherever `r <= radius` and 1000 wherever `r >= radius + slope` |
| Island.ElevatedBands | experiments/barotropic_eddy_island/v0/scripts/make_bathy.py:33-39 | the core holds `elevation`; on the flank the taper is `(radius + slope - r) / slope` in `(0, 1]` and depth lies in `[elevation, 1000)`; beyond the flank depth is 1000 |
| Island.ElevatedOverwriteRedundant | experiments/barotropic_eddy_island/v0/scripts/make_bathy.py:34-39 | the core overwrite with `elevation` agrees with the blend, whose taper is 1 there; everywhere the depth is the blend of the cell's taper |
| Island.ElevatedMonotone | experiments/barotropic_eddy_island/v0/scripts/make_bathy.py:30-39 | depth never decreases with distance |
| Island.ElevatedNeverDry | experiments/barotropic_eddy_island/v0/scripts/make_bathy.py:23-39 | with `0 < elevation < 1000` every cell is at least `elevation`, so none is 0 or negative |
| Island.RasteriseElevated | experiments/barotropic_eddy_island/v0/scripts/make_bathy.py:30-39 | the in-place fill, taper, blend and core assignments leave every cell at the elevated-island depth of its distance |
| Island.HardWallDepth | experiments/barotropic_eddy_island/v0/scripts/gen_ic.py:74-75 | a hard-wall cell is 0 or 1000, and 0 exactly where `r < radius` |
| Island.HardWallMonotone | experiments/barotropic_eddy_island/v0/scripts/gen_ic.py:74-75 | a hard-wall cell never gets shallower further from the centre |
| Island.RasteriseHardWall | experiments/barotropic_eddy_island/v0/scripts/gen_ic.py:74-75 | after filling with 1000 and zeroing `r < radius`, each cell holds the strict hard-wall depth |
| Island.HardWallVersusDisk | experiments/barotropic_eddy_island/v0/scripts/gen_bathy.py:22-23 | the strict test on `r` and the inclusive test on `r^2` make the same land except exactly on the circle `r == radius` |
| Island.DiskDepth | experiments/barotropic_eddy_island/v0/scripts/gen_bathy.py:19-23 | a disc cell is 0 or `H`; for `H != 0` it is 0 exactly where the squared distance is at most `R^2` |
| Island.DiskMonotone | experiments/barotropic_eddy_island/v0/scripts/gen_bathy.py:19-23 | with `H >= 0` a disc cell never gets shallower as the squared distance grows |
| Island.RasteriseDisk | experiments/barotropic_eddy_island/v0/scripts/gen_bathy.py:19-23 | after filling with `H` and zeroing cells with squared distance `<= R^2`, each cell holds the disc depth |
| Eddy.SshField | experiments/barotropic_eddy_island/v0/scripts/gen_bathy_eta_combined.py:46-47 | the Gaussian anomaly has one entry per mesh cell |
| Eddy.SshRadial | experiments/barotropic_eddy_island/v0/scripts/gen_bathy_eta_combined.py:46-47 | two cells at the same squared distance from the centre carry the same height |
| Eddy.SshMirror | experiments/barotropic_eddy_island/v0/scripts/gen_ic.py:48 | cells mirrored about the eddy centre in x or in y carry the same height |
| Eddy.SshPeak | experiments/barotropic_eddy_island/v0/scripts/gen_ic.py:48 | on the centre cell the height equals the amplitude, given `exp(0) = 1` |
| Eddy.GaussianAtCentre | experiments/barotropic_eddy_island/v0/scripts/gen_ic.py:79 | at squared distance 0 the anomaly is `amp * exp(0)` |
| Eddy.GaussianSign | experiments/barotropic_eddy_island/v0/scripts/gen_ic.py:48 | where the exponential is positive the anomaly is positive exactly for a positive amplitude and negative exactly for a negative one |
| Eddy.SshPositive | experiments/barotropic_eddy_island/v0/scripts/gen_bathy_eta_combined.py:43-47 | a positive amplitude and a positive exponential give a positive anomaly at every cell |
| Stencil.CentredDiffX | experiments/barotropic_eddy_island/v0/scripts/gen_init.py:27 | the centred x-difference has the shape of its input |
| Stencil.CentredDiffY | experiments/barotropic_eddy_island/v0/scripts/gen_init.py:28 | the centred y-difference has the shape of its input |
| Stencil.BackwardDiffX | experiments/barotropic_eddy_island/v0/scripts/gen_vel.py:32 | the backward x-difference has the shape of its input |
| Stencil.BackwardDiffY | experiments/barotropic_eddy_island/v0/scripts/gen_vel.py:31 | the backward y-difference has the shape of its input |
| Stencil.ForwardAverageY | experiments/barotropic_eddy_island/v0/scripts/gen_vel.py:55 | the forward y-average has the shape of its input |
| Stencil.ForwardAverageX | experiments/barotropic_eddy_island/v0/scripts/gen_vel.py:56 | the forward x-average has the shape of its input |
| Stencil.Average | experiments/barotropic_eddy_island/v0/scripts/gen_vel.py:55-56 | `0.5 * (a + b)` is the midpoint: it lies as far above `a` as below `b`, at every cell |
| Stencil.CentredDiffXAt | experiments/barotropic_eddy_island/v0/scripts/gen_init.py:27 | `deta_dx[j,i] = (e[j, i+1 mod Nx] - e[j, i-1 mod Nx]) / (2 dx)` |
| Stencil.CentredDiffYAt | experiments/barotropic_eddy_island/v0/scripts/gen_init.py:28 | `deta_dy[j,i] = (e[j+1 mod Ny, i] - e[j-1 mod Ny, i]) / (2 dy)` |
| Stencil.BackwardDiffXAt | experiments/barotropic_eddy_island/v0/scripts/gen_vel.py:32 | `(e[j,i] - e[j, i-1 mod nx]) / dx`, so column 0 uses the last column |
| Stencil.BackwardDiffYAt | experiments/barotropic_eddy_island/v0/scripts/gen_vel.py:31 | `(e[j,i] - e[j-1 mod ny, i]) / dy`, so row 0 uses the last row |
| Stencil.ForwardAverageYAt | experiments/barotropic_eddy_island/v0/scripts/gen_vel.py:55 | `uc[j,i] = (uU[j,i] + uU[j+1 mod ny, i]) / 2` |
| Stencil.ForwardAverageXAt | experiments/barotropic_eddy_island/v0/scripts/gen_vel.py:56 | `vc[j,i] = (vV[j,i] + vV[j, i+1 mod nx]) / 2` |
| Stencil.CentredDiffXRowSum | experiments/barotropic_eddy_island/v0/scripts/gen_init.py:27 | every row of the centred x-difference sums to zero |
| Stencil.CentredDiffYColumnSum | experiments/barotropic_eddy_island/v0/scripts/gen_init.py:28 | every column of the centred y-difference sums to zero |
| Stencil.BackwardDiffXRowSum | experiments/barotropic_eddy_island/v0/scripts/gen_vel.py:32 | every row of the backward x-difference sums to zero |
| Stencil.BackwardDiffYColumnSum | experiments/barotropic_eddy_island/v0/scripts/gen_vel.py:31 | every column of the backward y-difference sums to zero |
| Stencil.CentredDiffXOfZonallyUniform | experiments/barotropic_eddy_island/v0/scripts/gen_init.py:27 | a field constant along x has zero centred x-difference |
| Stencil.CentredDiffYOfMeridionallyUniform | experiments/barotropic_eddy_island/v0/scripts/gen_init.py:28 | a field constant along y has zero centred y-difference |
| Geostrophy.Coriolis | experiments/barotropic_eddy_island/v0/scripts/gen_init.py:31 | `f0 + beta (y - 0)` is `f0` on an f-plane and at least `f0` north of `y = 0` when `beta >= 0` |
| Geostrophy.BalancedU | experiments/barotropic_eddy_island/v0/scripts/gen_init.py:34 | `u = -(g/f) dη/dy` is 0 wherever the surface is flat in y |
| Geostrophy.BalancedV | experiments/barotropic_eddy_island/v0/scripts/gen_init.py:35 | `v = (g/f) dη/dx` is 0 wherever the surface is flat in x |
| Geostrophy.BalanceInverts | experiments/barotropic_eddy_island/v0/scripts/gen_init.py:34-35 | the height gradient is recovered from the balanced velocity: `dη/dy = -(f/g) u`, `dη/dx = (f/g) v` |
| Geostrophy.BalanceFollowsContours | experiments/barotropic_eddy_island/v0/scripts/gen_init.py:34-35 | the balanced velocity is orthogonal to the height gradient |
| Geostrophy.BalanceSigns | experiments/barotropic_eddy_island/v0/scripts/gen_init.py:34-35 | with `g, f > 0`, `u > 0` exactly where `dη/dy < 0` and `v > 0` exactly where `dη/dx > 0` |
| Geostrophy.BalancedUField | experiments/barotropic_eddy_island/v0/scripts/gen_vel.py:35 | the row-wise balance `-(g / f[j]) dη/dy` keeps the field shape |
| Geostrophy.BalancedVField | experiments/barotropic_eddy_island/v0/scripts/gen_vel.py:36 | the row-wise balance `(g / f[j]) dη/dx` keeps the field shape |
| Geostrophy.BalancedFields | experiments/barotropic_eddy_island/v0/scripts/gen_vel.py:35-36 | at every cell the balanced fields are orthogonal to the gradient and invert to it |
| Geostrophy.BalancedFieldSigns | experiments/barotropic_eddy_island/v0/scripts/gen_ic.py:23-24 | with `g > 0` and `f > 0` on every row, at every cell `u > 0` exactly where `dη/dy < 0` and `v > 0` exactly where `dη/dx > 0` |
| GenIc.GeostrophicFromEta | experiments/barotropic_eddy_island/v0/scripts/gen_ic.py:20-25 | `(u, v)` from the given gradients is orthogonal to the gradient, recovers it (`g != 0`), and obeys the sign rules for `g, f0 > 0` |
| GenIc.ZeroOnLand | experiments/barotropic_eddy_island/v0/scripts/gen_ic.py:52-53 | every cell with `depth == 0` becomes 0; every other cell keeps its value |
| GenIc.GenerateIdeal | experiments/barotropic_eddy_island/v0/scripts/gen_ic.py:27-53 | the returned arrays are freshly allocated; depth is the sloped rim (50 km, 30 km) of each cell's distance; eta is the Gaussian eddy at (800 km, 250 km); `u`, `v` are 0 exactly on the closed core `r <= 50 km` and the balanced values elsewhere |
| GenIc.IdealEddyPeak | experiments/barotropic_eddy_island/v0/scripts/gen_ic.py:47-48 | the ideal eddy equals its amplitude 0.5 at row 50, column 160 |
| GenIc.GenerateTest | experiments/barotropic_eddy_island/v0/scripts/gen_ic.py:62-84 | the returned arrays are freshly allocated; depth is 0 exactly where `r < 70 km` and 1000 otherwise; `u`, `v` are 0 there and balanced elsewhere; eta is the eddy at (450 km, 200 km) |
| GenIc.TestEddyPeak | experiments/barotropic_eddy_island/v0/scripts/gen_ic.py:78-79 | the test eddy equals 0.5 at row 40, column 90 |
| MakeBathy.Generate | experiments/barotropic_eddy_island/v0/scripts/make_bathy.py:27-39 | the returned array is freshly allocated; core cells hold 50, cells beyond 80 km hold 1000, flank cells lie in `[50, 1000)`, every cell is at least 50 > 0, and depth never decreases with distance |
| GenBathyEtaCombined.Xs | experiments/barotropic_eddy_island/v0/scripts/gen_bathy_eta_combined.py:13 | 200 mesh x-coordinates starting at 0, 5 km apart |
| GenBathyEtaCombined.Ys | experiments/barotropic_eddy_island/v0/scripts/gen_bathy_eta_combined.py:13 | 100 mesh y-coordinates starting at 0, 5 km apart |
| GenBathyEtaCombined.InitialEta | experiments/barotropic_eddy_island/v0/scripts/gen_bathy_eta_combined.py:46-47 | the initial height has shape 100 by 200 |
| GenBathyEtaCombined.Generate | experiments/barotropic_eddy_island/v0/scripts/gen_bathy_eta_combined.py:22-47 | the returned array is freshly allocated; depth lies in `[0, 1000]`, is 0 exactly where `r <= 50 km`, is the linear ramp on the flank and 1000 beyond, never decreases with distance; eta is the Gaussian eddy |
| GenBathyEtaCombined.EtaRadial | experiments/barotropic_eddy_island/v0/scripts/gen_bathy_eta_combined.py:46-47 | cells at equal squared distance from the eddy centre get equal height |
| GenBathyEtaCombined.EtaSymmetricInY | experiments/barotropic_eddy_island/v0/scripts/gen_bathy_eta_combined.py:41-47 | rows `50 - k` and `50 + k` carry equal heights |
| GenBathyEtaCombined.EtaOneRadiusOut | experiments/barotropic_eddy_island/v0/scripts/gen_bathy_eta_combined.py:40-47 | one eddy radius east of the centre the height is `0.5 exp(-1/2)` |
| GenVel.RemoveMean | experiments/barotropic_eddy_island/v0/scripts/gen_vel.py:22 | every entry is lowered by the old mean, and the new entries sum to zero |
| GenVel.FaceCoriolisU | experiments/barotropic_eddy_island/v0/scripts/gen_vel.py:25-27 | `fU[j] = f0 + beta j dy`; it is `f0` when `beta = 0` and at least `f0` when `beta, dy >= 0` |
| GenVel.FaceCoriolisV | experiments/barotropic_eddy_island/v0/scripts/gen_vel.py:26-28 | `fV[j] = f0 + beta (j + 1) dy`; it is `f0` when `beta = 0` and at least `f0` when `beta, dy >= 0` |
| GenVel.ConfiguredFacesCoriolis | experiments/barotropic_eddy_island/v0/scripts/gen_vel.py:16-28 | with the configured `f0 = 5e-5`, `beta = 0` every face has `f = 5e-5 > 0` |
| GenVel.FaceU | experiments/barotropic_eddy_island/v0/scripts/gen_vel.py:31-35 | the u-face velocity has shape 100 by 200 |
| GenVel.FaceV | experiments/barotropic_eddy_island/v0/scripts/gen_vel.py:32-36 | the v-face velocity has shape 100 by 200 |
| GenVel.FaceVelocitiesAt | experiments/barotropic_eddy_island/v0/scripts/gen_vel.py:31-36 | `uU[j,i]` balances `(e[j,i] - e[j-1 mod ny, i]) / dy` and `vV[j,i]` balances `(e[j,i] - e[j, i-1 mod nx]) / dx` |
| GenVel.FaceVelocitiesTelescope | experiments/barotropic_eddy_island/v0/scripts/gen_vel.py:31-32 | before taming, every column of the y-difference and every row of the x-difference sums to zero |
| GenVel.TameBoundaries | experiments/barotropic_eddy_island/v0/scripts/gen_vel.py:39-40 | rows 0 and `ny-1` of `uU` and columns 0 and `nx-1` of `vV` become 0; all other entries are unchanged |
| GenVel.Generate | experiments/barotropic_eddy_island/v0/scripts/gen_vel.py:21-40 | the returned arrays are freshly allocated; eta becomes mean-free with total 0; every surviving `uU` and `vV` entry balances a difference with an unwrapped neighbour; the tamed rows and columns are 0 |
| GenVel.CentreU | experiments/barotropic_eddy_island/v0/scripts/gen_vel.py:55 | the centred u has shape 100 by 200 |
| GenVel.CentreV | experiments/barotropic_eddy_island/v0/scripts/gen_vel.py:56 | the centred v has shape 100 by 200 |
| GenVel.CentresOfTamedFaces | experiments/barotropic_eddy_island/v0/scripts/gen_vel.py:55-56 | on tamed faces a centre averages the faces on either side of it without wrapping, and the last row or column is 0 |
| GenInit.Xs | experiments/barotropic_eddy_island/v0/scripts/gen_init.py:8 | 256 cell-centre x-coordinates |
| GenInit.Ys | experiments/barotropic_eddy_island/v0/scripts/gen_init.py:9 | 256 cell-centre y-coordinates |
| GenInit.CentresInside | experiments/barotropic_eddy_island/v0/scripts/gen_init.py:5-9 | centres lie strictly inside `(0, 1024 km)` and are `Dx = Dy = 4 km` apart |
| GenInit.Etan | experiments/barotropic_eddy_island/v0/scripts/gen_init.py:23-24 | the anomaly has shape 256 by 256 |
| GenInit.EtanRadial | experiments/barotropic_eddy_island/v0/scripts/gen_init.py:23-24 | the anomaly depends on a cell only through its squared distance from (250 km, 512 km) |
| GenInit.DEtaDx | experiments/barotropic_eddy_island/v0/scripts/gen_init.py:27 | the x-gradient has shape 256 by 256 |
| GenInit.DEtaDy | experiments/barotropic_eddy_island/v0/scripts/gen_init.py:28 | the y-gradient has shape 256 by 256 |
| GenInit.GradientsAt | experiments/barotropic_eddy_island/v0/scripts/gen_init.py:27-28 | each gradient uses the two neighbours of the cell, and edge cells use the opposite edge |
| GenInit.GradientsTelescope | experiments/barotropic_eddy_island/v0/scripts/gen_init.py:27-28 | every row of `deta_dx` and every column of `deta_dy` sums to zero |
| GenInit.CoriolisRows | experiments/barotropic_eddy_island/v0/scripts/gen_init.py:13-31 | `f = f0 + beta Y` is at least `f0 = 5e-5 > 0` on every row |
| GenInit.U | experiments/barotropic_eddy_island/v0/scripts/gen_init.py:34 | `u` has shape 256 by 256 |
| GenInit.V | experiments/barotropic_eddy_island/v0/scripts/gen_init.py:35 | `v` has shape 256 by 256 |
| GenInit.VelocityBalanced | experiments/barotropic_eddy_island/v0/scripts/gen_init.py:33-35 | `(u, v)` is orthogonal to the gradient, recovers it, and obeys the sign rules |
| GenInit.UniformHeightGivesNoFlow | experiments/barotropic_eddy_island/v0/scripts/gen_init.py:27-35 | a height field constant along x gives `v = 0`; one constant along y gives `u = 0` |
| GenBathy.Xs | experiments/barotropic_eddy_island/v0/scripts/gen_bathy.py:14 | `x_i = (i + 0.5) Lx / Nx` for the 256 columns |
| GenBathy.Ys | experiments/barotropic_eddy_island/v0/scripts/gen_bathy.py:15 | `y_j = (j + 0.5) Ly / Ny` for the 256 rows |
| GenBathy.Generate | experiments/barotropic_eddy_island/v0/scripts/gen_bathy.py:19-28 | the returned array is freshly allocated; a cell is 0 exactly when its squared distance is at most `R^2` and 4000 otherwise; the ocean and land counts add up to `Nx * Ny` |

## Left out

- File output (`write_bin`, every `.tofile`, `os.makedirs`) and the input read (`np.fromfile`). The big-endian float32 encoding is a numpy conversion outside the model.
- The command line of `gen_ic.py` (`argparse`, `main`, the case selector). Both cases are modelled as separate methods.
- All plotting (matplotlib), including the speed field `sqrt(uc^2 + vc^2)` of `gen_vel.py`, and the commented-out old version at the end of `make_bathy.py`.
- The optional bathymetry load in `gen_vel.py` (the `try`/`except` around `np.fromfile`). It only feeds the plot.
- `np.exp` is a function parameter. Only structural facts are proved: radial dependence, symmetry, the value at the centre given `exp(0) = 1`, and positivity given a positive `exp`.
- `np.hypot`/`np.sqrt` are not modelled. The distance field is a parameter constrained to be the non-negative square root of the squared distance.
- GenIc.GeostrophicFromEta: `np.gradient` (second-order interior differences and one-sided edges) is not modelled. The two gradient fields are parameters, so the model does not tie them to `eta`.
- Floating-point rounding: the float64 arithmetic of `gen_ic.py`, `make_bathy.py`, `gen_bathy_eta_combined.py` and `gen_init.py`; the float32 arithmetic of `gen_vel.py` (`eta` is loaded as `>f4`, so `eta -= eta.mean()` and the differences run in float32) and of `gen_bathy.py` (`bathy` is built as `>f4`); and the float32 cast on output. All arithmetic is over exact reals.
- Division by a zero Coriolis parameter (IEEE infinities) is excluded by `requires f != 0`. Every configured `f` is proved positive.
