/** Finite-difference stencils on a periodic grid, written the way the
    generators write them: as differences of `np.roll`ed copies of a
    field. Two families occur: centred differences at cell centres and
    backward differences that land on C-grid faces; a forward two-point
    average brings face values back to centres. */
module Stencil {
  import opened Grid

  /** `(np.roll(e, -1, axis=1) - np.roll(e, 1, axis=1)) / (2 * dx)`. */
  function CentredDiffX(e: Field, dx: real): (d: Field)
    requires dx != 0.0
    ensures |d| == |e| && forall j | 0 <= j < |e| :: |d[j]| == |e[j]|
  {
    FieldDiffQuotient(RollCols(e, -1), RollCols(e, 1), 2.0 * dx)
  }

  /** `(np.roll(e, -1, axis=0) - np.roll(e, 1, axis=0)) / (2 * dy)`. */
  function CentredDiffY(e: Field, ny: nat, nx: nat, dy: real): (d: Field)
    requires Shaped(e, ny, nx) && dy != 0.0
    ensures Shaped(d, ny, nx)
  {
    RollShapes(e, -1, ny, nx);
    RollShapes(e, 1, ny, nx);
    FieldDiffQuotient(Roll(e, -1), Roll(e, 1), 2.0 * dy)
  }

  /** `(e - np.roll(e, 1, axis=1)) / dx`: the x-difference between a cell
      and its western neighbour. */
  function BackwardDiffX(e: Field, dx: real): (d: Field)
    requires dx != 0.0
    ensures |d| == |e| && forall j | 0 <= j < |e| :: |d[j]| == |e[j]|
  {
    FieldDiffQuotient(e, RollCols(e, 1), dx)
  }

  /** `(e - np.roll(e, 1, axis=0)) / dy`: the y-difference between a cell
      and its southern neighbour. */
  function BackwardDiffY(e: Field, ny: nat, nx: nat, dy: real): (d: Field)
    requires Shaped(e, ny, nx) && dy != 0.0
    ensures Shaped(d, ny, nx)
  {
    RollShapes(e, 1, ny, nx);
    FieldDiffQuotient(e, Roll(e, 1), dy)
  }

  /** `0.5 * (a + b)` on fields of equal shape. */
  function Average(a: Field, b: Field, ny: nat, nx: nat): (m: Field)
    requires Shaped(a, ny, nx) && Shaped(b, ny, nx)
    ensures Shaped(m, ny, nx)
    ensures forall j, i | 0 <= j < ny && 0 <= i < nx :: m[j][i] - a[j][i] == b[j][i] - m[j][i]
  {
    seq(ny, j requires 0 <= j < ny => seq(nx, i requires 0 <= i < nx => 0.5 * (a[j][i] + b[j][i])))
  }

  /** `0.5 * (a + np.roll(a, -1, axis=0))`: face values to cell centres along y. */
  function ForwardAverageY(a: Field, ny: nat, nx: nat): (m: Field)
    requires Shaped(a, ny, nx)
    ensures Shaped(m, ny, nx)
  {
    RollShapes(a, -1, ny, nx);
    Average(a, Roll(a, -1), ny, nx)
  }

  /** `0.5 * (a + np.roll(a, -1, axis=1))`: face values to cell centres along x. */
  function ForwardAverageX(a: Field, ny: nat, nx: nat): (m: Field)
    requires Shaped(a, ny, nx)
    ensures Shaped(m, ny, nx)
  {
    RollShapes(a, -1, ny, nx);
    Average(a, RollCols(a, -1), ny, nx)
  }

  /** Index of the western/southern neighbour and of the eastern/northern
      neighbour of position k on a periodic axis of length n: only the two
      ends wrap. */
  function Prev(k: nat, n: nat): nat
    requires k < n
  {
    if k == 0 then n - 1 else k - 1
  }

  function Next(k: nat, n: nat): nat
    requires k < n
  {
    if k == n - 1 then 0 else k + 1
  }

  /** The centred x-difference at a cell uses its east and west neighbours,
      the first and last columns using each other. */
  lemma CentredDiffXAt(e: Field, ny: nat, nx: nat, dx: real, j: nat, i: nat)
    requires Shaped(e, ny, nx) && dx != 0.0 && j < ny && i < nx
    ensures CentredDiffX(e, dx)[j][i] == (e[j][Next(i, nx)] - e[j][Prev(i, nx)]) / (2.0 * dx)
  {
    WrapStep(i, nx);
    assert RollCols(e, -1)[j][i] == e[j][Wrap(i + 1, nx)];
    assert RollCols(e, 1)[j][i] == e[j][Wrap(i - 1, nx)];
  }

  /** The centred y-difference at a cell uses its north and south neighbours,
      the first and last rows using each other. */
  lemma CentredDiffYAt(e: Field, ny: nat, nx: nat, dy: real, j: nat, i: nat)
    requires Shaped(e, ny, nx) && dy != 0.0 && j < ny && i < nx
    ensures CentredDiffY(e, ny, nx, dy)[j][i] == (e[Next(j, ny)][i] - e[Prev(j, ny)][i]) / (2.0 * dy)
  {
    WrapStep(j, ny);
    assert Roll(e, -1)[j] == e[Wrap(j + 1, ny)];
    assert Roll(e, 1)[j] == e[Wrap(j - 1, ny)];
  }

  /** The backward x-difference at a cell uses its western neighbour; column
      0 uses the last column. */
  lemma BackwardDiffXAt(e: Field, ny: nat, nx: nat, dx: real, j: nat, i: nat)
    requires Shaped(e, ny, nx) && dx != 0.0 && j < ny && i < nx
    ensures BackwardDiffX(e, dx)[j][i] == (e[j][i] - e[j][Prev(i, nx)]) / dx
  {
    WrapStep(i, nx);
    assert RollCols(e, 1)[j][i] == e[j][Wrap(i - 1, nx)];
  }

  /** The backward y-difference at a cell uses its southern neighbour; row 0
      uses the last row. */
  lemma BackwardDiffYAt(e: Field, ny: nat, nx: nat, dy: real, j: nat, i: nat)
    requires Shaped(e, ny, nx) && dy != 0.0 && j < ny && i < nx
    ensures BackwardDiffY(e, ny, nx, dy)[j][i] == (e[j][i] - e[Prev(j, ny)][i]) / dy
  {
    WrapStep(j, ny);
    assert Roll(e, 1)[j] == e[Wrap(j - 1, ny)];
  }

  /** The forward y-average at a cell uses the face above it; the last row
      uses row 0. */
  lemma ForwardAverageYAt(a: Field, ny: nat, nx: nat, j: nat, i: nat)
    requires Shaped(a, ny, nx) && j < ny && i < nx
    ensures ForwardAverageY(a, ny, nx)[j][i] == 0.5 * (a[j][i] + a[Next(j, ny)][i])
  {
    WrapStep(j, ny);
    assert Roll(a, -1)[j] == a[Wrap(j + 1, ny)];
  }

  /** The forward x-average at a cell uses the face east of it; the last
      column uses column 0. */
  lemma ForwardAverageXAt(a: Field, ny: nat, nx: nat, j: nat, i: nat)
    requires Shaped(a, ny, nx) && j < ny && i < nx
    ensures ForwardAverageX(a, ny, nx)[j][i] == 0.5 * (a[j][i] + a[j][Next(i, nx)])
  {
    WrapStep(i, nx);
    assert RollCols(a, -1)[j][i] == a[j][Wrap(i + 1, nx)];
  }

  /** Periodic differences telescope: each row of the centred x-difference
      sums to zero. */
  lemma CentredDiffXRowSum(e: Field, ny: nat, nx: nat, dx: real, j: nat)
    requires Shaped(e, ny, nx) && dx != 0.0 && j < ny
    ensures Sum(CentredDiffX(e, dx)[j]) == 0.0
  {
    SumDiffQuotient(Roll(e[j], -1), Roll(e[j], 1), 2.0 * dx);
    SumRoll(e[j], -1);
    SumRoll(e[j], 1);
  }

  /** Each column of the centred y-difference sums to zero. */
  lemma CentredDiffYColumnSum(e: Field, ny: nat, nx: nat, dy: real, i: nat)
    requires Shaped(e, ny, nx) && dy != 0.0 && i < nx
    ensures Sum(Column(CentredDiffY(e, ny, nx, dy), i)) == 0.0
  {
    RollShapes(e, -1, ny, nx);
    RollShapes(e, 1, ny, nx);
    ColumnOfDiffQuotient(Roll(e, -1), Roll(e, 1), 2.0 * dy, ny, nx, i);
    ColumnOfRollRows(e, -1, ny, nx, i);
    ColumnOfRollRows(e, 1, ny, nx, i);
    var c := Column(e, i);
    SumDiffQuotient(Roll(c, -1), Roll(c, 1), 2.0 * dy);
    SumRoll(c, -1);
    SumRoll(c, 1);
  }

  /** Each row of the backward x-difference sums to zero. */
  lemma BackwardDiffXRowSum(e: Field, ny: nat, nx: nat, dx: real, j: nat)
    requires Shaped(e, ny, nx) && dx != 0.0 && j < ny
    ensures Sum(BackwardDiffX(e, dx)[j]) == 0.0
  {
    SumDiffQuotient(e[j], Roll(e[j], 1), dx);
    SumRoll(e[j], 1);
  }

  /** Each column of the backward y-difference sums to zero. */
  lemma BackwardDiffYColumnSum(e: Field, ny: nat, nx: nat, dy: real, i: nat)
    requires Shaped(e, ny, nx) && dy != 0.0 && i < nx
    ensures Sum(Column(BackwardDiffY(e, ny, nx, dy), i)) == 0.0
  {
    RollShapes(e, 1, ny, nx);
    ColumnOfDiffQuotient(e, Roll(e, 1), dy, ny, nx, i);
    ColumnOfRollRows(e, 1, ny, nx, i);
    var c := Column(e, i);
    SumDiffQuotient(c, Roll(c, 1), dy);
    SumRoll(c, 1);
  }

  /** A field constant along every row has zero centred x-difference. */
  lemma CentredDiffXOfZonallyUniform(e: Field, ny: nat, nx: nat, dx: real)
    requires Shaped(e, ny, nx) && dx != 0.0
    requires forall j, i | 0 <= j < ny && 0 <= i < nx :: e[j][i] == e[j][0]
    ensures forall j, i | 0 <= j < ny && 0 <= i < nx :: CentredDiffX(e, dx)[j][i] == 0.0
  {
    forall j, i | 0 <= j < ny && 0 <= i < nx ensures CentredDiffX(e, dx)[j][i] == 0.0 {
      CentredDiffXAt(e, ny, nx, dx, j, i);
    }
  }

  /** A field constant along every column has zero centred y-difference. */
  lemma CentredDiffYOfMeridionallyUniform(e: Field, ny: nat, nx: nat, dy: real)
    requires Shaped(e, ny, nx) && dy != 0.0
    requires forall j, i | 0 <= j < ny && 0 <= i < nx :: e[j][i] == e[0][i]
    ensures forall j, i | 0 <= j < ny && 0 <= i < nx :: CentredDiffY(e, ny, nx, dy)[j][i] == 0.0
  {
    forall j, i | 0 <= j < ny && 0 <= i < nx ensures CentredDiffY(e, ny, nx, dy)[j][i] == 0.0 {
      CentredDiffYAt(e, ny, nx, dy, j, i);
      assert e[Next(j, ny)][i] == e[0][i] == e[Prev(j, ny)][i];
    }
  }
}
