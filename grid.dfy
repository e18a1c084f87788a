/** Two-dimensional fields on a uniform Cartesian grid, numpy's periodic
    `roll`, cell coordinates, and the sums the other modules reason about.
    A field is indexed `f[j][i]` with row j along y and column i along x. */
module Grid {

  type Field = seq<seq<real>>

  /** `f` has `ny` rows of `nx` values each (numpy shape `(ny, nx)`). */
  predicate Shaped(f: Field, ny: nat, nx: nat) {
    |f| == ny && forall j | 0 <= j < ny :: |f[j]| == nx
  }

  /** Python's `k % n` for a positive modulus: Dafny's `%` is Euclidean,
      which agrees with Python's floored remainder when `n > 0`. */
  function Wrap(k: int, n: nat): (w: nat)
    requires n > 0
    ensures w < n
  {
    k % n
  }

  /** The two neighbours a one-step stencil can reach wrap to the
      opposite end and nowhere else. */
  lemma WrapStep(j: int, n: nat)
    requires n > 0 && 0 <= j < n
    ensures Wrap(j - 1, n) == (if j == 0 then n - 1 else j - 1)
    ensures Wrap(j + 1, n) == (if j == n - 1 then 0 else j + 1)
  {
    ModOfNear(j - 1, n);
    ModOfNear(j + 1, n);
  }

  lemma ModOfNear(k: int, n: nat)
    requires n > 0 && 0 <= k + n && k < 2 * n
    ensures k < 0 ==> k % n == k + n
    ensures 0 <= k < n ==> k % n == k
    ensures n <= k ==> k % n == k - n
  {
    var q := k / n;
    var r := k % n;
    assert k == q * n + r && 0 <= r < n;
    if q <= -2 {
      MulAtMost(q, -2, n);
    } else if q >= 2 {
      MulAtLeast(q, 2, n);
    }
    assert q == -1 || q == 0 || q == 1;
  }

  lemma MulAtLeast(q: int, m: int, n: nat)
    requires q >= m
    ensures q * n >= m * n
  {
    var d := q - m;
    assert q * n == m * n + d * n;
  }

  lemma MulAtMost(q: int, m: int, n: nat)
    requires q <= m
    ensures q * n <= m * n
  {
    var d := m - q;
    assert m * n == q * n + d * n;
  }

  /** `np.roll(s, k)` along the first axis: entry j of the result is entry
      `(j - k) mod n` of the argument. On a field (`axis=0`) the entries
      are whole rows, which move down by k periodically. */
  function Roll<T>(s: seq<T>, k: int): (r: seq<T>)
    ensures |r| == |s|
  {
    if |s| == 0 then [] else seq(|s|, j requires 0 <= j < |s| => s[Wrap(j - k, |s|)])
  }

  /** `np.roll(f, k, axis=1)`: every row is rolled by k along x. */
  function RollCols(f: Field, k: int): (r: Field)
    ensures |r| == |f|
    ensures forall j | 0 <= j < |f| :: |r[j]| == |f[j]|
  {
    seq(|f|, j requires 0 <= j < |f| => Roll(f[j], k))
  }

  /** Column i of a field, read from top to bottom. */
  function Column(f: Field, i: nat): (c: seq<real>)
    requires forall j | 0 <= j < |f| :: i < |f[j]|
    ensures |c| == |f|
  {
    seq(|f|, j requires 0 <= j < |f| => f[j][i])
  }

  lemma RollShapes(f: Field, k: int, ny: nat, nx: nat)
    requires Shaped(f, ny, nx)
    ensures Shaped(Roll(f, k), ny, nx) && Shaped(RollCols(f, k), ny, nx)
  {
    forall j | 0 <= j < ny ensures |Roll(f, k)[j]| == nx {
      assert Roll(f, k)[j] == f[Wrap(j - k, ny)];
    }
  }

  /** Rolling rows rolls every column the same way. */
  lemma ColumnOfRollRows(f: Field, k: int, ny: nat, nx: nat, i: nat)
    requires Shaped(f, ny, nx) && i < nx
    ensures Shaped(Roll(f, k), ny, nx)
    ensures Column(Roll(f, k), i) == Roll(Column(f, i), k)
  {
    RollShapes(f, k, ny, nx);
    if ny > 0 {
      forall j | 0 <= j < ny
        ensures Column(Roll(f, k), i)[j] == Roll(Column(f, i), k)[j]
      {
        var w := Wrap(j - k, ny);
        assert Roll(f, k)[j] == f[w];
        assert Roll(Column(f, i), k)[j] == Column(f, i)[w];
      }
    }
  }

  /** Sum of the entries of a sequence (over the reals, so exact). */
  function Sum(s: seq<real>): real {
    if |s| == 0 then 0.0 else Sum(s[..|s| - 1]) + s[|s| - 1]
  }

  lemma {:induction false} SumConcat(a: seq<real>, b: seq<real>)
    ensures Sum(a + b) == Sum(a) + Sum(b)
  {
    if |b| > 0 {
      assert (a + b)[..|a + b| - 1] == a + b[..|b| - 1];
      SumConcat(a, b[..|b| - 1]);
    } else {
      assert a + b == a;
    }
  }

  /** A periodic roll by one place in either direction only reorders
      entries, so it keeps the sum. */
  lemma SumRoll(s: seq<real>, k: int)
    requires k == 1 || k == -1
    ensures Sum(Roll(s, k)) == Sum(s)
  {
    if |s| > 0 {
      if k == 1 {
        RollForwardRotates(s);
        SumRotation(s[..|s| - 1], [s[|s| - 1]]);
        assert s[..|s| - 1] + [s[|s| - 1]] == s;
      } else {
        RollBackwardRotates(s);
        SumRotation([s[0]], s[1..]);
        assert [s[0]] + s[1..] == s;
      }
    }
  }

  /** `np.roll(s, 1)` moves the last entry to the front. */
  lemma RollForwardRotates<T>(s: seq<T>)
    requires |s| > 0
    ensures Roll(s, 1) == [s[|s| - 1]] + s[..|s| - 1]
  {
    var n := |s|;
    forall j | 0 <= j < n ensures Roll(s, 1)[j] == ([s[n - 1]] + s[..n - 1])[j] {
      WrapStep(j, n);
    }
  }

  /** `np.roll(s, -1)` moves the first entry to the back. */
  lemma RollBackwardRotates<T>(s: seq<T>)
    requires |s| > 0
    ensures Roll(s, -1) == s[1..] + [s[0]]
  {
    var n := |s|;
    forall j | 0 <= j < n ensures Roll(s, -1)[j] == (s[1..] + [s[0]])[j] {
      WrapStep(j, n);
    }
  }

  lemma SumRotation(a: seq<real>, b: seq<real>)
    ensures Sum(b + a) == Sum(a + b)
  {
    SumConcat(a, b);
    SumConcat(b, a);
  }

  /** Entry-wise difference quotient `(a - b) / d`, numpy's broadcasting
      of `(a - b) / d` on one row. */
  function DiffQuotient(a: seq<real>, b: seq<real>, d: real): (q: seq<real>)
    requires |a| == |b| && d != 0.0
    ensures |q| == |a|
  {
    seq(|a|, k requires 0 <= k < |a| => (a[k] - b[k]) / d)
  }

  /** Summing a difference quotient is the difference quotient of the sums. */
  lemma {:induction false} SumDiffQuotient(a: seq<real>, b: seq<real>, d: real)
    requires |a| == |b| && d != 0.0
    ensures Sum(DiffQuotient(a, b, d)) == (Sum(a) - Sum(b)) / d
  {
    var n := |a|;
    if n > 0 {
      assert DiffQuotient(a, b, d)[..n - 1] == DiffQuotient(a[..n - 1], b[..n - 1], d);
      SumDiffQuotient(a[..n - 1], b[..n - 1], d);
    }
  }

  /** `(a - b) / d` on whole fields of equal shape. */
  function FieldDiffQuotient(a: Field, b: Field, d: real): (q: Field)
    requires |a| == |b| && d != 0.0
    requires forall j | 0 <= j < |a| :: |a[j]| == |b[j]|
    ensures |q| == |a|
    ensures forall j | 0 <= j < |a| :: |q[j]| == |a[j]|
  {
    seq(|a|, j requires 0 <= j < |a| => DiffQuotient(a[j], b[j], d))
  }

  /** Column i of a field-wide difference quotient is the difference
      quotient of the two columns. */
  lemma ColumnOfDiffQuotient(a: Field, b: Field, d: real, ny: nat, nx: nat, i: nat)
    requires Shaped(a, ny, nx) && Shaped(b, ny, nx) && d != 0.0 && i < nx
    ensures Shaped(FieldDiffQuotient(a, b, d), ny, nx)
    ensures Column(FieldDiffQuotient(a, b, d), i) == DiffQuotient(Column(a, i), Column(b, i), d)
  {
  }

  /** Sum of every entry of a field, row by row. */
  function Total(f: Field): real {
    if |f| == 0 then 0.0 else Total(f[..|f| - 1]) + Sum(f[|f| - 1])
  }

  /** The entries of a field in row-major order (numpy's `ravel`). */
  function Flatten(f: Field): (s: seq<real>)
    ensures |s| == Cells(f)
  {
    if |f| == 0 then [] else Flatten(f[..|f| - 1]) + f[|f| - 1]
  }

  /** Summing row by row gives the sum of all entries in row-major order,
      which is what numpy's `sum` and `mean` reduce over. */
  lemma {:induction false} TotalIsSumOfEntries(f: Field)
    ensures Total(f) == Sum(Flatten(f))
  {
    if |f| > 0 {
      TotalIsSumOfEntries(f[..|f| - 1]);
      SumConcat(Flatten(f[..|f| - 1]), f[|f| - 1]);
    }
  }

  /** numpy's `f.mean()` over a non-empty `ny` by `nx` field. */
  function Mean(f: Field, ny: nat, nx: nat): (m: real)
    requires ny > 0 && nx > 0
    ensures (ny * nx) as real * m == Total(f)
  {
    MulAtLeast(ny, 1, nx);
    MeanTimesSize(Total(f), ny * nx);
    Total(f) / ((ny * nx) as real)
  }

  /** Every entry of the field lowered by `c` (numpy's `f - c`). */
  function Shift(f: Field, c: real): (g: Field)
    ensures |g| == |f|
    ensures forall j | 0 <= j < |f| :: |g[j]| == |f[j]|
    ensures forall j, i | 0 <= j < |f| && 0 <= i < |f[j]| :: f[j][i] - g[j][i] == c
  {
    seq(|f|, j requires 0 <= j < |f| => ShiftRow(f[j], c))
  }

  function ShiftRow(s: seq<real>, c: real): (t: seq<real>)
    ensures |t| == |s|
    ensures forall i | 0 <= i < |s| :: s[i] - t[i] == c
  {
    seq(|s|, i requires 0 <= i < |s| => s[i] - c)
  }

  /** Shifting back by `c` restores the field. */
  lemma ShiftInverts(f: Field, c: real)
    ensures Shift(Shift(f, c), -c) == f
  {
    var g := Shift(Shift(f, c), -c);
    forall j | 0 <= j < |f| ensures g[j] == f[j] {
      assert |g[j]| == |f[j]|;
    }
  }

  /** `k * c` as a k-fold sum, which keeps the bookkeeping below linear. */
  function Repeat(k: nat, c: real): real {
    if k == 0 then 0.0 else Repeat(k - 1, c) + c
  }

  lemma {:induction false} RepeatAdds(a: nat, b: nat, c: real)
    ensures Repeat(a + b, c) == Repeat(a, c) + Repeat(b, c)
  {
    if b > 0 {
      RepeatAdds(a, b - 1, c);
    }
  }

  lemma {:induction false} RepeatIsProduct(k: nat, c: real)
    ensures Repeat(k, c) == (k as real) * c
  {
    if k > 0 {
      RepeatIsProduct(k - 1, c);
      assert ((k - 1) as real) * c + c == (k as real) * c;
    }
  }

  lemma {:induction false} SumShiftRow(s: seq<real>, c: real)
    ensures Sum(ShiftRow(s, c)) == Sum(s) - Repeat(|s|, c)
  {
    var n := |s|;
    if n > 0 {
      assert ShiftRow(s, c)[..n - 1] == ShiftRow(s[..n - 1], c);
      SumShiftRow(s[..n - 1], c);
    }
  }

  /** Number of entries of a (possibly ragged) field. */
  function Cells(f: Field): nat {
    if |f| == 0 then 0 else Cells(f[..|f| - 1]) + |f[|f| - 1]|
  }

  lemma {:induction false} CellsOfShaped(f: Field, ny: nat, nx: nat)
    requires Shaped(f, ny, nx)
    ensures Cells(f) == ny * nx
  {
    if ny > 0 {
      CellsOfShaped(f[..ny - 1], ny - 1, nx);
      assert (ny - 1) * nx + nx == ny * nx;
    }
  }

  /** Lowering every entry by `c` lowers the total by `c` per entry. */
  lemma {:induction false} TotalShift(f: Field, c: real)
    ensures Total(Shift(f, c)) == Total(f) - Repeat(Cells(f), c)
  {
    var n := |f|;
    if n > 0 {
      var front, last := f[..n - 1], f[n - 1];
      var g := Shift(f, c);
      assert g[..n - 1] == Shift(front, c) by {
        forall j | 0 <= j < n - 1 ensures g[..n - 1][j] == Shift(front, c)[j] {
          assert front[j] == f[j];
        }
      }
      assert g[n - 1] == ShiftRow(last, c);
      TotalShift(front, c);
      SumShiftRow(last, c);
      RepeatAdds(Cells(front), |last|, c);
    }
  }

  /** Subtracting the mean leaves a field whose entries sum to zero. */
  lemma MeanRemovedTotalIsZero(f: Field, ny: nat, nx: nat)
    requires Shaped(f, ny, nx) && ny > 0 && nx > 0
    ensures Total(Shift(f, Mean(f, ny, nx))) == 0.0
  {
    var m := Mean(f, ny, nx);
    CellsOfShaped(f, ny, nx);
    TotalShift(f, m);
    RepeatIsProduct(ny * nx, m);
    MeanTimesSize(Total(f), ny * nx);
  }

  lemma MeanTimesSize(t: real, k: nat)
    requires k > 0
    ensures (k as real) * (t / k as real) == t
  {
  }

  /** The number of strictly positive entries and of zero entries. */
  function CountPositive(f: Field): (c: nat)
    ensures c <= Cells(f)
  {
    if |f| == 0 then 0 else CountPositive(f[..|f| - 1]) + CountPositiveRow(f[|f| - 1])
  }

  function CountPositiveRow(s: seq<real>): (c: nat)
    ensures c <= |s|
  {
    if |s| == 0 then 0 else CountPositiveRow(s[..|s| - 1]) + (if s[|s| - 1] > 0.0 then 1 else 0)
  }

  function CountZero(f: Field): (c: nat)
    ensures c <= Cells(f)
  {
    if |f| == 0 then 0 else CountZero(f[..|f| - 1]) + CountZeroRow(f[|f| - 1])
  }

  function CountZeroRow(s: seq<real>): (c: nat)
    ensures c <= |s|
  {
    if |s| == 0 then 0 else CountZeroRow(s[..|s| - 1]) + (if s[|s| - 1] == 0.0 then 1 else 0)
  }

  lemma {:induction false} CountRowPartition(s: seq<real>)
    requires forall i | 0 <= i < |s| :: s[i] >= 0.0
    ensures CountPositiveRow(s) + CountZeroRow(s) == |s|
  {
    if |s| > 0 {
      CountRowPartition(s[..|s| - 1]);
    }
  }

  /** On a field without negative entries every cell is either positive or
      zero, so the two counts add up to the number of cells. */
  lemma {:induction false} CountPartition(f: Field, ny: nat, nx: nat)
    requires Shaped(f, ny, nx)
    requires forall j, i | 0 <= j < ny && 0 <= i < nx :: f[j][i] >= 0.0
    ensures CountPositive(f) + CountZero(f) == ny * nx
  {
    if ny > 0 {
      CountPartition(f[..ny - 1], ny - 1, nx);
      CountRowPartition(f[ny - 1]);
    }
  }

  /** Coordinate of cell centre k when a length `l` is cut into `n` cells:
      `(k + 0.5) * (l / n)`. */
  function CellCentre(k: nat, l: real, n: nat): real
    requires n > 0
  {
    (k as real + 0.5) * (l / n as real)
  }

  /** Cell centres lie strictly inside `(0, l)` and neighbours are one cell
      width `l / n` apart. */
  lemma CellCentreInside(k: nat, l: real, n: nat)
    requires n > 0 && l > 0.0 && k < n
    ensures 0.0 < CellCentre(k, l, n) < l
    ensures k + 1 < n ==> CellCentre(k + 1, l, n) - CellCentre(k, l, n) == l / n as real
  {
    var w := l / n as real;
    var a := k as real + 0.5;
    assert w > 0.0;
    assert (n as real) * w == l;
    assert a < n as real;
    assert (n as real) * w - a * w == (n as real - a) * w;
    assert (n as real - a) * w > 0.0;
    assert CellCentre(k, l, n) == a * w;
  }

  /** Coordinate of grid point k with spacing d: `k * d`
      (`np.arange(n) * d`). */
  function GridPoint(k: nat, d: real): real {
    k as real * d
  }

  /** `np.arange(n) * d`: grid points on an axis with spacing d. */
  function Axis(n: nat, d: real): (xs: seq<real>)
    ensures |xs| == n
    ensures n > 0 ==> xs[0] == 0.0
    ensures forall k | 0 <= k < n - 1 :: xs[k + 1] - xs[k] == d
  {
    seq(n, k requires 0 <= k < n => GridPoint(k, d))
  }

  /** `(np.arange(n) + 0.5) * (l / n)`: the centres of n cells cut from a
      length l. */
  function CentreAxis(n: nat, l: real): (xs: seq<real>)
    requires n > 0
    ensures |xs| == n
  {
    seq(n, k requires 0 <= k < n => CellCentre(k, l, n))
  }

  /** `(x - xc)^2 + (y - yc)^2`. */
  function SquaredDistance(x: real, y: real, xc: real, yc: real): real {
    (x - xc) * (x - xc) + (y - yc) * (y - yc)
  }

  lemma MulPositive(p: real, q: real)
    requires p > 0.0 && q > 0.0
    ensures p * q > 0.0
  {
  }

  /** Multiplying by a positive factor keeps the sign. */
  lemma SignOfProduct(k: real, x: real)
    requires k > 0.0
    ensures k * x > 0.0 <==> x > 0.0
    ensures k * x < 0.0 <==> x < 0.0
  {
    if x > 0.0 {
      assert k * x > 0.0;
    } else if x < 0.0 {
      assert k * -x > 0.0;
    }
  }
  lemma SquareNonNegative(a: real)
    ensures a * a >= 0.0
    ensures a != 0.0 ==> a * a > 0.0
  {
    if a < 0.0 {
      MulPositive(-a, -a);
      assert a * a == (-a) * (-a);
    } else if a > 0.0 {
      MulPositive(a, a);
    } else {
      assert a * a == 0.0;
    }
  }

  /** The squared distance is never negative, and it is 0 at the centre. */
  lemma SquaredDistanceNonNegative(x: real, y: real, xc: real, yc: real)
    ensures SquaredDistance(x, y, xc, yc) >= 0.0
    ensures x == xc && y == yc ==> SquaredDistance(x, y, xc, yc) == 0.0
  {
    SquareNonNegative(x - xc);
    SquareNonNegative(y - yc);
  }

  /** `r` holds, for every cell of the mesh `xs` by `ys`, its Euclidean
      distance from `(xc, yc)` (what `np.hypot` / `np.sqrt` compute). */
  predicate IsDistanceField(r: Field, xs: seq<real>, ys: seq<real>, xc: real, yc: real) {
    Shaped(r, |ys|, |xs|) &&
    forall j, i | 0 <= j < |ys| && 0 <= i < |xs| ::
      IsDistance(r[j][i], SquaredDistance(xs[i], ys[j], xc, yc))
  }

  /** `x` is the non-negative square root of `d2`. */
  predicate IsDistance(x: real, d2: real) {
    x >= 0.0 && x * x == d2
  }

  /** In a distance field, comparing a cell's distance with a radius gives
      the same answer as comparing its squared distance with the squared
      radius, both for the strict and for the inclusive test. */
  lemma DistanceComparesAsSquares(r: Field, xs: seq<real>, ys: seq<real>, xc: real, yc: real,
                                  j: nat, i: nat, radius: real)
    requires IsDistanceField(r, xs, ys, xc, yc) && j < |ys| && i < |xs| && radius >= 0.0
    ensures r[j][i] < radius <==> SquaredDistance(xs[i], ys[j], xc, yc) < radius * radius
    ensures r[j][i] <= radius <==> SquaredDistance(xs[i], ys[j], xc, yc) <= radius * radius
  {
    var x := r[j][i];
    assert IsDistance(x, SquaredDistance(xs[i], ys[j], xc, yc));
    if x < radius {
      SquareStrictlyMonotone(x, radius);
    } else if x > radius {
      SquareStrictlyMonotone(radius, x);
    }
  }

  lemma SquareStrictlyMonotone(a: real, b: real)
    requires 0.0 <= a < b
    ensures a * a < b * b
  {
    assert b * b - a * a == (b - a) * (b + a);
    MulPositive(b - a, b + a);
  }

  /** A field as the sequence of its rows (numpy's view of an `array2`). */
  function Contents(a: array2<real>): (f: Field)
    reads a
    ensures Shaped(f, a.Length0, a.Length1)
    ensures forall j, i | 0 <= j < a.Length0 && 0 <= i < a.Length1 :: f[j][i] == a[j, i]
  {
    seq(a.Length0, j requires 0 <= j < a.Length0 reads a =>
      seq(a.Length1, i requires 0 <= i < a.Length1 reads a => a[j, i]))
  }

  /** A freshly allocated array holding the entries of a field (numpy
      materialising an array expression). */
  method FromField(f: Field, ny: nat, nx: nat) returns (a: array2<real>)
    requires Shaped(f, ny, nx)
    ensures fresh(a) && a.Length0 == ny && a.Length1 == nx
    ensures Contents(a) == f
  {
    a := new real[ny, nx]((j, i) requires 0 <= j < ny && 0 <= i < nx => f[j][i]);
    var c := Contents(a);
    forall j | 0 <= j < ny ensures c[j] == f[j] {
      assert |c[j]| == |f[j]|;
    }
  }
}
