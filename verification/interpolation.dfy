/**
 * The interpolation constructors of project1.c: Lagrange (coefficients
 * built in place by repeated multiplication with linear factors),
 * piecewise linear, raised cosine and least squares (the normal equations
 * solved with the matrix engine).
 */
module Interpolations {
  import opened Wrappers
  import opened Numbers
  import opened Polynomials
  import opened Utilities
  import opened MatrixAlgebra
  import opened Elimination
  import opened Matrices

  // ---------------------------------------------------------------------
  // lagrange_interpolation

  /**
   * The distribution loop of lagrange_interpolation: temp[0 .. d] holds a
   * polynomial of degree d, and afterwards temp[0 .. d + 1] holds its
   * product with (x + xi); entries past d + 1 are untouched.
   */
  method MultiplyLinear(temp: array<real>, d: nat, xi: real)
    requires d + 1 < temp.Length
    modifies temp
    ensures temp[..d + 2] == MulLinear(old(temp[..d + 1]), xi)
    ensures temp[d + 2..] == old(temp[d + 2..])
  {
    ghost var p := temp[..d + 1];
    ghost var q := MulLinear(p, xi);
    temp[d + 1] := temp[d];
    var l := d;
    while l != 0
      invariant 0 <= l <= d
      invariant forall k :: 0 <= k <= l ==> temp[k] == p[k]
      invariant forall k :: l < k <= d + 1 ==> temp[k] == q[k]
      invariant forall k :: d + 2 <= k < temp.Length ==> temp[k] == old(temp[k])
    {
      assert q[l] == Mul(p[l], xi) + p[l - 1];
      temp[l] := Mul(temp[l], xi) + temp[l - 1];
      l := l - 1;
    }
    temp[0] := Mul(temp[0], xi);
    assert temp[..d + 2] == q;
  }

  /**
   * One round of the j loop: factor j != i multiplies the denominator by
   * (i - j) and the numerator by (x - Knot(j)); factor i is skipped.
   */
  method BasisFactor(temp: array<real>, y: real, x0: real, h: real, order: nat, i: nat, j: nat, den: real)
      returns (den': real)
    requires temp.Length == order + 1 && i <= order && j <= order
    requires temp[..Degree(i, j) + 1] == Numerator(y, x0, h, i, j)
    requires den == Denominator(h, order, i, j)
    modifies temp
    ensures temp[..Degree(i, j + 1) + 1] == Numerator(y, x0, h, i, j + 1)
    ensures den' == Denominator(h, order, i, j + 1)
  {
    den' := den;
    if i != j {
      den' := Mul(den, i as real - j as real);
      ApplyFactor(temp, y, x0, h, order, i, j);
    } else {
      NumeratorSkip(y, x0, h, i, j, j + 1);
    }
  }

  /** The numerator half of a round j != i: temp times (x - Knot(j)). */
  method ApplyFactor(temp: array<real>, y: real, x0: real, h: real, order: nat, i: nat, j: nat)
    requires temp.Length == order + 1 && i <= order && j <= order && i != j
    requires temp[..Degree(i, j) + 1] == Numerator(y, x0, h, i, j)
    modifies temp
    ensures temp[..Degree(i, j + 1) + 1] == Numerator(y, x0, h, i, j + 1)
  {
    var xi := -Knot(x0, h, j);
    ghost var p := temp[..Degree(i, j) + 1];
    MultiplyLinear(temp, Degree(i, j), xi);
    FactorStep(temp[..Degree(i, j) + 2], p, y, x0, h, i, j, xi);
  }

  /** One factor step on values: the product of the numerator so far with (x - Knot(j)). */
  lemma FactorStep(q: seq<real>, p: seq<real>, y: real, x0: real, h: real, i: nat, j: nat, xi: real)
    requires j != i && xi == -Knot(x0, h, j)
    requires p == Numerator(y, x0, h, i, j) && q == MulLinear(p, xi)
    ensures Degree(i, j + 1) + 1 == Degree(i, j) + 2
    ensures q == Numerator(y, x0, h, i, j + 1)
  {
    NumeratorFactor(y, x0, h, i, j, j + 1);
    DegreeFactor(i, j, j + 1);
  }

  /** A factor other than i raises the degree by one. */
  lemma DegreeFactor(i: nat, j: nat, k: nat)
    requires k == j + 1 && j != i
    ensures Degree(i, k) + 1 == Degree(i, j) + 2
  {
  }

  /** A factor other than i multiplies the numerator by the linear factor of its knot. */
  lemma NumeratorFactor(y: real, x0: real, h: real, i: nat, j: nat, k: nat)
    requires k == j + 1 && j != i
    ensures Numerator(y, x0, h, i, k) == MulLinear(Numerator(y, x0, h, i, j), -Knot(x0, h, j))
  {
  }

  /** The factor of i itself is skipped: degree and numerator stay. */
  lemma NumeratorSkip(y: real, x0: real, h: real, i: nat, j: nat, k: nat)
    requires k == j + 1 && j == i
    ensures Degree(i, k) + 1 == Degree(i, j) + 1
    ensures Numerator(y, x0, h, i, k) == Numerator(y, x0, h, i, j)
  {
  }

  /**
   * The j loop of lagrange_interpolation for basis polynomial i: starting
   * from temp[0] = y, every factor j != i multiplies the denominator by
   * (i - j) and the numerator by (x - Knot(j)).
   */
  method BasisPolynomial(temp: array<real>, y: real, x0: real, h: real, order: nat, i: nat) returns (den: real)
    requires temp.Length == order + 1 && i <= order
    modifies temp
    ensures temp[..] == Numerator(y, x0, h, i, order + 1)
    ensures den == Denominator(h, order, i, order + 1)
  {
    den := Pow(h, order);
    temp[0] := y;
    assert temp[..Degree(i, 0) + 1] == Numerator(y, x0, h, i, 0) by {
      assert temp[..1] == [y];
    }
    for j := 0 to order + 1
      invariant temp[..Degree(i, j) + 1] == Numerator(y, x0, h, i, j)
      invariant den == Denominator(h, order, i, j)
    {
      den := BasisFactor(temp, y, x0, h, order, i, j, den);
    }
    assert temp[..] == temp[..Degree(i, order + 1) + 1] by {
      DegreeComplete(i, order);
    }
  }

  /** Once every factor is taken, basis polynomial i has degree order. */
  lemma DegreeComplete(i: nat, order: nat)
    requires i <= order
    ensures Degree(i, order + 1) + 1 == order + 1
  {
  }

  /** The accumulation loop: coefficients[j] += temp[j] / den for every j. */
  method AddTerm(coefficients: array<real>, temp: array<real>, den: real)
    requires coefficients.Length == temp.Length && den != 0.0 && coefficients != temp
    modifies coefficients
    ensures coefficients[..] == Add(old(coefficients[..]), Divided(temp[..], den))
  {
    ghost var c := coefficients[..];
    for j := 0 to coefficients.Length
      invariant forall k :: 0 <= k < j ==> coefficients[k] == c[k] + temp[k] / den
      invariant forall k :: j <= k < coefficients.Length ==> coefficients[k] == c[k]
    {
      coefficients[j] := coefficients[j] + temp[j] / den;
    }
    assert coefficients[..] == Add(c, Divided(temp[..], den));
  }

  /** What a successful constructor leaves in the record besides the coefficients. */
  ghost predicate Allocated<C>(p: Interpolation<C>, fn: Function<C>, x0: real, x1: real, order: nat)
    reads p
  {
    p.Valid() && p.target == fn && p.start == x0 && p.end == x1 && p.order == order
  }

  /**
   * lagrange_interpolation: nothing for a reversed or empty range;
   * otherwise order + 1 samples h = (x1 - x0) / order apart and the
   * coefficients of the Lagrange sum through them.
   */
  method Lagrange<C>(fn: Function<C>, x0: real, x1: real, order: nat) returns (p: Interpolation?<C>)
    requires order >= 1
    ensures (p == null) <==> x0 >= x1
    ensures p != null ==> fresh(p) && fresh(p.coefficients) && Allocated(p, fn, x0, x1, order)
    ensures p != null ==>
      var h := (x1 - x0) / order as real;
      p.coefficients[..] == LagrangeSum(Samples(fn, x0, h, order + 1), x0, h, order, order + 1)
  {
    if x0 >= x1 {
      return null;
    }
    var h := (x1 - x0) / order as real;
    SampleCountExact(x0, x1, order);
    var sampled := SampleValues(fn, x0, x1, h);
    var ys := sampled.value.samples;
    p := new Interpolation(fn, x0, x1, |ys| - 1);
    var temp := new real[order + 1];
    var coefficients := p.coefficients;
    for i := 0 to order + 1
      invariant forall k :: 0 <= k < i ==> coefficients[k] == 0.0
    {
      coefficients[i] := 0.0;
    }
    assert coefficients[..] == LagrangeSum(ys, x0, h, order, 0);
    for i := 0 to order + 1
      invariant coefficients[..] == LagrangeSum(ys, x0, h, order, i)
    {
      var den := BasisPolynomial(temp, ys[i], x0, h, order, i);
      AddTerm(coefficients, temp, den);
    }
  }

  /** The Lagrange coefficients reproduce every sample at its knot. */
  lemma LagrangeReproducesSamples<C>(fn: Function<C>, x0: real, x1: real, order: nat, k: nat)
    requires x0 < x1 && order >= 1 && k <= order
    ensures var h := (x1 - x0) / order as real;
            Eval(LagrangeSum(Samples(fn, x0, h, order + 1), x0, h, order, order + 1), Knot(x0, h, k))
              == fn.At(Knot(x0, h, k))
  {
    var h := (x1 - x0) / order as real;
    LagrangeInterpolates(Samples(fn, x0, h, order + 1), x0, h, order, k);
  }

  // ---------------------------------------------------------------------
  // piecewise_linear_interpolation and raised_cosine_interpolation

  /**
   * The sampling shared by the two piecewise constructors: with
   * h = (x1 - x0) / order the record of order + 1 samples is allocated and
   * its interval set to h.
   */
  method PiecewiseRecord<C>(fn: Function<C>, x0: real, x1: real, order: nat) returns (p: Interpolation<C>, ys: seq<real>)
    requires x0 < x1 && order >= 1
    ensures fresh(p) && fresh(p.coefficients) && Allocated(p, fn, x0, x1, order)
    ensures p.interval == (x1 - x0) / order as real
    ensures ys == Samples(fn, x0, p.interval, order + 1)
  {
    var h := (x1 - x0) / order as real;
    SampleCountExact(x0, x1, order);
    var sampled := SampleValues(fn, x0, x1, h);
    ys := sampled.value.samples;
    p := new Interpolation(fn, x0, x1, |ys| - 1);
    p.interval := sampled.value.interval;
  }

  /**
   * piecewise_linear_interpolation: nothing for a reversed or empty range;
   * otherwise coefficient i is sample i divided by the interval.
   */
  method PiecewiseLinear<C>(fn: Function<C>, x0: real, x1: real, order: nat) returns (p: Interpolation?<C>)
    requires order >= 1
    ensures (p == null) <==> x0 >= x1
    ensures p != null ==> fresh(p) && fresh(p.coefficients) && Allocated(p, fn, x0, x1, order)
    ensures p != null ==> p.interval == (x1 - x0) / order as real
    ensures p != null ==>
      forall i :: 0 <= i <= order ==> p.coefficients[i] == fn.At(Knot(x0, p.interval, i)) / p.interval
  {
    if x0 >= x1 {
      return null;
    }
    var record, ys := PiecewiseRecord(fn, x0, x1, order);
    p := record;
    var c := p.coefficients;
    for i := 0 to |ys|
      modifies c
      invariant forall k :: 0 <= k < i ==> c[k] == ys[k] / p.interval
    {
      c[i] := ys[i] / p.interval;
    }
  }

  /**
   * The piecewise linear interpolant built from fn passes through every
   * sample: piecewise_linear_value at knot k gives fn at knot k.
   */
  lemma PiecewiseLinearReproducesSamples<C>(p: Interpolation<C>, fn: Function<C>, x0: real, x1: real, order: nat, k: nat)
    requires x0 < x1 && order >= 1 && k <= order && Allocated(p, fn, x0, x1, order)
    requires p.interval == (x1 - x0) / order as real
    requires forall i :: 0 <= i <= order ==> p.coefficients[i] == fn.At(Knot(x0, p.interval, i)) / p.interval
    ensures Gridded(p)
    ensures PiecewiseLinearValue(Knot(x0, p.interval, k), p) == Some(fn.At(Knot(x0, p.interval, k)))
  {
    var h := p.interval;
    assert (x1 - x0) / h == order as real;
    assert Ceil(order as real) == order;
    MulMonotone(k as real, order as real, h);
    assert Mul(h, order as real) == x1 - x0;
    MulCommutes(k as real, h);
    MulCommutes(order as real, h);
    PiecewiseLinearAtKnot(p, k);
    QuotientTimes(fn.At(Knot(x0, h, k)), h);
  }

  lemma QuotientTimes(a: real, d: real)
    requires d != 0.0
    ensures Mul(a / d, d) == a
  {
  }

  /**
   * raised_cosine_interpolation: nothing for a reversed or empty range;
   * otherwise coefficient i is half of sample i, so that the two raised
   * cosine weights, which add up to 2, give back the samples at the knots.
   */
  method RaisedCosine<C>(fn: Function<C>, x0: real, x1: real, order: nat) returns (p: Interpolation?<C>)
    requires order >= 1
    ensures (p == null) <==> x0 >= x1
    ensures p != null ==> fresh(p) && fresh(p.coefficients) && Allocated(p, fn, x0, x1, order)
    ensures p != null ==> p.interval == (x1 - x0) / order as real
    ensures p != null ==>
      forall i :: 0 <= i <= order ==> Mul(2.0, p.coefficients[i]) == fn.At(Knot(x0, p.interval, i))
  {
    if x0 >= x1 {
      return null;
    }
    var record, ys := PiecewiseRecord(fn, x0, x1, order);
    p := record;
    var c := p.coefficients;
    for i := 0 to |ys|
      modifies c
      invariant forall k :: 0 <= k < i ==> Mul(2.0, c[k]) == ys[k]
    {
      c[i] := ys[i] / 2.0;
    }
  }

  // ---------------------------------------------------------------------
  // least_squares_interpolation

  /** LEAST_SQUARES_POINTS: the number of sampling intervals of a fit. */
  const LeastSquaresPoints: nat := 524288

  /**
   * The design matrix matrix_transpose of least_squares_interpolation:
   * row r holds the r-th powers of the n sampling points.
   */
  function Design(x0: real, h: real, n: nat, order: nat): (d: Grid)
    ensures Shape(d, order + 1, n)
  {
    seq(order + 1, r requires 0 <= r < order + 1 => seq(n, c requires 0 <= c < n => Pow(Knot(x0, h, c), r)))
  }

  /** The samples as an n x 1 column (sample_vector_transpose). */
  function Column(ys: seq<real>): (g: Grid)
    ensures Shape(g, |ys|, 1)
    ensures forall i :: 0 <= i < |ys| ==> g[i][0] == ys[i]
  {
    seq(|ys|, i requires 0 <= i < |ys| => [ys[i]])
  }

  /** The matrix of the normal equations, the design matrix times its transpose. */
  function Normal(d: Grid, n: nat, order: nat): (g: Grid)
    requires Shape(d, order + 1, n)
    ensures Shape(g, order + 1, order + 1)
  {
    Product(d, Transposed(d, order + 1, n), order + 1, n, order + 1)
  }

  /**
   * The (order + 1) x 1 result of least_squares_interpolation's product
   * chain: (matrix_inverse of the normal matrix) times the design matrix
   * times the sample column.
   */
  function Fit(d: Grid, ys: seq<real>, order: nat): (g: Grid)
    requires Shape(d, order + 1, |ys|)
    ensures Shape(g, order + 1, 1)
  {
    var n := |ys|;
    var inverse := GaussJordan(Normal(d, n, order), order + 1).s;
    Product(Product(inverse, d, order + 1, order + 1, n), Column(ys), order + 1, n, 1)
  }

  /** The fit fails exactly when inverting the normal matrix fails. */
  predicate Singular(d: Grid, n: nat, order: nat)
    requires Shape(d, order + 1, n)
  {
    GaussJordan(Normal(d, n, order), order + 1).failed
  }

  /**
   * The samples as an n x 1 matrix.  least_squares_interpolation wraps the
   * sample buffer itself as that matrix (sample_vector_transpose) without
   * copying; here the samples are copied into a fresh matrix of the same
   * contents.
   */
  method ColumnMatrix(ys: seq<real>) returns (y: Matrix)
    requires |ys| >= 1
    ensures fresh(y) && fresh(y.elements) && y.Valid() && y.rows == |ys| && y.cols == 1
    ensures y.grid == Column(ys)
  {
    y := new Matrix(1, |ys|);
    for i := 0 to |ys|
      invariant y.Valid() && y.rows == |ys| && y.cols == 1
      invariant forall k :: 0 <= k < i ==> y.grid[k] == [ys[k]]
    {
      y.StoreRow(i, [ys[i]]);
    }
    assert y.grid == Column(ys);
  }

  /**
   * The design matrix built as least_squares_interpolation builds it: row 1
   * set to 1 and rows 2 .. order + 1 set to the powers 1 .. order of the
   * sampling points.
   */
  method DesignMatrix(x0: real, h: real, n: nat, order: nat) returns (mt: Matrix)
    requires n >= 1
    ensures fresh(mt) && fresh(mt.elements) && mt.Valid() && mt.rows == order + 1 && mt.cols == n
    ensures mt.grid == Design(x0, h, n, order)
  {
    var created := CreateMatrix(n, order + 1);
    mt := created;
    mt.SetRow(1, 1.0);
    var xs := new real[n];
    for i := 0 to n
      modifies xs
      invariant forall k :: 0 <= k < i ==> xs[k] == Knot(x0, h, k)
    {
      xs[i] := x0 + Mul(i as real, h);
      MulCommutes(i as real, h);
    }
    ghost var d := Design(x0, h, n, order);
    assert forall c :: 0 <= c < n ==> mt.grid[0][c] == d[0][c];
    for i := 2 to order + 2
      modifies mt, mt.elements
      invariant mt.Valid() && mt.rows == order + 1 && mt.cols == n
      invariant forall r :: 0 <= r < i - 1 ==> mt.grid[r] == d[r]
    {
      mt.SetRowVectorPower(i, xs[..], i - 1);
    }
  }

  /**
   * The matrix chain of least_squares_interpolation: the design matrix is
   * transposed, the normal matrix formed and inverted, and the inverse
   * multiplied by the design matrix and the sample column.  Nothing when
   * the inversion fails.
   */
  method SolveNormalEquations(mt: Matrix, y: Matrix) returns (result: Matrix?)
    requires mt.Valid() && y.Valid() && mt.cols == y.rows && y.cols == 1
    ensures (result == null) <==> Singular(mt.grid, mt.cols, mt.rows - 1)
    ensures result != null ==> fresh(result) && result.Valid() && result.rows == mt.rows && result.cols == 1
    ensures result != null ==> mt.cols == |y.grid| && result.grid == Fit(mt.grid, ColumnValues(y.grid), mt.rows - 1)
  {
    var m := Transpose(mt);
    var product := Multiply(mt, m);
    var inverse := Inverse(product);
    if inverse == null {
      return null;
    }
    var projection := Multiply(inverse, mt);
    result := Multiply(projection, y);
    ColumnValuesColumn(y.grid, mt.cols);
  }

  /** The entries of an n x 1 grid. */
  function ColumnValues(g: Grid): (ys: seq<real>)
    requires forall i :: 0 <= i < |g| ==> |g[i]| >= 1
    ensures |ys| == |g|
  {
    seq(|g|, i requires 0 <= i < |g| => g[i][0])
  }

  lemma ColumnValuesColumn(g: Grid, n: nat)
    requires Shape(g, n, 1)
    ensures Column(ColumnValues(g)) == g
  {
    assert forall i :: 0 <= i < n ==> Column(ColumnValues(g))[i] == g[i];
  }

  /**
   * least_squares_interpolation: nothing for a reversed or empty range or
   * when the normal matrix cannot be inverted; otherwise the coefficients
   * are the entries of Fit over the 524289 samples of fn taken
   * (x1 - x0) / 524288 apart.
   */
  method LeastSquares<C>(fn: Function<C>, x0: real, x1: real, order: nat) returns (p: Interpolation?<C>)
    ensures var h := (x1 - x0) / LeastSquaresPoints as real;
            var n := LeastSquaresPoints + 1;
            (p == null) <==> (x0 >= x1 || Singular(Design(x0, h, n, order), n, order))
    ensures p != null ==> fresh(p) && fresh(p.coefficients) && Allocated(p, fn, x0, x1, order)
    ensures p != null ==>
      var h := (x1 - x0) / LeastSquaresPoints as real;
      var n := LeastSquaresPoints + 1;
      var fit := Fit(Design(x0, h, n, order), Samples(fn, x0, h, n), order);
      forall i :: 0 <= i <= order ==> p.coefficients[i] == fit[i][0]
  {
    var h := (x1 - x0) / LeastSquaresPoints as real;
    var sampled := SampleValues(fn, x0, x1, h);
    if sampled.None? {
      return null;
    }
    SampleCountExact(x0, x1, LeastSquaresPoints);
    var ys := sampled.value.samples;
    var n := |ys|;
    var y := ColumnMatrix(ys);
    var mt := DesignMatrix(sampled.value.start, sampled.value.interval, n, order);
    var result := SolveNormalEquations(mt, y);
    if result == null {
      return null;
    }
    assert n == LeastSquaresPoints + 1 && sampled.value.start == x0 && sampled.value.interval == h;
    assert mt.grid == Design(x0, h, n, order);
    assert ColumnValues(y.grid) == ys;
    assert ys == Samples(fn, x0, h, n);
    assert result.grid == Fit(Design(x0, h, n, order), ys, order);
    p := new Interpolation(fn, x0, x1, order);
    CopyColumn(result, p.coefficients);
  }

  /** The final loop of least_squares_interpolation: the column is copied into the coefficients. */
  method CopyColumn(result: Matrix, c: array<real>)
    requires result.Valid() && result.cols == 1 && c.Length == result.rows && c != result.elements
    modifies c
    ensures forall k :: 0 <= k < c.Length ==> c[k] == result.grid[k][0]
  {
    for i := 0 to result.rows
      invariant forall k :: 0 <= k < i ==> c[k] == result.grid[k][0]
    {
      c[i] := result.Get(i, 0);
    }
  }

  /**
   * The least squares coefficients solve the normal equations whenever
   * anything does: if the normal matrix is not Singular (so
   * least_squares_interpolation returns a polynomial), every solution z of
   * Normal * z == Design * samples equals Fit.
   */
  lemma FitSolvesNormalEquations(d: Grid, ys: seq<real>, order: nat, z: Grid)
    requires Shape(d, order + 1, |ys|) && Shape(z, order + 1, 1)
    requires !Singular(d, |ys|, order)
    requires Product(Normal(d, |ys|, order), z, order + 1, order + 1, 1)
          == Product(d, Column(ys), order + 1, |ys|, 1)
    ensures Fit(d, ys, order) == z
  {
    var n, k := |ys|, order + 1;
    var normal := Normal(d, n, order);
    var s := GaussJordan(normal, k).s;
    GaussJordanInverts(normal, k);
    ProductAssociates(s, d, Column(ys), k, k, n, 1);
    ProductAssociates(s, normal, z, k, k, k, 1);
    IdentityProduct(z, k, 1);
  }
}
