/**
 * The dense matrix engine of matrix.c: a matrix is a row-major buffer of
 * rows * cols reals.  Row writers update the buffer in place; transpose and
 * multiply fill a fresh buffer; inversion runs Gauss-Jordan elimination on a
 * working copy and an identity matrix in parallel.
 */
module Matrices {
  import opened MatrixAlgebra
  import opened Numbers
  import opened Elimination

  class Matrix {
    const elements: array<real>
    const cols: nat
    const rows: nat
    /** The grid the buffer denotes: entry (i, j) sits at position i * cols + j. */
    ghost var grid: Grid

    ghost predicate Valid()
      reads this, elements
    {
      rows >= 1 && cols >= 1 && elements.Length == rows * cols && Shape(grid, rows, cols) &&
      forall i, j :: 0 <= i < rows && 0 <= j < cols ==>
        Idx(cols, i, j) < elements.Length && grid[i][j] == elements[Idx(cols, i, j)]
    }

    /** The allocation half of create_matrix (argument order cols, rows); the entries are whatever the buffer holds. */
    constructor (cols: nat, rows: nat)
      requires cols >= 1 && rows >= 1
      ensures Valid() && this.cols == cols && this.rows == rows && fresh(elements)
    {
      this.cols := cols;
      this.rows := rows;
      elements := new real[rows * cols];
      new;
      grid := ToGrid(elements[..], rows, cols);
      forall i, j | 0 <= i < rows && 0 <= j < cols
        ensures Idx(cols, i, j) < elements.Length
      {
        IdxBound(rows, cols, i, j);
      }
    }

    /** Reads entry (i, j) (0-based) at its row-major position. */
    function Get(i: nat, j: nat): (x: real)
      reads this, elements
      requires Valid() && i < rows && j < cols
      ensures x == grid[i][j]
    {
      elements[Idx(cols, i, j)]
    }

    /** Writes entry (i, j) (0-based) at its row-major position. */
    method Store(i: nat, j: nat, x: real)
      requires Valid() && i < rows && j < cols
      modifies this, elements
      ensures Valid() && grid == old(grid)[i := old(grid)[i][j := x]]
    {
      IdxBound(rows, cols, i, j);
      elements[Idx(cols, i, j)] := x;
      grid := grid[i := grid[i][j := x]];
      forall a, b | 0 <= a < rows && 0 <= b < cols
        ensures Idx(cols, a, b) < elements.Length && grid[a][b] == elements[Idx(cols, a, b)]
      {
        IdxBound(rows, cols, a, b);
        if a != i || b != j {
          if Idx(cols, a, b) == Idx(cols, i, j) {
            IdxInjective(cols, a, b, i, j);
          }
        }
      }
    }

    /** The compound assignment `entry (i, j) += x`. */
    method AddTo(i: nat, j: nat, x: real)
      requires Valid() && i < rows && j < cols
      modifies this, elements
      ensures Valid() && grid == old(grid)[i := old(grid)[i][j := old(grid)[i][j] + x]]
    {
      var sum := Get(i, j);
      Store(i, j, sum + x);
    }

    /** The compound assignment `entry (i, j) *= c`. */
    method ScaleEntry(i: nat, j: nat, c: real)
      requires Valid() && i < rows && j < cols
      modifies this, elements
      ensures Valid() && grid == old(grid)[i := old(grid)[i][j := Mul(c, old(grid)[i][j])]]
    {
      var x := Get(i, j);
      Store(i, j, Mul(c, x));
    }

    /** The compound assignment `entry (d, j) -= c * entry (s, j)`. */
    method SubtractScaled(d: nat, s: nat, j: nat, c: real)
      requires Valid() && d < rows && s < rows && j < cols
      modifies this, elements
      ensures Valid() && grid == old(grid)[d := old(grid)[d][j := old(grid)[d][j] - Mul(c, old(grid)[s][j])]]
    {
      var x, y := Get(d, j), Get(s, j);
      Store(d, j, x - Mul(c, y));
    }

    /** The memcpy of matrix_inverse: this buffer becomes a copy of src's. */
    method CopyFrom(src: Matrix)
      requires Valid() && src.Valid() && src.rows == rows && src.cols == cols && src.elements != elements
      modifies this, elements
      ensures Valid() && grid == src.grid
    {
      var k := 0;
      while k < elements.Length
        invariant 0 <= k <= elements.Length
        invariant elements[..k] == src.elements[..k]
      {
        elements[k] := src.elements[k];
        k := k + 1;
      }
      assert elements[..] == src.elements[..];
      grid := src.grid;
      forall i, j | 0 <= i < rows && 0 <= j < cols
        ensures Idx(cols, i, j) < elements.Length && grid[i][j] == elements[Idx(cols, i, j)]
      {
        IdxBound(rows, cols, i, j);
        assert elements[Idx(cols, i, j)] == elements[..][Idx(cols, i, j)];
      }
    }

    /** Row r (0-based) becomes v, written entry by entry from the left. */
    method StoreRow(r: nat, v: seq<real>)
      requires Valid() && r < rows && |v| == cols
      modifies this, elements
      ensures Valid() && grid == old(grid)[r := v]
    {
      ghost var g0 := grid;
      assert Splice(g0[r], v, 0) == g0[r];
      assert g0[r := g0[r]] == g0;
      var i := 0;
      while i != cols
        invariant 0 <= i <= cols
        invariant Valid()
        invariant grid == g0[r := Splice(g0[r], v, i)]
      {
        ghost var row := Splice(g0[r], v, i);
        assert grid[r] == row;
        Store(r, i, v[i]);
        assert grid == g0[r := Splice(g0[r], v, i + 1)] by {
          assert grid == g0[r := row][r := row[i := v[i]]];
          SpliceStep(g0, r, g0[r], v, i);
        }
        i := i + 1;
      }
      assert Splice(g0[r], v, cols) == v;
    }

    /** matrix_set_row: row `row` (1-based) becomes all `value`; an out-of-range row is a no-op. */
    method SetRow(row: nat, value: real)
      requires Valid()
      modifies this, elements
      ensures Valid()
      ensures grid == if 1 <= row <= rows then old(grid)[row - 1 := seq(cols, _ => value)] else old(grid)
    {
      if row == 0 || row > rows {
        return;
      }
      StoreRow(row - 1, seq(cols, _ => value));
    }

    /** matrix_set_row_vector: row `row` (1-based) becomes vector[0 .. cols]. */
    method SetRowVector(row: nat, vector: seq<real>)
      requires Valid()
      requires 1 <= row <= rows ==> |vector| >= cols
      modifies this, elements
      ensures Valid()
      ensures grid == if 1 <= row <= rows then old(grid)[row - 1 := vector[..cols]] else old(grid)
    {
      if row == 0 || row > rows {
        return;
      }
      StoreRow(row - 1, vector[..cols]);
    }

    /** matrix_set_row_vector_power: row `row` (1-based) becomes vector[i] raised to `power`. */
    method SetRowVectorPower(row: nat, vector: seq<real>, power: nat)
      requires Valid()
      requires 1 <= row <= rows ==> |vector| >= cols
      modifies this, elements
      ensures Valid()
      ensures grid == if 1 <= row <= rows
                      then old(grid)[row - 1 := seq(cols, i requires 0 <= i < cols => Pow(vector[i], power))]
                      else old(grid)
    {
      if row == 0 || row > rows {
        return;
      }
      StoreRow(row - 1, seq(cols, i requires 0 <= i < cols => Pow(vector[i], power)));
    }
  }

  /** create_matrix: fails exactly when a dimension is zero. */
  method CreateMatrix(cols: nat, rows: nat) returns (m: Matrix?)
    ensures (m == null) == (cols == 0 || rows == 0)
    ensures m != null ==> fresh(m) && fresh(m.elements) && m.Valid() && m.cols == cols && m.rows == rows
  {
    if cols == 0 || rows == 0 {
      return null;
    }
    m := new Matrix(cols, rows);
  }

  /** transpose_matrix: a fresh cols x rows matrix with T[j][i] == M[i][j]. */
  method Transpose(m: Matrix) returns (t: Matrix)
    requires m.Valid()
    ensures fresh(t) && fresh(t.elements) && t.Valid() && t.rows == m.cols && t.cols == m.rows
    ensures t.grid == Transposed(m.grid, m.rows, m.cols)
  {
    t := CreateMatrix(m.rows, m.cols);
    var i := 0;
    while i < m.rows
      invariant 0 <= i <= m.rows
      invariant t.Valid()
      invariant forall a, b :: 0 <= a < m.cols && 0 <= b < i ==> t.grid[a][b] == m.grid[b][a]
    {
      var j := 0;
      while j < m.cols
        invariant 0 <= j <= m.cols
        invariant t.Valid()
        invariant forall a, b :: 0 <= a < m.cols && 0 <= b < i ==> t.grid[a][b] == m.grid[b][a]
        invariant forall a :: 0 <= a < j ==> t.grid[a][i] == m.grid[i][a]
      {
        t.Store(j, i, m.Get(i, j));
        j := j + 1;
      }
      i := i + 1;
    }
    GridExt(t.grid, Transposed(m.grid, m.rows, m.cols), m.cols, m.rows);
  }

  /** The innermost loop of matrix_multiply: entry (i, j) of r becomes row i of a times column j of b. */
  method ProductEntry(a: Matrix, b: Matrix, r: Matrix, i: nat, j: nat)
    requires a.Valid() && b.Valid() && r.Valid() && a.cols == b.rows
    requires r.rows == a.rows && r.cols == b.cols && i < r.rows && j < r.cols
    requires r != a && r != b && r.elements != a.elements && r.elements != b.elements
    modifies r, r.elements
    ensures r.Valid() && r.grid == old(r.grid)[i := old(r.grid)[i][j := Dot(a.grid[i], b.grid, j, a.cols)]]
  {
    ghost var R := r.grid;
    r.Store(i, j, 0.0);
    var k := 0;
    while k < a.cols
      invariant 0 <= k <= a.cols
      invariant r.Valid()
      invariant r.grid == R[i := R[i][j := Dot(a.grid[i], b.grid, j, k)]]
    {
      ghost var d, d' := Dot(a.grid[i], b.grid, j, k), Dot(a.grid[i], b.grid, j, k + 1);
      EntryRewritten(R, i, j, d, d');
      AddProductTerm(a, b, r, i, j, k);
      k := k + 1;
    }
  }

  /** One pass of that loop: r[i][j] += a[i][k] * b[k][j]. */
  method AddProductTerm(a: Matrix, b: Matrix, r: Matrix, i: nat, j: nat, k: nat)
    requires a.Valid() && b.Valid() && r.Valid() && a.cols == b.rows
    requires r.rows == a.rows && r.cols == b.cols && i < r.rows && j < r.cols && k < a.cols
    requires r != a && r != b && r.elements != a.elements && r.elements != b.elements
    requires r.grid[i][j] == Dot(a.grid[i], b.grid, j, k)
    modifies r, r.elements
    ensures r.Valid() && r.grid == old(r.grid)[i := old(r.grid)[i][j := Dot(a.grid[i], b.grid, j, k + 1)]]
  {
    var term := Mul(a.Get(i, k), b.Get(k, j));
    DotStep(a.grid[i], b.grid, j, k);
    r.AddTo(i, j, term);
  }

  /** matrix_multiply: fails iff A.cols != B.rows, otherwise the triple-loop product. */
  method Multiply(a: Matrix, b: Matrix) returns (r: Matrix?)
    requires a.Valid() && b.Valid()
    ensures (r == null) == (a.cols != b.rows)
    ensures r != null ==> fresh(r) && fresh(r.elements) && r.Valid() && r.rows == a.rows && r.cols == b.cols
    ensures r != null ==> r.grid == Product(a.grid, b.grid, a.rows, a.cols, b.cols)
  {
    if a.cols != b.rows {
      return null;
    }
    r := CreateMatrix(b.cols, a.rows);
    var i := 0;
    while i < a.rows
      invariant 0 <= i <= a.rows
      invariant r.Valid()
      invariant forall x, y :: 0 <= x < i && 0 <= y < b.cols ==> r.grid[x][y] == Dot(a.grid[x], b.grid, y, a.cols)
    {
      var j := 0;
      while j < b.cols
        invariant 0 <= j <= b.cols
        invariant r.Valid()
        invariant forall x, y :: 0 <= x < i && 0 <= y < b.cols ==> r.grid[x][y] == Dot(a.grid[x], b.grid, y, a.cols)
        invariant forall y :: 0 <= y < j ==> r.grid[i][y] == Dot(a.grid[i], b.grid, y, a.cols)
      {
        ProductEntry(a, b, r, i, j);
        j := j + 1;
      }
      i := i + 1;
    }
    GridExt(r.grid, Product(a.grid, b.grid, a.rows, a.cols, b.cols), a.rows, b.cols);
  }

  /** Two distinct square matrices of one size, as the elimination helpers receive them. */
  ghost predicate Pair(m: Matrix, sec: Matrix)
    reads m, m.elements, sec, sec.elements
  {
    m.Valid() && sec.Valid() && m.rows == m.cols && sec.rows == m.rows && sec.cols == m.cols &&
    m != sec && m.elements != sec.elements
  }

  /**
   * One step of the pivot repair: entry (r, c) of g grows by what sits at
   * buffer position i * cols + col; the one position past the end reads 0.0.
   */
  method AddFromPosition(g: Matrix, r: nat, c: nat, i: nat, col: nat)
    requires g.Valid() && g.rows == g.cols && r < g.rows && c < g.rows && i < g.rows && col <= g.rows
    modifies g, g.elements
    ensures g.Valid() && var h := old(g.grid); g.grid == h[r := h[r][c := h[r][c] + Src(h, g.rows, i, col)]]
  {
    var k := i * g.cols + col;
    SrcPosition(g.rows, i, col);
    var x := if k < g.elements.Length then g.elements[k] else 0.0;
    g.AddTo(r, c, x);
  }

  /**
   * matrix_scale_row: scales row `row` (1-based) of m so that its entry in
   * column `col` becomes scaleTo, applying the same row operation to sec; a
   * zero pivot first runs the repair loop.  Returns true where the C
   * function returns 1.
   */
  method ScaleRow(m: Matrix, sec: Matrix, row: nat, col: nat, scaleTo: real) returns (failed: bool)
    requires Pair(m, sec)
    modifies m, m.elements, sec, sec.elements
    ensures Pair(m, sec)
    ensures var r := ScaleRowStep(Step(false, false, old(m.grid), old(sec.grid)), m.rows, row, col, scaleTo);
            failed == r.failed && m.grid == r.t && sec.grid == r.s
  {
    var n := m.rows;
    if row == 0 || row > n || col == 0 || col > n {
      return true;
    }
    var element := m.Get(row - 1, col - 1);
    if element == 0.0 {
      element := RepairPivot(m, sec, row, col);
      if element == 0.0 {
        return true;
      }
      element := m.Get(row - 1, col - 1);
    }
    if element == 0.0 {
      // scaleTo / 0 is not finite
      return true;
    }
    var scale := scaleTo / element;
    if scale != 1.0 {
      ScaleRows(m, sec, row - 1, scale);
    }
    return false;
  }

  /**
   * The repair loop of matrix_scale_row for a zero pivot in (row, col),
   * 1-based; returns the last entry of column col it inspected.
   */
  method RepairPivot(m: Matrix, sec: Matrix, row: nat, col: nat) returns (element: real)
    requires Pair(m, sec) && 1 <= row <= m.rows && 1 <= col <= m.rows
    modifies m, m.elements, sec, sec.elements
    ensures Pair(m, sec)
    ensures Pass(m.grid, sec.grid, element) == RepairPass(old(m.grid), old(sec.grid), m.rows, row, col, m.rows)
  {
    var n := m.rows;
    ghost var T, S := m.grid, sec.grid;
    element := 0.0;
    var i := 0;
    while i != n
      invariant 0 <= i <= n
      invariant Pair(m, sec)
      invariant RepairPass(T, S, n, row, col, i) == Pass(m.grid, sec.grid, element)
    {
      element := m.Get(i, col - 1);
      if element != 0.0 {
        AccumulateRows(m, sec, row - 1, i, col);
      }
      i := i + 1;
    }
  }

  /** The innermost repair loop: n times, entry (r, i) of both matrices += position i * n + col. */
  method AccumulateRows(m: Matrix, sec: Matrix, r: nat, i: nat, col: nat)
    requires Pair(m, sec) && r < m.rows && i < m.rows && col <= m.rows
    modifies m, m.elements, sec, sec.elements
    ensures Pair(m, sec)
    ensures m.grid == Accumulated(old(m.grid), m.rows, r, i, i, col, m.rows)
    ensures sec.grid == Accumulated(old(sec.grid), m.rows, r, i, i, col, m.rows)
  {
    var n := m.rows;
    ghost var T, S := m.grid, sec.grid;
    var j := 0;
    while j < n
      invariant 0 <= j <= n
      invariant Pair(m, sec)
      invariant m.grid == Accumulated(T, n, r, i, i, col, j)
      invariant sec.grid == Accumulated(S, n, r, i, i, col, j)
    {
      AddFromPosition(m, r, i, i, col);
      AddFromPosition(sec, r, i, i, col);
      j := j + 1;
    }
  }

  /** The scaling loop of matrix_scale_row: row r of both matrices times scale. */
  method ScaleRows(m: Matrix, sec: Matrix, r: nat, scale: real)
    requires Pair(m, sec) && r < m.rows
    modifies m, m.elements, sec, sec.elements
    ensures Pair(m, sec)
    ensures m.grid == RowScaled(old(m.grid), r, scale)
    ensures sec.grid == RowScaled(old(sec.grid), r, scale)
  {
    ghost var T, S := m.grid, sec.grid;
    ghost var T', S' := RowScaled(T, r, scale), RowScaled(S, r, scale);
    assert Splice(T[r], T'[r], 0) == T[r] && T[r := T[r]] == T;
    assert Splice(S[r], S'[r], 0) == S[r] && S[r := S[r]] == S;
    var i := 0;
    while i < m.cols
      invariant 0 <= i <= m.cols
      invariant Pair(m, sec)
      invariant m.grid == T[r := Splice(T[r], T'[r], i)]
      invariant sec.grid == S[r := Splice(S[r], S'[r], i)]
    {
      SpliceScaled(T, r, scale, i);
      SpliceScaled(S, r, scale, i);
      m.ScaleEntry(r, i, scale);
      sec.ScaleEntry(r, i, scale);
      i := i + 1;
    }
    assert Splice(T[r], T'[r], m.cols) == T'[r];
    assert Splice(S[r], S'[r], m.cols) == S'[r];
  }

  /**
   * matrix_reduce_row: row dst (1-based) of m loses m[dst][col] times row
   * src, and sec undergoes the same row operation.  Returns true where the
   * C function returns 1.
   */
  method ReduceRow(m: Matrix, sec: Matrix, dst: nat, src: nat, col: nat) returns (failed: bool)
    requires Pair(m, sec)
    modifies m, m.elements, sec, sec.elements
    ensures Pair(m, sec)
    ensures var r := ReduceRowStep(Step(false, false, old(m.grid), old(sec.grid)), m.rows, dst, src, col);
            failed == r.failed && m.grid == r.t && sec.grid == r.s
  {
    var n := m.rows;
    if src == dst || dst == 0 || dst > n || src == 0 || src > n || col == 0 || col > n {
      return true;
    }
    if m.Get(src - 1, col - 1) == 0.0 {
      return true;
    }
    var scale := m.Get(dst - 1, col - 1);
    if scale != 0.0 {
      ReduceRows(m, sec, dst - 1, src - 1, scale);
    }
    return false;
  }

  /** What row d of g0 becomes once its first i entries have been reduced. */
  ghost function PartlyReduced(g0: Grid, d: nat, s: nat, scale: real, i: nat): Grid
    requires d < |g0| && s < |g0| && |g0[d]| == |g0[s]| && i <= |g0[d]|
  {
    g0[d := Splice(g0[d], RowReduced(g0, d, s, scale)[d], i)]
  }

  /** One pass of the loop of matrix_reduce_row: entry (d, i) of both matrices is reduced. */
  method ReduceEntries(m: Matrix, sec: Matrix, ghost T: Grid, ghost S: Grid, d: nat, s: nat, scale: real, i: nat)
    requires Pair(m, sec) && d < m.rows && s < m.rows && d != s && i < m.cols
    requires Shape(T, m.rows, m.cols) && Shape(S, m.rows, m.cols)
    requires m.grid == PartlyReduced(T, d, s, scale, i) && sec.grid == PartlyReduced(S, d, s, scale, i)
    modifies m, m.elements, sec, sec.elements
    ensures Pair(m, sec)
    ensures m.grid == PartlyReduced(T, d, s, scale, i + 1) && sec.grid == PartlyReduced(S, d, s, scale, i + 1)
  {
    SpliceReduced(T, d, s, scale, i);
    SpliceReduced(S, d, s, scale, i);
    m.SubtractScaled(d, s, i, scale);
    sec.SubtractScaled(d, s, i, scale);
  }

  /** The loop of matrix_reduce_row: row d of both matrices minus scale times row s. */
  method ReduceRows(m: Matrix, sec: Matrix, d: nat, s: nat, scale: real)
    requires Pair(m, sec) && d < m.rows && s < m.rows && d != s
    modifies m, m.elements, sec, sec.elements
    ensures Pair(m, sec)
    ensures m.grid == RowReduced(old(m.grid), d, s, scale)
    ensures sec.grid == RowReduced(old(sec.grid), d, s, scale)
  {
    ghost var T, S := m.grid, sec.grid;
    ghost var T', S' := RowReduced(T, d, s, scale), RowReduced(S, d, s, scale);
    assert Splice(T[d], T'[d], 0) == T[d] && T[d := T[d]] == T;
    assert Splice(S[d], S'[d], 0) == S[d] && S[d := S[d]] == S;
    var i := 0;
    while i < m.cols
      invariant 0 <= i <= m.cols
      invariant Pair(m, sec)
      invariant m.grid == PartlyReduced(T, d, s, scale, i)
      invariant sec.grid == PartlyReduced(S, d, s, scale, i)
    {
      ReduceEntries(m, sec, T, S, d, s, scale, i);
      i := i + 1;
    }
    assert Splice(T[d], T'[d], m.cols) == T'[d];
    assert Splice(S[d], S'[d], m.cols) == S'[d];
  }

  /**
   * matrix_inverse: null for a non-square matrix; otherwise Gauss-Jordan
   * elimination of a copy of m alongside an identity matrix, null exactly
   * when a helper reports failure, else the transformed identity, which is
   * then a left inverse of m.
   */
  method Inverse(m: Matrix) returns (inv: Matrix?)
    requires m.Valid()
    ensures m.rows != m.cols ==> inv == null
    ensures m.rows == m.cols ==> (inv == null) == GaussJordan(m.grid, m.rows).failed
    ensures inv != null ==> fresh(inv) && inv.Valid() && inv.rows == m.rows && inv.cols == m.cols
    ensures inv != null ==> inv.grid == GaussJordan(m.grid, m.rows).s
    ensures inv != null ==> Product(inv.grid, m.grid, m.rows, m.rows, m.rows) == Identity(m.rows)
  {
    if m.rows != m.cols {
      return null;
    }
    GaussJordanInverts(m.grid, m.rows);
    var n := m.rows;
    var temp := CreateMatrix(n, n);
    var inverse := CreateMatrix(n, n);
    temp.CopyFrom(m);
    FillIdentity(inverse);
    var failed;
    ghost var repaired;
    failed, repaired := ForwardPhase(temp, inverse);
    if !failed {
      failed := BackwardPhase(temp, inverse, repaired);
    }
    if failed {
      return null;
    }
    return inverse;
  }

  /** The first loop nest of matrix_inverse: for each pivot i, scale row i to a unit pivot, then clear below it. */
  method ForwardPhase(m: Matrix, sec: Matrix) returns (failed: bool, ghost repaired: bool)
    requires Pair(m, sec)
    modifies m, m.elements, sec, sec.elements
    ensures Pair(m, sec)
    ensures Step(failed, repaired, m.grid, sec.grid) == ForwardFrom(Step(false, false, old(m.grid), old(sec.grid)), m.rows, 1)
  {
    ghost var start := Step(false, false, m.grid, sec.grid);
    var n := m.rows;
    failed, repaired := false, false;
    var i := 1;
    while i <= n && !failed
      invariant 1 <= i <= n + 1
      invariant Pair(m, sec)
      invariant ForwardFrom(Step(failed, repaired, m.grid, sec.grid), n, i) == ForwardFrom(start, n, 1)
      decreases n + 1 - i
    {
      ghost var before := Step(failed, repaired, m.grid, sec.grid);
      ScaleRowFlagFree(m.grid, sec.grid, n, i, i, 1.0, repaired);
      failed := ScaleRow(m, sec, i, i, 1.0);
      repaired := ScaleRowStep(before, n, i, i, 1.0).repaired;
      if !failed {
        failed := ClearBelow(m, sec, i, repaired);
      }
      i := i + 1;
    }
  }

  /** The inner forward loop: rows i+1 .. n lose their multiple of row i, stopping at the first failure. */
  method ClearBelow(m: Matrix, sec: Matrix, i: nat, ghost repaired: bool) returns (failed: bool)
    requires Pair(m, sec) && 1 <= i <= m.rows
    modifies m, m.elements, sec, sec.elements
    ensures Pair(m, sec)
    ensures Step(failed, repaired, m.grid, sec.grid) == ReduceBelow(Step(false, repaired, old(m.grid), old(sec.grid)), m.rows, i, i + 1)
  {
    ghost var start := Step(false, repaired, m.grid, sec.grid);
    var n := m.rows;
    failed := false;
    var j := i + 1;
    while j <= n && !failed
      invariant i + 1 <= j <= n + 1
      invariant Pair(m, sec)
      invariant ReduceBelow(Step(failed, repaired, m.grid, sec.grid), n, i, j) == ReduceBelow(start, n, i, i + 1)
      decreases n + 1 - j
    {
      ghost var before := Step(failed, repaired, m.grid, sec.grid);
      failed := ReduceRowTracked(m, sec, j, i, i, repaired);
      assert ReduceBelow(before, n, i, j) == ReduceBelow(Step(failed, repaired, m.grid, sec.grid), n, i, j + 1);
      j := j + 1;
    }
  }

  /** ReduceRow seen as a step of the elimination that has or has not repaired a pivot so far. */
  method ReduceRowTracked(m: Matrix, sec: Matrix, dst: nat, src: nat, col: nat, ghost repaired: bool) returns (failed: bool)
    requires Pair(m, sec)
    modifies m, m.elements, sec, sec.elements
    ensures Pair(m, sec)
    ensures Step(failed, repaired, m.grid, sec.grid)
         == ReduceRowStep(Step(false, repaired, old(m.grid), old(sec.grid)), m.rows, dst, src, col)
  {
    ReduceRowFlagFree(m.grid, sec.grid, m.rows, dst, src, col, repaired);
    failed := ReduceRow(m, sec, dst, src, col);
  }

  /** The second loop nest of matrix_inverse: for each pivot i from n down to 1, clear above it. */
  method BackwardPhase(m: Matrix, sec: Matrix, ghost repaired: bool) returns (failed: bool)
    requires Pair(m, sec)
    modifies m, m.elements, sec, sec.elements
    ensures Pair(m, sec)
    ensures Step(failed, repaired, m.grid, sec.grid) == BackwardFrom(Step(false, repaired, old(m.grid), old(sec.grid)), m.rows, m.rows)
  {
    ghost var start := Step(false, repaired, m.grid, sec.grid);
    var n := m.rows;
    failed := false;
    var i := n;
    while i >= 1 && !failed
      invariant 0 <= i <= n
      invariant Pair(m, sec)
      invariant BackwardFrom(Step(failed, repaired, m.grid, sec.grid), n, i) == BackwardFrom(start, n, n)
      decreases i
    {
      failed := ClearAbove(m, sec, i, repaired);
      i := i - 1;
    }
  }

  /** The inner backward loop: rows i-1 .. 1 lose their multiple of row i, stopping at the first failure. */
  method ClearAbove(m: Matrix, sec: Matrix, i: nat, ghost repaired: bool) returns (failed: bool)
    requires Pair(m, sec) && 1 <= i <= m.rows
    modifies m, m.elements, sec, sec.elements
    ensures Pair(m, sec)
    ensures Step(failed, repaired, m.grid, sec.grid) == ReduceAbove(Step(false, repaired, old(m.grid), old(sec.grid)), m.rows, i, i - 1)
  {
    ghost var start := Step(false, repaired, m.grid, sec.grid);
    var n := m.rows;
    failed := false;
    var j := i - 1;
    while j >= 1 && !failed
      invariant 0 <= j < i
      invariant Pair(m, sec)
      invariant ReduceAbove(Step(failed, repaired, m.grid, sec.grid), n, i, j) == ReduceAbove(start, n, i, i - 1)
      decreases j
    {
      failed := ReduceRowTracked(m, sec, j, i, i, repaired);
      j := j - 1;
    }
  }

  /** The identity loop of matrix_inverse: entry (i, j) becomes 1 on the diagonal and 0 elsewhere. */
  method FillIdentity(g: Matrix)
    requires g.Valid() && g.rows == g.cols
    modifies g, g.elements
    ensures g.Valid() && g.grid == Identity(g.rows)
  {
    var n := g.rows;
    var i := 0;
    while i < n
      invariant 0 <= i <= n
      invariant g.Valid()
      invariant forall a, b :: 0 <= a < i && 0 <= b < n ==> g.grid[a][b] == Identity(n)[a][b]
    {
      var j := 0;
      while j < n
        invariant 0 <= j <= n
        invariant g.Valid()
        invariant forall a, b :: 0 <= a < i && 0 <= b < n ==> g.grid[a][b] == Identity(n)[a][b]
        invariant forall b :: 0 <= b < j ==> g.grid[i][b] == Identity(n)[i][b]
      {
        g.Store(i, j, if i == j then 1.0 else 0.0);
        j := j + 1;
      }
      i := i + 1;
    }
    GridExt(g.grid, Identity(n), n, n);
  }
}
