/**
 * The mathematical meaning of the dense matrices of matrix.c: a matrix value
 * is a grid (a sequence of rows), and a row-major buffer denotes the grid
 * ToGrid(buffer, rows, cols).
 */
module MatrixAlgebra {
  import opened Numbers

  type Grid = seq<seq<real>>

  /** g has exactly `rows` rows of exactly `cols` entries each. */
  predicate Shape(g: Grid, rows: nat, cols: nat)
  {
    |g| == rows && forall i :: 0 <= i < rows ==> |g[i]| == cols
  }

  // ---------------------------------------------------------------------
  // Row-major layout

  /** Position of entry (i, j) in a row-major buffer with `cols` columns. */
  function Idx(cols: nat, i: nat, j: nat): nat
  {
    i * cols + j
  }

  lemma {:induction false} MulMono(a: nat, b: nat, c: nat)
    requires a <= b
    ensures a * c <= b * c
  {
    if a < b {
      MulMono(a, b - 1, c);
      assert (b - 1) * c + c == b * c;
    }
  }

  lemma RowBound(rows: nat, cols: nat, i: nat)
    requires i < rows
    ensures i * cols + cols <= rows * cols
  {
    MulMono(i + 1, rows, cols);
    assert (i + 1) * cols == i * cols + cols;
  }

  lemma IdxBound(rows: nat, cols: nat, i: nat, j: nat)
    requires i < rows && j < cols
    ensures Idx(cols, i, j) < rows * cols
  {
    RowBound(rows, cols, i);
  }

  /** Two entries of one buffer sit at the same position only if they are the same entry. */
  lemma IdxInjective(cols: nat, i: nat, j: nat, a: nat, b: nat)
    requires j < cols && b < cols
    requires Idx(cols, i, j) == Idx(cols, a, b)
    ensures i == a && j == b
  {
    if i < a {
      RowBound(a, cols, i);
    } else if a < i {
      RowBound(i, cols, a);
    }
  }

  /** Entry (i, j) of a row-major buffer. */
  function At(s: seq<real>, rows: nat, cols: nat, i: nat, j: nat): real
    requires |s| == rows * cols && i < rows && j < cols
  {
    IdxBound(rows, cols, i, j);
    s[Idx(cols, i, j)]
  }

  /** The grid that a row-major buffer of rows * cols entries denotes. */
  function ToGrid(s: seq<real>, rows: nat, cols: nat): (g: Grid)
    requires |s| == rows * cols
    ensures Shape(g, rows, cols)
    ensures forall i, j :: 0 <= i < rows && 0 <= j < cols ==> g[i][j] == At(s, rows, cols, i, j)
  {
    seq(rows, i requires 0 <= i < rows => seq(cols, j requires 0 <= j < cols => At(s, rows, cols, i, j)))
  }

  /** A grid is determined by its entries. */
  lemma GridExt(g: Grid, h: Grid, rows: nat, cols: nat)
    requires Shape(g, rows, cols) && Shape(h, rows, cols)
    requires forall i, j :: 0 <= i < rows && 0 <= j < cols ==> g[i][j] == h[i][j]
    ensures g == h
  {
    forall i | 0 <= i < rows
      ensures g[i] == h[i]
    {
    }
  }

  /** A grid that agrees with g0 outside row r and holds v on row r is g0 with row r replaced. */
  lemma RowReplaced(g: Grid, g0: Grid, rows: nat, cols: nat, r: nat, v: seq<real>)
    requires Shape(g, rows, cols) && Shape(g0, rows, cols) && r < rows && |v| == cols
    requires forall a :: 0 <= a < rows && a != r ==> g[a] == g0[a]
    requires forall b :: 0 <= b < cols ==> g[r][b] == v[b]
    ensures g == g0[r := v]
  {
    assert g[r] == v;
  }

  /** The first i entries of b followed by the rest of a: a row that a loop has rewritten up to i. */
  function Splice(a: seq<real>, b: seq<real>, i: nat): (r: seq<real>)
    requires |a| == |b| && i <= |a|
    ensures |r| == |a|
    ensures forall k :: 0 <= k < |a| ==> r[k] == if k < i then b[k] else a[k]
  {
    b[..i] + a[i..]
  }

  /** Rewriting entry i of a row spliced up to i splices it up to i + 1. */
  lemma SpliceStep(g: Grid, r: nat, a: seq<real>, b: seq<real>, i: nat)
    requires r < |g| && |a| == |b| && i < |a|
    ensures g[r := Splice(a, b, i)][r := Splice(a, b, i)[i := b[i]]] == g[r := Splice(a, b, i + 1)]
  {
    assert Splice(a, b, i)[i := b[i]] == Splice(a, b, i + 1);
  }

  /** Writing the same entry twice leaves only the second value. */
  lemma EntryRewritten(g: Grid, r: nat, c: nat, x: real, y: real)
    requires r < |g| && c < |g[r]|
    ensures g[r := g[r][c := x]][r := g[r][c := x][c := y]] == g[r := g[r][c := y]]
  {
    assert g[r][c := x][c := y] == g[r][c := y];
  }

  // ---------------------------------------------------------------------
  // Operations

  function Transposed(g: Grid, rows: nat, cols: nat): (t: Grid)
    requires Shape(g, rows, cols)
    ensures Shape(t, cols, rows)
    ensures forall i, j :: 0 <= i < rows && 0 <= j < cols ==> t[j][i] == g[i][j]
  {
    seq(cols, j requires 0 <= j < cols => seq(rows, i requires 0 <= i < rows => g[i][j]))
  }

  /** Sum over l < k of row[l] * b[l][j]: the first k terms of a row-by-column product. */
  function Dot(row: seq<real>, b: Grid, j: nat, k: nat): real
    requires k <= |row| && k <= |b|
    requires forall l :: 0 <= l < k ==> j < |b[l]|
  {
    if k == 0 then 0.0 else Dot(row, b, j, k - 1) + Mul(row[k - 1], b[k - 1][j])
  }

  lemma DotStep(row: seq<real>, b: Grid, j: nat, k: nat)
    requires k < |row| && k < |b|
    requires forall l :: 0 <= l <= k ==> j < |b[l]|
    ensures Dot(row, b, j, k + 1) == Dot(row, b, j, k) + Mul(row[k], b[k][j])
  {
  }

  /** The n x p product of an n x m grid and an m x p grid. */
  function Product(a: Grid, b: Grid, n: nat, m: nat, p: nat): (c: Grid)
    requires Shape(a, n, m) && Shape(b, m, p)
    ensures Shape(c, n, p)
    ensures forall i, j :: 0 <= i < n && 0 <= j < p ==> c[i][j] == Dot(a[i], b, j, m)
  {
    seq(n, i requires 0 <= i < n => seq(p, j requires 0 <= j < p => Dot(a[i], b, j, m)))
  }

  function Identity(n: nat): (g: Grid)
    ensures Shape(g, n, n)
  {
    seq(n, i requires 0 <= i < n => seq(n, j requires 0 <= j < n => if i == j then 1.0 else 0.0))
  }

  /** Row r multiplied by c. */
  function RowScaled(g: Grid, r: nat, c: real): (h: Grid)
    requires r < |g|
    ensures |h| == |g| && |h[r]| == |g[r]|
    ensures forall i :: 0 <= i < |g| && i != r ==> h[i] == g[i]
    ensures forall k :: 0 <= k < |g[r]| ==> h[r][k] == Mul(c, g[r][k])
  {
    g[r := seq(|g[r]|, k requires 0 <= k < |g[r]| => Mul(c, g[r][k]))]
  }

  /** Row dst minus s times row src. */
  function RowReduced(g: Grid, dst: nat, src: nat, s: real): (h: Grid)
    requires dst < |g| && src < |g| && |g[dst]| == |g[src]|
    ensures |h| == |g| && |h[dst]| == |g[dst]|
    ensures forall i :: 0 <= i < |g| && i != dst ==> h[i] == g[i]
    ensures forall k :: 0 <= k < |g[dst]| ==> h[dst][k] == g[dst][k] - Mul(s, g[src][k])
  {
    g[dst := seq(|g[dst]|, k requires 0 <= k < |g[dst]| => g[dst][k] - Mul(s, g[src][k]))]
  }

  /** One more entry of row r scaled in place: the splice towards RowScaled advances by one. */
  lemma SpliceScaled(g0: Grid, r: nat, c: real, i: nat)
    requires r < |g0| && i < |g0[r]|
    ensures var g := g0[r := Splice(g0[r], RowScaled(g0, r, c)[r], i)];
            g[r := g[r][i := Mul(c, g[r][i])]] == g0[r := Splice(g0[r], RowScaled(g0, r, c)[r], i + 1)]
  {
    var h := RowScaled(g0, r, c);
    SpliceStep(g0, r, g0[r], h[r], i);
  }

  /** One more entry of row dst reduced in place: the splice towards RowReduced advances by one. */
  lemma SpliceReduced(g0: Grid, dst: nat, src: nat, c: real, i: nat)
    requires dst < |g0| && src < |g0| && dst != src && |g0[dst]| == |g0[src]| && i < |g0[dst]|
    ensures var g := g0[dst := Splice(g0[dst], RowReduced(g0, dst, src, c)[dst], i)];
            g[dst := g[dst][i := g[dst][i] - Mul(c, g[src][i])]]
            == g0[dst := Splice(g0[dst], RowReduced(g0, dst, src, c)[dst], i + 1)]
  {
    var h := RowReduced(g0, dst, src, c);
    var g := g0[dst := Splice(g0[dst], h[dst], i)];
    assert g[src] == g0[src];
    SpliceStep(g0, dst, g0[dst], h[dst], i);
  }

  // ---------------------------------------------------------------------
  // Laws

  /** Transposing twice gives back the original grid. */
  lemma TransposeInvolutive(g: Grid, rows: nat, cols: nat)
    requires Shape(g, rows, cols)
    ensures Transposed(Transposed(g, rows, cols), cols, rows) == g
  {
    var t := Transposed(g, rows, cols);
    GridExt(Transposed(t, cols, rows), g, rows, cols);
  }

  lemma {:induction false} DotScaled(row: seq<real>, row': seq<real>, b: Grid, j: nat, k: nat, c: real)
    requires k <= |row| == |row'| && k <= |b|
    requires forall l :: 0 <= l < k ==> j < |b[l]|
    requires forall l :: 0 <= l < |row| ==> row'[l] == c * row[l]
    ensures Dot(row', b, j, k) == c * Dot(row, b, j, k)
  {
    if k > 0 {
      DotScaled(row, row', b, j, k - 1, c);
    }
  }

  lemma {:induction false} DotReduced(r1: seq<real>, r2: seq<real>, r: seq<real>, b: Grid, j: nat, k: nat, s: real)
    requires k <= |r| == |r1| == |r2| && k <= |b|
    requires forall l :: 0 <= l < k ==> j < |b[l]|
    requires forall l :: 0 <= l < |r| ==> r[l] == r1[l] - s * r2[l]
    ensures Dot(r, b, j, k) == Dot(r1, b, j, k) - s * Dot(r2, b, j, k)
  {
    if k > 0 {
      DotReduced(r1, r2, r, b, j, k - 1, s);
    }
  }

  /** Scaling a row of the left factor scales the same row of the product. */
  lemma ProductRowScaled(a: Grid, b: Grid, n: nat, m: nat, p: nat, r: nat, c: real)
    requires Shape(a, n, m) && Shape(b, m, p) && r < n
    ensures Shape(RowScaled(a, r, c), n, m)
    ensures Product(RowScaled(a, r, c), b, n, m, p) == RowScaled(Product(a, b, n, m, p), r, c)
  {
    var a' := RowScaled(a, r, c);
    var lhs := Product(a', b, n, m, p);
    var rhs := RowScaled(Product(a, b, n, m, p), r, c);
    forall i, j | 0 <= i < n && 0 <= j < p
      ensures lhs[i][j] == rhs[i][j]
    {
      if i == r {
        DotScaled(a[r], a'[r], b, j, m, c);
      }
    }
    GridExt(lhs, rhs, n, p);
  }

  /** Reducing a row of the left factor reduces the same row of the product. */
  lemma ProductRowReduced(a: Grid, b: Grid, n: nat, m: nat, p: nat, dst: nat, src: nat, s: real)
    requires Shape(a, n, m) && Shape(b, m, p) && dst < n && src < n
    ensures Shape(RowReduced(a, dst, src, s), n, m)
    ensures Product(RowReduced(a, dst, src, s), b, n, m, p)
         == RowReduced(Product(a, b, n, m, p), dst, src, s)
  {
    var a' := RowReduced(a, dst, src, s);
    var lhs := Product(a', b, n, m, p);
    var rhs := RowReduced(Product(a, b, n, m, p), dst, src, s);
    forall i, j | 0 <= i < n && 0 <= j < p
      ensures lhs[i][j] == rhs[i][j]
    {
      if i == dst {
        DotReduced(a[dst], a[src], a'[dst], b, j, m, s);
      }
    }
    GridExt(lhs, rhs, n, p);
  }

  lemma {:induction false} DotIdentityRow(n: nat, i: nat, b: Grid, j: nat, k: nat)
    requires i < n && k <= n && k <= |b|
    requires forall l :: 0 <= l < k ==> j < |b[l]|
    ensures Dot(Identity(n)[i], b, j, k) == if i < k then b[i][j] else 0.0
  {
    if k > 0 {
      DotIdentityRow(n, i, b, j, k - 1);
    }
  }

  /** The identity is a left unit of the product. */
  lemma IdentityProduct(b: Grid, n: nat, p: nat)
    requires Shape(b, n, p)
    ensures Product(Identity(n), b, n, n, p) == b
  {
    var lhs := Product(Identity(n), b, n, n, p);
    forall i, j | 0 <= i < n && 0 <= j < p
      ensures lhs[i][j] == b[i][j]
    {
      DotIdentityRow(n, i, b, j, n);
    }
    GridExt(lhs, b, n, p);
  }

  /**
   * Sum over t < l of a[t] * Dot(b[t], c, j, k): the double sum both sides
   * of the associativity law reduce to.
   */
  function Mixed(a: seq<real>, b: Grid, c: Grid, m: nat, p: nat, j: nat, k: nat, l: nat): real
    requires |a| == m && Shape(b, m, p) && |c| == p && l <= m && k <= p
    requires forall s :: 0 <= s < p ==> j < |c[s]|
  {
    if l == 0 then 0.0 else Mixed(a, b, c, m, p, j, k, l - 1) + a[l - 1] * Dot(b[l - 1], c, j, k)
  }

  lemma {:induction false} MixedEmpty(a: seq<real>, b: Grid, c: Grid, m: nat, p: nat, j: nat, l: nat)
    requires |a| == m && Shape(b, m, p) && |c| == p && l <= m
    requires forall s :: 0 <= s < p ==> j < |c[s]|
    ensures Mixed(a, b, c, m, p, j, 0, l) == 0.0
  {
    if l > 0 {
      MixedEmpty(a, b, c, m, p, j, l - 1);
    }
  }

  /** Extending the inner sums by one column adds one more outer term. */
  lemma {:induction false} MixedStep(a: seq<real>, b: Grid, c: Grid, m: nat, p: nat, j: nat, k: nat, l: nat)
    requires |a| == m && Shape(b, m, p) && |c| == p && l <= m && k < p
    requires forall s :: 0 <= s < p ==> j < |c[s]|
    ensures Mixed(a, b, c, m, p, j, k + 1, l) == Mixed(a, b, c, m, p, j, k, l) + Dot(a, b, k, l) * c[k][j]
  {
    if l > 0 {
      MixedStep(a, b, c, m, p, j, k, l - 1);
      var x, y, z := a[l - 1], b[l - 1][k], c[k][j];
      var d := Dot(b[l - 1], c, j, k);
      assert Dot(b[l - 1], c, j, k + 1) == d + y * z;
      assert Dot(a, b, k, l) == Dot(a, b, k, l - 1) + x * y;
      assert x * (d + y * z) == x * d + (x * y) * z by {
        MulDistributes(d, y * z, x);
        MulAssociates(x, y, z);
      }
      assert (Dot(a, b, k, l - 1) + x * y) * z == Dot(a, b, k, l - 1) * z + (x * y) * z by {
        MulDistributes(Dot(a, b, k, l - 1), x * y, z);
      }
    }
  }

  /** A row of a product, dotted with a column: the first k terms. */
  lemma {:induction false} DotProductRow(a: Grid, b: Grid, c: Grid, n: nat, m: nat, p: nat, q: nat, i: nat, j: nat, k: nat)
    requires Shape(a, n, m) && Shape(b, m, p) && Shape(c, p, q) && i < n && j < q && k <= p
    ensures Dot(Product(a, b, n, m, p)[i], c, j, k) == Mixed(a[i], b, c, m, p, j, k, m)
  {
    if k == 0 {
      MixedEmpty(a[i], b, c, m, p, j, m);
    } else {
      DotProductRow(a, b, c, n, m, p, q, i, j, k - 1);
      MixedStep(a[i], b, c, m, p, j, k - 1, m);
    }
  }

  /** A row dotted with a column of a product: the first l terms. */
  lemma {:induction false} DotOfProduct(a: seq<real>, b: Grid, c: Grid, m: nat, p: nat, q: nat, j: nat, l: nat)
    requires |a| == m && Shape(b, m, p) && Shape(c, p, q) && j < q && l <= m
    ensures Dot(a, Product(b, c, m, p, q), j, l) == Mixed(a, b, c, m, p, j, p, l)
  {
    if l > 0 {
      DotOfProduct(a, b, c, m, p, q, j, l - 1);
    }
  }

  /** The product is associative. */
  lemma ProductAssociates(a: Grid, b: Grid, c: Grid, n: nat, m: nat, p: nat, q: nat)
    requires Shape(a, n, m) && Shape(b, m, p) && Shape(c, p, q)
    ensures Product(Product(a, b, n, m, p), c, n, p, q) == Product(a, Product(b, c, m, p, q), n, m, q)
  {
    var lhs := Product(Product(a, b, n, m, p), c, n, p, q);
    var rhs := Product(a, Product(b, c, m, p, q), n, m, q);
    forall i, j | 0 <= i < n && 0 <= j < q
      ensures lhs[i][j] == rhs[i][j]
    {
      DotProductRow(a, b, c, n, m, p, q, i, j, p);
      DotOfProduct(a[i], b, c, m, p, q, j, m);
    }
    GridExt(lhs, rhs, n, q);
  }
}
