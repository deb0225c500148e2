/**
 * Gauss-Jordan elimination as matrix_inverse performs it, stated on grids:
 * one Step per call of matrix_scale_row or matrix_reduce_row, the forward
 * phase (scale the pivot row, clear the column below) and the backward phase
 * (clear the column above), each stopping at the first failure.
 */
module Elimination {
  import opened Numbers
  import opened MatrixAlgebra

  /**
   * The state the elimination carries: the error flag of the last helper,
   * whether a zero pivot ever sent it through the pivot repair, the working
   * copy t and the matrix s that starts as the identity and ends as the inverse.
   */
  datatype Step = Step(failed: bool, repaired: bool, t: Grid, s: Grid)

  predicate Square(st: Step, n: nat)
  {
    Shape(st.t, n, n) && Shape(st.s, n, n)
  }

  // ---------------------------------------------------------------------
  // matrix_scale_row

  /**
   * What the pivot repair reads at buffer position i * n + col: entry
   * (i, col) while col < n, the first entry of the next row when col == n,
   * and 0.0 for the one position past the end of the buffer.
   */
  function Src(g: Grid, n: nat, i: nat, col: nat): real
    requires Shape(g, n, n) && i < n && col <= n
  {
    if col < n then g[i][col] else if i + 1 < n then g[i + 1][0] else 0.0
  }

  /**
   * Buffer position i * n + col lies inside an n x n buffer exactly when Src
   * reads an entry, and it is the position of the entry Src reads.
   */
  lemma SrcPosition(n: nat, i: nat, col: nat)
    requires i < n && col <= n
    ensures (i * n + col < n * n) == (col < n || i + 1 < n)
    ensures col < n ==> i * n + col == Idx(n, i, col)
    ensures col == n && i + 1 < n ==> i * n + col == Idx(n, i + 1, 0)
  {
    if col < n {
      IdxBound(n, n, i, col);
    } else if i + 1 < n {
      assert i * n + col == Idx(n, i + 1, 0);
      IdxBound(n, n, i + 1, 0);
    } else {
      assert i * n + col == n * n;
    }
  }

  /** `times` repetitions of `entry (r, c) += Src(g, n, i, col)`, each reading the current grid. */
  function Accumulated(g: Grid, n: nat, r: nat, c: nat, i: nat, col: nat, times: nat): (h: Grid)
    requires Shape(g, n, n) && r < n && c < n && i < n && col <= n
    ensures Shape(h, n, n)
  {
    if times == 0 then g
    else
      var h := Accumulated(g, n, r, c, i, col, times - 1);
      h[r := h[r][c := h[r][c] + Src(h, n, i, col)]]
  }

  /** Both grids after the repair loop, and the last entry of column col it inspected. */
  datatype Pass = Pass(t: Grid, s: Grid, element: real)

  /**
   * The repair loop of matrix_scale_row after rows 0 .. i-1 (row and col
   * 1-based): for every row whose entry in column col is non-zero, entry
   * (row-1, i) of both grids is increased n times by what sits at position
   * i * n + col.
   */
  function RepairPass(t: Grid, s: Grid, n: nat, row: nat, col: nat, i: nat): (p: Pass)
    requires Shape(t, n, n) && Shape(s, n, n) && 1 <= row <= n && 1 <= col <= n && i <= n
    ensures Shape(p.t, n, n) && Shape(p.s, n, n)
  {
    if i == 0 then Pass(t, s, 0.0)
    else
      var p := RepairPass(t, s, n, row, col, i - 1);
      var e := p.t[i - 1][col - 1];
      if e != 0.0 then
        Pass(Accumulated(p.t, n, row - 1, i - 1, i - 1, col, n),
             Accumulated(p.s, n, row - 1, i - 1, i - 1, col, n), e)
      else Pass(p.t, p.s, e)
  }

  /** Row r of both grids multiplied by scale, skipped when scale is 1. */
  function Scaled(st: Step, r: nat, scale: real): (res: Step)
    requires r < |st.t| && r < |st.s|
  {
    if scale != 1.0 then st.(t := RowScaled(st.t, r, scale), s := RowScaled(st.s, r, scale))
    else st
  }

  /**
   * matrix_scale_row(t, s, row, col, scaleTo): fails for an out-of-range row
   * or column; a zero pivot runs the repair, which fails when the last entry
   * it inspected or the re-read pivot is zero (scaleTo / 0 is not finite);
   * otherwise row `row` of both grids is scaled by scaleTo / pivot.
   */
  function ScaleRowStep(st: Step, n: nat, row: nat, col: nat, scaleTo: real): (r: Step)
    requires Square(st, n)
    ensures Square(r, n)
    ensures st.repaired ==> r.repaired
    ensures r.repaired == (st.repaired || (1 <= row <= n && 1 <= col <= n && st.t[row - 1][col - 1] == 0.0))
  {
    if row == 0 || row > n || col == 0 || col > n then st.(failed := true)
    else if st.t[row - 1][col - 1] != 0.0 then Scaled(st, row - 1, scaleTo / st.t[row - 1][col - 1])
    else
      var p := RepairPass(st.t, st.s, n, row, col, n);
      if p.element == 0.0 || p.t[row - 1][col - 1] == 0.0 then Step(true, true, p.t, p.s)
      else Scaled(Step(st.failed, true, p.t, p.s), row - 1, scaleTo / p.t[row - 1][col - 1])
  }

  // ---------------------------------------------------------------------
  // matrix_reduce_row

  /**
   * matrix_reduce_row(t, s, dst, src, col): fails when dst == src, an index
   * is out of range or the pivot t[src][col] is zero; otherwise row dst of
   * both grids loses t[dst][col] times row src (nothing when that is zero).
   */
  function ReduceRowStep(st: Step, n: nat, dst: nat, src: nat, col: nat): (r: Step)
    requires Square(st, n)
    ensures Square(r, n) && r.repaired == st.repaired
    ensures r.failed == (st.failed || src == dst || dst == 0 || dst > n || src == 0 || src > n
                         || col == 0 || col > n || st.t[src - 1][col - 1] == 0.0)
  {
    if src == dst || dst == 0 || dst > n || src == 0 || src > n || col == 0 || col > n then
      st.(failed := true)
    else if st.t[src - 1][col - 1] == 0.0 then st.(failed := true)
    else
      var k := st.t[dst - 1][col - 1];
      if k != 0.0 then st.(t := RowReduced(st.t, dst - 1, src - 1, k), s := RowReduced(st.s, dst - 1, src - 1, k))
      else st
  }

  // ---------------------------------------------------------------------
  // The two phases of matrix_inverse

  /** Inner forward loop: reduce rows j, j+1, .., n by row i in column i. */
  function ReduceBelow(st: Step, n: nat, i: nat, j: nat): (r: Step)
    requires Square(st, n)
    ensures Square(r, n) && r.repaired == st.repaired
    decreases n + 1 - j
  {
    if j > n || st.failed then st else ReduceBelow(ReduceRowStep(st, n, j, i, i), n, i, j + 1)
  }

  /** Outer forward loop from pivot i on: scale row i to a unit pivot, then clear below it. */
  function ForwardFrom(st: Step, n: nat, i: nat): (r: Step)
    requires Square(st, n)
    ensures Square(r, n) && (st.repaired ==> r.repaired)
    decreases n + 1 - i
  {
    if i > n || st.failed then st
    else
      var scaled := ScaleRowStep(st, n, i, i, 1.0);
      ForwardFrom(ReduceBelow(scaled, n, i, i + 1), n, i + 1)
  }

  /** Inner backward loop: reduce rows j, j-1, .., 1 by row i in column i. */
  function ReduceAbove(st: Step, n: nat, i: nat, j: nat): (r: Step)
    requires Square(st, n)
    ensures Square(r, n) && r.repaired == st.repaired
    decreases j
  {
    if j < 1 || st.failed then st else ReduceAbove(ReduceRowStep(st, n, j, i, i), n, i, j - 1)
  }

  /** Outer backward loop from pivot i down to 1. */
  function BackwardFrom(st: Step, n: nat, i: nat): (r: Step)
    requires Square(st, n)
    ensures Square(r, n) && r.repaired == st.repaired
    decreases i
  {
    if i < 1 || st.failed then st else BackwardFrom(ReduceAbove(st, n, i, i - 1), n, i - 1)
  }

  /** The whole elimination of an n x n grid m, starting from (m, identity). */
  function GaussJordan(m: Grid, n: nat): (r: Step)
    requires Shape(m, n, n)
    ensures Square(r, n)
  {
    BackwardFrom(ForwardFrom(Step(false, false, m, Identity(n)), n, 1), n, n)
  }

  // ---------------------------------------------------------------------
  // Correctness of the elimination when no pivot is zero

  /** The elimination has not failed or repaired, and s * m == t still holds. */
  predicate Sound(st: Step, m: Grid, n: nat)
  {
    !st.failed && !st.repaired && Square(st, n) && Shape(m, n, n) && Product(st.s, m, n, n, n) == st.t
  }

  /** Columns 0 .. c-1 have a unit diagonal and zeros below it. */
  predicate LowerCleared(t: Grid, n: nat, c: nat)
    requires Shape(t, n, n) && c <= n
  {
    (forall k :: 0 <= k < c ==> t[k][k] == 1.0) &&
    (forall k, r :: 0 <= k < c && k < r < n ==> t[r][k] == 0.0)
  }

  /** Unit upper triangular, and columns c .. n-1 are zero off the diagonal. */
  predicate UpperCleared(t: Grid, n: nat, c: nat)
    requires Shape(t, n, n) && c <= n
  {
    LowerCleared(t, n, n) && forall r, k :: c <= k < n && 0 <= r < n && r != k ==> t[r][k] == 0.0
  }

  /**
   * Scaling row p (1-based; c == p - 1 is its 0-based index) by the inverse
   * of a non-zero pivot gives a unit pivot and keeps the lower part.
   */
  lemma ScaleKeepsLower(st: Step, m: Grid, n: nat, c: nat, p: nat)
    requires Sound(st, m, n) && p == c + 1 && p <= n && LowerCleared(st.t, n, c)
    ensures var r := ScaleRowStep(st, n, p, p, 1.0);
            r.repaired || (Sound(r, m, n) && LowerCleared(r.t, n, c) && r.t[c][c] == 1.0)
  {
    var pivot := st.t[c][c];
    if pivot != 0.0 {
      var scale := 1.0 / pivot;
      if scale != 1.0 {
        ProductRowScaled(st.s, m, n, n, n, c, scale);
        assert RowScaled(st.t, c, scale)[c][c] == scale * pivot == 1.0;
      } else {
        assert pivot == 1.0;
      }
    }
  }

  /** Reducing row j (j > p) by the unit pivot row p clears entry (j, p) and keeps the lower part. */
  lemma ReduceKeepsLower(st: Step, m: Grid, n: nat, c: nat, p: nat, j: nat)
    requires Sound(st, m, n) && p == c + 1 && p + 1 <= j <= n
    requires LowerCleared(st.t, n, c) && st.t[c][c] == 1.0
    ensures var r := ReduceRowStep(st, n, j, p, p);
            Sound(r, m, n) && LowerCleared(r.t, n, c) && r.t[c][c] == 1.0 && r.t[j - 1][c] == 0.0
    ensures forall a :: 0 <= a < n && a != j - 1 ==> ReduceRowStep(st, n, j, p, p).t[a] == st.t[a]
  {
    var k := st.t[j - 1][p - 1];
    if k != 0.0 {
      ProductRowReduced(st.s, m, n, n, n, j - 1, p - 1, k);
      LowerRowReduced(st.t, n, c, p, j - 1, k);
    }
  }

  /** Row d below the unit pivot row c loses k times it: columns before c stay, column c becomes 0. */
  lemma LowerRowReduced(t: Grid, n: nat, c: nat, p: nat, d: nat, k: real)
    requires Shape(t, n, n) && p == c + 1 && c < d < n
    requires LowerCleared(t, n, c) && t[c][c] == 1.0 && k == t[d][c]
    ensures var u := RowReduced(t, d, p - 1, k); LowerCleared(u, n, c) && u[c][c] == 1.0 && u[d][c] == 0.0
  {
    var u := RowReduced(t, d, p - 1, k);
    forall col | 0 <= col < c
      ensures u[d][col] == t[d][col]
    {
      assert t[c][col] == 0.0;
    }
  }

  /** The inner forward loop clears column p below its unit pivot. */
  lemma {:induction false} ReduceBelowClears(st: Step, m: Grid, n: nat, c: nat, p: nat, j: nat)
    requires Sound(st, m, n) && p == c + 1 && p <= n && p + 1 <= j <= n + 1
    requires LowerCleared(st.t, n, c) && st.t[c][c] == 1.0
    requires forall r :: c < r < j - 1 ==> st.t[r][c] == 0.0
    ensures var r := ReduceBelow(st, n, p, j); Sound(r, m, n) && LowerCleared(r.t, n, p)
    decreases n + 1 - j
  {
    if j <= n {
      var st' := ReduceRowStep(st, n, j, p, p);
      assert Sound(st', m, n) && LowerCleared(st'.t, n, c) && st'.t[c][c] == 1.0 by {
        ReduceKeepsLower(st, m, n, c, p, j);
      }
      assert forall r :: c < r < j ==> st'.t[r][c] == 0.0 by {
        ReduceKeepsLower(st, m, n, c, p, j);
      }
      ReduceBelowUnfold(st, n, p, j);
      ReduceBelowClears(st', m, n, c, p, j + 1);
    } else {
      ReduceBelowStop(st, m, n, c, p, j);
    }
  }

  /** One round of the inner forward loop, for a row in range and a state that has not failed. */
  lemma ReduceBelowUnfold(st: Step, n: nat, p: nat, j: nat)
    requires Square(st, n) && j <= n && !st.failed
    ensures ReduceBelow(st, n, p, j) == ReduceBelow(ReduceRowStep(st, n, j, p, p), n, p, j + 1)
  {
  }

  /** Past the last row the column below the unit pivot is clear. */
  lemma ReduceBelowStop(st: Step, m: Grid, n: nat, c: nat, p: nat, j: nat)
    requires Sound(st, m, n) && p == c + 1 && p <= n && j == n + 1
    requires LowerCleared(st.t, n, c) && st.t[c][c] == 1.0
    requires forall r :: c < r < j - 1 ==> st.t[r][c] == 0.0
    ensures ReduceBelow(st, n, p, j) == st && LowerCleared(st.t, n, p)
  {
  }

  /**
   * Without a repair, the forward phase from pivot i (columns 0 .. c-1
   * already cleared, c == i - 1) ends unit upper triangular with s * m == t.
   */
  lemma {:induction false} ForwardCorrect(st: Step, m: Grid, n: nat, c: nat, i: nat)
    requires Sound(st, m, n) && i == c + 1 && i <= n + 1 && LowerCleared(st.t, n, c)
    ensures var r := ForwardFrom(st, n, i); !r.repaired ==> Sound(r, m, n) && LowerCleared(r.t, n, n)
    decreases n + 1 - i
  {
    if i <= n {
      var scaled := ScaleRowStep(st, n, i, i, 1.0);
      var reduced := ReduceBelow(scaled, n, i, i + 1);
      ForwardUnfold(st, n, i);
      if !scaled.repaired {
        assert Sound(reduced, m, n) && LowerCleared(reduced.t, n, i) by {
          assert Sound(scaled, m, n) && LowerCleared(scaled.t, n, c) && scaled.t[c][c] == 1.0 by {
            ScaleKeepsLower(st, m, n, c, i);
          }
          ReduceBelowClears(scaled, m, n, c, i, i + 1);
        }
        ForwardCorrect(reduced, m, n, i, i + 1);
      } else {
        assert ForwardFrom(reduced, n, i + 1).repaired;
      }
    } else {
      ForwardStop(st, m, n, c, i);
    }
  }

  /** One round of the forward phase, for a pivot in range and a state that has not failed. */
  lemma ForwardUnfold(st: Step, n: nat, i: nat)
    requires Square(st, n) && 1 <= i <= n && !st.failed
    ensures ForwardFrom(st, n, i) == ForwardFrom(ReduceBelow(ScaleRowStep(st, n, i, i, 1.0), n, i, i + 1), n, i + 1)
  {
  }

  /** Past the last pivot the forward phase leaves the state as it is. */
  lemma ForwardStop(st: Step, m: Grid, n: nat, c: nat, i: nat)
    requires Sound(st, m, n) && i == c + 1 && i == n + 1 && LowerCleared(st.t, n, c)
    ensures ForwardFrom(st, n, i) == st && LowerCleared(st.t, n, n)
  {
  }

  /** Reducing row j above the pivot p, whose row is a unit row, clears entry (j, p) only. */
  lemma ReduceKeepsUpper(st: Step, m: Grid, n: nat, p: nat, j: nat)
    requires Sound(st, m, n) && 1 <= j < p <= n && UpperCleared(st.t, n, p)
    ensures var r := ReduceRowStep(st, n, j, p, p);
            Sound(r, m, n) && UpperCleared(r.t, n, p) && r.t[j - 1][p - 1] == 0.0
    ensures forall a :: 0 <= a < n && a != j - 1 ==> ReduceRowStep(st, n, j, p, p).t[a] == st.t[a]
  {
    var k := st.t[j - 1][p - 1];
    if k != 0.0 {
      ProductRowReduced(st.s, m, n, n, n, j - 1, p - 1, k);
      UpperRowReduced(st.t, n, p, j - 1, k);
    }
  }

  /** Row d above the unit row p - 1 loses k times it: only column p - 1 changes, and it becomes 0. */
  lemma UpperRowReduced(t: Grid, n: nat, p: nat, d: nat, k: real)
    requires Shape(t, n, n) && 1 <= p <= n && d + 1 < p && UpperCleared(t, n, p) && k == t[d][p - 1]
    ensures var u := RowReduced(t, d, p - 1, k); UpperCleared(u, n, p) && u[d][p - 1] == 0.0
  {
    var u := RowReduced(t, d, p - 1, k);
    forall col | 0 <= col < n && col != p - 1
      ensures u[d][col] == t[d][col]
    {
      assert t[p - 1][col] == 0.0;
    }
  }

  /** The inner backward loop clears column p above its pivot. */
  lemma {:induction false} ReduceAboveClears(st: Step, m: Grid, n: nat, p: nat, j: nat)
    requires Sound(st, m, n) && 1 <= p <= n && j < p && UpperCleared(st.t, n, p)
    requires forall r :: j <= r < p - 1 ==> st.t[r][p - 1] == 0.0
    ensures var r := ReduceAbove(st, n, p, j); Sound(r, m, n) && UpperCleared(r.t, n, p - 1)
    decreases j
  {
    if j >= 1 {
      var st' := ReduceRowStep(st, n, j, p, p);
      assert Sound(st', m, n) && UpperCleared(st'.t, n, p) by {
        ReduceKeepsUpper(st, m, n, p, j);
      }
      assert forall r :: j - 1 <= r < p - 1 ==> st'.t[r][p - 1] == 0.0 by {
        ReduceKeepsUpper(st, m, n, p, j);
      }
      ReduceAboveClears(st', m, n, p, j - 1);
    }
  }

  /** The backward phase turns a unit upper triangular t into the identity. */
  lemma {:induction false} BackwardCorrect(st: Step, m: Grid, n: nat, i: nat)
    requires Sound(st, m, n) && i <= n && UpperCleared(st.t, n, i)
    ensures var r := BackwardFrom(st, n, i); Sound(r, m, n) && UpperCleared(r.t, n, 0)
    decreases i
  {
    if i >= 1 {
      assert Sound(ReduceAbove(st, n, i, i - 1), m, n) && UpperCleared(ReduceAbove(st, n, i, i - 1).t, n, i - 1) by {
        ReduceAboveClears(st, m, n, i, i - 1);
      }
      BackwardCorrect(ReduceAbove(st, n, i, i - 1), m, n, i - 1);
    }
  }

  lemma ClearedIsIdentity(t: Grid, n: nat)
    requires Shape(t, n, n) && UpperCleared(t, n, 0)
    ensures t == Identity(n)
  {
    GridExt(t, Identity(n), n, n);
  }

  /**
   * When no pivot is zero the elimination cannot fail, the working copy ends
   * as the identity and s is a left inverse of m; and since matrix_inverse
   * never rescues a zero pivot, whenever the elimination does not fail it
   * has met no zero pivot, so s is then a left inverse of m.
   */
  lemma GaussJordanInverts(m: Grid, n: nat)
    requires Shape(m, n, n)
    ensures var r := GaussJordan(m, n);
            !r.repaired ==> !r.failed && r.t == Identity(n) && Product(r.s, m, n, n, n) == Identity(n)
    ensures var r := GaussJordan(m, n);
            !r.failed ==> r.t == Identity(n) && Product(r.s, m, n, n, n) == Identity(n)
  {
    var st := Step(false, false, m, Identity(n));
    IdentityProduct(m, n, n);
    ForwardCorrect(st, m, n, 0, 1);
    var f := ForwardFrom(st, n, 1);
    if !f.repaired {
      BackwardCorrect(f, m, n, n);
      ClearedIsIdentity(GaussJordan(m, n).t, n);
    }
    RepairedFails(m, n);
  }

  // ---------------------------------------------------------------------
  // The pivot repair never rescues a diagonal pivot

  /** The repeated addition writes entry (r, c) only. */
  lemma {:induction false} AccumulatedFrame(g: Grid, n: nat, r: nat, c: nat, i: nat, col: nat, times: nat, a: nat, b: nat)
    requires Shape(g, n, n) && r < n && c < n && i < n && col <= n
    requires a < n && b < n && (a != r || b != c)
    ensures Accumulated(g, n, r, c, i, col, times)[a][b] == g[a][b]
  {
    if times > 0 {
      AccumulatedFrame(g, n, r, c, i, col, times - 1, a, b);
    }
  }

  /**
   * With row == col, the repair loop leaves a zero pivot zero: it writes
   * entry (row-1, i) only for rows i whose entry in the pivot column is
   * non-zero, and at i == row-1 that entry is the zero pivot itself.
   */
  lemma {:induction false} RepairKeepsPivot(t: Grid, s: Grid, n: nat, row: nat, i: nat)
    requires Shape(t, n, n) && Shape(s, n, n) && 1 <= row <= n && i <= n
    requires t[row - 1][row - 1] == 0.0
    ensures RepairPass(t, s, n, row, row, i).t[row - 1][row - 1] == 0.0
  {
    if i > 0 {
      RepairKeepsPivot(t, s, n, row, i - 1);
      var p := RepairPass(t, s, n, row, row, i - 1);
      if p.t[i - 1][row - 1] != 0.0 {
        AccumulatedFrame(p.t, n, row - 1, i - 1, i - 1, row, n, row - 1, row - 1);
      }
    }
  }

  /** matrix_scale_row on the diagonal fails whenever it has to repair its pivot. */
  lemma DiagonalRepairFails(st: Step, n: nat, i: nat, scaleTo: real)
    requires Square(st, n)
    ensures var r := ScaleRowStep(st, n, i, i, scaleTo); r.repaired && !st.repaired ==> r.failed
  {
    if 1 <= i <= n && st.t[i - 1][i - 1] == 0.0 {
      RepairKeepsPivot(st.t, st.s, n, i, n);
    }
  }

  /** From a state in which any repair has failed, the forward phase keeps it so. */
  lemma {:induction false} ForwardRepairFails(st: Step, n: nat, i: nat)
    requires Square(st, n) && 1 <= i && (st.repaired ==> st.failed)
    ensures var r := ForwardFrom(st, n, i); r.repaired ==> r.failed
    decreases n + 1 - i
  {
    if i <= n && !st.failed {
      var scaled := ScaleRowStep(st, n, i, i, 1.0);
      DiagonalRepairFails(st, n, i, 1.0);
      ForwardUnfold(st, n, i);
      ForwardRepairFails(ReduceBelow(scaled, n, i, i + 1), n, i + 1);
    }
  }

  /** In matrix_inverse a pivot repair always ends in failure. */
  lemma RepairedFails(m: Grid, n: nat)
    requires Shape(m, n, n)
    ensures GaussJordan(m, n).repaired ==> GaussJordan(m, n).failed
  {
    ForwardRepairFails(Step(false, false, m, Identity(n)), n, 1);
  }

  /** A permutation matrix already shows it: [[0, 1], [1, 0]] is invertible, yet matrix_inverse fails on it. */
  lemma SwapFails()
    ensures GaussJordan([[0.0, 1.0], [1.0, 0.0]], 2).failed
  {
    var m := [[0.0, 1.0], [1.0, 0.0]];
    DiagonalRepairFails(Step(false, false, m, Identity(2)), 2, 1, 1.0);
  }

  // ---------------------------------------------------------------------
  // The repaired flag is bookkeeping: the helpers treat the grids alike whatever it says

  lemma ScaleRowFlagFree(t: Grid, s: Grid, n: nat, row: nat, col: nat, scaleTo: real, repaired: bool)
    requires Shape(t, n, n) && Shape(s, n, n)
    ensures var a := ScaleRowStep(Step(false, false, t, s), n, row, col, scaleTo);
            ScaleRowStep(Step(false, repaired, t, s), n, row, col, scaleTo) == a.(repaired := repaired || a.repaired)
  {
  }

  lemma ReduceRowFlagFree(t: Grid, s: Grid, n: nat, dst: nat, src: nat, col: nat, repaired: bool)
    requires Shape(t, n, n) && Shape(s, n, n)
    ensures ReduceRowStep(Step(false, repaired, t, s), n, dst, src, col)
         == ReduceRowStep(Step(false, false, t, s), n, dst, src, col).(repaired := repaired)
  {
  }
}
