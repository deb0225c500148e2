# MAD4401 Project 1 — a verified model of its numerical core

The C library solves a small numerical-analysis project. It has three parts:

- **Root finders:** bisection, Newton's method, an "altered" Newton step `x - f f' / (f'^2 - f f'')`, an "adjusting" Newton step `x - m f / f'`, and a square-root solver that chains bisection into Newton's method.
- **Interpolation constructors:** Lagrange, piecewise linear, raised cosine and least squares, all built over a dense row-major matrix engine.
- **Sampling and evaluation utilities.**

This project models that core in Dafny over exact `real` arithmetic in place of `long double`, and proves what each routine promises.

The modules follow the C files:

| module | file | models |
|---|---|---|
| `Wrappers`, `Numbers` | `common.dfy` | `Option`; multiplication `Mul`, powers `Pow`, `Abs`, `Floor`, `Ceil` and their algebra |
| `MatrixAlgebra` | `matrix_algebra.dfy` | a matrix as a grid `seq<seq<real>>`; transpose, product, identity and the two row operations, with their algebra |
| `Elimination` | `elimination.dfy` | `matrix_scale_row`, `matrix_reduce_row` and the Gauss-Jordan passes of `matrix_inverse`, as functions on grids, with the correctness proof of the inverse |
| `Matrices` | `matrix.dfy` | `struct matrix` as the class `Matrix` over a row-major `array<real>`, and every routine of `src/matrix.c` as a method proved against `MatrixAlgebra` and `Elimination` |
| `Polynomials` | `polynomials.dfy` | power-basis polynomials, the Lagrange basis numerators and denominators, and the proof that the Lagrange sum passes through every sample |
| `Utilities` | `utilities.dfy` | `struct function` as a datatype, sampling, `struct interpolation` as a class, `polynomial_value`, `piecewise_linear_value` and the sums of `function_error` |
| `RootFinding` | `roots.dfy` | bisection, the three Newton loops, their error shift register, the adaptive multiplier and the square-root solver |
| `Interpolations` | `interpolation.dfy` | the four interpolation constructors of `src/project1.c` |

## Modelling decisions

- **Numbers.** `long double` is `real`. A NaN or NULL result is `None` or `null`. `powl` with an integral exponent is `Pow` with a `nat` exponent. Over the reals `isfinite` always holds for a quotient with a nonzero divisor, so it disappears.
- **Functions.** A `struct function` is `Function<C>(f, arg)`, and `At(x)` is `f(x, arg)`. This keeps the altered Newton quirk literal. That routine evaluates the derivatives with the *function's* `arg` (`src/project1.c:111-112`); the model does exactly that through `fn.arg`.
- **Matrices.** A matrix is a class with the row-major `elements` array and the constant dimensions `cols` and `rows`. A ghost `grid` is tied to the array by `Valid()`. Every method states its new `grid` as a function of the old grids. The in-place elimination in `matrix_inverse` runs on the arrays. Its specification functions in `Elimination` track a step record `Step(failed, repaired, t, s)`: the failure flag, whether the pivot repair ever fired, the working copy and the secondary matrix.
- **Newton loops.** The three-slot `errors[]` array is a `Register` value shifted on every non-final step. A run is specified by `WalkAt`, the state after `i` steps of a given step function. `Reports` is the contract all three variants share:
  - the iteration count is at most `max`;
  - stopping early means the last relative change was below the tolerance;
  - the reported error is half the last relative change;
  - the value is the last iterate;
  - the convergence rate is `None` before three iterations, and otherwise the estimate of the register's three entries.
- **Convergence rate.** The `roundl(logl(..)/logl(..))` rate estimate is a parameter `estimate: (real, real, real) -> int`.

## Behaviour of the code worth knowing

- **Sample grid end.** `sample_values` records the end as `start + n h`. It lies strictly past the requested end and at most one interval past it. When the interval divides the range, as in every interpolation constructor, it lies exactly one interval past. `Utilities.SampleEndBounds` proves `end < last <= end + h`, and `Utilities.SampleCountExact` proves `last == end + h` for `h = (end - start) / order`.
- **`create_matrix` argument order.** `create_matrix` takes `(cols, rows)` (`src/matrix.c:30`), and `Matrices.CreateMatrix` keeps that order.
- **Pivot repair.** The zero-pivot repair of `matrix_scale_row` (`src/matrix.c:124-138`) is not a row operation. For every row `i` whose pivot-column entry is nonzero, it adds the entry one column to the right of that one to entry `i` of the pivot row, `cols` times over, in both matrices. `Elimination.RepairPass` models exactly that. In `matrix_inverse` the repair never rescues a pivot. The pivot row and column are the same there (`src/matrix.c:190`), so the repair writes entry `(row-1, i)` only for rows `i` other than the pivot row, and the zero pivot stays zero. The re-read pivot is then 0, `1/0` is not finite, and the helper fails (`src/matrix.c:137-141`). So `matrix_inverse` returns NULL for every matrix whose elimination meets a zero diagonal pivot, invertible ones included: `[[0, 1], [1, 0]]` is one. `Elimination.RepairedFails` proves that every repair ends in failure, and `Elimination.SwapFails` proves the example.

## Model

| member | source | states |
|---|---|---|
| Matrices.CreateMatrix | src/matrix.c:30-45 | the result is null exactly when `cols == 0` or `rows == 0`; otherwise it is a fresh valid matrix of exactly those dimensions |
| Matrices.Matrix.constructor | src/matrix.c:30-45 | a valid matrix with the given `cols` and `rows` over a fresh buffer |
| Matrices.Matrix.StoreRow | src/matrix.c:64-73 | writing a row entry by entry replaces exactly that row of the grid and no other |
| Matrices.Matrix.SetRow | src/matrix.c:53-62 | a `row` outside `1..rows` changes nothing; otherwise row `row - 1` becomes the constant `value` and every other row is unchanged |
| Matrices.Matrix.SetRowVector | src/matrix.c:64-73 | a `row` outside `1..rows` changes nothing; otherwise row `row - 1` becomes the first `cols` entries of `vector`, other rows unchanged |
| Matrices.Matrix.SetRowVectorPower | src/matrix.c:75-84 | as `SetRowVector`, with entry `i` of the row equal to `vector[i]` raised to `power` |
| Matrices.Transpose | src/matrix.c:86-96 | the result is a fresh `cols` by `rows` matrix whose grid is the transpose of the argument's |
| MatrixAlgebra.TransposeInvolutive | src/matrix.c:86-96 | transposing twice gives back the original grid |
| Matrices.ProductEntry | src/matrix.c:107-112 | the inner loop leaves entry `(i, j)` equal to the dot product of row `i` of `A` with column `j` of `B`, and nothing else changes |
| Matrices.Multiply | src/matrix.c:98-115 | the result is null exactly when `A.cols != B.rows`; otherwise it is a fresh `A.rows` by `B.cols` matrix equal to the product |
| MatrixAlgebra.ProductAssociates | src/matrix.c:98-115 | the product of grids is associative, which the least-squares chain relies on |
| MatrixAlgebra.IdentityProduct | src/matrix.c:183-187 | the identity is a left unit of the product |
| Elimination.ScaleRowStep | src/matrix.c:118-150 | the pivot repair runs exactly when both indices are in range and the pivot is zero, and once a repair is recorded it stays recorded |
| Matrices.ScaleRow | src/matrix.c:118-150 | the method's failure flag and both new grids are those of `ScaleRowStep` on the old grids, pivot repair included |
| Matrices.RepairPivot | src/matrix.c:124-138 | the repair loop leaves both grids as `RepairPass` gives them: for every row `i` whose pivot-column entry is nonzero, entry `i` of the pivot row grows `cols` times by the entry to the right of that one, and the position past the buffer reads as zero. The result is the last pivot-column entry inspected |
| Matrices.ScaleRows | src/matrix.c:142-147 | the scaling loop multiplies one row of both matrices by the factor and changes nothing else |
| Elimination.ReduceRowStep | src/matrix.c:153-169 | the step fails exactly when `dst == src`, an index is out of range or the source pivot is zero |
| Matrices.ReduceRow | src/matrix.c:153-169 | the method's failure flag and both new grids are those of `ReduceRowStep` on the old grids |
| Matrices.ReduceRows | src/matrix.c:163-167 | the elimination loop subtracts the scaled source row from the destination row in both matrices, nothing else changes |
| MatrixAlgebra.ProductRowScaled | src/matrix.c:142-147 | scaling a row of `s` scales the same row of `s * M`, so `s * M == t` survives a scaling step |
| MatrixAlgebra.ProductRowReduced | src/matrix.c:163-167 | reducing a row of `s` reduces the same row of `s * M`, so `s * M == t` survives a reduction step |
| Elimination.ScaleKeepsLower | src/matrix.c:189-194 | a flag-free scaling at pivot `p` keeps `s * M == t`, keeps the columns left of `p` cleared below the diagonal, and puts 1 on the diagonal |
| Elimination.ReduceKeepsLower | src/matrix.c:189-194 | a flag-free reduction below pivot `p` keeps `s * M == t` and clears that row's entry in column `p` |
| Elimination.ReduceBelowClears | src/matrix.c:191-193 | the forward inner loop, when it neither fails nor repairs, keeps `s * M == t` and clears column `p` below the diagonal |
| Matrices.ForwardPhase | src/matrix.c:189-194 | the forward loop's failure flag and grids are those of `ForwardFrom` on the copy and the identity |
| Elimination.ForwardCorrect | src/matrix.c:189-194 | a forward pass that never repairs leaves `t` upper unit-triangular and keeps `s * M == t` |
| Elimination.ReduceKeepsUpper | src/matrix.c:195-199 | a flag-free reduction above pivot `p` keeps `s * M == t` and the upper-triangular shape, and clears that row's entry in column `p` |
| Elimination.ReduceAboveClears | src/matrix.c:196-198 | the backward inner loop keeps `s * M == t` and clears column `p` above the diagonal |
| Matrices.BackwardPhase | src/matrix.c:195-199 | the backward loop's failure flag and grids are those of `BackwardFrom` |
| Elimination.BackwardCorrect | src/matrix.c:195-199 | a backward pass over an upper unit-triangular `t` cannot fail, and it leaves `t` diagonal and unit, keeping `s * M == t` |
| Elimination.GaussJordanInverts | src/matrix.c:171-212 | when no pivot repair fires, elimination does not fail; and whenever elimination does not fail, `t` becomes the identity and the secondary matrix times the original is the identity |
| Elimination.AccumulatedFrame | src/matrix.c:127-130 | the repeated addition of the repair writes only its target entry of the pivot row |
| Elimination.RepairKeepsPivot | src/matrix.c:124-132 | with pivot row equal to pivot column, the repair loop leaves a zero pivot zero |
| Elimination.DiagonalRepairFails | src/matrix.c:118-141 | `matrix_scale_row` on the diagonal fails whenever it has to repair its pivot |
| Elimination.ForwardRepairFails | src/matrix.c:189-194 | the forward phase keeps the property that any pivot repair so far has failed |
| Elimination.RepairedFails | src/matrix.c:171-204 | in `matrix_inverse` a pivot repair always ends in failure, so a returned matrix never went through one |
| Elimination.SwapFails | src/matrix.c:118-141 | the invertible `[[0, 1], [1, 0]]` makes the elimination fail at its first pivot |
| Matrices.Inverse | src/matrix.c:171-212 | a non-square argument gives null; a square one gives null exactly when elimination fails, and otherwise a fresh matrix equal to the eliminated secondary matrix, which is a left inverse of the argument; the argument is not modified |
| RootFinding.Bisection | src/project1.c:33-84 | undefined value and error with 0 iterations exactly when `x0 >= x1` or there is no sign change; otherwise the bracket `[v - e, v + e]` lies in `[x0, x1]`, keeps a sign change and has half-width `(x1 - x0) / 2^(it + 1)`, with `e <= tol / 2`; error 0 means `f(v) == 0`; the iteration count is the least one that reaches the tolerance; the rate is 1 |
| RootFinding.SignStep | src/project1.c:66-76 | when the midpoint has the sign of the lower end, the upper half keeps the sign change |
| RootFinding.HalvingCounts | src/project1.c:47-81 | an error still above `tol / 2` bounds how far the halvings can have gone, which makes the iteration count minimal |
| RootFinding.RegisterHoldsRecent | src/project1.c:95-97 | after `i` steps the register holds the relative changes of steps `i-3`, `i-2` and `i-1`, oldest first, with 0 before any |
| RootFinding.Newton | src/project1.c:86-103 | the loop's result reports the walk of the step `x - f/f'` (iteration bound, early stop below tolerance, half the last change as the error, rate only from three iterations on) |
| RootFinding.AlteredNewton | src/project1.c:105-125 | the same report for the step `x - f f' / (f'^2 - f f'')`, with the derivatives evaluated with the function's argument |
| RootFinding.AdjustMultiplier | src/project1.c:433-439 | the adjustment block computes the `Adjust` transition of the multiplier state |
| RootFinding.AdjustingNewton | src/project1.c:420-445 | the same report for the step `x - m f / f'`, with `m` and `adjusting` evolving by `Adjust` |
| RootFinding.MultiplierGrows | src/project1.c:424-439 | the multiplier starts at 1 and never decreases |
| RootFinding.MultiplierChangesAtChecks | src/project1.c:433 | the multiplier state changes only after an iteration `i > 2` with `i % 3 == 0` while adjusting |
| RootFinding.SettledStaysSettled | src/project1.c:436-438 | once adjusting is off, the multiplier state never changes again |
| RootFinding.SquareRootBracket | src/project1.c:371-379 | for `k > 0` with `k != 1`, `f(x) = x^2 - k` changes sign on `[0, k]` exactly when `k > 1` |
| RootFinding.SeedIterations | src/project1.c:407-408 | bisection with tolerance `k / 16` on `[0, k]` takes at most 4 iterations |
| RootFinding.SquareRootStep | src/project1.c:371-379 | a Newton step on `x^2 - k` from a positive point gives a positive point whose square is at least `k`, and a fixed point is an exact root |
| RootFinding.SquareRootStepBelow | src/project1.c:371-379 | a Newton step on `x^2 - k` from any positive `x` gives a value `v` and relative change `c` with `0 < v - c v` and `(v - c v)^2 <= k`, which bounds the root from below |
| RootFinding.SquareRootWalk | src/project1.c:412 | every iterate of the Newton phase is positive with square at least `k`, and a zero change means an exact root |
| RootFinding.SquareRootReport | src/project1.c:412-414 | a report of the Newton phase from a positive seed has a value `v` with `v(1 - 2e) <= sqrt(k) <= v` for its error `e`, both bounds positive, and `v` is exact when the error is 0 |
| RootFinding.SquareRoot | src/project1.c:381-418 | `k < 0` gives an undefined value with error 0; `k == 0` and `k == 1` give exactly 0 and 1; `0 < k < 1` gives the undefined result of Newton from NaN. For `k > 1` it ensures `SquareRootFound`: the result is either the bisection seed, when it hit the root exactly (error 0, rate 1, at most 4 iterations), or Newton's report from a seed inside `(0, k)` with 256 iterations and tolerance `1e-7`, plus the 1 to 4 bisection iterations. Either way `v(1 - 2e) <= sqrt(k) <= v` with `0 < v(1 - 2e)`, and `v*v == k` when the error is 0 |
| RootFinding.SeededAnswer | src/project1.c:407-414 | Newton's report from a seed inside `(0, k)`, with 1 to 4 bisection iterations added, satisfies `SquareRootFound` through the seeded-Newton alternative |
| RootFinding.ExactSeed | src/project1.c:407-417 | a bisection outcome for `k > 1` that hit the root exactly is positive with square `k` and satisfies `SquareRootFound` through the exact-seed alternative |
| Polynomials.EvalMulLinear | src/project1.c:178-186 | the coefficients of `p` times `(x + a)` evaluate to `p(x) (x + a)` |
| Interpolations.MultiplyLinear | src/project1.c:180-185 | the distribution loop turns `temp[0..d]` into the coefficients of `temp(x) (x + xi)` and leaves the entries past `d + 1` alone |
| Interpolations.BasisFactor | src/project1.c:174-186 | one round of the `j` loop multiplies the numerator by `(x - x_j)` and the denominator by `(i - j)` when `j != i`, and skips `j == i` |
| Interpolations.BasisPolynomial | src/project1.c:171-187 | after the `j` loop, `temp` holds `y_i` times the product of `(x - x_j)` over `j != i`, and the denominator is `h^order` times the product of `(i - j)` |
| Interpolations.AddTerm | src/project1.c:188-191 | the accumulation loop adds `temp / denominator` to the coefficients |
| Polynomials.TermAtKnot | src/project1.c:171-192 | the `i`-th Lagrange term is `y_i` at knot `i` and 0 at every other knot |
| Polynomials.LagrangeSumAtKnot | src/project1.c:171-192 | the first `i` terms evaluate at knot `k` to `y_k` when `k < i` and to 0 otherwise |
| Polynomials.LagrangeInterpolates | src/project1.c:127-199 | the full Lagrange sum passes through every sample at its knot |
| Interpolations.Lagrange | src/project1.c:127-199 | null exactly when `x0 >= x1`; otherwise `order + 1` coefficients equal to the Lagrange sum of the samples at the knots `x0 + k h` |
| Interpolations.LagrangeReproducesSamples | src/project1.c:127-199 | the constructed polynomial evaluates to `f(x0 + k h)` at every knot `k` |
| Interpolations.PiecewiseLinear | src/project1.c:201-239 | null exactly when `x0 >= x1`; otherwise the interval is `(x1 - x0) / order` and coefficient `i` is sample `i` divided by the interval |
| Interpolations.PiecewiseLinearReproducesSamples | src/project1.c:232-234 | evaluating the constructed piecewise-linear interpolation at knot `k` gives sample `k` |
| Interpolations.RaisedCosine | src/project1.c:241-279 | null exactly when `x0 >= x1`; otherwise the interval is `(x1 - x0) / order` and coefficient `i` is half of sample `i` |
| Interpolations.DesignMatrix | src/project1.c:299-310 | the design matrix is `(order + 1)` by `n`, with row 0 all ones and row `r` holding `x_c^r` |
| Interpolations.SolveNormalEquations | src/project1.c:311-346 | null exactly when the normal matrix's elimination fails; otherwise the `(order + 1)` by 1 result is `(X X^T)^-1 X y` as elimination computes it |
| Interpolations.FitSolvesNormalEquations | src/project1.c:311-346 | when the normal matrix is not singular, that is when least squares returns a polynomial, any solution `z` of the normal equations `(X X^T) z = X y` equals the fit |
| Interpolations.LeastSquares | src/project1.c:281-369 | null exactly when `x0 >= x1` or the normal matrix's elimination fails; otherwise the `order + 1` coefficients are the fit of the `524288 + 1` samples |
| Utilities.Samples | src/utilities.c:66-68 | sample `i` is the function's value at `start + i h` |
| Utilities.SampleValues | src/utilities.c:37-70 | `None` exactly when `start >= end`; otherwise `floor((end - start) / h) + 1` samples of the function, with the recorded end `start + n h` |
| Utilities.SampleEndBounds | src/utilities.c:41-64 | the recorded end is strictly past the requested end and at most one interval past it |
| Utilities.SampleCountExact | src/utilities.c:41-64 | with `h = (end - start) / order` there are exactly `order + 1` samples and the recorded end is `end + h` |
| Utilities.Interpolation.constructor | src/utilities.c:194-209 | the record keeps function, start, end and order unchanged and has `order + 1` fresh coefficients |
| Utilities.PolynomialValue | src/utilities.c:218-227 | the loop computes the power-basis polynomial of the coefficients at `x` |
| Utilities.PiecewiseLinearValue | src/utilities.c:239-250 | undefined exactly when `x < start` or `x > end` |
| Utilities.KnotIndexBounds | src/utilities.c:244-247 | `0 <= floor(t) <= ceil(t) <= floor(t) + 1`, and `ceil(t)` is a valid coefficient index |
| Utilities.PiecewiseLinearBlends | src/utilities.c:244-249 | between knots the value is the linear blend of the two neighbouring sample values with weight `t - floor(t)` |
| Utilities.PiecewiseLinearAtKnot | src/utilities.c:244-249 | at knot `k` the value is coefficient `k` times the interval |
| Utilities.ErrorSums | src/utilities.c:161-192 | `None` exactly when `end <= start`; otherwise the sum of squared differences and the sum of squares of the first function's samples, over the shorter of the two sample sets |
| Utilities.SumOfSquaresNonnegative | src/utilities.c:179-187 | both sums are nonnegative |
| Utilities.ErrorZeroIffAgree | src/utilities.c:179-187 | the difference sum is zero exactly when the two functions agree at every one of the `points + 1` grid points |

## Left out

- Memory allocation failure: every `malloc` is assumed to succeed, so the NULL returns caused only by allocation are not modelled.
- Printing, `gnuplot`, `report_result`, `print_matrix`, the name strings built with `snprintf`, and every `destroy_*` and `free`: output and memory release have no counterpart here.
- `src/main.c`, the driver: its square-root sweep (`src/main.c:326-333`) is not derived from the model. It counts a failure when `labs(value - sqrtl(k)) > error`. `labs` takes a `long`, so the difference is truncated to an integer, and for an error below 1 the test fails only when `|value - sqrt(k)| >= 1`. `RootFinding.SquareRoot` proves `v(1 - 2e) <= sqrt(k) <= v`, that is `|v - sqrt(k)| <= 2 e v`, where `e` is half a relative change. Neither reading of the sweep follows from that without a convergence bound for Newton's method, which is not proved.
- Floating-point rounding: `long double` is an exact `real`, NaN is `None`, and the `isfinite` test holds by construction over the reals.
- The `roundl(logl(..)/logl(..))` rate estimate: it is a parameter `estimate` returning an `int`, because logarithms are not modelled. Below three iterations the code stores NaN into the `unsigned char` rate field, which is undefined behaviour in C; the model reports `None` there.
- `RootFinding.Reports`: `Outcome.rate` is an unbounded `int` standing for the `unsigned char` field `convergence_rate` (`src/utilities.h:45`). From three iterations on, the code stores the rounded estimate into it (`src/project1.c:101`, `:123`, `:443`). An estimate that is NaN (for example `0/0` when every relative change is 1), infinite (two equal consecutive changes), negative or above 255 cannot be stored in C without undefined behaviour. The model reports every such case as `Some(estimate(..))`. The multiplier test of the adjusting variant (`src/project1.c:433`) compares the rounded `long double` estimate with 2 without storing it, and a NaN compares false there. That corresponds to an `estimate` parameter that returns 2 or more for those inputs.
- `sqrtl` in `function_error`: only the two sums it divides are modelled.
- `cosl`, `raised_cosine_value` and `sample_derivative`, along with `polynomial_error` and the other error wrappers: these are transcendental or never called; the wrappers only pass a grid size to `function_error`.
- `Elimination.RepairPass`, `Matrices.RepairPivot`: the read past the end of the buffer, which the repair makes for the last row and last column, is taken as 0.0. On the diagonal, the only way `matrix_inverse` calls it, the repair always ends in failure (`Elimination.RepairedFails`), so nothing more about it is needed for the inverse property.
- `Interpolations.FitSolvesNormalEquations`: proves uniqueness of the fit, not that elimination's result satisfies the normal equations.
- `Interpolations.LeastSquares`, `Interpolations.Lagrange`: the `cols != 1` check in least squares can never fail and is not modelled, and the interpolation's sampling interval, which these constructors leave unset, is not constrained.
- Sample aliasing: the sample buffer is a `seq` copied into the interpolation, not a shared pointer. `Interpolations.ColumnMatrix` likewise copies the samples into a fresh n x 1 matrix, where least squares wraps the sample buffer itself as that matrix without copying (`src/project1.c:289-293`).
- `RootFinding.Quotient`: a division by zero, which C turns into an infinity or NaN, is given the value 0. The Newton contracts exclude it anyway through the `Safe` requirement.
- `RootFinding.SquareRoot`: for `0 < k < 1` the code starts Newton from NaN. The model does not trace NaN arithmetic; it returns what that run ends with: an undefined value, error and rate after all 256 Newton iterations.
- Caller preconditions that the C code does not check, written as `requires`:
  - `order >= 1` for the interpolation constructors, which divide by `order`;
  - `max >= 1` for the Newton loops, which otherwise return uninitialised fields;
  - `tolerance > 0` for bisection, without which the loop need not stop over the reals;
  - `Safe` for the Newton loops: every executed step has a nonzero derivative or denominator and a nonzero new iterate;
  - `h > 0` for `sample_values` on a nonempty range;
  - `points >= 1` for `function_error`.
- Bisection's `convergence_rate` is uninitialised on the early returns in C; the model reports it as undefined there.
