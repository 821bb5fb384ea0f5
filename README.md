# Dense linear algebra of the rots demo, in Dafny

This project models the linear-algebra engine of `rots/tensors/matrices.py`:

- Gauss-Jordan reduction with partial pivoting and a singularity tolerance (`gauss_jordan`).
- Solving a linear system through an augmented matrix (`solve`).
- Inverting a matrix through `[M | I]` (`inv`).
- Building a nested zero-filled structure of a given shape (`zeros`).
- Converting a 4×4 matrix between OpenGL's flat column-major list and a list of rows (`OpenGL_to_matrix`, `matrix_to_OpenGL`).

Modules:

- `Linear`: matrices as `seq<seq<real>>`, products, and facts about the inner product.
- `Elimination`: the reduction.
  - As functions: `Forward` (pivot search, row swap, singularity test, elimination below the pivot) followed by `Backward` (elimination above each pivot and normalisation of the pivot row), combined in `Reduce`.
  - As methods that follow the original's loops entry by entry: `GaussJordan` and its parts. Each is proved equal to the functions.
- `Kernel`: every row operation of the reduction keeps the solutions of m·z = 0. So the reduced matrix has the same null vectors as the input, and a matrix with a non-trivial null vector in its leading square block makes the reduction fail.
- `Solver`: `Solve` and `Inverse`, plus the proofs of what they return.
  - `Solve` returns a solution of M·x = b.
  - `Inverse` returns X with M·X = I, and also X·M = I when M is square.
  - A singular square matrix gets no result.
- `Layout`: the two fill loops for the 4×4 layouts, the index laws, and both round trips.
- `Zeros`: `zeros` as written, and the construction it documents (see Findings).

The reduction works on a matrix value, and the methods return the new matrix instead of changing the caller's lists. On success the leading |m|×|m| block is the identity. On failure the matrix is the state right after the pivot swap of the failing step, as the original leaves it.

The default tolerance is 1/10^10 (`Solver.Eps`), and `solve` and `inv` always use it. The code accepts any number as tolerance. The model requires eps ≥ 0 and so also admits eps = 0 (see Left out).

## Model

| member | source | states |
|---|---|---|
| Elimination.PivotScan | rots/tensors/matrices.py:22-25 | the pivot row lies in y..k-1, its entry in column y has maximal magnitude there, and it is the first one that does (strict `>` keeps the earliest) |
| Elimination.FindPivot | rots/tensors/matrices.py:22-25 | the search loop returns the first row at or below y whose entry in column y has maximal magnitude |
| Elimination.SwapPivot | rots/tensors/matrices.py:22-26 | after the swap: no row below y has a larger entry in column y than row y; rows above y are untouched; the rows are a permutation of the old ones; zeros below the diagonal in earlier columns stay zero |
| Elimination.SwapRows | rots/tensors/matrices.py:26 | exchanging two rows gives a permutation of the rows, with only those two rows moved |
| Elimination.EliminateBelow | rots/tensors/matrices.py:29-32 | every row below the pivot gets 0 in the pivot column; rows up to the pivot row and columns before the pivot column are unchanged |
| Elimination.ClearsColumn | rots/tensors/matrices.py:30-32 | subtracting (m[y2][y]/m[y][y]) times the pivot row gives 0 in column y |
| Elimination.SubtractMultiple | rots/tensors/matrices.py:31-32 | the column loop leaves the columns before y alone and subtracts c times the pivot row from column y on |
| Elimination.EliminateColumn | rots/tensors/matrices.py:29-32 | the elimination loops leave every row below the pivot with 0 in the pivot column, as the row-level definition describes |
| Elimination.Forward | rots/tensors/matrices.py:21-32 | the forward phase keeps the matrix's shape |
| Elimination.ForwardStep | rots/tensors/matrices.py:22-32 | one step either stops with a pivot within eps that is the largest remaining entry of its column, or extends the zeros below the diagonal by one column with a pivot above eps |
| Elimination.ForwardPivots | rots/tensors/matrices.py:21-28 | the forward phase either succeeds with an upper triangular matrix whose pivots all exceed eps, or stops at a step k where all pivots before k exceed eps and the rest of column k is within eps |
| Elimination.ForwardColumn | rots/tensors/matrices.py:22-32 | one pass of the forward loop reports a singular pivot exactly when the swapped pivot is within eps, and leaves the swapped matrix, or the swapped matrix eliminated below the pivot, as the forward phase's step does |
| Elimination.ForwardPhase | rots/tensors/matrices.py:21-32 | the forward loop, with its early `return False`, computes exactly the forward phase |
| Elimination.BackStep | rots/tensors/matrices.py:34-40 | a backward step leaves the rows below the pivot row unchanged |
| Elimination.BackStepEntry | rots/tensors/matrices.py:34-40 | each entry after the backward step for pivot y, written as one formula of the old entries |
| Elimination.BackStepPivots | rots/tensors/matrices.py:38 | after the step, pivot y is exactly 1, pivots above it are still non-zero, and pivots below it stay 1 |
| Elimination.BackStepPivotColumn | rots/tensors/matrices.py:35-37 | the step clears column y in every row other than row y |
| Elimination.BackStepLaterColumns | rots/tensors/matrices.py:35-37 | the unit columns already finished to the right of y stay unit columns |
| Elimination.BackStepTriangular | rots/tensors/matrices.py:35-40 | the step keeps the matrix upper triangular |
| Elimination.BackStepUnitColumns | rots/tensors/matrices.py:35-37 | after the step, columns y..h-1 of the leading block are zero off the diagonal |
| Elimination.BackStepReady | rots/tensors/matrices.py:33-40 | each step keeps the back-substitution invariant, one pivot further: upper triangular, columns from y on equal to unit columns, pivots above y non-zero |
| Elimination.SubtractPivotRow | rots/tensors/matrices.py:36-37 | the descending column loop subtracts (pivot row)·dst[y]/c from column y on. The loop reads dst[y] before overwriting it, because columns run from right to left |
| Elimination.BackSubstitute | rots/tensors/matrices.py:34-40 | the loops for pivot y compute exactly the backward step: rows above get the pivot multiple subtracted, the pivot and the appended columns of row y are divided by the pivot |
| Elimination.ReadyIsIdentity | rots/tensors/matrices.py:33-40 | once every pivot is processed, the leading block is the identity |
| Elimination.Backward | rots/tensors/matrices.py:33-40 | the backward phase turns the leading square block into the identity |
| Elimination.BackwardPhase | rots/tensors/matrices.py:33-40 | the backward loop computes exactly the backward phase |
| Elimination.Reduce | rots/tensors/matrices.py:3-41 | the reduction succeeds exactly when the forward phase does; on success the leading block is the identity; on failure the matrix is the one the forward phase stopped on |
| Elimination.ReduceFailure | rots/tensors/matrices.py:27-28 | the reduction fails iff some forward pivot is within eps; on failure there is a step k where the earlier pivots exceed eps and the whole rest of column k is within eps |
| Elimination.GaussJordan | rots/tensors/matrices.py:3-41 | the method returns the reduction's outcome: same shape; on True the leading block is the identity; on False a step at which the remaining column is within eps |
| Kernel.SwapKernel | rots/tensors/matrices.py:26 | a row swap keeps the null vectors of the matrix |
| Kernel.SubRowKernel | rots/tensors/matrices.py:31-32 | subtracting a multiple of a row orthogonal to z keeps a row's product with z |
| Kernel.EliminateKernel | rots/tensors/matrices.py:29-32 | elimination below a pivot keeps the null vectors of the matrix, in both directions |
| Kernel.ForwardKernel | rots/tensors/matrices.py:21-32 | the whole forward phase keeps the null vectors |
| Kernel.BackRowIsSubRow | rots/tensors/matrices.py:36-37 | the back-substitution update is the subtraction of the multiple m[y2][y]/c of the pivot row |
| Kernel.BackStepKernel | rots/tensors/matrices.py:34-40 | a backward step keeps the null vectors |
| Kernel.BackwardKernel | rots/tensors/matrices.py:33-40 | the backward phase keeps the null vectors |
| Kernel.ReduceKernel | rots/tensors/matrices.py:3-41 | the reduced matrix and the input have the same null vectors, whether the reduction succeeds or fails |
| Kernel.SingularFails | rots/tensors/matrices.py:27-28 | if the leading square block has a non-zero null vector, the reduction reports failure, whatever eps is |
| Solver.Augment | rots/tensors/matrices.py:62 | one row per pair that zip forms; each row splits back into the row of M and one more entry, and the last column read as `row[-1]` gives back b on those rows |
| Solver.AugmentIdentity | rots/tensors/matrices.py:82 | each row splits back into the row of M and |M| more entries, and the block read as `row[len(M[0]):]` is the |M|×|M| identity |
| Solver.Solve | rots/tensors/matrices.py:62-63 | a vector is returned iff the reduction succeeds; it has one entry per equation |
| Solver.LastColumnKernel | rots/tensors/matrices.py:63 | in a reduced [I \| F \| c], c followed by zeros and -1 is a null vector |
| Solver.AugmentedSolution | rots/tensors/matrices.py:43-46 | a null vector ending in -1 of [M \| b] gives a solution of M·x = b |
| Solver.SolveValue | rots/tensors/matrices.py:63 | on success the result is the last column of a reduced matrix whose leading block is the identity |
| Solver.SolveCorrect | rots/tensors/matrices.py:43-63 | on success, the returned vector padded with zeros to M's width satisfies M·x = b on the equations zip pairs up; for square M this is M·x = b |
| Solver.SolveSingular | rots/tensors/matrices.py:62-63 | a square matrix with a non-zero null vector gives None, whatever b |
| Solver.SolveOverdetermined | rots/tensors/matrices.py:62-63 | with one equation more than unknowns, a returned vector means no vector solves the system |
| Solver.Inverse | rots/tensors/matrices.py:82-84 | a matrix is returned iff the reduction succeeds; it is |M|×|M| |
| Solver.TrailingBlockKernel | rots/tensors/matrices.py:84 | in a reduced [I \| F \| X], column j of X, then zeros, then minus unit j is a null vector |
| Solver.InverseColumn | rots/tensors/matrices.py:82-84 | column j of the result, extended by minus unit j, is a null vector of [M \| I] |
| Solver.InverseCorrect | rots/tensors/matrices.py:65-84 | on success M·X = I (for M wider than tall, with X padded by zero rows to M's width) |
| Solver.IdentityBlockKernel | rots/tensors/matrices.py:82 | unit c followed by minus column c of M is a null vector of [M \| I] |
| Solver.LeftColumn | rots/tensors/matrices.py:82-84 | for square M, row i of the result times column c of M is δ(i, c) |
| Solver.InverseLeft | rots/tensors/matrices.py:65-84 | for square M, on success X·M = I as well |
| Solver.InverseSingular | rots/tensors/matrices.py:82-84 | a square matrix with a non-zero null vector has no inverse (None) |
| Solver.SolveSingularExample | rots/tensors/matrices.py:62-63 | solve([[1, 2], [2, 4]], b) is None for every b of length 2 |
| Solver.SolveExample | rots/tensors/matrices.py:43-63 | solve([[2, 1], [1, 3]], [3, 5]) = [0.8, 1.4] |
| Layout.RowMajorIndex | rots/tensors/matrices.py:108-109 | flat element i lands in row i mod 4, column i div 4 |
| Layout.ColumnMajorIndex | rots/tensors/matrices.py:129-131 | entry (r, c) lands at flat index 4c + r |
| Layout.FlatRoundTrip | rots/tensors/matrices.py:94-133 | converting a flat 16-element list to rows and back returns it unchanged |
| Layout.RowsRoundTrip | rots/tensors/matrices.py:94-133 | converting a 4×4 matrix to the flat layout and back returns it unchanged |
| Layout.OpenGLToMatrix | rots/tensors/matrices.py:94-110 | the fill loop yields the 4×4 matrix whose entry (r, c) is flat element 4c + r |
| Layout.MatrixToOpenGL | rots/tensors/matrices.py:112-133 | the nested fill loops yield the column-major flat list |
| Layout.ColumnMajorExample | rots/tensors/matrices.py:112-133 | the rows 1..16 flatten to 1, 5, 9, 13, 2, … column after column |
| Zeros.ZerosAsWritten | rots/tensors/matrices.py:92 | as written, IndexError exactly for the empty shape, and for every other shape a result that does not have the requested shape (it only holds the fill value) |
| Zeros.ZerosAsWrittenExample | rots/tensors/matrices.py:86-92 | zeros([2, 3]) gives 0, not the 2×3 structure; zeros([]) raises, where the fill value is documented |
| Zeros.ZerosShape | rots/tensors/matrices.py:86-91 | the documented construction has exactly the requested dimensions and holds only the fill value |
| Zeros.ZerosUnique | rots/tensors/matrices.py:86-91 | it is the only structure with that shape holding only the fill value |

## Left out

- Floating point: entries are exact reals. eps is only the threshold of the pivot test, and the rounding that the tolerance guards against is not modelled.
- The isinstance and `__debug__` checks of every function become the parameter types.
- The length assertions of `OpenGL_to_matrix` and `matrix_to_OpenGL` become `requires`.
- `gauss_jordan` raises IndexError on some inputs, and the model excludes them with `Elimination.Reducible` instead of modelling the error:
  - an empty matrix, because `m[0]` fails;
  - more rows than columns, because the pivot column runs past the last column (unless an earlier pivot fails the test first);
- Ragged input is excluded as well, although the source does not always fault on it. The width is read once from the first row and only columns below it are indexed: a longer row keeps its extra entries untouched, and a shorter row faults only when one of its missing columns is indexed (a failing pivot test can return False first).
- Elimination.GaussJordan requires eps ≥ 0, which the source does not. A negative tolerance works in the source as long as no pivot is exactly 0 (then `m[y2][y] / m[y][y]` raises ZeroDivisionError). The model leaves negative tolerances out; `solve` and `inv` never pass one.
- Update in place and aliasing: `gauss_jordan` mutates the caller's lists and swaps row references. The model threads the matrix through the methods as a value. So the copies made by `solve`, `inv` and the layout converters are implicit, and their inputs cannot change.
- Solver.InverseCorrect: for M with more rows than columns, `[M | I]` is still at least as wide as tall and `inv` may return an |M|×|M| block, but M·X is not defined for it and nothing is stated about it. For M wider than tall only M·X = I (with padding) holds. X·M = I is stated for square M only (Solver.InverseLeft).
- Solver.SolveCorrect: with more equations than unknowns the result is not a solution (Solver.SolveOverdetermined). With two or more extra equations the matrix is taller than wide and is excluded as above.
- `inv` appends `int(i == j)` entries; the model uses the reals 1 and 0.
- Zeros: shape entries are naturals, although Python's `range` also accepts negative ones (giving no elements). The fill value is a real where Python accepts any object.
- The rendering, camera and profile code of the repository is not part of this model.

## Findings

| source | as written | input that shows it | evidently intended | confidence | as-written member | corrected member |
|---|---|---|---|---|---|---|
| rots/tensors/matrices.py:92 | the condition `not len(s)` is inverted: a non-empty shape yields the bare fill value, and the empty shape reaches `s[0]`; the recursive call also leaves out `zero` | `zeros([2, 3])` yields `0`; `zeros([])` raises IndexError | a 2×3 nested list of the fill value for `[2, 3]`, and the fill value itself for `[]`, as the docstring says | high, from reading the code; not executed | Zeros.ZerosAsWritten | Zeros.ZerosShape |
