# Verified model of a numerical-methods library

This project is a Dafny model of a small Rust library of numerical methods. It covers the following parts of the library:

- dense linear algebra on `Vec<Vec<f64>>` matrices:
  - the vector and matrix primitives;
  - row pivoting;
  - Doolittle LU decomposition;
  - triangular substitution;
  - three Gaussian-elimination variants;
  - the LU solver, the inverse and the condition number;
  - the row-normalised split A* = L* + I + R*;
  - the Jacobi and Gauss-Seidel iterations;
- eigenvalue routines: Leverrier's coefficients, the LR (Rutishauser) iteration and two power methods;
- a least-squares line fit;
- bisection and the secant method for roots;
- five quadrature rules;
- three error measures.

The modelling choices are these:

- `f64` becomes `real`, so every property is an exact identity over the reals.
- Matrices are `seq<seq<real>>` and vectors are `seq<real>`.
- A division by a computed quantity that can be zero turns into an error outcome. `Wrappers.Option` gives `None`; `Wrappers.Outcome` gives `ZeroDivisor`. This covers the LU divisor u[j][j], an elimination pivot, the power-method quotients, the secant slope, the regression denominator, and an integration rule with n = 0. IEEE arithmetic would return an infinity or NaN in these cases.
- The Rust code works in place on two kinds of buffer:
  - the caller's matrix and right-hand side, in `choose_best_pivot` and `gaussian_compact`;
  - the clones `a_` and `b_` inside the eliminations.

  In the model these buffers are `array<seq<real>>` (an array of rows) and `array<real>`. The methods that rewrite them state their new contents as a function of the old ones.
- Each loop of the library is a Dafny `while`/`for` loop.
- Loops that stop only at a floating-point tolerance take a `fuel` bound. Each of these is proved equal to a recursive specification function (`JacobiRun`, `GaussSeidelRun`, `PowerRun`, `RatioRun`, `SecantRun`, `LrRun`). For the first five, lemmas show that a run started at the exact answer (a solution, an eigenvector, a root) stops with it. `LrRun` is proved to keep the trace of every iterate.
- Gaussian elimination is specified by the functions of module `Elimination`. A `RowRule` parameter selects one of three rules:
  - ordinary subtraction;
  - the "compact" storage of the multiplier, as written;
  - that storage, corrected.

Modules and files:

| module (file) | models |
|---|---|
| `Wrappers` (wrappers.dfy), `Sums` (sums.dfy), `Matrices` (matrices.dfy) | shared definitions: options, sums and dot products, matrix product, identity, transpose, trace, powers, infinity norm |
| `LinearAlgebraHelpers` (la_helpers.dfy) | src/linear_algebra/helpers.rs |
| `Elimination` (elimination.dfy), `LinearSystemsExactMethods` (ls_exact_methods.dfy) | src/linear_systems/exact_methods.rs; its `super::helpers` import is modelled by `LinearAlgebraHelpers` |
| `ExactMethodsHelpers` (em_helpers.dfy) | src/exact_methods/helpers.rs |
| `ExactMethodsSolvers` (em_solvers.dfy) | src/exact_methods/linear_systems_solvers.rs |
| `IterativeMethods` (iterative.dfy) | src/linear_algebra/iterative_methods.rs |
| `LinearAlgebraEigen` (la_eigen.dfy) | src/linear_algebra/eigen.rs |
| `LinearSystemsEigen` (ls_eigen.dfy) | src/linear_systems/eigen.rs |
| `EigenValues` (eigen_values.dfy) | src/eigen/eigen_values.rs |
| `LeastSquares` (least_squares.dfy) | src/linear_algebra/least_squares.rs |
| `FunctionRoots` (function_roots.dfy) | src/numeric_methods/function_roots.rs |
| `Integration` (integration.dfy) | src/calculus/integration.rs |
| `CalculusHelpers` (calculus_helpers.dfy) | src/calculus/helpers.rs |

Several source files are near-duplicates of each other. They share the specification functions, and each file's routines carry their own contracts.

## Model

| member | source | states |
|---|---|---|
| LinearAlgebraHelpers.MatVec | src/linear_algebra/helpers.rs:7-23 | the result is the matrix-vector product: entry i is the dot product of row i with v |
| LinearAlgebraHelpers.MatMat | src/linear_algebra/helpers.rs:29-48 | the result is the matrix product a·b |
| Matrices.MulAssociative | src/linear_algebra/helpers.rs:29-48 | the matrix product is associative, so chains of matmat do not depend on grouping |
| Matrices.MulApply | src/linear_algebra/helpers.rs:29-48 | (a·b)·v = a·(b·v) |
| LinearAlgebraHelpers.MatSum | src/linear_algebra/helpers.rs:51-62 | the result is the entrywise sum a + b |
| Matrices.ApplyAdd | src/linear_algebra/helpers.rs:51-62 | (a + b)·v = a·v + b·v, the identity that the Jacobi step relies on |
| LinearAlgebraHelpers.AddVec | src/linear_algebra/helpers.rs:68-78 | the result is u + v entrywise |
| LinearAlgebraHelpers.SubVec | src/linear_algebra/helpers.rs:84-94 | the result is u - v entrywise |
| LinearAlgebraHelpers.SubVecUndoesAddVec | src/linear_algebra/helpers.rs:68-94 | subvec undoes addvec and addvec undoes subvec |
| LinearAlgebraHelpers.DivDot | src/linear_algebra/helpers.rs:109-118 | for every entry, x[i]·v[i] = u[i], when no v[i] is zero |
| LinearAlgebraHelpers.InfinityVecNorm | src/linear_algebra/helpers.rs:124-127 | the norm is non-negative, is at least every \|v[i]\|, and equals one of them |
| LinearAlgebraHelpers.MaxAbs | src/linear_algebra/helpers.rs:124-127 | the fold is at least every \|v[i]\| of the prefix and equals one of them |
| LinearAlgebraHelpers.ScaledBounds | src/linear_algebra/helpers.rs:133-135 | scaling z by 1/n, where n is an entry's absolute value bounding all others, gives a vector with every entry at most 1 in absolute value and that entry exactly ±1 |
| LinearAlgebraHelpers.NormalizedHasUnitNorm | src/linear_algebra/helpers.rs:124-135 | scalar_mul(z, 1/‖z‖∞) has infinity norm 1 when z is nonzero |
| LinearAlgebraHelpers.ScalarMul | src/linear_algebra/helpers.rs:133-135 | every entry of v is multiplied by the scalar, and the length is kept |
| LinearAlgebraHelpers.ScalarMulUndo | src/linear_algebra/helpers.rs:133-135 | scaling by c ≠ 0 and then by 1/c returns v |
| LinearAlgebraEigen.ApplyScalarMul | src/linear_algebra/helpers.rs:133-135 | a·(c v) = c (a·v) |
| LinearAlgebraHelpers.InfinityNorm | src/linear_algebra/helpers.rs:142-157 | the result is at least every row's sum of absolute values, equals one of them, and is the infinity norm |
| Matrices.NormInfNonNegative | src/linear_algebra/helpers.rs:142-157 | the infinity norm is non-negative |
| LinearAlgebraHelpers.Tr | src/linear_algebra/helpers.rs:163-171 | the loop's sum is the sum of the diagonal entries |
| Matrices.TraceMulCommutes | src/linear_algebra/helpers.rs:163-171 | tr(a·b) = tr(b·a) |
| LinearAlgebraHelpers.MaxAbsValueInInferiorTriangle | src/linear_algebra/helpers.rs:177-188 | for n ≥ 2 the result is at least \|a[i][j]\| for every i > j and equals one of them |
| LinearAlgebraHelpers.GetIdentityMatrix | src/linear_algebra/helpers.rs:194-210 | the result is n×n, with 1 on the diagonal and 0 elsewhere |
| LinearAlgebraHelpers.IdentityIsNeutral | src/linear_algebra/helpers.rs:194-210 | multiplying by the identity on either side, or applying it to a vector, returns the other operand unchanged |
| Matrices.MulIdentityRight | src/linear_algebra/helpers.rs:194-210 | a·I = a |
| Matrices.MulIdentityLeft | src/linear_algebra/helpers.rs:194-210 | I·a = a |
| LinearAlgebraHelpers.PivotRow | src/linear_algebra/helpers.rs:221-226 | the chosen row lies in k..n, has the largest \|a[r][k]\| among those rows, and is strictly larger than every earlier row, so ties keep the first row |
| LinearAlgebraHelpers.PivotSearch | src/linear_algebra/helpers.rs:221-226 | the scan loop returns PivotRow |
| LinearAlgebraHelpers.Swap | src/linear_algebra/helpers.rs:228-238 | positions i and j are exchanged and every other position is unchanged |
| LinearAlgebraHelpers.SwapIsPermutation | src/linear_algebra/helpers.rs:228-238 | the swap keeps the multiset of rows |
| LinearAlgebraHelpers.SwapIsInvolution | src/linear_algebra/helpers.rs:228-238 | swapping twice restores the original |
| LinearAlgebraHelpers.PivotSwapMaximal | src/linear_algebra/helpers.rs:216-238 | after the swap, \|a[k][k]\| is maximal in column k over rows k..n |
| LinearAlgebraHelpers.PivotKeepsMaximalRow | src/linear_algebra/helpers.rs:216-238 | when a[k][k] is already maximal, the pivot row is k and nothing changes |
| LinearAlgebraHelpers.ChooseBestPivot | src/linear_algebra/helpers.rs:216-239 | a and b become the old contents with rows k and PivotRow exchanged together; the new a[k][k] is maximal in its column |
| LinearAlgebraHelpers.Transpose | src/linear_algebra/helpers.rs:245-261 | the result has shape cols×lines, with at[i][j] = a[j][i] |
| Matrices.TransposeInvolution | src/linear_algebra/helpers.rs:245-261 | transposing twice returns the original |
| LinearAlgebraHelpers.LuEntry | src/linear_algebra/helpers.rs:282-302 | one inner step solves the Doolittle equation for entry (i, j), or reports the zero divisor u[j][j] |
| LinearAlgebraHelpers.LuDecomp | src/linear_algebra/helpers.rs:270-305 | the result is present exactly when a has an LU factorisation; then l is unit lower triangular, u is upper triangular with nonzero divisors, and l·u = a |
| LinearAlgebraHelpers.ZeroDivisorLeavesNoFactorisation | src/linear_algebra/helpers.rs:293-299 | when the loop meets a zero divisor u[j][j], a has no LU factorisation at all |
| LinearAlgebraHelpers.LuFactorisationUnique | src/linear_algebra/helpers.rs:270-305 | two such factorisations of the same matrix are equal, so lu_decomp's result is the only one |
| LinearAlgebraHelpers.FactorisationSolvesDoolittle | src/linear_algebra/helpers.rs:282-302 | every unit-lower/upper factorisation satisfies the equations the loop solves |
| LinearAlgebraHelpers.InvertibleLuIff | src/linear_algebra/helpers.rs:270-305 | for a factorisation l·u = a, a has a factorisation with nonzero pivots exactly when u's diagonal is nonzero |
| LinearAlgebraHelpers.LrbStarDecomp | src/linear_algebra/helpers.rs:351-368 | the three outputs are L*, R* and b* |
| LinearAlgebraHelpers.LrStarDecomp | src/linear_algebra/helpers.rs:376-390 | the outputs are the same L* and R* as lrb_star_decomp's |
| LinearAlgebraHelpers.StarSplitRebuildsRows | src/linear_algebra/helpers.rs:351-390 | L* is strictly lower and R* strictly upper; (I + L* + R*)[i][j]·a[i][i] = a[i][j]; b*[i]·a[i][i] = b[i] |
| LinearAlgebraHelpers.StarSystemEquivalence | src/linear_algebra/helpers.rs:351-368 | a·x = b holds exactly when x = b* - L*x - R*x |
| LinearAlgebraHelpers.Mean | src/linear_algebra/helpers.rs:405-407 | mean·len = sum of the entries; the private copy at src/linear_algebra/least_squares.rs:30-32 is the same function |
| LinearAlgebraHelpers.MeanAffine | src/linear_algebra/helpers.rs:405-407 | the mean of αx + β is α·mean(x) + β |
| LinearAlgebraHelpers.MeanBetweenExtremes | src/linear_algebra/helpers.rs:405-407 | the mean lies between any lower and upper bound of the entries |
| LinearSystemsExactMethods.SolveInf | src/linear_systems/exact_methods.rs:22-40 | every row satisfies the forward-substitution equation, and a·x = b when a is lower triangular |
| LinearSystemsExactMethods.LowerSystemUnique | src/linear_systems/exact_methods.rs:22-40 | a lower-triangular system with a nonzero diagonal has only one solution |
| LinearSystemsExactMethods.SolveSup | src/linear_systems/exact_methods.rs:50-68 | every row satisfies the back-substitution equation, and a·x = b when a is upper triangular |
| LinearSystemsExactMethods.UpperSystemUnique | src/linear_systems/exact_methods.rs:50-68 | an upper-triangular system with a nonzero diagonal has only one solution |
| LinearSystemsExactMethods.LuSolverRefine | src/linear_systems/exact_methods.rs:87-90 | succeeds exactly when both diagonals are nonzero; then (l·u)·x = b for triangular l and u |
| LinearSystemsExactMethods.LuSolver | src/linear_systems/exact_methods.rs:78-83 | the result is present exactly when a has an LU factorisation with nonzero pivots, and then solves a·x = b |
| LinearSystemsExactMethods.LuSolutionUnique | src/linear_systems/exact_methods.rs:78-83 | with a valid LU factorisation, a·x = b has only one solution |
| LinearSystemsExactMethods.RewriteRow | src/linear_systems/exact_methods.rs:111-113 | the buffer changes only in row i, which becomes the eliminated row |
| LinearSystemsExactMethods.EliminateOneRow | src/linear_systems/exact_methods.rs:108-113 | the buffers become one row step of the specification |
| LinearSystemsExactMethods.EliminateBelowPivot | src/linear_systems/exact_methods.rs:107-114 | the buffers become every row step below pivot k |
| LinearSystemsExactMethods.EliminateInPlace | src/linear_systems/exact_methods.rs:100-118 | the buffers become the specified elimination, and row 0 and b[0] are unchanged |
| LinearSystemsExactMethods.GaussianElimination | src/linear_systems/exact_methods.rs:100-118 | with nonzero pivots the result is upper triangular, its pivots are nonzero, and it has the same solutions as a·x = b |
| Elimination.EliminateUpper | src/linear_systems/exact_methods.rs:100-118 | the eliminated matrix has zeros below the diagonal |
| Elimination.EliminateEquivalent | src/linear_systems/exact_methods.rs:100-118 | x solves the eliminated system exactly when it solves the original one |
| Elimination.EliminateKeepsRows | src/linear_systems/exact_methods.rs:100-118 | rows up to the starting pivot are unchanged |
| Elimination.EliminatePivotsNonzero | src/linear_systems/exact_methods.rs:100-118 | every pivot used is nonzero |
| LinearSystemsExactMethods.PivotThenEliminate | src/linear_systems/exact_methods.rs:131-140 | one step of partial pivoting swaps in the maximal row, then eliminates below it, or reports a zero pivot |
| LinearSystemsExactMethods.PartialPivotGaussianElimination | src/linear_systems/exact_methods.rs:124-145 | the result is upper triangular with nonzero pivots and has the same solutions as a·x = b |
| Elimination.PivotEliminateUpper | src/linear_systems/exact_methods.rs:124-145 | the pivoted elimination produces an upper-triangular matrix |
| Elimination.PivotEliminatePivots | src/linear_systems/exact_methods.rs:124-145 | every pivot of the pivoted elimination is nonzero |
| Elimination.PivotEliminateKeepsRows | src/linear_systems/exact_methods.rs:124-145 | rows above the starting pivot are unchanged |
| Elimination.SwapEquivalent | src/linear_systems/exact_methods.rs:131 | exchanging two equations does not change the set of solutions |
| Elimination.PivotEliminateEquivalent | src/linear_systems/exact_methods.rs:124-145 | x solves the pivoted-eliminated system exactly when it solves the original |
| Elimination.PivotedMultiplierBound | src/linear_systems/exact_methods.rs:131-134 | after the pivot swap, every multiplier p satisfies \|p\| ≤ 1 |
| LinearSystemsExactMethods.BackSubstitute | src/linear_systems/exact_methods.rs:158-160 | succeeds exactly when the last pivot is nonzero, and then solves the triangular system |
| LinearSystemsExactMethods.GaussianSolverAsWritten | src/linear_systems/exact_methods.rs:152-161 | flag true runs the plain elimination and flag false the pivoted one; when the result is present it solves a·x = b |
| LinearSystemsExactMethods.InvertedFlagCounterexample | src/linear_systems/exact_methods.rs:152-161 | on [[0,1],[1,0]]·x = [1,1] the plain elimination fails and the pivoted one succeeds |
| LinearSystemsExactMethods.GaussianSolver | src/linear_systems/exact_methods.rs:152-161 | flag true runs the pivoted elimination; when the result is present it solves a·x = b |
| LinearSystemsExactMethods.GaussianCompactAsWritten | src/linear_systems/exact_methods.rs:167-185 | the caller's buffers become the elimination that writes p into a[i][j] for every k ≤ j < i; row 0 and b[0] are unchanged |
| Elimination.CompactAsWrittenCounterexample | src/linear_systems/exact_methods.rs:176-181 | on the counterexample system the as-written result has b' = [0,1,-1] and is not solved by a solution of the input |
| LinearSystemsExactMethods.GaussianCompact | src/linear_systems/exact_methods.rs:167-185 | with the corrected storage, the buffers agree with the plain elimination on and above the diagonal and in b; row 0 and b[0] are unchanged |
| Elimination.CompactOfSameSystem | src/linear_systems/exact_methods.rs:167-185 | the compact elimination succeeds exactly when the plain one does, and then agrees with it on and above the diagonal and in b |
| Elimination.CompactOrderTwo | src/linear_systems/exact_methods.rs:167-185 | for n = 2, a[1][0] becomes p = a10/a00 and a[1][1] becomes a11 - a01·p |
| Elimination.CompactCorrectedOnCounterexample | src/linear_systems/exact_methods.rs:167-185 | on the counterexample system the corrected elimination leaves the triangular system that the plain elimination gives |
| LinearSystemsExactMethods.ColumnsSolveUnits | src/linear_systems/exact_methods.rs:216-236 | if row i of inverse_t solves a·col = e_i for every i, then a·transpose(inverse_t) = I |
| LinearSystemsExactMethods.Inverse | src/linear_systems/exact_methods.rs:216-236 | the result is present exactly when a has an LU factorisation with nonzero pivots, and is then a right inverse: a·inv = I |
| LinearSystemsExactMethods.Cond | src/linear_systems/exact_methods.rs:239-242 | the result is present exactly when inverse's is; it is non-negative and equals ‖a‖∞·‖inv‖∞ for a right inverse inv of a |
| ExactMethodsHelpers.GetIdentityMatrix | src/exact_methods/helpers.rs:7-23 | the result is n×n, an entry is 1 exactly where row = column, and every other entry is 0 |
| ExactMethodsHelpers.ChooseBestPivot | src/exact_methods/helpers.rs:29-52 | rows k and p of a and entries k and p of b are exchanged, everything else is unchanged, p is the first maximal row, and the new a[k][k] is maximal |
| ExactMethodsHelpers.Transpose | src/exact_methods/helpers.rs:58-74 | for a square input, at[i][j] = a[j][i] |
| ExactMethodsSolvers.SolveInf | src/exact_methods/linear_systems_solvers.rs:8-26 | a·x = b for a lower-triangular a with a nonzero diagonal |
| ExactMethodsSolvers.SolveSup | src/exact_methods/linear_systems_solvers.rs:36-54 | a·x = b for an upper-triangular a with a nonzero diagonal |
| ExactMethodsSolvers.MatVec | src/exact_methods/linear_systems_solvers.rs:61-77 | entry i is the dot product of row i with v |
| ExactMethodsSolvers.MatMat | src/exact_methods/linear_systems_solvers.rs:83-102 | the result is a·b, and applying it equals applying b then a |
| ExactMethodsSolvers.LuDecomp | src/exact_methods/linear_systems_solvers.rs:110-145 | the result is present exactly when a has an LU factorisation; then l is unit lower triangular, u is upper triangular, and l·u = a |
| ExactMethodsSolvers.LuSolver | src/exact_methods/linear_systems_solvers.rs:151-156 | the result is present exactly when a has an LU factorisation with nonzero pivots, and then solves a·x = b |
| IterativeMethods.StopTestMatchesNorms | src/linear_algebra/iterative_methods.rs:18 | the square-free stop test holds exactly when ‖x1 - x0‖/‖x1‖ < 1e-17 |
| IterativeMethods.JacobiStepEntries | src/linear_algebra/iterative_methods.rs:9-16 | one step gives x1[i] = b*[i] - ((L* + R*)·x0)[i] |
| IterativeMethods.JacobiFixedPoint | src/linear_algebra/iterative_methods.rs:9-16 | x is a fixed point of the Jacobi step exactly when a·x = b |
| IterativeMethods.JacobiRunMoreFuel | src/linear_algebra/iterative_methods.rs:15-25 | once the iteration has stopped, more fuel gives the same result |
| IterativeMethods.JacobiRunAtSolution | src/linear_algebra/iterative_methods.rs:15-25 | started at a nonzero solution, the iteration stops at once and returns it |
| IterativeMethods.JacobiRichardsonSolver | src/linear_algebra/iterative_methods.rs:5-26 | a zero diagonal gives ZeroDivisor; otherwise the loop, started from zero vectors, is the specified iteration |
| IterativeMethods.GaussSeidelSweepCharacterised | src/linear_algebra/iterative_methods.rs:39-54 | y is the sweep exactly when each y[i] = b*[i] - Σ_{j<i} L*[i][j]·y[j] - Σ_{j>i} R*[i][j]·x0[j] |
| IterativeMethods.Sweep | src/linear_algebra/iterative_methods.rs:39-54 | the in-place loop over x1 computes the sweep |
| IterativeMethods.GaussSeidelFixedPoint | src/linear_algebra/iterative_methods.rs:33-54 | x is a fixed point of the sweep exactly when a·x = b |
| IterativeMethods.GaussSeidelRunMoreFuel | src/linear_algebra/iterative_methods.rs:38-63 | once the iteration has stopped, more fuel gives the same result |
| IterativeMethods.GaussSeidelRunAtSolution | src/linear_algebra/iterative_methods.rs:38-63 | started at a nonzero solution, the iteration stops at once and returns it |
| IterativeMethods.GaussSeidelSolver | src/linear_algebra/iterative_methods.rs:29-64 | a zero diagonal gives ZeroDivisor; otherwise the loop, started from zero vectors, is the specified iteration |
| LinearAlgebraEigen.TracesOfPowers | src/linear_algebra/eigen.rs:16-19 | s[i] = tr(A^(i+1)) |
| LinearAlgebraEigen.NewtonSumLoop | src/linear_algebra/eigen.rs:22-26 | the inner loop computes Σ_{i=1}^{k-1} p[i-1]·s[k-i-1] |
| LinearAlgebraEigen.CoefficientsSatisfyNewton | src/linear_algebra/eigen.rs:21-29 | the coefficients satisfy k·p[k-1] = s[k-1] - Σ_{i=1}^{k-1} p[i-1]·s[k-i-1] for every k |
| LinearAlgebraEigen.NewtonDeterminesCoefficients | src/linear_algebra/eigen.rs:21-29 | any vector satisfying those identities equals the computed coefficients |
| LinearAlgebraEigen.CoefficientsFromTraces | src/linear_algebra/eigen.rs:21-29 | the second loop computes the coefficients from the traces |
| LinearAlgebraEigen.Leverrier | src/linear_algebra/eigen.rs:10-32 | the output has length n, satisfies Newton's identities on the power traces, and has p[0] = tr(A) |
| LinearAlgebraEigen.LeverrierFirstCoefficient | src/linear_algebra/eigen.rs:21-29 | p[0] = tr(A) |
| LinearAlgebraEigen.LeverrierTwoByTwo | src/linear_algebra/eigen.rs:10-32 | for n = 2, p = [a00 + a11, a01·a10 - a00·a11], and λ² - p[0]λ - p[1] is the characteristic polynomial |
| LinearAlgebraEigen.LrStepIsSimilarity | src/linear_algebra/eigen.rs:73-74 | if l·u = a then u·l has the trace of a and l·(u·l) = a·l |
| LinearAlgebraEigen.LrStep | src/linear_algebra/eigen.rs:73-74 | the step fails exactly when a has no LU factorisation; otherwise the result is u·l for that factorisation |
| LinearAlgebraEigen.LrRunKeepsTrace | src/linear_algebra/eigen.rs:72-86 | every iterate of the run is square with the trace of a; a converged run returns the diagonal of an iterate whose strictly-lower entries are below 1e-6, summing to tr(a) |
| LinearAlgebraEigen.LowerMaximumTest | src/linear_algebra/eigen.rs:76 | the test max_abs_value_in_inferior_triangle < 1e-6 holds exactly when every entry below the diagonal is below 1e-6 in absolute value |
| LinearAlgebraEigen.LrRunSteps | src/linear_algebra/eigen.rs:72-79 | from a factorisation a = l·u, the run stops at u·l when its lower part is small and goes on from u·l otherwise |
| LinearAlgebraEigen.LrRound | src/linear_algebra/eigen.rs:72-79 | one pass of the loop either returns the run's outcome or the next iterate, from which the run is the same |
| LinearAlgebraEigen.Rutishauser | src/linear_algebra/eigen.rs:68-87 | the loop returns the outcome and last iterate of the specified run LrRun; the last iterate has the trace of a; on exit every strictly-lower entry is below 1e-6 and the result is the diagonal of the last iterate, summing to tr(a) |
| LinearAlgebraEigen.PowerStepAtEigenvector | src/linear_algebra/eigen.rs:49-52 | if a·z = λz with z ≠ 0 and z[0] ≠ 0, the normalised y = z/‖z‖∞ has infinity norm 1 and y[0] ≠ 0, it is again an eigenvector, and l1 = (a·y)[0]/y[0] = λ |
| LinearAlgebraEigen.PowerRunAtEigenvector | src/linear_algebra/eigen.rs:48-59 | started at an eigenvector for λ ≠ 0 with previous estimate λ, the loop stops with λ |
| LinearAlgebraEigen.PowerRunDivides | src/linear_algebra/eigen.rs:49-52 | a zero iterate is a division by zero |
| LinearAlgebraEigen.PowerRunSteps | src/linear_algebra/eigen.rs:48-59 | one round normalises, multiplies, and either stops on the relative test or continues with the new estimate |
| LinearAlgebraEigen.PowerStep | src/linear_algebra/eigen.rs:49-52 | the step computes the specified normalisation and quotient |
| LinearAlgebraEigen.PowerLoop | src/linear_algebra/eigen.rs:48-59 | the loop computes the specified run |
| LinearAlgebraEigen.PowerMethod | src/linear_algebra/eigen.rs:38-62 | the method starts from y = ones, z = a·y and is the specified run |
| LinearSystemsEigen.Leverrier | src/linear_systems/eigen.rs:10-32 | the output satisfies Newton's identities and p[0] = tr(A); for n = 2, p[1] = a01·a10 - a00·a11 |
| LinearSystemsEigen.RatiosTimes | src/linear_systems/eigen.rs:46-47 | lp[i]·y[i] = z[i] whenever no y[i] is zero |
| LinearSystemsEigen.RatioStepValue | src/linear_systems/eigen.rs:46-48 | a successful step gives lp = divdot(a·y, y) and y' = a·y normalised |
| LinearSystemsEigen.RatioStepNormalizes | src/linear_systems/eigen.rs:48 | the new y has infinity norm 1 |
| LinearSystemsEigen.RatioRunSettles | src/linear_systems/eigen.rs:50-56 | when the relative change of the ratios is below 1e-6 the loop stops with lp[0] |
| LinearSystemsEigen.RatioRunSteps | src/linear_systems/eigen.rs:45-56 | a successful round stops with lp[0] when the ratios settle, and otherwise continues with la = lp and the normalised y |
| LinearSystemsEigen.RatioRunStops | src/linear_systems/eigen.rs:47-48 | a failed step, from a zero entry of y or a zero a·y, is a division by zero |
| LinearSystemsEigen.RatioStepAtEigenvector | src/linear_systems/eigen.rs:46-48 | at an eigenvector for λ ≠ 0 with no zero entry, all ratios equal λ and the new y is again such an eigenvector |
| LinearSystemsEigen.RatioRunAtEigenvector | src/linear_systems/eigen.rs:45-56 | at such an eigenvector with la = λ everywhere, the loop stops with λ |
| LinearSystemsEigen.RatioPowerStep | src/linear_systems/eigen.rs:46-48 | the step computes the specified ratios and normalisation |
| LinearSystemsEigen.RatioRound | src/linear_systems/eigen.rs:45-54 | one round either stops with the run's result or continues with a state that has the same run |
| LinearSystemsEigen.PowerMethod | src/linear_systems/eigen.rs:38-57 | starts from y = ones and la = zeros and is the specified run |
| EigenValues.Tr | src/eigen/eigen_values.rs:5-13 | the result is Σ_i a[i][i] |
| Matrices.DiagonalSumIsTrace | src/eigen/eigen_values.rs:5-13 | the sum of the diagonal vector is the trace |
| EigenValues.Leverrier | src/eigen/eigen_values.rs:15-37 | the output has length n, satisfies Newton's identities, has p[0] = tr(A), and is [a00] for n = 1 |
| LinearAlgebraEigen.LeverrierOneByOne | src/eigen/eigen_values.rs:15-37 | for n = 1 the coefficients are [a00] |
| LeastSquares.LinearRegression | src/linear_algebra/least_squares.rs:4-25 | the result is the closed-form regression, and the line passes through the means |
| LeastSquares.RegressionOfSums | src/linear_algebra/least_squares.rs:13-22 | the slope num/den and intercept ȳ - a·x̄ are the regression line, and a·x̄ + b = ȳ |
| LeastSquares.RegressionThroughMeans | src/linear_algebra/least_squares.rs:22 | the fitted line passes through (x̄, ȳ) |
| LeastSquares.RegressionRecoversLine | src/linear_algebra/least_squares.rs:4-25 | points with y[i] = αx[i] + β and a nonzero denominator give back (α, β) |
| LeastSquares.ConstantDenominator | src/linear_algebra/least_squares.rs:18-21 | when every x[i] is equal the denominator is 0 and there is no result |
| LeastSquares.CrossSumIsCentered | src/linear_algebra/least_squares.rs:16-19 | the loop's sums equal the centred sums Σ (x[i] - x̄)(y[i] - ȳ) |
| FunctionRoots.Oriented | src/numeric_methods/function_roots.rs:6-10 | the ends are swapped exactly when f(a) > 0 and f(b) < 0 |
| FunctionRoots.HalveKeepsBracket | src/numeric_methods/function_roots.rs:24-31 | one halving keeps f(a) ≤ 0 ≤ f(b), halves b - a, moves one end to the midpoint, and stays inside [a, b] |
| FunctionRoots.BisecMethod | src/numeric_methods/function_roots.rs:4-39 | None exactly when the oriented ends do not bracket a sign change; otherwise c is an end of a final bracket of width (b - a)/2^k < 2ε, inside the start interval, and a swapped start halves once |
| FunctionRoots.SecantStepIsChordZero | src/numeric_methods/function_roots.rs:47-52 | the step fails exactly when the chord is flat or degenerate; otherwise c is the zero of the chord through (a, f(a)) and (b, f(b)) |
| FunctionRoots.SecantExactOnLines | src/numeric_methods/function_roots.rs:47-52 | on a line mx + q the step gives the root -q/m |
| FunctionRoots.SecantRunSteps | src/numeric_methods/function_roots.rs:46-57 | one round moves b ← a and a ← c, then stops when \|b - a\|/max(1, \|b\|) < ε |
| FunctionRoots.SecantRunOnLines | src/numeric_methods/function_roots.rs:42-60 | on a line the method converges to its root |
| FunctionRoots.SecantRunAtRoot | src/numeric_methods/function_roots.rs:42-60 | started at a root a, with f(b) ≠ 0 at the second point, the method returns a at once |
| FunctionRoots.SecantRunDivides | src/numeric_methods/function_roots.rs:47-52 | a flat chord is a division by zero |
| FunctionRoots.SecantMethod | src/numeric_methods/function_roots.rs:42-60 | the loop is the specified run |
| Integration.IntegrateLeft | src/calculus/integration.rs:5-17 | n = 0 gives no result; otherwise Δ·Σ_{i<n} f(a + iΔ) |
| Integration.IntegrateRight | src/calculus/integration.rs:24-36 | n = 0 gives no result; otherwise Δ·Σ_{i<n} f(a + (i+1)Δ) |
| Integration.IntegrateMiddle | src/calculus/integration.rs:42-54 | n = 0 gives no result; otherwise Δ·Σ_{i<n} f(a + (i+½)Δ) |
| Integration.IntegrateTrapezoid | src/calculus/integration.rs:61-73 | n = 0 gives no result; otherwise Δ/2·Σ_{i<n} (f(a + iΔ) + f(a + (i+1)Δ)) |
| Integration.IntegrateSimpson | src/calculus/integration.rs:81-96 | n = 0 gives no result; otherwise the Simpson sum with h = (x2n - x0)/(2n) |
| Integration.SimpsonLoops | src/calculus/integration.rs:86-93 | the two loops add 4·Σ over odd nodes and 2·Σ over even interior nodes |
| Integration.TrapezoidIsMeanOfLeftAndRight | src/calculus/integration.rs:5-73 | the trapezoid rule is the mean of the left and right rules |
| Integration.RulesExactOnConstants | src/calculus/integration.rs:5-73 | for f ≡ c and n ≥ 1, the left, right, middle and trapezoid rules give c·(b - a) |
| Integration.SimpsonExactOnConstants | src/calculus/integration.rs:81-96 | for f ≡ c and n ≥ 1, Simpson gives c·(x2n - x0) |
| CalculusHelpers.AbsoluteError | src/calculus/helpers.rs:17-20 | the error is non-negative and is 0 exactly when a = b |
| CalculusHelpers.AbsoluteErrorIsDistance | src/calculus/helpers.rs:17-20 | the error is symmetric and obeys the triangle inequality |
| CalculusHelpers.RelativeError | src/calculus/helpers.rs:23-26 | for b ≠ 0 the error is non-negative, is 0 exactly when a = b, and times \|b\| gives the absolute error |
| CalculusHelpers.PrecisionError | src/calculus/helpers.rs:11-14 | it lies between 0 and the absolute error, and is 0 exactly when a = b |
| CalculusHelpers.PrecisionErrorNearZero | src/calculus/helpers.rs:11-14 | for \|b\| ≤ 1 it is the absolute error |
| CalculusHelpers.PrecisionErrorAwayFromZero | src/calculus/helpers.rs:11-14 | for \|b\| ≥ 1 it is the relative error |

## Left out

- IEEE-754 arithmetic is not modelled: rounding, NaN and infinity propagation are left out. A division by a computed zero becomes `None` or `ZeroDivisor`.
- The `f64::NEG_INFINITY` seeds of `infinity_vecnorm` and `max_abs_value_in_inferior_triangle` (src/linear_algebra/helpers.rs:126, 179) would escape on empty input. The model requires a nonempty vector, and n ≥ 2 for the triangle maximum.
- `vecnorm`, `cholesky_method` and `cholesky_solver` need a square root, which the reals of Dafny lack. They are not modelled.
- `lu_solver_solution_refinement` (src/linear_systems/exact_methods.rs:196-213) is not modelled. Its loop has no bound other than a float tolerance. It also solves with `b` instead of the residual at line 207, so it does not refine, and its `n` is unused.
- Convergence of the outer loops is not proved: Jacobi, Gauss-Seidel, both power methods, Rutishauser and the secant loop. Each loop takes a `fuel` bound and reports `OutOfFuel` when the bound runs out. The model proves what each step computes and what the loop returns when it stops.
- IterativeMethods.StepIsSmall: the stop test `vecnorm(x1 - x0)/vecnorm(x1) < 1e-17` is stated on squared Euclidean norms, because square roots are not available. IterativeMethods.StopTestMatchesNorms shows that the two tests agree for any norm values whose squares are those sums.
- ExactMethodsHelpers.Transpose requires a square input. For any other shape the source indexes outside the matrix.
- LinearAlgebraHelpers.Transpose requires every row to be at least as long as row 0. The source reads `a[j][i]` for `i < a[0].len()`.
- FunctionRoots.BisecMethod requires ε > 0. With ε ≤ 0 the source loop never ends.
- The Integration methods take `n` as a natural number and do not model the `u32` range of the source. With n = 0 the source divides by zero, and the model returns no result.
- LinearAlgebraEigen.Rutishauser follows the source, which stops on the lower-triangle maximum with no bound on the number of iterations. The model's fuel bound returns the current diagonal when it runs out.
- The `derivative` helpers and src/calculus/differentiation.rs are not part of this model. They are single finite-difference formulas whose content is a float step size.
- The function `f` of src/functions.rs uses `exp` and `sin`. The model takes the integrated or bisected function as a parameter `f: real -> real`.
- `print_matrix`, src/main.rs, src/calculus/mod.rs and the `println!` calls in bisec_method are output only.
- `crate::types` is not part of this model; `Matrix<f64>` is taken to be `Vec<Vec<f64>>`.
- src/linear_systems/helpers.rs is not part of this model. src/linear_systems/exact_methods.rs imports it, and it is modelled by the module for src/linear_algebra/helpers.rs.
- The length check of `linear_regression`, which panics on unequal lengths, is a precondition. An empty input or a zero denominator gives no result.

## Findings

| source | as written | input that shows it | evidently intended | confidence | as-written member | corrected member |
|---|---|---|---|---|---|---|
| src/linear_systems/exact_methods.rs:176-181 | at step k, `gaussian_compact` stores the multiplier p into every a[i][j] with k ≤ j < i, overwriting entries of row i that later steps still use | A = [[1,0,0],[0,1,0],[1,0,1]], b = [0,1,0]: the result has b' = [0,1,-1] and row 2 becomes [1,1,1], so x = (0,1,0) solves the input but not the result | store p only in a[i][k], so that the upper triangle and b match plain elimination | not executed | Elimination.CompactAsWrittenCounterexample | LinearSystemsExactMethods.GaussianCompact |
| src/linear_systems/exact_methods.rs:154-158 | `gaussian_solver` runs the plain elimination when `partial_pivot` is true and the pivoting one when it is false | A = [[0,1],[1,0]], b = [1,1], `partial_pivot` = true: the plain elimination meets the zero pivot a[0][0], although pivoting would solve the system | `partial_pivot` = true selects the pivoting elimination | not executed | LinearSystemsExactMethods.InvertedFlagCounterexample | LinearSystemsExactMethods.GaussianSolver |
