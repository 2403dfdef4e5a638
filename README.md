# Gaussian elimination with partial pivoting

A Dafny model of the `GaussianElimination` solver. It reads an n x (n+1)
augmented matrix, reduces it in place by forward elimination with partial
pivoting, solves it by back substitution, and reports one of three outcomes:
no solution, infinitely many solutions, or the one solution.

The solver uses the tolerance `EPSILON` (1e-8) in three places:

- A pivot is skipped when its magnitude is at or below EPSILON, in both forward elimination and back substitution.
- A skipped row reports no solution when its residual exceeds EPSILON.
- The test for infinitely many solutions does not use EPSILON: it looks for a value that is exactly 0.0.

A system with no equations (n = 0) is accepted and gives the one, empty, solution.

The model is in two layers:

- **Specification functions on values.** Module `Elimination` has the pivot
  choice, the row swap, one pivot step, one loop iteration and the first k
  iterations. Module `Substitution` has back substitution and the
  classification. Module `Subscripts` has the subscript labels. Each
  module proves what these functions achieve.
- **The solver class.** `Solver.GaussianElimination` works on an
  `array<seq<real>>` exactly as the Java object works on its `double[][]`.
  Every method is proved to produce what the specification functions
  describe.

Module `Correctness` ties the layers to the mathematics. A reported solution
solves the system that was read in, and it is the only solution. Modules
`Examples` and `WorkedExample` carry concrete systems through the whole
pipeline.

Java's `double` is modelled as `real`. Every statement here is a statement
about exact arithmetic.

Files:

- `augmented.dfy`: module `Augmented`. The tolerance, `Abs`, the matrix type, dot products, and what an exact solution is.
- `elimination.dfy`: module `Elimination`. Forward elimination.
- `substitution.dfy`: module `Substitution`. Back substitution and `Classify`.
- `correctness.dfy`: module `Correctness`. End-to-end theorems.
- `subscript.dfy`: module `Subscripts`. `generateSubscript`.
- `gaussian_elimination.dfy`: module `Solver`. The class.
- `examples.dfy`: modules `Examples` and `WorkedExample`. Concrete systems.

## Model

| member | source | states |
|---|---|---|
| Elimination.PivotRowIsFirstMaximum | GaussianElimination.java:66-71 | The chosen pivot row lies in p..n-1. Its column-p magnitude is at least that of every row from p down. Every row before it is strictly smaller, so ties keep the lowest index because the comparison is strict. |
| Elimination.SwapRowsPermutes | GaussianElimination.java:92-96 | A swap permutes the rows, which keep the same multiset. Swapping a row with itself changes nothing. Swapping twice restores the matrix. |
| Elimination.SwapRowsKeepsSolutions | GaussianElimination.java:92-96 | Exchanging two equations keeps exactly the same exact solutions. |
| Elimination.PivotStepAt | GaussianElimination.java:102-109 | After `pivot(p)`, rows 0..p are unchanged. Each later row is the old row reduced by row p, with alpha fixed from column p before the row changes. |
| Elimination.PivotStepFrame | GaussianElimination.java:102-109 | `pivot(p)` leaves rows 0..p and columns 0..p-1 unchanged and sets column p exactly to 0.0 below the diagonal. Every other entry (i, j) with j >= p becomes m[i][j] - (m[i][p]/m[p][p]) * m[p][j]. |
| Elimination.PivotStepKeepsSolutions | GaussianElimination.java:102-109 | If the pivot row is zero before column p, a pivot step keeps exactly the same exact solutions. |
| Elimination.StepKeepsRowsAbove | GaussianElimination.java:63-85 | Iteration p leaves every row above p unchanged. |
| Elimination.StepSettlesPivotColumn | GaussianElimination.java:63-85 | After iteration p, column p is settled in one of two ways. Either the pivot exceeds EPSILON and the entries below it are exactly zero (`pivot`), or the pivot was skipped (`continue`) and every entry from row p down is within EPSILON of zero. |
| Elimination.StepSettles | GaussianElimination.java:63-85 | Iteration p settles column p and keeps every earlier column settled. This is the loop invariant of `forwardElimination`. |
| Elimination.EliminateSettles | GaussianElimination.java:63-85 | After k iterations, the first k columns are settled. |
| Elimination.EliminateKeepsFinishedRows | GaussianElimination.java:63-85 | Later iterations never change a row above the current pivot. |
| Elimination.EliminatedIsEchelon | GaussianElimination.java:63-85 | After elimination, every entry below the diagonal is within EPSILON of zero. Below each diagonal entry that exceeds EPSILON, the entries are exactly zero. |
| Elimination.StepIdle | GaussianElimination.java:63-85 | Take a matrix that is zero below the diagonal with every pivot beyond EPSILON. An iteration on it picks row p itself as the pivot row and subtracts nothing, so it leaves the matrix unchanged. |
| Elimination.EliminateIdempotent | GaussianElimination.java:63-85 | If elimination used every pivot, eliminating its result again gives the same matrix. |
| Elimination.StepKeepsSolutions | GaussianElimination.java:63-85 | An iteration that uses its pivot keeps the exact solutions, provided the earlier columns are already zero below their pivots. |
| Elimination.EliminateKeepsSolutions | GaussianElimination.java:63-85 | If every diagonal entry of the result exceeds EPSILON, the eliminated system has exactly the exact solutions of the original system. |
| Substitution.RowEquationHolds | GaussianElimination.java:117-125 | For any matrix, the vector from back substitution satisfies each row whose pivot exceeds EPSILON exactly: pivot * y[i] + (sum to its right) equals the right-hand side. For a skipped pivot, the residual is within EPSILON and y[i] is 0.0. |
| Substitution.SolveFromIff | GaussianElimination.java:117-128 | Back substitution from row i yields t if and only if t passes the test of every row from i down. |
| Substitution.BackSubstIff | GaussianElimination.java:116-141 | `backSubstitution` returns y if and only if y passes every row test. |
| Substitution.BackSubstNone | GaussianElimination.java:124-127 | `backSubstitution` returns null if and only if no vector passes every row test. |
| Substitution.NullIffStoppingRow | GaussianElimination.java:124-127 | Back substitution returns null if and only if some row has a skipped pivot and a residual beyond EPSILON, once the values below it are computed. |
| Substitution.StopPropagates | GaussianElimination.java:126-127 | A row that returns null stops the whole substitution. |
| Substitution.SkippedPivotGivesZero | GaussianElimination.java:116-125 | A value whose pivot was within EPSILON of zero keeps the array's default 0.0. |
| Substitution.AllPivotsSolve | GaussianElimination.java:124-127 | If every pivot exceeds EPSILON, back substitution never returns null. |
| Substitution.TriangularBackSubst | GaussianElimination.java:116-141 | On an upper-triangular matrix whose pivots all exceed EPSILON, back substitution succeeds. Its result solves the system exactly, and no other vector does. |
| Correctness.UniqueUsesEveryPivot | GaussianElimination.java:155-164 | A verdict of one solution implies that no pivot was skipped. A skipped pivot leaves a 0.0, which `isInfinite` reads as infinitely many. |
| Correctness.NoSkippedPivotSolves | GaussianElimination.java:63-141 | If no pivot is skipped, the result of back substitution solves the original system, and no other vector does. |
| Correctness.InconsistentSkipsAPivot | GaussianElimination.java:146-148 | "No Solution" is reported only after a diagonal entry within EPSILON of zero. |
| Correctness.UniqueIsTheSolution | GaussianElimination.java:186-201 | A reported solution solves the system that was read in, and it is the only solution. |
| Subscripts.ToSubscriptAppend | GaussianElimination.java:172-178 | Mapping characters one at a time commutes with concatenation. |
| Subscripts.SubscriptShape | GaussianElimination.java:172-178 | The label has one character per character of `String.valueOf(i)`. For i >= 0 it consists only of subscript digits U+2080..U+2089. For i < 0 it is U+207D followed by subscript digits. |
| Subscripts.SubscriptRoundTrip | GaussianElimination.java:172-178 | Reading a label's digits back, with a leading U+207D read as a minus sign, gives i again. So distinct indices get distinct labels. |
| Solver.GaussianElimination.constructor | GaussianElimination.java:39-56 | The constructor builds the n x (n+1) matrix with columns = n + 1. It leaves the matrix eliminated and the outcome equal to the classification of back substitution on it. |
| Solver.GaussianElimination.ForwardElimination | GaussianElimination.java:63-85 | The in-place loop leaves `matrix[..] == Eliminate(old matrix, n)`. The pivot scan finds `PivotRow`, and a pivot within EPSILON of zero is skipped. |
| Solver.GaussianElimination.Swap | GaussianElimination.java:92-96 | The array afterwards is `SwapRows` of the array before. |
| Solver.GaussianElimination.Pivot | GaussianElimination.java:102-109 | If the pivot exceeds EPSILON, so the division by `matrix[p][p]` is safe, the in-place double loop leaves `matrix[..] == PivotStep(old matrix, p)`. |
| Solver.GaussianElimination.RowSum | GaussianElimination.java:119-121 | The inner loop computes the dot product of row i right of the diagonal with the values already found. |
| Solver.GaussianElimination.BackSubstitution | GaussianElimination.java:116-141 | The method returns null if and only if `BackSubst` is None. Otherwise it returns a fresh array equal to `BackSubst`'s vector. The redundant-rows loop has an empty range because columns - 1 == n. |
| Solver.GaussianElimination.IsFeasible | GaussianElimination.java:146-148 | The result is true exactly when back substitution returns a vector. |
| Solver.GaussianElimination.IsInfinite | GaussianElimination.java:155-164 | The result is true exactly when some of the first n values is exactly 0.0. |
| Solver.GaussianElimination.CheckSpecialCases | GaussianElimination.java:186-201 | The verdict is `Classify(BackSubst(matrix))`: no solution on null, infinitely many on a zero value, the vector otherwise. |
| Solver.GaussianElimination.GenerateSubscript | GaussianElimination.java:172-178 | The StringBuilder loop builds exactly `Subscript(i)`. |
| Examples.ContradictoryRowsAreInconsistent | GaussianElimination.java:186-190 | x + y = 3 together with x + y = 5 is classified as no solution. |
| Examples.DependentRowsAreInfinite | GaussianElimination.java:155-164 | x + y = 3 together with 2x + 2y = 6 is classified as infinitely many. The zero row is consistent within EPSILON, so it does not report no solution. |
| Examples.ZeroComponentReadsAsInfinite | GaussianElimination.java:155-164 | x = 0 together with y = 1 has exactly one solution, (0, 1), yet the exact-zero test classifies it as infinitely many. |
| Examples.TinyPivotReadsAsInconsistent | GaussianElimination.java:77-78 | 1e-9 x = 1 is classified as no solution because its pivot is within EPSILON of zero, although x = 1e9 solves it exactly. |
| Examples.EmptySystemIsUnique | GaussianElimination.java:116-141 | With no equations, the verdict is the one, empty, solution. |
| WorkedExample.WorkedExampleIsUnique | GaussianElimination.java:186-201 | The system 9x+3y+4z=7, 4x+3y+4z=8, x+y+z=3 is classified as the one solution (-0.2, 4, -0.8), which solves it. |

## Left out

- Reading the file (`getFile`, the Scanner, `main`) is left out. The constructor takes the rows as a `seq<seq<real>>` and copies them into the array with an initialiser instead of the nested `nextDouble` loop. It requires every row to have n + 1 entries, which the reading loop guarantees.
- Console output is left out: the "No Solution" and "Infinitely many Solutions" messages and the `DecimalFormat` printing of each value. The constructor stores the verdict in the `outcome` field instead of printing it.
- Floating point is left out. `double` is modelled as exact `real`, so rounding and its effect on the EPSILON tests are not modelled.
- `assert x != null` in `isInfinite` is not modelled as a runtime check. `IsInfinite` takes a non-null `array<real>`, and `CheckSpecialCases` passes it only after `IsFeasible` returned true.
- No 32-bit bound is modelled. `numberOfEquations` is a `nat`, and the argument of `GenerateSubscript` is an unbounded `int`. The decimal digits agree with Java's for every 32-bit value.
- The redundant-rows loop in `backSubstitution` is not written out. Its range, columns - 1 up to n, is empty because columns == n + 1. `BackSubstitution` asserts this in place of the loop.
- Rows are `seq<real>` values stored in an array of rows. An update to one entry reassigns the whole row, which is equivalent in meaning because no two Java rows are aliased.
- `SubscriptShape` describes negative indices as the code computes them. The character '-' is mapped to U+207D, SUPERSCRIPT LEFT PARENTHESIS, not to a subscript minus sign. The solver calls this only with indices 0..n-1.
- The "No Solution" verdict is not a proof that no solution exists. A pivot within EPSILON of zero is skipped even when it is non-zero, and `Examples.TinyPivotReadsAsInconsistent` shows a solvable system reported as no solution. About that verdict the model proves only `Correctness.InconsistentSkipsAPivot`.
- The test for infinitely many solutions is modelled as written: an entry exactly 0.0. `Examples.ZeroComponentReadsAsInfinite` shows that it misreports a uniquely solvable system. No corrected variant is modelled.
