# A Dafny model of PETSc's sparse LU kernels, BiCG, rooted level structures and helpers

This project models a slice of an early PETSc tree (the Portable, Extensible
Toolkit for Scientific Computation). The slice covers:

- **Compressed-row (AIJ) LU factorisation** (`aijfact.c`):
  - the symbolic phase builds each row's fill pattern with an ordered linked list;
  - the numeric phase runs row-by-row Doolittle elimination into a dense work row;
  - the triangular solve applies the row and column permutations.
- **The block-diagonal (BDiag) factorisation** (`bdfact.c`), for one-by-one blocks:
  - the symbolic checks;
  - the in-place elimination over stored diagonals;
  - `BlockMatMult_Private`;
  - the forward and backward solve;
  - the guards of the transpose and add solves.
- **The BiCG Krylov solver** (`bicg.c`): set-up, the iteration, and its stopping reasons.
- **`rootls`**, the rooted level structure of a masked graph (`rootls.c`).
- **The argument checks and state rules of the vector interface** (`vector.c`).
- **The interval expansion and leaf partition of the sieve simplicializer** (`Simplicializer.cxx`).
- **The integer helper macros of `petscmath.h`**, and `PetscFixFilename` (`ghome.c`).

## Modelling conventions

- **Origins.** The Fortran-derived kernels (`aijfact.c`, `rootls.c`) keep their arrays 1-origin. The model shifts all indices to 0-origin, and the shift is made once, in the data model.
- **Arithmetic.** `PetscScalar` is modelled by exact `real`.
- **Division.** Division is `Dense.Quot`. A zero divisor yields 0 in the model, where the C code would produce an IEEE infinity or NaN.
- **Arrays.** Pointer-walked arrays become sequences. In-place updates become functions returning the new sequence. The linked lists the C code threads through work arrays are related to the ordered lists they represent by ghost predicates (`ListRep`, `Searching`).
- **Errors.** An error code and its message become an `Err` of a per-module error datatype. `Results.Result` and `Results.Option` are the wrappers.

Modules:

| module | file |
|---|---|
| `Results` | `results.dfy` |
| `Dense` | `dense.dfy` |
| `AijMatrix` | `aij_matrix.dfy` |
| `AijPattern` | `aij_pattern.dfy` |
| `FillList` | `fill_list.dfy` |
| `Permutations` | `permutation.dfy` |
| `AijSymbolic` | `aij_symbolic.dfy` |
| `AijNumeric` | `aij_numeric.dfy` |
| `LuFactors` | `lu_identity.dfy` |
| `AijSolve` | `aij_solve.dfy` |
| `BDiagFactor` | `bdfact.dfy` |
| `BiCG` | `bicg.dfy` |
| `RootedLevels` | `rootls.dfy` |
| `Simplicializer` | `simplicializer.dfy` |
| `Vectors` | `vector.dfy` |
| `PetscMath` | `petscmath.dfy` |
| `FileNames` | `ghome.dfy` |

## Model

| member | source | states |
|---|---|---|
| AijSymbolic.LUFactorSymbolic | src/mat/impls/aij/seq/aijfact.c:9-109 | A non-square matrix, then a missing row permutation, then a missing column permutation, is refused in that order, and the factor succeeds exactly when none of these holds. On success the pattern has one row per matrix row. Each row is sorted and split at its diagonal. Each row holds exactly the permuted row of A plus the fill of every earlier row it touches. The column permutation is inverted. The stored columns fit in the allocated capacity. |
| AijSymbolic.FactorRow | src/mat/impls/aij/seq/aijfact.c:36-91 | One pass of the row loop turns a valid symbolic factor of the first i rows into one of the first i+1 rows. The column buffer keeps every row stored so far. |
| AijSymbolic.LoadRow | src/mat/impls/aij/seq/aijfact.c:38-50 | The linked list built from row r[i] holds exactly the renumbered columns ic[col] of that row, in increasing order, and its length is the count nnz. |
| AijSymbolic.InsertColumn | src/mat/impls/aij/seq/aijfact.c:42-49 | Inserting an absent column keeps the list sorted, adds exactly that column, and grows it by one. |
| FillList.Locate | src/mat/impls/aij/seq/aijfact.c:44-47 | The walk stops at the first list element not below the searched column. The column is already present exactly when the walk stops on it. |
| FillList.WalkStopped | src/mat/impls/aij/seq/aijfact.c:44-47 | Where the walk stops splits the ordered list into the part below the column and the part at or above it. |
| FillList.SpliceInserts | src/mat/impls/aij/seq/aijfact.c:48-49 | Relinking the two successor pointers represents the ordered list with the column inserted at the stop position. |
| FillList.InsertKeepsIncreasing | src/mat/impls/aij/seq/aijfact.c:48-49 | Inserting at the split position keeps the list strictly increasing. |
| AijSymbolic.MergeColumn | src/mat/impls/aij/seq/aijfact.c:57-68 | Merging one column of an earlier row's upper part adds that column if it is absent and nothing else. The prefix up to the row being merged stays untouched. |
| AijSymbolic.MergeRow | src/mat/impls/aij/seq/aijfact.c:53-69 | After merging row `row`, the list holds everything it held before and all of that row's upper part, and nothing else. |
| AijSymbolic.MergeFill | src/mat/impls/aij/seq/aijfact.c:51-71 | After the merge loop the list is closed under fill: every earlier row present in it has its upper part included. Every element is original or comes from such a row. |
| AijSymbolic.BuildRow | src/mat/impls/aij/seq/aijfact.c:37-71 | Loading and merging yield a candidate row: sorted and in range, containing the permuted original row, closed under fill, and holding nothing else. |
| AijSymbolic.EnsureRoom | src/mat/impls/aij/seq/aijfact.c:73-81 | The buffer is unchanged when the new row fits. Otherwise its capacity grows by nnz times the number of rows left. Either way the row fits and the stored prefix is kept. |
| AijSymbolic.WriteRow | src/mat/impls/aij/seq/aijfact.c:82-90 | The list is copied in order into the column buffer after the stored prefix. nzi counts exactly the columns left of the diagonal. |
| AijSymbolic.CopyList | src/mat/impls/aij/seq/aijfact.c:85-89 | Following the links from the head writes the represented list, element by element, into the buffer. |
| AijSymbolic.StoreRow | src/mat/impls/aij/seq/aijfact.c:73-90 | Storing a row appends it to the pattern with its diagonal position at the first column not below the row index, and keeps the buffer holding the pattern. |
| AijSymbolic.AppendFilledRow | src/mat/impls/aij/seq/aijfact.c:36-91 | Appending a candidate row, split at the diagonal, extends a valid symbolic factor by one row. |
| AijPattern.AppendRow | src/mat/impls/aij/seq/aijfact.c:82-90 | Appending a row extends the row pointers by the row's length and the diagonal pointers by its split position, and keeps all earlier rows. |
| AijPattern.IdentityHasNoFill | src/mat/impls/aij/seq/aijfact.c:36-71 | Eliminating the identity of order 2 brings in no fill: a second row that also stores column 0 is not its symbolic factor, because no earlier row left of that column brings it in. |
| Permutations.Invert | src/mat/impls/aij/seq/aijfact.c:21 | The inverse permutation `ISInvertPermutation` returns maps each value of the permutation back to its position. |
| Permutations.InverseUnique | src/mat/impls/aij/seq/aijfact.c:21 | The inverse is a permutation, and it is the only sequence that undoes the original on both sides. |
| AijNumeric.LUFactorNumeric | src/mat/impls/aij/seq/aijfact.c:111-162 | Every stored entry of the factor satisfies Doolittle's equation for the permuted matrix A(r, c): a multiplier left of the diagonal; the reciprocal of the eliminated pivot on it; the eliminated entry right of it. |
| AijNumeric.FactorRowValues | src/mat/impls/aij/seq/aijfact.c:125-156 | One row of the numeric loop extends Doolittle's equations from the first i rows to the first i+1 and leaves the earlier rows alone. |
| AijNumeric.ClearRow | src/mat/impls/aij/seq/aijfact.c:126-128 | Every column of row i's pattern is zero in the work row. |
| AijNumeric.ScatterRow | src/mat/impls/aij/seq/aijfact.c:131-134 | Each pattern column of the work row holds the corresponding entry of the permuted row r[i] of A, and zero where A stores nothing. |
| AijNumeric.ScatterValues | src/mat/impls/aij/seq/aijfact.c:131-134 | Scattering through the inverse column permutation puts each stored value at its renumbered column. |
| AijNumeric.EliminateLower | src/mat/impls/aij/seq/aijfact.c:136-149 | After the elimination loop each pattern column of the work row is the row's entry minus the multiplier-weighted upper entries of all earlier pivot rows present in the row. |
| AijNumeric.EliminateAt | src/mat/impls/aij/seq/aijfact.c:137-148 | Handling one lower column extends the elimination invariant to the next stored column. |
| AijNumeric.UseRow | src/mat/impls/aij/seq/aijfact.c:138-147 | The multiplier becomes the entry times the stored pivot reciprocal. Every later column is reduced by the multiplier times pivot row's stored entry. Earlier columns keep their values. |
| AijNumeric.ApplyRow | src/mat/impls/aij/seq/aijfact.c:144-146 | Subtracting a scaled pivot row changes exactly the columns right of the pivot, by the multiplier times that row's stored entry. |
| AijNumeric.SubtractScaled | src/mat/impls/aij/seq/aijfact.c:145-146 | The sparse loop over a sorted upper row equals subtracting the scaled dense row at every column right of the pivot. |
| AijNumeric.WriteValues | src/mat/impls/aij/seq/aijfact.c:151-155 | Row i's stored values are read back from the work row at their columns, and nothing outside row i changes. |
| LuFactors.LuIdentity | src/mat/impls/aij/seq/aijfact.c:111-162 | When every pivot is nonzero, the unit lower factor times the upper factor, whose diagonal is recovered from the stored reciprocals, reproduces A(r[i], c[k]) at every position. |
| LuFactors.PatternFactors | src/mat/impls/aij/seq/aijfact.c:125-156 | Doolittle's equations on the symbolic pattern make the factor an exact LU factorisation of the permuted matrix. Entries outside the pattern are genuine zeros. |
| AijSolve.Solve | src/mat/impls/aij/seq/aijfact.c:163-201 | With nonzero pivots, the LU product applied to the result read in column order equals the right-hand side read in row order. |
| AijSolve.SolveSolves | src/mat/impls/aij/seq/aijfact.c:163-201 | A solution of the factored system solves the original one: row by row, A x equals b. |
| AijSolve.ForwardSolve | src/mat/impls/aij/seq/aijfact.c:178-187 | Each y[i] is b[r[i]] minus the lower-factor terms of the y values before it. This is unit lower triangular substitution. |
| AijSolve.BackwardSolve | src/mat/impls/aij/seq/aijfact.c:189-197 | Each z[i] is the pivot reciprocal times what is left of y[i] after the upper terms. The result is scattered so that x[c[i]] = z[i]. |
| AijSolve.TriangularSolved | src/mat/impls/aij/seq/aijfact.c:178-197 | Forward and backward substitution with nonzero pivots together solve L U z = b(r). |
| AijSolve.SubtractRow | src/mat/impls/aij/seq/aijfact.c:185 | The pointer loop subtracts the sparse dot product of a stored row segment with the vector. |
| AijSolve.SparseIsDense | src/mat/impls/aij/seq/aijfact.c:185 | The sparse dot product over a sorted row segment equals the dense sum over the corresponding columns. |
| AijSolve.RefinedSolvable | src/mat/impls/aij/seq/aijfact.c:163-201 | A symbolic factor from the symbolic phase has the shape the solve needs: sorted rows, diagonal present, pointers in range. |
| Dense.QuotTimes | src/mat/impls/aij/seq/aijfact.c:154 | A quotient by a nonzero divisor times the divisor gives back the dividend, so away from zero the model's quotient is the true one. |
| BDiagFactor.LuFactorSymbolic | src/mat/impls/bdiag/seq/bdfact.c:46-54 | The symbolic LU of this format always fails. A non-square matrix is reported as such, permutations as unsupported, and anything else as not written. |
| BDiagFactor.IluFactorSymbolic | src/mat/impls/bdiag/seq/bdfact.c:56-67 | It succeeds exactly for a square matrix with no permutations and zero fill levels, and returns the matrix itself. Each failing condition gets its own error, in the order the C code tests them. |
| BDiagFactor.BlockMatMult | src/mat/impls/bdiag/seq/bdfact.c:19-44 | Every column of the column-major block c is reduced by the block product a times the same column of b. Entries past the last column are untouched. |
| BDiagFactor.SubtractColumn | src/mat/impls/bdiag/seq/bdfact.c:33-39 | One column of c loses the product of a with the matching column of b. Every other entry is unchanged. |
| BDiagFactor.SubtractTerm | src/mat/impls/bdiag/seq/bdfact.c:35-39 | One step of the inner loop extends the partial product by one more term. |
| BDiagFactor.DgPtrFinds | src/mat/impls/bdiag/seq/bdfact.c:91-93 | The offset table gives zero exactly for offsets no stored diagonal has. Otherwise it gives one more than the index of the diagonal with that offset. |
| BDiagFactor.UpdateOne | src/mat/impls/bdiag/seq/bdfact.c:102-112 | Updating through one diagonal fails exactly when the elimination column would fall left of the pivot. That is the C code's "bad elimination column" error. |
| BDiagFactor.Updates | src/mat/impls/bdiag/seq/bdfact.c:102-113 | The update loop keeps the storage shape and can fail only with the bad-column error. It cannot fail when every later offset is below the current one. |
| BDiagFactor.Sweep | src/mat/impls/bdiag/seq/bdfact.c:96-116 | The sweep over the sub-diagonals of a pivot keeps the storage shape and fails only with the bad-column error. With decreasing offsets it always succeeds. |
| BDiagFactor.PivotStep | src/mat/impls/bdiag/seq/bdfact.c:94-116 | One pivot step (reciprocal, then sweep) keeps the shape and succeeds whenever the offsets decrease. |
| BDiagFactor.Pivots | src/mat/impls/bdiag/seq/bdfact.c:94-117 | The pivot loop from row k on keeps the shape and succeeds whenever the offsets decrease. |
| BDiagFactor.FactorNumeric | src/mat/impls/bdiag/seq/bdfact.c:72-176 | The numeric factor marks the matrix factored and keeps its dimensions and diagonal layout. It fails only with the bad-column error, and never when the offsets decrease. |
| BDiagFactor.LuFactor | src/mat/impls/bdiag/seq/bdfact.c:178-189 | In-place LU refuses non-square matrices and otherwise runs the numeric factor. It ignores the permutation arguments. |
| BDiagFactor.IluFactor | src/mat/impls/bdiag/seq/bdfact.c:191-203 | In-place ILU behaves exactly like in-place LU. |
| BDiagFactor.SymbolicThenNumeric | src/mat/impls/bdiag/seq/bdfact.c:56-72 | Running the ILU symbolic phase and then the numeric phase gives the same result as the in-place ILU. |
| BDiagFactor.ZeroEntrySkipped | src/mat/impls/bdiag/seq/bdfact.c:99 | A zero sub-diagonal entry leaves the storage unchanged, so skipping it changes nothing. |
| BDiagFactor.SweepView | src/mat/impls/bdiag/seq/bdfact.c:96-116 | Read as a dense matrix, the sweep subtracts multiplier times pivot row at exactly the stored positions of the rows it eliminates. Every other entry is unchanged. |
| BDiagFactor.PivotStepMatrix | src/mat/impls/bdiag/seq/bdfact.c:94-116 | Read densely, one pivot step is one ILU(0) elimination step: the pivot is replaced by its reciprocal, multipliers are stored, and only stored positions are updated. |
| BDiagFactor.PivotsIlu | src/mat/impls/bdiag/seq/bdfact.c:94-117 | Read densely, the remaining pivot loop is the ILU(0) elimination from row k on. |
| BDiagFactor.FactorNumericIlu | src/mat/impls/bdiag/seq/bdfact.c:90-119 | With decreasing offsets, the numeric factor succeeds and is the ILU(0) factorisation of the stored matrix restricted to its stored diagonals. |
| BDiagFactor.Solve | src/mat/impls/bdiag/seq/bdfact.c:205-236 | The solve fails exactly on an unfactored matrix, and otherwise returns a vector of the right length. |
| BDiagFactor.ForwardSolves | src/mat/impls/bdiag/seq/bdfact.c:218-226 | The forward sweep solves the unit lower triangular system of the stored factor. |
| BDiagFactor.BackwardSolves | src/mat/impls/bdiag/seq/bdfact.c:227-235 | The backward sweep solves the upper triangular system whose diagonal is stored as reciprocals. |
| BDiagFactor.SolveSolves | src/mat/impls/bdiag/seq/bdfact.c:205-236 | On a factored matrix the solve succeeds and its result solves both triangular systems in turn. |
| BDiagFactor.MainOnlySolve | src/mat/impls/bdiag/seq/bdfact.c:228-235 | When only the main diagonal is stored and the matrix is factored, the solve multiplies each entry by the stored reciprocal pivot. |
| BDiagFactor.MainOnlyEntry | src/mat/impls/bdiag/seq/bdfact.c:228-235 | On a main-diagonal-only factor, any pair of forward and backward solutions gives y[i] = x[i] times the stored pivot. |
| BDiagFactor.TransAddGuard | src/mat/impls/bdiag/seq/bdfact.c:274-292 | The transpose solve reaches its block solves only on a factored matrix that stores only the main diagonal. Otherwise it reports the first violated condition. |
| BDiagFactor.AddGuardAsWritten | src/mat/impls/bdiag/seq/bdfact.c:296-318 | As written, the add solves reach their block solves exactly on a factored main-diagonal-only matrix. On an unfactored one, only the uninitialised info value decides between silently copying and reporting an error. |
| BDiagFactor.AddUnfactoredAsWritten | src/mat/impls/bdiag/seq/bdfact.c:312-318 | On an unfactored main-diagonal-only matrix, the add solve as written either copies silently or raises a sub-block error, depending on info. The transpose solve instead reports that the matrix must be factored. |
| BDiagFactor.AddGuardCorrected | src/mat/impls/bdiag/seq/bdfact.c:303-318 | The corrected guard (the transpose solve's) admits exactly the matrices for which the add solve as written runs its block solves. The two differ only on unfactored matrices. |
| BiCG.Create | src/sles/ksp/impls/bicg/bicg.c:142-158 | A new solver uses left preconditioning, computes residuals, and has no work vectors yet. |
| BiCG.SetUp | src/sles/ksp/impls/bicg/bicg.c:13-29 | Set-up succeeds exactly with left preconditioning, and then allocates six work vectors. Right and symmetric preconditioning are each refused with their own error. |
| BiCG.CreatedSetsUp | src/sles/ksp/impls/bicg/bicg.c:13-29 | A freshly created solver always sets up, with six work vectors. |
| BiCG.KSPSolve | src/sles/ksp/impls/bicg/bicg.c:33-126 | The iterative loop computes the same final state, iteration count, recorded count and reason as the recursive reference definition of the algorithm. |
| BiCG.SolveOutcome | src/sles/ksp/impls/bicg/bicg.c:71-125 | The reasons are characterised in full. The solve stops at iteration 0 exactly when the initial test says so. Breakdown happens exactly when the first beta is zero and iterations are allowed. The solve stays iterating exactly when the limit is negative. A stop carries the nonzero code of the test that produced it. Running out of iterations records maxit - 1. |
| BiCG.LoopBreakdown | src/sles/ksp/impls/bicg/bicg.c:82-87 | Breakdown is reported exactly when the first iteration finds a zero beta. The solve then stops with zero iterations and the state unchanged. |
| BiCG.LoopIterating | src/sles/ksp/impls/bicg/bicg.c:80-124 | The reason stays "iterating" exactly when the loop starts past its limit. |
| BiCG.LoopStopped | src/sles/ksp/impls/bicg/bicg.c:111-117 | A converged or diverged stop happens within the limit, records its iteration count, and carries the test's nonzero code on the tested state. |
| BiCG.LoopLimit | src/sles/ksp/impls/bicg/bicg.c:123-124 | Running out of iterations leaves the count at maxit and the recorded count at maxit - 1. |
| BiCG.LoopRunsOut | src/sles/ksp/impls/bicg/bicg.c:80-124 | If the test never stops the solve and there is no breakdown, the loop ends by running out of iterations. |
| BiCG.UpdateKeepsResidual | src/sles/ksp/impls/bicg/bicg.c:96-102 | For a linear operator, the update of x and of the right residual keeps rr = b - A x. |
| BiCG.LoopKeepsResidual | src/sles/ksp/impls/bicg/bicg.c:80-122 | Every iteration keeps the right residual equal to the true residual b - A x. |
| BiCG.SolveKeepsResidual | src/sles/ksp/impls/bicg/bicg.c:57-124 | Whatever the stopping reason, the final right residual is the true residual of the final iterate. |
| RootedLevels.RootLs | src/mat/order/rootls.c:25-94 | The levels partition the node list. Each level is nonempty and the root is alone in the first. The nodes are distinct and entered only through nonzero masks. Each node of a later level is adjacent to one of the previous level. The levels are breadth first: every masked neighbour of a node of level k lies on level k+1 or an earlier one, which fixes `nlvl` and `xls`. Every masked neighbour of an entered node is entered. The mask is restored to 1 on entered nodes and unchanged elsewhere. |
| RootedLevels.NextLevel | src/mat/order/rootls.c:50-82 | One pass of the level loop closes the level at the current list end, scans it, and keeps the loop state: the closed levels stay layered and breadth first, and the level boundary strictly advances. |
| RootedLevels.ScannedWithin | src/mat/order/rootls.c:55-79 | Once the nodes of a level are scanned, every masked neighbour of the level is already in the list. |
| RootedLevels.BreadthGrow | src/mat/order/rootls.c:50-82 | Appending to the list keeps each closed level's masked neighbours within the next level, and the level just scanned joins them. |
| RootedLevels.TriangleLevels | src/mat/order/rootls.c:55-79 | On the triangle rooted at 0 with every mask set, levels {0},{1},{2} are not breadth first (node 2, a neighbour of the root, sits beyond level 1), while {0},{1,2} are. |
| RootedLevels.Reached | src/mat/order/rootls.c:50-85 | Every node reachable from the root along a path of nonzero-mask nodes is in the level structure. |
| RootedLevels.Closed | src/mat/order/rootls.c:57-85 | Once every entered node is scanned, every masked neighbour of an entered node is entered. |
| RootedLevels.LevelsAdjacent | src/mat/order/rootls.c:50-85 | The level boundaries recorded by the outer loop put each node's discoverer in the previous level. |
| RootedLevels.ScanLevel | src/mat/order/rootls.c:57-79 | Scanning a level scans all its nodes and keeps the search invariant. Each new node is discovered by a node of the level just scanned. |
| RootedLevels.ScanNode | src/mat/order/rootls.c:59-76 | Scanning a node enters exactly its neighbours with nonzero mask, zeroes their masks, and records the node as their discoverer. |
| RootedLevels.Enter | src/mat/order/rootls.c:71-73 | Entering a node with nonzero mask appends it, zeroes its mask, and keeps the list distinct. |
| RootedLevels.DistinctBounded | src/mat/order/rootls.c:71-72 | A list of distinct nodes never outgrows the node count, so the list array cannot overflow. |
| RootedLevels.LayeredGrow | src/mat/order/rootls.c:81-85 | Closing a level at the current list end keeps each level's discoverers inside the previous level. |
| RootedLevels.Restore | src/mat/order/rootls.c:87-92 | Restoring sets the mask of every entered node back to 1 and leaves all other masks unchanged. |
| Simplicializer.ExpandInterval | src/dm/mesh/sieve/Simplicializer.cxx:303-308 | An interval writes its indices prefix, prefix+1, ... at the cursor and advances the cursor by its count. Nothing else in the array changes. |
| Simplicializer.ExpandIntervals | src/dm/mesh/sieve/Simplicializer.cxx:313-322 | The array starts with the expansions of all intervals, one after another, and the rest is untouched. |
| Simplicializer.ExpandAllLength | src/dm/mesh/sieve/Simplicializer.cxx:313-322 | The expansions together have as many indices as the intervals' counts add up to. |
| Simplicializer.TotalIsIndexSum | src/dm/mesh/sieve/Simplicializer.cxx:303-308 | With no negative count, the number of indices written is the sum of the intervals' index fields. |
| Simplicializer.PartitionLeaves | src/dm/mesh/sieve/Simplicializer.cxx:117-124 | Every leaf is given exactly one process below the process count, inside that process's range, and owners never decrease along the leaves. |
| Simplicializer.PartitionStep | src/dm/mesh/sieve/Simplicializer.cxx:117-124 | Assigning one process its range extends a valid partition of the leaves before it. |
| Simplicializer.AssignRange | src/dm/mesh/sieve/Simplicializer.cxx:119-123 | The inner loop gives the current process every leaf up to its range end and keeps earlier assignments. |
| Simplicializer.RangesAbut | src/dm/mesh/sieve/Simplicializer.cxx:119 | Each process's range ends where the next one begins. |
| Simplicializer.RangeSize | src/dm/mesh/sieve/Simplicializer.cxx:119 | Each process gets the quotient of leaves by processes, and one more if it is among the first remainder processes. |
| Simplicializer.RangesCoverAll | src/dm/mesh/sieve/Simplicializer.cxx:117-119 | The ranges start at leaf 0 and the last one ends at the number of leaves. |
| Simplicializer.LeafStartMonotone | src/dm/mesh/sieve/Simplicializer.cxx:119 | Range starts never decrease with the process number. |
| Vectors.SetBlockSize | src/vec/interface/vector.c:30-43 | A non-positive request means 1. Asking for the current size changes nothing. A second, different size is refused as a wrong state. A size that does not divide both lengths is out of range. Otherwise the size is recorded for the vector and its stash. |
| Vectors.BlockSizeSetOnce | src/vec/interface/vector.c:30-43 | A block size once set divides both lengths, can be requested again, and can never be changed. |
| Vectors.CheckPair | src/vec/interface/vector.c:150-151 | Two vectors pass exactly when their global and local lengths agree. A global mismatch is reported first. |
| Vectors.CheckTriple | src/vec/interface/vector.c:710-711 | Three vectors pass exactly when all global and all local lengths agree. A global mismatch is reported first. |
| Vectors.Dot | src/vec/interface/vector.c:138-167 | The dot product is defined exactly for compatible vectors. It is the sum of the entrywise products. |
| Vectors.DotSymmetric | src/vec/interface/vector.c:138-167 | The dot product does not depend on the order of its arguments. |
| Vectors.Copy | src/vec/interface/vector.c:415-432 | Copying between compatible vectors gives y the values of x and keeps all of y's other attributes. |
| Vectors.CopyPreservesDot | src/vec/interface/vector.c:415-432 | A copy has the same dot product with any third vector as the original. |
| Vectors.Axpy | src/vec/interface/vector.c:538-557 | For compatible vectors each entry of y becomes alpha x + y, and nothing else about y changes. |
| Vectors.AxpyUndo | src/vec/interface/vector.c:538-557 | Adding -alpha x after alpha x restores y. |
| Vectors.Axpby | src/vec/interface/vector.c:579-599 | For compatible vectors each entry of y becomes alpha x + beta y. |
| Vectors.Aypx | src/vec/interface/vector.c:621-640 | For compatible vectors each entry of y becomes x + alpha y. |
| Vectors.SpecialCasesOfAxpby | src/vec/interface/vector.c:538-640 | AXPY and AYPX are AXPBY with beta = 1 and alpha = 1 respectively. WAXPY computes the values AXPY would. |
| Vectors.Swap | src/vec/interface/vector.c:656-674 | Compatible vectors exchange their values and keep their other attributes. |
| Vectors.SwapTwice | src/vec/interface/vector.c:656-674 | Swapping twice restores both vectors. |
| Vectors.Waxpy | src/vec/interface/vector.c:696-717 | For three compatible vectors, w becomes alpha x + y entrywise. |
| Vectors.PointwiseMult | src/vec/interface/vector.c:738-758 | For three compatible vectors, w becomes the entrywise product. |
| Vectors.PointwiseDivide | src/vec/interface/vector.c:779-797 | For three compatible vectors, w times y gives back x at every entry where y is nonzero. |
| Vectors.Scale | src/vec/interface/vector.c:378-390 | Every entry is multiplied by alpha and nothing else changes. |
| Vectors.ScaleUndo | src/vec/interface/vector.c:378-390 | Scaling by a nonzero alpha and then by its reciprocal restores the vector. |
| Vectors.Set | src/vec/interface/vector.c:461-474 | Every entry becomes alpha and nothing else changes. |
| Vectors.Destroy | src/vec/interface/vector.c:853-877 | The vector is freed exactly when its last reference goes. Otherwise only its reference count drops by one. |
| Vectors.DestroyCountsDown | src/vec/interface/vector.c:853-877 | k destroys of a vector with more than k references leave it alive with k fewer. The last destroy frees it. |
| Vectors.SetLocalToGlobalMapping | src/vec/interface/vector.c:1119-1133 | A mapping can be attached only when none is attached yet. It is then recorded unchanged. |
| Vectors.SetLocalToGlobalMappingBlocked | src/vec/interface/vector.c:1158-1171 | The same rule holds for the blocked mapping. |
| Vectors.SetValuesLocal | src/vec/interface/vector.c:1209-1233 | Without a mapping the call is refused. With one, each local index is translated to its global number before the values are set. |
| Vectors.SetValuesBlockedLocal | src/vec/interface/vector.c:1273-1297 | The blocked call is refused without a blocked mapping. Otherwise it translates through it. |
| Vectors.MappingSetOnce | src/vec/interface/vector.c:1119-1233 | Attaching a mapping enables local insertion, and a second attach is refused. |
| Vectors.GetArray2d | src/vec/interface/vector.c:2497-2514 | The two-dimensional view exists exactly when m times n is the local length. |
| Vectors.Offset2dInRange | src/vec/interface/vector.c:2510-2512 | Every index inside the view's shifted ranges addresses an entry of the local array. |
| Vectors.Offset2dInjective | src/vec/interface/vector.c:2510-2512 | Distinct view indices address distinct entries. |
| Vectors.Offset2dOnto | src/vec/interface/vector.c:2510-2512 | Every entry of the local array is addressed by some view index. |
| Vectors.GetArray1d | src/vec/interface/vector.c:2591-2604 | The one-dimensional view exists exactly when m is the local length. |
| Vectors.Offset1dBijective | src/vec/interface/vector.c:2602 | The shifted view addresses each local entry exactly once. |
| PetscMath.Min | include/petscmath.h:195 | The result is one of the arguments and is not above either. |
| PetscMath.Max | include/petscmath.h:216 | The result is one of the arguments and is not below either. |
| PetscMath.MinMaxPartition | include/petscmath.h:195-216 | Min and max together give back both arguments, and min is max of the negations, negated. |
| PetscMath.AbsInt | include/petscmath.h:234 | The result is the argument or its negation, never negative, and zero only for zero. |
| PetscMath.Abs | include/petscmath.h:153 | The result is the argument or its negation, and never negative. |
| PetscMath.AbsAgreesWithAbsInt | include/petscmath.h:153-234 | PetscAbs and PetscAbsInt agree on every integer. |
| PetscMath.AbsReal | include/petscmath.h:253 | The result is the argument or its negation, never negative, and zero only for zero. |
| PetscMath.AbsRealSymmetric | include/petscmath.h:253 | The magnitude ignores the sign and squares to the square of the argument. |
| PetscMath.Sign | include/petscmath.h:152 | 1, 0 or -1 exactly for positive, zero or negative arguments. |
| PetscMath.SignTimesAbs | include/petscmath.h:152-153 | Sign times magnitude recombines to the argument. |
| PetscMath.Sqr | include/petscmath.h:273 | The square is non-negative and zero only for zero. |
| PetscMath.SqrOfAbs | include/petscmath.h:273 | The square does not see the sign and dominates the magnitude. |
| PetscMath.SqrRange | include/petscmath.h:273-282 | The square of a magnitude up to 46340 lies within `PETSC_MIN_INT`..`PETSC_MAX_INT`, and the square of any larger magnitude exceeds `PETSC_MAX_INT`, so 46340 is exactly where the C product stops fitting the 32-bit range. |
| PetscMath.RangeClosedUnderNegation | include/petscmath.h:281-282 | The PETSc integer range is symmetric, so negating or taking the magnitude of an integer in range stays in range. |
| FileNames.FixFilename | src/sys/src/fileio/ghome.c:61-77 | A null name stays null. Otherwise the buffer keeps its length. Every foreign separator before the terminator becomes the host's separator, and every other character is unchanged. |
| FileNames.Strlen | src/sys/src/fileio/ghome.c:68 | The length is the position of the first NUL, and the whole buffer when there is none. |
| FileNames.FixedKeepsLength | src/sys/src/fileio/ghome.c:68-75 | The rewrite never moves the terminator. |
| FileNames.NoForeignSeparatorLeft | src/sys/src/fileio/ghome.c:69-75 | After the rewrite, no foreign separator remains in the name. |
| FileNames.FixedIdempotent | src/sys/src/fileio/ghome.c:61-77 | Fixing a fixed name changes nothing. |

## Left out

- Floating point: scalars are exact reals. Rounding, IEEE infinities and NaN from a zero pivot, and `PetscScalar` being complex in some builds are not modelled.
- `Dense.Quot`: a zero divisor yields 0, where C yields an infinity or NaN, because those are not real numbers. This reaches every unchecked division of the core: the BiCG step lengths `beta/betaold` and `beta/dpi` (`bicg.c:91`, `bicg.c:99`; with a zero `dpi` the model leaves x and the residuals unchanged), the reciprocal pivots of the AIJ and BDiag factors (`aijfact.c:154`, `bdfact.c:95`), and `Vectors.PointwiseDivide`. The properties that need a real quotient (`Dense.QuotTimes`, `LuFactors.LuIdentity`, `AijSolve.Solve`) are stated for nonzero divisors only.
- AijNumeric.LUFactorNumeric: requires every diagonal to be present in the symbolic pattern (`HasDiag`). The C code reads `pv[diag_offset[row]]` without checking, so a missing diagonal would read a neighbouring entry.
- AijSymbolic.LUFactorSymbolic: requires the input's columns to be distinct within each row (`DistinctColumns`), as an assembled AIJ matrix guarantees. A duplicate column would make the C loader link that column to itself and corrupt the list. It also requires `isrow` and `iscol`, when present, to be permutations of 0..n-1. `aijfact.c` never checks `isrow`, and it passes on whatever error `ISInvertPermutation` reports for `iscol` (line 21). `ISInvertPermutation` is not part of this model, so that error is not modelled.
- Vectors.SetValuesLocal: requires every local index to lie inside the mapping (`Translatable`). `vector.c` hands the indices to `ISLocalToGlobalMappingApply` (line 1225) without a range check of its own. That routine is not part of this model, so an out-of-range local index is not modelled.
- Vectors.SetValuesBlockedLocal: requires the same of the blocked mapping, for the same reason (line 1289).
- AijSolve.Solve: requires n >= 1, because the C code reads `b[r[0]]` unconditionally.
- The logging, memory accounting and object-parent calls of all files are left out, because they do not affect results.
- The ILU(k) fill levels of the AIJ format are not part of this model; only the plain LU of `aijfact.c` is.
- The `nb > 1` kernels of `bdfact.c` (the LINPACK routines `Linpack_DGEFA`/`Linpack_DGEDI`, declared at lines 69-70 and called at lines 137 and 139, with their block pivots and their dense block products) are left out. The model covers only `BlockMatMult_Private`, which those kernels call.
- The LAPACK `getrs` block solves of `MatSolveTrans_SeqBDiag`, `MatSolveAdd_SeqBDiag` and `MatSolveTransAdd_SeqBDiag`, and the `info` they return, are left out. Only their guards are modelled.
- The aliasing copy (`yy == zz`) and the work vector of the add solves are left out, because they concern pointer identity.
- BDiagFactor.AddGuardAsWritten: on a factored matrix with no rows (`bdlen[0] == 0`), no `LAgetrs` call runs, so the test of `info` at lines 318 and 345 also reads an unset value. The model returns `BlockSolves` there and does not represent that edge.
- The uninitialised `Vec tmp` of `MatSolveTransAdd_SeqBDiag` (read at the end whether or not it was created) is a pointer defect that the value model cannot express.
- BDiagFactor.Solve: requires a factored matrix to be square, as the factor routines ensure; an unfactored matrix is still refused with the "must be factored" error.
- BDiagFactor.FactorNumericIlu: stated under the hypothesis that the stored diagonal offsets strictly decrease; the factor routine does not check this order itself. Without it the "bad elimination column" error can fire, and `BDiagFactor.FactorNumeric` states exactly when.
- BiCG: the norms, `sqrt`, the monitor and the convergence test are a parameter (`Test`) of the model. The operator application and the preconditioner are parameters too. The model does not decide convergence.
- BiCG.LoopStopped: states the stopping test of the final iteration only, not that all earlier tests returned zero (that follows from the definition but is not restated).
- BiCG.UpdateKeepsResidual: needs the operator to be linear, which the C code assumes of any matrix.
- RootedLevels.RootLs: the caller's graph is taken as valid (adjacency indices in range), as the Fortran-derived ordering routines assume.
- Simplicializer: the sieve objects, the MPI rank and size, `cone`, `closure` and `addCone` are left out. The partition is modelled as the owner each leaf is given. The process count is a parameter, and only rank 0's loop is modelled. The debug viewer is left out.
- Vectors: the kernels behind the function tables (`ops->dot` and the rest) are modelled by their mathematical effect on the local array. Parallel reductions, the MPI layout, header checks on null pointers and object types, and logging are left out. The `VecGetArray` pointer arithmetic is modelled by the index maps it sets up.
- PetscMath.Sqr: the square is computed on unbounded integers. The C product `(a)*(a)` on a 32-bit `int` overflows once the magnitude exceeds 46340, where `Sqr`'s non-negativity no longer holds for the C value. `PetscMath.SqrRange` states exactly where the model and the 32-bit product part.
- PetscMath.SqrOfAbs: proved on unbounded integers. Past a magnitude of 46340 the 32-bit C product overflows, and neither of its ensures holds for the C value.
- Vectors.GetArray2d: the product `m*n` is computed on unbounded integers. The C `PetscInt` product could overflow for huge views.
- Vectors.PointwiseDivide: says nothing about entries where y is zero, where C yields an infinity or NaN; the model's quotient gives 0 there.
- A routine that fails part-way in C may already have changed some of its outputs. The model returns the error and drops the partial state.
- FileNames.FixFilename: the `PARCH_nt` build flag is a parameter (`nt`).
- `aijfact.c` never tests a pivot or a row length, grows the column buffer without a counter, and always runs full LU. Zero-pivot and empty-row errors, a reallocation counter, an identity fast path and ILU(k) are therefore not part of the model.

## Findings

| source | as written | input that shows it | evidently intended | confidence | as-written member | corrected member |
|---|---|---|---|---|---|---|
| src/mat/impls/bdiag/seq/bdfact.c:318 | `MatSolveAdd_SeqBDiag` (and `MatSolveTransAdd_SeqBDiag` at line 345) checks only that the main diagonal alone is stored. On an unfactored matrix it skips the block solves and then tests `info`, which nothing has set. | An unfactored matrix storing only the main diagonal. Depending on the stale `info`, the solve either returns x + z (the right-hand side copied into y at line 311, then z added at line 320) as if it had solved, or reports a sub-block error. | Refuse with "Matrix must be factored to solve", as `MatSolveTrans_SeqBDiag` does at line 291. | high; not executed | BDiagFactor.AddGuardAsWritten, BDiagFactor.AddUnfactoredAsWritten | BDiagFactor.TransAddGuard, BDiagFactor.AddGuardCorrected |
