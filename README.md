# Matrix multiplication engine, modelled in Dafny

`Matrix_Multiplication.c` multiplies an `r_1 x c_1` matrix by an `r_2 x c_2` matrix. Every
operand and the result are flat row-major buffers, with element (row, col) at index
`col + row*cols`. The file has four variants:

- `basic_multiplication` is the reference triple loop.
- `optimiced_multiplication` first copies `matrix_2` into a transposed scratch buffer
  `aux`. It then runs the reduction unrolled by two, peeling term 0 off when `r_2` is odd.
- `parallel_multiplication` is the basic loop with its row loop shared out by OpenMP when
  `r_1*c_1 > 100`.
- `optimiced_parallel_multiplication` shares out both the transposition and the row loop.
  Its reduction adds the terms in pairs `(k, k-1)`, and for odd `r_2` adds a tail term
  `r_2-1` at the end.

Every variant first checks `c_1 == r_2`; otherwise it prints an error and exits.

The model keeps the program's form. Each variant is a method over `array<int>` buffers,
built from one method per loop. Every loop carries its invariants. Each method is proved
against specification functions on sequences:

- `Product`, the dot products;
- `Transpose`;
- `AuxProduct`, what the unrolled loops compute from `aux` for a given read stride.

The order in which the unrolled loops add the terms of a cell is a function too
(`OptimizedOrder`, `OptimizedParallelOrder`). Lemmas prove two things about it: every
reduction index is visited exactly once, and adding in that order gives the
left-to-right sum.

OpenMP work sharing is modelled by a *schedule*, the order in which the iterations of a
shared row loop run. A schedule is any permutation of the rows. Below the `if` threshold
it must be the plain order 0, 1, 2, .... The threshold is computed in 32-bit unsigned
arithmetic, as in the program. The proofs hold for every schedule, so the result does not
depend on the threshold or on how rows are spread over threads.

Modules: `Layout` (the row-major index and its div/mod facts), `Sums` (left-to-right and
ordered sums), `Schedules` (the visiting orders of the unrolled loops), `MatrixSpec`
(product, transpose, what the optimised loops read), `Multiply` (the four multipliers)
and `Findings` (the stride of the transposed copy).

## Model

| member | source | states |
|---|---|---|
| Multiply.Basic | Matrix_Multiplication.c:6-23 | if c_1 != r_2, it reports the mismatch and leaves result unchanged; otherwise result becomes exactly the product, whatever it held before |
| Multiply.MultiplyRow | Matrix_Multiplication.c:10-16 | one row iteration of the basic loop (also lines 73-78): row r of result becomes row r of the product; no other cell changes |
| Multiply.BasicCell | Matrix_Multiplication.c:12-15 | reset to 0, then accumulating matrix_1[k + r*c_1]*matrix_2[c + k*c_2] for k < r_2 leaves the dot product of row r and column c in cell c + r*c_2, and no other cell changes (also lines 74-77) |
| Multiply.Parallel | Matrix_Multiplication.c:69-85 | for every schedule of the shared row loop, and on both sides of the r_1*c_1 > 100 threshold, result becomes exactly the product; on a mismatch nothing is written |
| Multiply.Threaded | Matrix_Multiplication.c:71 | the `if(r_1*c_1 > 100)` clause (also line 91), with r_1*c_1 taken mod 2^32: products of 100 or less stay on one thread, products between 101 and 2^32-1 are shared out, and a product of exactly 2^32 wraps to 0 and stays on one thread |
| Multiply.IsSchedule | Matrix_Multiplication.c:71-72 | a work-shared loop over n iterations (the `omp for` of lines 71, 93, 100 and 111) runs each iteration below n exactly once, in some order; so it has exactly n iterations, and the plain order 0, 1, ..., n-1 is one such order |
| Multiply.ScheduleCovers | Matrix_Multiplication.c:71-72 | a work-shared row loop runs only rows below r_1 and runs every one of them |
| Multiply.RowsCover | Matrix_Multiplication.c:71-78 | under any schedule of the shared row loop, every cell of the r_1*c_2 result lies in a row the loop runs |
| Multiply.TransposeRow | Matrix_Multiplication.c:31-34 | one iteration of the copy loop (also lines 95-97) sets aux[r + c*r_2] = matrix_2[c + r*c_2] for every c < c_2 and changes no other entry of aux |
| Multiply.TransposeInto | Matrix_Multiplication.c:30-35 | after the copy loop, with its rows run in any schedule (lines 93-98 share it out), aux is exactly the transpose of matrix_2 |
| Multiply.PairsUpLoop | Matrix_Multiplication.c:42-45 | the loop k = start, start+2, ... adds terms k and k+1 (read as matrix_1[k + r*c_1]*aux[k + c*c_2]) in the order PairsUp; start 1 is lines 53-56; no other cell changes |
| Multiply.PairsDownLoop | Matrix_Multiplication.c:104-107 | the loop k = 1, 3, ... adds term k and then term k-1, in the order PairsDown (also lines 115-118); no other cell changes |
| Multiply.OptimizedEvenCell | Matrix_Multiplication.c:41-45 | for even r_2, the cell ends as the sum of all r_2 terms read from row c of aux; no other cell changes |
| Multiply.OptimizedOddCell | Matrix_Multiplication.c:52-56 | for odd r_2, the peeled term 0 followed by the pairs leaves the sum of all r_2 terms in the cell; no other cell changes |
| Multiply.OptimizedParallelEvenCell | Matrix_Multiplication.c:103-107 | for even r_2, the (k, k-1) pairs leave the sum of all r_2 terms in the cell; no other cell changes |
| Multiply.OptimizedParallelOddCell | Matrix_Multiplication.c:114-119 | for odd r_2, the pairs followed by the tail term r_2-1 leave the sum of all r_2 terms in the cell; no other cell changes |
| Multiply.UnrolledRow | Matrix_Multiplication.c:40-46 | one row iteration of an optimised row loop (also lines 50-57, 102-108 and 113-120): row r becomes row r of AuxProduct with read stride c_2; no other row changes |
| Multiply.UnrolledRows | Matrix_Multiplication.c:39-58 | the optimised row loop, with its rows run in any schedule (lines 100-121 share it out), leaves result equal to AuxProduct with read stride c_2 |
| Multiply.Optimized | Matrix_Multiplication.c:26-66 | on a mismatch result is unchanged; otherwise result becomes OptimizedProduct (the transpose read with stride c_2, as written), and equals the basic result when r_2 == c_2 or c_2 <= 1, for even and odd r_2 |
| Multiply.OptimizedParallel | Matrix_Multiplication.c:88-130 | the same as Optimized, for every schedule of both shared loops and on both sides of the threshold |
| Schedules.OptimizedVisitsEachOnce | Matrix_Multiplication.c:38-58 | the order of optimiced_multiplication adds each index below r_2 exactly once and no other, for even and odd r_2 |
| Schedules.OptimizedParallelVisitsEachOnce | Matrix_Multiplication.c:99-122 | the (k, k-1) pairs plus the odd tail add each index below r_2 exactly once and no other |
| Schedules.PairsUpOnce | Matrix_Multiplication.c:42-45 | j pairs from start visit each of start .. start+2j-1 once and nothing else |
| Schedules.PairsDownOnce | Matrix_Multiplication.c:104-107 | j (k, k-1) pairs visit each of 0 .. 2j-1 once and nothing else; for odd r_2 they stop short of r_2-1 |
| Schedules.OptimizedOrderIsAscending | Matrix_Multiplication.c:38-58 | the unrolled order of optimiced_multiplication is exactly 0, 1, ..., r_2-1 |
| Schedules.PairsUpStep | Matrix_Multiplication.c:43-44 | one iteration of an upward pair loop adds terms k and k+1 to the running sum |
| Schedules.PairsDownStep | Matrix_Multiplication.c:105-106 | one iteration of the (k, k-1) loop adds terms k and k-1 to the running sum |
| Schedules.PairsDownSum | Matrix_Multiplication.c:104-107 | j (k, k-1) pairs sum to the left-to-right sum of the first 2j terms |
| Schedules.PeeledPairsSum | Matrix_Multiplication.c:52-56 | for odd r_2, term 0 assigned first and the pairs from 1 added after it give the left-to-right sum of all r_2 terms |
| Schedules.OptimizedOrderSum | Matrix_Multiplication.c:38-58 | adding the terms in the order of optimiced_multiplication gives their sum |
| Schedules.OptimizedParallelOrderSum | Matrix_Multiplication.c:99-122 | adding the terms in the order of optimiced_parallel_multiplication gives their sum |
| MatrixSpec.TermsAt | Matrix_Multiplication.c:14 | every read of matrix_1 and matrix_2 in the basic loop is in bounds, and term k is matrix_1[k + r*c_1]*matrix_2[c + k*c_2] |
| MatrixSpec.ProductAt | Matrix_Multiplication.c:9-17 | cell c + r*c_2 of the product is the dot product of row r and column c, and lies inside the r_1*c_2 result |
| MatrixSpec.TransposeAt | Matrix_Multiplication.c:33 | the transpose holds matrix_2[c + r*c_2] at r + c*r_2, and both indices are in bounds |
| MatrixSpec.TransposeTwice | Matrix_Multiplication.c:32-33 | "each row is a column of matrix_2": transposing the copy back gives matrix_2 |
| MatrixSpec.AuxTermAt | Matrix_Multiplication.c:43-44 | when c_2 <= r_2, each read matrix_1[k + r*c_1] and aux[k + c*c_2] with k < r_2 is in bounds, and their product is term k of the cell |
| MatrixSpec.AuxProductAt | Matrix_Multiplication.c:41-45 | cell c + r*c_2 of AuxProduct is the sum of the terms read from row c of aux |
| MatrixSpec.TransposedProduct | Matrix_Multiplication.c:33 | reading the transposed copy with the stride it is written with (r_2) gives the product, for every shape of matrix_2 |
| MatrixSpec.OptimizedProductSquare | Matrix_Multiplication.c:43-44 | with r_2 == c_2 the stride c_2 is the right one: OptimizedProduct equals the product |
| MatrixSpec.OptimizedProductColumn | Matrix_Multiplication.c:43-44 | with at most one column in matrix_2 only row 0 of aux is read, where the stride does not matter: OptimizedProduct equals the product |
| MatrixSpec.IdentityProduct | Matrix_Multiplication.c:9-17 | multiplying by the identity matrix returns the left operand |
| MatrixSpec.ExampleSquare | Matrix_Multiplication.c:9-17 | [[1,2],[3,4]] times [[5,6],[7,8]] is [[19,22],[43,50]] |
| MatrixSpec.ExampleRowTimesColumn | Matrix_Multiplication.c:9-17 | the row [1,2,3] times the column [4,5,6] is [32] |
| Layout.IdxInBounds | Matrix_Multiplication.c:12 | an in-range (row, col) pair indexes inside a rows*cols buffer |
| Layout.IdxDivMod | Matrix_Multiplication.c:12 | the index col + row*cols gives back row and col by division, so distinct cells never share an index |
| Layout.IdxSplit | Matrix_Multiplication.c:12 | every index of a rows*cols buffer belongs to exactly one in-range (row, col) pair |
| Layout.StrideReadInBounds | Matrix_Multiplication.c:43-44 | the reads aux[k + c*c_2] stay inside aux when c_2 <= r_2 |
| Findings.LiteralStrideMisreads | Matrix_Multiplication.c:43-44 | for [1 1 1] times [[1,2],[3,4],[5,6]] the product is [9 12], but the optimised multipliers compute [9 11] |
| Findings.LiteralStrideOverruns | Matrix_Multiplication.c:43-44 | when c_2 > r_2, the last read of the last cell lies beyond the r_2*c_2 entries of aux |

## Left out

- OpenMP threads, the `parallel`/`for` pragmas and their barriers are not modelled as
  concurrency. A shared loop is a sequential loop whose iterations run in a caller-chosen
  schedule, and a barrier is the sequencing of two statements. Data races cannot arise
  because the iterations write disjoint cells; the model does not state this separately.
- `double` arithmetic: elements are mathematical integers. The model therefore ignores
  rounding, and its results do not depend on the order in which terms are added.
- `fprintf` and `exit(-1)` on a dimension mismatch become the `DimensionMismatch` outcome,
  returned before anything is written.
- `malloc`/`free` of `aux`: `aux` is a fresh local array. The allocation the program makes
  before the dimension check, and leaks on the error path, is not modelled.
- The timing harness (`omp_get_wtime`, averaging, `printf`), `try_all_functions`,
  `try_single_function` and `main` (argument parsing and filling the operands) are outside
  the engine and are not part of this model.
- 32-bit `unsigned int` and `int` index arithmetic: dimensions and indices are unbounded
  naturals. Wrap-around is modelled only in the OpenMP threshold `r_1*c_1 > 100`
  (`Multiply.Threaded`).
- Aliasing of `result` with an operand is excluded by the preconditions; the program never
  passes overlapping buffers.
- Multiply.Optimized: requires c_2 <= r_2 (or an empty result or reduction) when the
  dimensions agree. For c_2 > r_2 the program reads beyond `aux`, which is undefined
  behaviour in C (Findings.LiteralStrideOverruns).
- Multiply.OptimizedParallel: the same restriction as Multiply.Optimized, for the same
  reason.

## Findings

| source | as written | input that shows it | evidently intended | confidence | as-written member | corrected member |
|---|---|---|---|---|---|---|
| Matrix_Multiplication.c:43-44 | `aux` is written as the transpose with rows of length `r_2` (lines 33, 96), but read as `aux[k + c*c_2]` (lines 43-44, 52, 54-55, 105-106, 116-117, 119) | matrix_1 = [1 1 1] with r_1 = 1, c_1 = 3; matrix_2 = [[1,2],[3,4],[5,6]] with r_2 = 3, c_2 = 2. The product is [9 12] but both optimised variants give [9 11]. Misreads are possible only when 1 < c_2 < r_2 (the strides agree when r_2 == c_2, and row 0 alone is read when c_2 <= 1); with c_2 > r_2 the reads overrun `aux` | read `aux[k + c*r_2]`, the stride the copy is written with | not executed; the program's own driver only multiplies square matrices, where the two strides coincide | Findings.LiteralStrideMisreads | MatrixSpec.TransposedProduct |
