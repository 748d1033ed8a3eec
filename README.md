# SpoofOuterProduct, modelled in Dafny

SystemML's code generator compiles outer-product-shaped expressions over a
matrix A (m x n) and two factor matrices U (m x k) and V (n x k) into
subclasses of `SpoofOuterProduct`. The generated subclass supplies only
two kernels: `genexecDense`, which adds a contribution into a k-wide slice
of a dense output, and `genexecCellwise`, which returns one value per
non-zero cell of A. The base class owns everything else, and that is what
this project models:

- the four iterators, each blocked into row-block x column-block tiles:
  - `executeDense` and `executeCellwiseDense` read a dense A with a fixed
    16 x 16 tile;
  - `executeSparse` and `executeCellwiseSparse` read a sparse A with a
    block size derived from `8*m*n/nnz`, keeping a per-row cursor (`curk`)
    into the sorted column indexes;
- the four `execute` overloads:
  - the sequential and parallel scalar forms (aggregate and cellwise
    value);
  - the sequential and parallel matrix-output forms (Left = n x k, Right =
    m x k, Cellwise = A's shape);
  - with their argument check, early exit on an empty operand, output
    reset and allocation, and non-zero bookkeeping;
- the two parallel task bodies, `ParExecTask.call` and
  `ParOuterProdAggTask.call`, and the split into task blocks `blklen = ceil(len/P)`.

## How the model is built

- **Inputs and buffers.** The inputs (A in dense or sparse format) are
  immutable values. The buffers the iterators write (`c`, `curk`) are
  Dafny arrays. The output `MatrixBlock` is a class whose methods update
  its fields (`OutBlocks.OutBlock`).
- **Kernels.** The two generated kernels are function-typed parameters.
  - `VectorKernel` gives the amount a kernel call adds at offset t of its
    k-wide output slice.
  - `CellKernel` maps (value, U offset, V offset, row, column) to a value.
- **Iterators.** Every iterator is a method with loops, proved equal to a
  fold over a ghost *visit trace*. A visit trace is the sequence of
  (row, column, storage position, value) entries of A that the loops
  reach, in loop order. The traces are then proved to contain every
  non-zero cell (dense A) or stored entry (sparse A) of the range exactly
  once and nothing else. As a result, the output does not depend on the
  tile sizes.
- **Parallel methods.** These run their tasks one after another in task
  order. They are proved to produce what the sequential method produces
  over the whole of A, up to the order of sparse appends.
- **Failures.** Java exceptions become `Outcomes.Result` errors:
  - a bad argument list or missing output;
  - the aggregate type on a matrix path;
  - integer division by zero in a block-size formula;
  - a negative cursor array;
  - an out-of-bounds write;
  - a thread pool of size below one.

  A zero block size over a non-empty range makes the Java loop
  `bi += blocksize` spin forever. The model reports this as
  `NonTerminating` instead.

Behaviour of the source that the model keeps as written:

- **Block-size formula.**
  - `(int)(8L*m*n/nnz)` truncates to 32 bits and can wrap; `BlockSizeIWraps`
    exhibits a wrap to 0.
  - `nnz == 0` divides by zero.
- **Cellwise mode over a sparse A.**
  - The iterator ignores the column range it is given.
  - It writes at the entry's storage position, not at its column.
- **Non-zero counts.** The sequential scalar path (line 91), the
  sequential matrix path and `ParExecTask` pass `(int) a.getNonZeros()`,
  while `ParOuterProdAggTask` passes the raw long count.
- **Thread pools.** The parallel scalar path sizes its pool by the rank k,
  not by the thread count.
- **Nothing to split.** The parallel methods create no task when the
  range they split is empty, so they return normally where the sequential
  method may fail:
  - the matrix path with the aggregate type (`Properties.ParallelOutcome`);
  - the matrix path in Left mode over a sparse A with no columns and a
    non-empty U: the sequential `executeSparse` divides by the zero
    non-zero count (`Properties.ParallelOutcome`);
  - the scalar path over a sparse A with no rows and a non-zero count of
    0: the parallel result is 0 (`Executor.ExecuteScalarParallel`), while
    the sequential `executeCellwiseSparse` divides by zero
    (`Executor.ExecuteScalar`).

## Model

Paths are relative to the repository root; all lines are in
`src/main/java/org/apache/sysml/runtime/codegen/SpoofOuterProduct.java`.

| member | source | states |
|---|---|---|
| Blocking.ToInt32 | src/main/java/org/apache/sysml/runtime/codegen/SpoofOuterProduct.java:335 | the Java `(int)` cast: the result is a 32-bit int congruent to the input modulo 2^32, and equal to it when it already fits |
| Blocking.BlockSizeI | src/main/java/org/apache/sysml/runtime/codegen/SpoofOuterProduct.java:335 | `blocksizeI` fails with a division by zero exactly when nnz is 0, and is otherwise a 32-bit int |
| Blocking.BlockSizeIBounds | src/main/java/org/apache/sysml/runtime/codegen/SpoofOuterProduct.java:335 | when nothing wraps, `blocksizeI` is the floor of 8mn/nnz, is at least 8, and is the largest size whose product with nnz stays within 8mn |
| Blocking.BlockSizeIWraps | src/main/java/org/apache/sysml/runtime/codegen/SpoofOuterProduct.java:335 | a 65536 x 65536 A with one non-zero gets `blocksizeI` 0 through the 32-bit truncation |
| Blocking.BlockSizeJ | src/main/java/org/apache/sysml/runtime/codegen/SpoofOuterProduct.java:336 | outside Left mode `blocksizeJ` equals `blocksizeI`; in Left mode it fails exactly when the int `k*8` is 0, and is at least 8 and at most `blocksizeI` when that is at least 8 |
| Blocking.BlockSizeJLeft | src/main/java/org/apache/sysml/runtime/codegen/SpoofOuterProduct.java:336 | in Left mode with a k that does not wrap, `blocksizeJ` is max(8, min(L2/(8k), blocksizeI)) |
| Blocking.SparseBlockSizes | src/main/java/org/apache/sysml/runtime/codegen/SpoofOuterProduct.java:335-339 | the tile sizes `executeSparse` iterates with are positive over a non-empty row range; the column size is at least 8 in Left mode and equals the row size otherwise |
| Blocking.CellwiseBlockSize | src/main/java/org/apache/sysml/runtime/codegen/SpoofOuterProduct.java:374-375 | the block size of `executeCellwiseSparse` is positive over a non-empty row range, and it fails only by division by zero, a negative cursor array, or a zero size that never advances |
| Blocking.BlockLength | src/main/java/org/apache/sysml/runtime/codegen/SpoofOuterProduct.java:255 | `blklen` is the exact ceiling of len/P: P-1 blocks fall short of len and P blocks cover it |
| Blocking.Partition | src/main/java/org/apache/sysml/runtime/codegen/SpoofOuterProduct.java:254-263 | the loop that creates the tasks yields the block list `PartitionBlocks` describes |
| Blocking.PartitionSpec | src/main/java/org/apache/sysml/runtime/codegen/SpoofOuterProduct.java:255-257 | there are at most P blocks; block t is [t*blklen, min((t+1)*blklen, len)); every block is non-empty; consecutive blocks touch; they start at 0 and end at len; no block exists exactly when len is 0 |
| Blocking.PartitionCovers | src/main/java/org/apache/sysml/runtime/codegen/SpoofOuterProduct.java:259-262 | every index below len lies in block index/blklen, all blocks lie inside [0, len), and earlier blocks lie wholly below later ones |
| SparseBlocks.PosFIndexGTE | src/main/java/org/apache/sysml/runtime/codegen/SpoofOuterProduct.java:344 | `posFIndexGTE` is -1 exactly when every stored column is below x; otherwise it is the first offset whose column is at least x |
| Tiling.TiledFromSpec | src/main/java/org/apache/sysml/runtime/codegen/SpoofOuterProduct.java:286-298 | the blocked row-block/column-block order visits each visit of A in the range exactly once and nothing else, whatever the tile sizes |
| Tasks.VisitsSpec | src/main/java/org/apache/sysml/runtime/codegen/SpoofOuterProduct.java:339-369 | with positive tile sizes, an iterator's trace is duplicate-free and holds exactly the non-zero cells or stored entries of its range |
| Folds.RunTiledCallsSpec | src/main/java/org/apache/sysml/runtime/codegen/SpoofOuterProduct.java:286-298 | running the tiles' kernel calls loop by loop equals applying the calls of the whole tiled trace in order |
| Folds.RunTiledCellsSpec | src/main/java/org/apache/sysml/runtime/codegen/SpoofOuterProduct.java:309-324 | running the tiles' cellwise writes loop by loop equals applying the writes of the whole tiled trace in order |
| Folds.RunTiledAppendsSpec | src/main/java/org/apache/sysml/runtime/codegen/SpoofOuterProduct.java:408-429 | running the tiles' appends loop by loop equals appending for the whole tiled trace in order |
| Kernels.GenexecDense | src/main/java/org/apache/sysml/runtime/codegen/SpoofOuterProduct.java:433 | a kernel call changes only its k-wide output slice starting at `ci`, adding the kernel's contribution at each offset |
| Kernels.ApplyCallsAt | src/main/java/org/apache/sysml/runtime/codegen/SpoofOuterProduct.java:295-296 | after a trace of kernel calls, each output cell is its old value plus the sum of every visit's contribution there |
| Kernels.ApplyCallsPermutation | src/main/java/org/apache/sysml/runtime/codegen/SpoofOuterProduct.java:292-297 | the order in which the vector-kernel calls run does not change the dense output |
| Kernels.ApplyCellsAggregate | src/main/java/org/apache/sysml/runtime/codegen/SpoofOuterProduct.java:322 | outside Cellwise mode, the scalar iterators add the sum of the kernel over the trace to cell 0 and change nothing else |
| Kernels.ApplyCellsAt | src/main/java/org/apache/sysml/runtime/codegen/SpoofOuterProduct.java:320 | in Cellwise mode, each visited storage position holds its visit's kernel value and every other position keeps its old value |
| Kernels.AppendsMembers | src/main/java/org/apache/sysml/runtime/codegen/SpoofOuterProduct.java:423-424 | the append log has one entry per visit: each visit's (row, storage position, kernel value) is in it, and it holds nothing else |
| Outputs.SparseOut.AppendValue | src/main/java/org/apache/sysml/runtime/codegen/SpoofOuterProduct.java:423 | `append` adds exactly one entry at the end of the sparse output |
| DenseIteration.DenseVisits | src/main/java/org/apache/sysml/runtime/codegen/SpoofOuterProduct.java:292-294 | the dense iterators visit each non-zero cell of the range once and nothing else |
| DenseIteration.ExecuteDense | src/main/java/org/apache/sysml/runtime/codegen/SpoofOuterProduct.java:277-299 | the output is the old output after a kernel call for each visit of A in tile order, with target index `vix` (Left) or `uix` (Right) |
| DenseIteration.DenseRowBlocks | src/main/java/org/apache/sysml/runtime/codegen/SpoofOuterProduct.java:286-298 | the row-block loop leaves the output the fold over its row blocks gives |
| DenseIteration.DenseBandCalls | src/main/java/org/apache/sysml/runtime/codegen/SpoofOuterProduct.java:287-298 | the column-block loop of one row block leaves the output the fold over its tiles gives |
| DenseIteration.DenseTileCalls | src/main/java/org/apache/sysml/runtime/codegen/SpoofOuterProduct.java:292-297 | the row loop of one tile leaves the output the fold over its rows gives |
| DenseIteration.DenseRowCalls | src/main/java/org/apache/sysml/runtime/codegen/SpoofOuterProduct.java:293-297 | the column loop of one row calls the kernel for each non-zero cell, left to right |
| DenseIteration.ExecuteCellwiseDense | src/main/java/org/apache/sysml/runtime/codegen/SpoofOuterProduct.java:301-325 | the output is the old output after each visit's kernel value is written at `ix+j` (Cellwise) or added into cell 0 (otherwise), in tile order |
| DenseIteration.DenseCellBlocks | src/main/java/org/apache/sysml/runtime/codegen/SpoofOuterProduct.java:309-324 | the row-block loop leaves the output the fold over its row blocks gives |
| DenseIteration.DenseCellBand | src/main/java/org/apache/sysml/runtime/codegen/SpoofOuterProduct.java:310-324 | the column-block loop leaves the output the fold over its tiles gives |
| DenseIteration.DenseCellTile | src/main/java/org/apache/sysml/runtime/codegen/SpoofOuterProduct.java:315-323 | the row loop of a tile leaves the output the fold over its rows gives |
| DenseIteration.DenseCellRow | src/main/java/org/apache/sysml/runtime/codegen/SpoofOuterProduct.java:316-323 | the column loop of one row writes or adds the kernel value of each non-zero cell |
| DenseIteration.DenseCellWrite | src/main/java/org/apache/sysml/runtime/codegen/SpoofOuterProduct.java:317-322 | one visit writes its kernel value at its position, or adds it into cell 0 |
| SparseIteration.ExecuteSparse | src/main/java/org/apache/sysml/runtime/codegen/SpoofOuterProduct.java:327-370 | a failing block size fails and leaves the output untouched; otherwise the output is the old output after a kernel call for each stored entry of the range in tile order |
| SparseIteration.SparseRowBlocks | src/main/java/org/apache/sysml/runtime/codegen/SpoofOuterProduct.java:339-369 | the row-block loop, with the cursors reset per row block, leaves the output the fold over its row blocks gives |
| SparseIteration.SparseRowFronts | src/main/java/org/apache/sysml/runtime/codegen/SpoofOuterProduct.java:343-346 | each row's cursor starts at its first stored column of at least `cl` |
| SparseIteration.SparseBandCalls | src/main/java/org/apache/sysml/runtime/codegen/SpoofOuterProduct.java:349-368 | the column-block loop leaves the output the fold over its tiles gives |
| SparseIteration.SparseTileCalls | src/main/java/org/apache/sysml/runtime/codegen/SpoofOuterProduct.java:353-367 | one tile runs the kernel for each entry of its rows in the tile's column range, and leaves every cursor at the first column of at least `bjmin` |
| SparseIteration.SparseRowStep | src/main/java/org/apache/sysml/runtime/codegen/SpoofOuterProduct.java:354-366 | one row of a tile skips an empty row, otherwise runs its entries in the column range, advances only its own cursor, and never moves it back |
| SparseIteration.SparseRowCalls | src/main/java/org/apache/sysml/runtime/codegen/SpoofOuterProduct.java:361-366 | the entry loop stops at the first column of at least `bjmin`, having called the kernel for each entry in between |
| SparseCellwiseIteration.ExecuteCellwiseSparse | src/main/java/org/apache/sysml/runtime/codegen/SpoofOuterProduct.java:372-431 | a failing block size fails and changes nothing; otherwise a dense output gets each stored entry's value at its storage position (Cellwise) or summed into cell 0, and a sparse output gets one append per stored entry, in tile order |
| SparseCellwiseIteration.ResetCursors | src/main/java/org/apache/sysml/runtime/codegen/SpoofOuterProduct.java:383 | `Arrays.fill(curk, 0)` zeroes every cursor, which places each row's cursor at column 0 |
| SparseCellwiseIteration.CellDenseRowBlocks | src/main/java/org/apache/sysml/runtime/codegen/SpoofOuterProduct.java:380-403 | the dense-output row-block loop leaves the output the fold over its row blocks gives |
| SparseCellwiseIteration.CellDenseBandCalls | src/main/java/org/apache/sysml/runtime/codegen/SpoofOuterProduct.java:385-402 | the column-block loop over all n columns leaves the output the fold over its tiles gives |
| SparseCellwiseIteration.CellDenseTileCalls | src/main/java/org/apache/sysml/runtime/codegen/SpoofOuterProduct.java:387-401 | one tile writes its entries' values and leaves every cursor at the first column of at least `bjmin` |
| SparseCellwiseIteration.CellDenseRowStep | src/main/java/org/apache/sysml/runtime/codegen/SpoofOuterProduct.java:388-400 | one row of a tile writes its entries in range and advances only its own cursor |
| SparseCellwiseIteration.CellDenseRowCalls | src/main/java/org/apache/sysml/runtime/codegen/SpoofOuterProduct.java:393-400 | the entry loop writes `c[index]` or adds into `c[0]` for each entry below `bjmin`, and stops at the first entry not below it |
| SparseCellwiseIteration.CellAppendRowBlocks | src/main/java/org/apache/sysml/runtime/codegen/SpoofOuterProduct.java:408-429 | the sparse-output row-block loop leaves the append log the fold over its row blocks gives |
| SparseCellwiseIteration.CellAppendBandCalls | src/main/java/org/apache/sysml/runtime/codegen/SpoofOuterProduct.java:413-428 | the column-block loop leaves the append log the fold over its tiles gives |
| SparseCellwiseIteration.CellAppendTileCalls | src/main/java/org/apache/sysml/runtime/codegen/SpoofOuterProduct.java:415-427 | one tile appends its entries and leaves every cursor at the first column of at least `bjmin` |
| SparseCellwiseIteration.CellAppendRowStep | src/main/java/org/apache/sysml/runtime/codegen/SpoofOuterProduct.java:416-426 | one row of a tile appends its entries in range and advances only its own cursor |
| SparseCellwiseIteration.CellAppendRowCalls | src/main/java/org/apache/sysml/runtime/codegen/SpoofOuterProduct.java:421-426 | the entry loop appends (row, storage position, value) for each entry below `bjmin` |
| OutBlocks.OutBlock.constructor | src/main/java/org/apache/sysml/runtime/codegen/SpoofOuterProduct.java:85 | a new block has the given shape and format, no contents and no recorded non-zeros |
| OutBlocks.OutBlock.Reset | src/main/java/org/apache/sysml/runtime/codegen/SpoofOuterProduct.java:153 | `reset` sets the shape and format and clears the non-zero count |
| OutBlocks.OutBlock.AllocateDenseBlock | src/main/java/org/apache/sysml/runtime/codegen/SpoofOuterProduct.java:163 | the block gets a fresh all-zero dense buffer of rows*cols cells and dense format |
| OutBlocks.OutBlock.AllocateDenseOrSparseBlock | src/main/java/org/apache/sysml/runtime/codegen/SpoofOuterProduct.java:154 | the block gets empty storage of its own format: an empty sparse block, or a zero dense buffer of rows*cols |
| OutBlocks.OutBlock.CountNonZeros | src/main/java/org/apache/sysml/runtime/codegen/SpoofOuterProduct.java:494 | `recomputeNonZeros(rl, ru-1, 0, cols-1)` counts the non-zero values in rows [rl, ru): dense cells, or appended values |
| OutBlocks.OutBlock.RecomputeNonZeros | src/main/java/org/apache/sysml/runtime/codegen/SpoofOuterProduct.java:200 | the recorded count becomes the number of non-zero values of the whole block, and nothing else changes |
| OutBlocks.NonZerosSplit | src/main/java/org/apache/sysml/runtime/codegen/SpoofOuterProduct.java:266-267 | counts over adjacent row ranges add up to the count over their union |
| Tasks.RunIterator | src/main/java/org/apache/sysml/runtime/codegen/SpoofOuterProduct.java:179-197 | the switch fails in the aggregate mode or on a failing block size with the output untouched; otherwise the output is the emission of the chosen iterator's visit trace |
| Tasks.ExecTask | src/main/java/org/apache/sysml/runtime/codegen/SpoofOuterProduct.java:471-495 | `ParExecTask.call` does what the switch does over its slice, and returns the number of non-zeros of its output rows (its columns in Left mode) |
| Tasks.ScalarCell | src/main/java/org/apache/sysml/runtime/codegen/SpoofOuterProduct.java:532-538 | a 1x1 block starting at 0 ends with the trace's scalar: the sum of the kernel, or in Cellwise mode the last value written |
| Tasks.RunScalar | src/main/java/org/apache/sysml/runtime/codegen/SpoofOuterProduct.java:530-539 | `ParOuterProdAggTask.call` and the scalar body return the scalar outcome of their slice: the block-size failure, an out-of-bounds Cellwise write, or the cell's value |
| Parallel.PartitionedTraces | src/main/java/org/apache/sysml/runtime/codegen/SpoofOuterProduct.java:251-263 | when each task visits exactly A's visits in its block, all the tasks together visit every visit of A exactly once |
| Parallel.EmitSameMembers | src/main/java/org/apache/sysml/runtime/codegen/SpoofOuterProduct.java:264 | two duplicate-free traces with the same visits give the same dense output, and the same appends up to order |
| Parallel.EmitKeepsCountsBelow | src/main/java/org/apache/sysml/runtime/codegen/SpoofOuterProduct.java:492-494 | a task that writes only rows from lo on leaves the non-zero count of every row range below lo unchanged |
| Executor.ExecuteScalar | src/main/java/org/apache/sysml/runtime/codegen/SpoofOuterProduct.java:64-93 | a null or short input list fails; otherwise the result is the scalar outcome over all of A with the int-cast non-zero count |
| Executor.ScalarIsSumOverVisits | src/main/java/org/apache/sysml/runtime/codegen/SpoofOuterProduct.java:88-92 | outside Cellwise mode, the scalar is the sum of the kernel over the visits of A, each counted once, in any order |
| Executor.ExecuteScalarParallel | src/main/java/org/apache/sysml/runtime/codegen/SpoofOuterProduct.java:96-133 | bad inputs fail; a pool of rank k below 1 fails; otherwise the result is the values of the tasks added in task order, stopping at the first failed task |
| Executor.RunScalarTasks | src/main/java/org/apache/sysml/runtime/codegen/SpoofOuterProduct.java:123 | `invokeAll` yields each task's result, in task order |
| Executor.AddUp | src/main/java/org/apache/sysml/runtime/codegen/SpoofOuterProduct.java:125-126 | the summing loop returns the sum of the values of the tasks, or the first failure |
| Executor.ParallelScalarSum | src/main/java/org/apache/sysml/runtime/codegen/SpoofOuterProduct.java:119-126 | outside Cellwise mode, splitting A's rows among P >= 1 tasks and adding their results gives the sequential result over all of A, failure included |
| Executor.Allocate | src/main/java/org/apache/sysml/runtime/codegen/SpoofOuterProduct.java:150-164 | the output gets shape n x k (Left), m x k (Right), A's shape and format (Cellwise), or keeps its shape (aggregate); it holds zeros and records no non-zero |
| Executor.ExecuteMatrix | src/main/java/org/apache/sysml/runtime/codegen/SpoofOuterProduct.java:135-202 | bad arguments fail; an empty operand returns at once without touching the output; the aggregate mode fails; otherwise the output has the mode's shape, holds the emission of all of A's visits, and records its true non-zero count |
| Executor.ExecTraceSpec | src/main/java/org/apache/sysml/runtime/codegen/SpoofOuterProduct.java:254-262 | a task visits only visits of A inside its block; with positive tile sizes it visits each of them exactly once |
| Executor.EarlierCountsKept | src/main/java/org/apache/sysml/runtime/codegen/SpoofOuterProduct.java:492-494 | a later task leaves the non-zero counts of the earlier tasks' row ranges as they were |
| Executor.RunExecTask | src/main/java/org/apache/sysml/runtime/codegen/SpoofOuterProduct.java:471-495 | one task emits its trace into the shared output, reports its outcome, returns the count of its own rows, and keeps the earlier tasks' counts |
| Executor.RunExecTasks | src/main/java/org/apache/sysml/runtime/codegen/SpoofOuterProduct.java:264 | running all tasks in order leaves the output holding the emission of their concatenated traces; every result reports its task's outcome, and every successful result is the final count of its task's rows |
| Executor.FirstFailureAt | src/main/java/org/apache/sysml/runtime/codegen/SpoofOuterProduct.java:266-271 | the first result that is not a count carries the first task failure; if none, all tasks succeeded |
| Executor.AddCounts | src/main/java/org/apache/sysml/runtime/codegen/SpoofOuterProduct.java:266-271 | the `setNonZeros` loop returns the first task failure, or adds the non-zero count of the whole split range |
| Executor.ExecuteMatrixParallel | src/main/java/org/apache/sysml/runtime/codegen/SpoofOuterProduct.java:205-275 | bad arguments fail; an empty operand returns at once; a pool below one thread fails; otherwise the output holds the emission of all tasks' visits and the result is the first task failure; on success it records its true non-zero count |
| Properties.ParallelOutcome | src/main/java/org/apache/sysml/runtime/codegen/SpoofOuterProduct.java:488-489 | the parallel matrix path fails exactly as one task over the whole range would; with nothing to split it succeeds, even in the aggregate mode |
| Properties.ParallelMatchesSequential | src/main/java/org/apache/sysml/runtime/codegen/SpoofOuterProduct.java:251-264 | the tasks of a split together write the same dense output as one iteration over all of A, and the same appends up to order |
| Tiling.TiledFromIncreasing | src/main/java/org/apache/sysml/runtime/codegen/SpoofOuterProduct.java:340-366 | the blocked traversal visits the entries of each row in strictly increasing column order, whatever the tile sizes: a row lies in one row block, whose column blocks come left to right |
| Guides.PositionsFollowColumns | src/main/java/org/apache/sysml/runtime/codegen/SpoofOuterProduct.java:361-364 | for visits of A, increasing column order within a row is increasing storage order: `i*n+j` for a dense A, the sorted index array for a sparse A |
| Tasks.VisitsIncreasing | src/main/java/org/apache/sysml/runtime/codegen/SpoofOuterProduct.java:286-297 | every iterator's trace visits each row of A in strictly increasing column and storage order |
| SparseIteration.SparseEntriesIncreasing | src/main/java/org/apache/sysml/runtime/codegen/SpoofOuterProduct.java:340-366 | `executeSparse` and `executeCellwiseSparse` visit each row's stored entries in strictly increasing column and storage order |
| Kernels.AppendsIncreasing | src/main/java/org/apache/sysml/runtime/codegen/SpoofOuterProduct.java:421-424 | a trace in increasing storage order within each row leaves appends whose column argument strictly increases within each row |
| Properties.CallsOutputIsSum | src/main/java/org/apache/sysml/runtime/codegen/SpoofOuterProduct.java:292-297 | in Left and Right mode, each output cell is the sum over A's visits, in any order, of what each visit's kernel call adds there |
| Properties.CellwiseDenseOutput | src/main/java/org/apache/sysml/runtime/codegen/SpoofOuterProduct.java:317-320 | in Cellwise mode over a dense A, the output has A's shape and holds the kernel value at each non-zero of A and 0 elsewhere |
| Properties.CellwiseSparseOutput | src/main/java/org/apache/sysml/runtime/codegen/SpoofOuterProduct.java:408-429 | in Cellwise mode over a sparse A, there is one append per stored entry, carrying its row, storage position and kernel value, and no other append; within each row the appended positions strictly increase |

## Left out

- Threads: the parallel methods run their tasks one after another in task order. Interleavings, the shared sparse output under concurrent appends, and pool shutdown are not modelled.
- The generated kernels `genexecDense` and `genexecCellwise` are parameters. Their arithmetic on U, V, the side inputs and the scalars is not modelled.
- `prepInputMatrices` and `prepInputScalars` are not modelled. U and V contribute only their column count k.
- Doubles are Dafny reals. Rounding, NaN and the order-dependence of floating-point sums are not modelled.
- OutBlocks.OutBlock.CountNonZeros: counts non-zero values in both formats, and on a sparse output does not restrict the appended column (a storage position, which can reach `cols` or more when A's rows share one array) to below `cols`. Whether `append` stores a zero value and how the sparse `recomputeNonZeros(rl, ru-1, 0, cols-1)` counts are decided by `MatrixBlock`, which is not part of this model. So a Cellwise output's count is not stated to equal A's non-zero count.
- `MatrixBlock` is not part of this model. `examSparsity` (format conversion after the run), storage reuse by `reset` and `allocate*`, and the internals of `recomputeNonZeros` are left out. `isEmptyBlock` is read as a recorded count of 0.
- `Tagged.java` is not part of this model.
- The 32-bit overflow of `m*n`, of `i*blklen` and of the output sizes is not modelled. Only the casts and divisions of the block-size formulas are.
- A zero block size over a non-empty range is reported as `NonTerminating`, not run as the source's endless loop.
- Exceptions, including the `DMLRuntimeException` wrapping in the parallel methods, are modelled as `Result` errors. The wrapper type is not distinguished.
- Executor.ExecuteMatrixParallel: on failure, the partial output and partial non-zero count are not stated.
- Executor.ExecuteMatrix: on a block-size failure, the partially allocated output is not stated.
- Executor.ParallelScalarSum: holds outside Cellwise mode only. In Cellwise mode the parallel method adds the tasks' 1x1 values, while the sequential one keeps the last value written. No relation between the two is stated; `ExecuteScalarParallel` still states its own result exactly.
